/**
 * The ranged hash of BIP 158 ("Hashing Data Objects"): SipHash-2-4 keyed with
 * the first 16 bytes of the byte-reversed block hash, its 64-bit output
 * scaled into [0, N * M) by a multiplication and a shift right by 64.
 */
module RangedHash {

  import opened Bitwise
  import opened SipHash

  /** The false-positive parameter of the basic filter type. */
  const M: nat := 784931

  /** `s[::-1]`. */
  function Reverse(s: seq<byte>): seq<byte>
  {
    if s == [] then [] else Reverse(s[1..]) + [s[0]]
  }

  lemma {:induction false} ReverseIndex(s: seq<byte>)
    ensures |Reverse(s)| == |s|
    ensures forall i | 0 <= i < |s| :: Reverse(s)[i] == s[|s| - 1 - i]
  {
    if s != [] {
      ReverseIndex(s[1..]);
    }
  }

  /** `s[lo:hi]` for `0 <= lo <= hi`: the bounds are clamped to the length, as Python does. */
  function Slice(s: seq<byte>, lo: nat, hi: nat): seq<byte>
    requires lo <= hi
  {
    if hi <= |s| then s[lo .. hi] else if lo <= |s| then s[lo..] else []
  }

  /** The first key word: bytes 0 to 7 of the reversed block hash, little-endian. */
  function Key0(blockHash: seq<byte>): nat
  {
    LeValue(Slice(Reverse(blockHash), 0, 8))
  }

  /** The second key word: bytes 8 to 15 of the reversed block hash, little-endian. */
  function Key1(blockHash: seq<byte>): nat
  {
    LeValue(Slice(Reverse(blockHash), 8, 16))
  }

  /** The ranged hash of one filter element: `(siphash(k0, k1, script) * (N * M)) >> 64`. */
  function ElementHash(script: seq<byte>, n: nat, blockHash: seq<byte>): nat
  {
    var h := SipHash24(Key0(blockHash), Key1(blockHash), script);
    MulNat(h, n * M);
    ShiftRight(h * (n * M), 64)
  }

  lemma MulNat(a: nat, b: nat)
    ensures a * b >= 0
  {
  }

  /** Byte `start + j` of the reversed hash, or 0 past its end, is what the clamped slice holds at `j`. */
  lemma SliceDigit(blockHash: seq<byte>, start: nat, j: nat)
    requires j < 8
    ensures Digit(LeValue(Slice(Reverse(blockHash), start, start + 8)), j) ==
      if start + j < |blockHash| then blockHash[|blockHash| - 1 - (start + j)] else 0
  {
    var rev := Reverse(blockHash);
    ReverseIndex(blockHash);
    var sl := Slice(rev, start, start + 8);
    LeValueDigits(sl, j);
    if j < |sl| {
      assert sl[j] == rev[start + j];
    }
  }

  /**
   * The key words are the block hash read backwards: byte `j` of k0 is byte
   * `j` of the reversed hash and byte `j` of k1 is byte `8 + j`; a hash
   * shorter than 16 bytes leaves the missing bytes zero.
   */
  lemma KeyBytes(blockHash: seq<byte>, j: nat)
    requires j < 8
    ensures Digit(Key0(blockHash), j) == if j < |blockHash| then blockHash[|blockHash| - 1 - j] else 0
    ensures Digit(Key1(blockHash), j) == if 8 + j < |blockHash| then blockHash[|blockHash| - 9 - j] else 0
  {
    SliceDigit(blockHash, 0, j);
    SliceDigit(blockHash, 8, j);
  }

  /** Both key words fit in 64 bits. */
  lemma KeyWords(blockHash: seq<byte>)
    ensures Key0(blockHash) < TwoTo64 && Key1(blockHash) < TwoTo64
  {
    var rev := Reverse(blockHash);
    WordBound(Slice(rev, 0, 8));
    WordBound(Slice(rev, 8, 16));
  }

  /** `a < b` scaled by a positive factor stays below. */
  lemma MulBelow(a: nat, b: nat, f: nat)
    requires a < b && f > 0
    ensures a * f < b * f
  {
  }

  /** A 64-bit value times `f`, shifted right by 64, is below `f`; for `f = 0` it is 0. */
  lemma ScaledBelow(h: nat, f: nat)
    requires h < TwoTo64
    ensures h * f >= 0
    ensures f == 0 ==> ShiftRight(h * f, 64) == 0
    ensures f > 0 ==> ShiftRight(h * f, 64) < f
  {
    if f == 0 {
      ShiftRightZero(64);
    } else {
      MulBelow(h, TwoTo64, f);
      Pow2Of64();
      ShiftLeftIsMul(f, 64);
      ShiftRightBelow(h * f, f, 64);
    }
  }

  /** The ranged hash lies in [0, N * M), and is 0 when N is 0. */
  lemma ElementHashRange(script: seq<byte>, n: nat, blockHash: seq<byte>)
    ensures n == 0 ==> ElementHash(script, n, blockHash) == 0
    ensures n > 0 ==> ElementHash(script, n, blockHash) < n * M
  {
    var k0, k1 := Key0(blockHash), Key1(blockHash);
    KeyWords(blockHash);
    SipHashBound(k0, k1, script);
    ScaledBelow(SipHash24(k0, k1, script), n * M);
  }

  /** The ranged hash computed as the original does, by running the SipHash loop. */
  method BasicElementHash(script: seq<byte>, n: nat, blockHash: seq<byte>) returns (r: nat)
    ensures r == ElementHash(script, n, blockHash)
  {
    var blockHashBytes := Reverse(blockHash);
    var k0 := LeValue(Slice(blockHashBytes, 0, 8));
    var k1 := LeValue(Slice(blockHashBytes, 8, 16));
    var h := SipHash.SipHash(k0, k1, script);
    MulNat(h, n * M);
    r := ShiftRight(h * (n * M), 64);
  }

}
