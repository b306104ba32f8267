/**
 * SipHash-2-4 as BIP 158 uses it to hash filter elements: a 128-bit key given
 * as two 64-bit integers, a byte message of any length, a 64-bit output.
 *
 * As in the original, the state words are unbounded integers kept below 2^64
 * by masking each addition (`& ((1 << 64) - 1)`, which is `% 2^64` on
 * non-negative integers); rotations, xors and ors work on the integers.
 */
module SipHash {

  import opened Bitwise

  type byte = x: int | 0 <= x < 256

  /** The four words v0, v1, v2, v3 of SipHash state. */
  datatype State = State(v0: nat, v1: nat, v2: nat, v3: nat)

  /** Every word of the state fits in 64 bits. */
  predicate IsWords(v: State)
  {
    v.v0 < TwoTo64 && v.v1 < TwoTo64 && v.v2 < TwoTo64 && v.v3 < TwoTo64
  }

  /**
   * Rotation left by `b` bits, written as the original writes it: the top `b`
   * bits shifted down, or-ed with the low `64 - b` bits shifted up. A shift
   * count above 64 would be negative, which Python refuses.
   */
  function Rotl64(n: nat, b: nat): (r: nat)
    requires b <= 64
    ensures n < TwoTo64 ==> r < TwoTo64
  {
    RotlBound(n, b);
    Or(ShiftRight(n, 64 - b), ShiftLeft(LowBits(n, 64 - b), b))
  }

  lemma RotlBound(n: nat, b: nat)
    requires b <= 64
    ensures n < TwoTo64 ==> Or(ShiftRight(n, 64 - b), ShiftLeft(LowBits(n, 64 - b), b)) < TwoTo64
  {
    if n < TwoTo64 {
      Pow2Of64();
      var hi, lo := ShiftRight(n, 64 - b), LowBits(n, 64 - b);
      ShiftRightBound(n, b, 64 - b);
      BitsSplit(n, 64 - b);
      OrDisjoint(hi, lo, b);
      JoinBound(lo, hi, 64 - b, b);
    }
  }

  /**
   * On a 64-bit word the rotation moves the low `64 - b` bits up by `b` and
   * the top `b` bits down to the bottom, and stays a 64-bit word.
   */
  lemma Rotl64Value(n: nat, b: nat)
    requires n < TwoTo64 && b <= 64
    ensures Rotl64(n, b) == ShiftLeft(LowBits(n, 64 - b), b) + ShiftRight(n, 64 - b)
    ensures Rotl64(n, b) < TwoTo64
  {
    Pow2Of64();
    var hi, lo := ShiftRight(n, 64 - b), LowBits(n, 64 - b);
    ShiftRightBound(n, b, 64 - b);
    BitsSplit(n, 64 - b);
    OrDisjoint(hi, lo, b);
    JoinBound(lo, hi, 64 - b, b);
  }

  /** Rotating a 64-bit word by `b` and then by `64 - b` gives the word back. */
  lemma Rotl64Inverse(n: nat, b: nat)
    requires n < TwoTo64 && b <= 64
    ensures Rotl64(Rotl64(n, b), 64 - b) == n
  {
    var hi, lo := ShiftRight(n, 64 - b), LowBits(n, 64 - b);
    Rotl64Value(n, b);
    Pow2Of64();
    ShiftRightBound(n, b, 64 - b);
    BitsJoin(lo, hi, b);
    BitsSplit(n, 64 - b);
    OrDisjoint(lo, hi, 64 - b);
  }

  /** One SipRound, in the order of the original's fourteen assignments; it keeps every word below 2^64. */
  function SipRound(v: State): (r: State)
    ensures IsWords(v) ==> IsWords(r)
  {
    var v0 := (v.v0 + v.v1) % TwoTo64;
    var v1 := Rotl64(v.v1, 13);
    XorWordIf(v1, v0);
    var v1 := Xor(v1, v0);
    var v0 := Rotl64(v0, 32);
    var v2 := (v.v2 + v.v3) % TwoTo64;
    var v3 := Rotl64(v.v3, 16);
    XorWordIf(v3, v2);
    var v3 := Xor(v3, v2);
    var v0 := (v0 + v3) % TwoTo64;
    var v3 := Rotl64(v3, 21);
    XorWordIf(v3, v0);
    var v3 := Xor(v3, v0);
    var v2 := (v2 + v1) % TwoTo64;
    var v1 := Rotl64(v1, 17);
    XorWordIf(v1, v2);
    var v1 := Xor(v1, v2);
    var v2 := Rotl64(v2, 32);
    State(v0, v1, v2, v3)
  }

  lemma XorWordIf(a: nat, b: nat)
    ensures a < TwoTo64 && b < TwoTo64 ==> Xor(a, b) < TwoTo64
  {
    if a < TwoTo64 && b < TwoTo64 {
      XorWord(a, b);
    }
  }

  /** 256 to the power `k`. */
  function Pow256(k: nat): (r: nat)
    ensures r > 0
  {
    if k == 0 then 1 else 256 * Pow256(k - 1)
  }

  lemma {:induction false} Pow256IsPow2(k: nat)
    ensures Pow256(k) == Pow2(8 * k)
  {
    if k > 0 {
      Pow256IsPow2(k - 1);
      Pow2Add(8, 8 * (k - 1));
      assert Pow2(8) == 256;
    }
  }

  /** The integer whose little-endian bytes are `bytes` (`int.from_bytes(bytes, 'little')`). */
  function LeValue(bytes: seq<byte>): nat
  {
    if bytes == [] then 0 else bytes[0] + 256 * LeValue(bytes[1..])
  }

  /** Byte `j` of `x`, counting from the least significant. */
  function Digit(x: nat, j: nat): byte
  {
    if j == 0 then x % 256 else Digit(x / 256, j - 1)
  }

  /** A value packed from `k` bytes is below 256^k. */
  lemma {:induction false} LeValueBound(bytes: seq<byte>)
    ensures LeValue(bytes) < Pow256(|bytes|)
  {
    if bytes != [] {
      LeValueBound(bytes[1..]);
    }
  }

  /** Appending a byte adds it at the next byte position. */
  lemma {:induction false} LeValueAppend(bytes: seq<byte>, d: byte)
    ensures LeValue(bytes + [d]) == LeValue(bytes) + d * Pow256(|bytes|)
  {
    if bytes != [] {
      assert (bytes + [d])[1..] == bytes[1..] + [d];
      LeValueAppend(bytes[1..], d);
    }
  }

  /** Little-endian packing: byte `j` of the value is byte `j` of the input, and zero past its end. */
  lemma {:induction false} LeValueDigits(bytes: seq<byte>, j: nat)
    ensures Digit(LeValue(bytes), j) == if j < |bytes| then bytes[j] else 0
  {
    if bytes == [] {
      ZeroDigit(j);
    } else if j > 0 {
      LeValueDigits(bytes[1..], j - 1);
    }
  }

  lemma {:induction false} ZeroDigit(j: nat)
    ensures Digit(0, j) == 0
  {
    if j > 0 {
      ZeroDigit(j - 1);
    }
  }

  /** Below byte position `k`, adding a multiple of 256^k leaves the bytes alone; at `k` it shows its factor. */
  lemma {:induction false} DigitsOfSum(x: nat, y: nat, k: nat, j: nat)
    requires x < Pow256(k)
    ensures j < k ==> Digit(x + y * Pow256(k), j) == Digit(x, j)
    ensures j == k ==> Digit(x + y * Pow256(k), j) == y % 256
  {
    var s := x + y * Pow256(k);
    if k == 0 {
      assert x == 0 && s == y;
    } else {
      var z := y * Pow256(k - 1);
      assert y * Pow256(k) == 256 * z;
      DivMod256(x, x / 256, x % 256);
      DivMod256(s, x / 256 + z, x % 256);
      if j > 0 {
        DigitsOfSum(x / 256, y, k - 1, j - 1);
      }
    }
  }

  lemma {:induction false} PowMonotone(i: nat, j: nat)
    requires i <= j
    ensures Pow256(i) <= Pow256(j)
  {
    if i < j {
      PowMonotone(i, j - 1);
    }
  }

  /** Eight bytes span exactly 64 bits. */
  lemma Pow256Of8()
    ensures Pow256(8) == TwoTo64
  {
  }

  /** Up to eight bytes fit in a word. */
  lemma WordBound(bytes: seq<byte>)
    requires |bytes| <= 8
    ensures LeValue(bytes) < TwoTo64
  {
    LeValueBound(bytes);
    PowMonotone(|bytes|, 8);
    Pow256Of8();
  }

  /** The initial state: the constants "somepseu", "dorandom", "lygenera", "tedbytes" xor-ed with the key. */
  function Initial(k0: nat, k1: nat): State
  {
    State(Xor(0x736f6d6570736575, k0), Xor(0x646f72616e646f6d, k1),
          Xor(0x6c7967656e657261, k0), Xor(0x7465646279746573, k1))
  }

  /** Absorbs one message word: xor into v3, two rounds, xor into v0. */
  function AbsorbWord(v: State, m: nat): State
  {
    var w := SipRound(SipRound(v.(v3 := Xor(v.v3, m))));
    w.(v0 := Xor(w.v0, m))
  }

  /** Absorbs the full 8-byte blocks of `blocks`, first to last, each packed little-endian. */
  function Compress(v: State, blocks: seq<byte>): State
    requires |blocks| % 8 == 0
    decreases |blocks|
  {
    if blocks == [] then v
    else
      var n := |blocks| - 8;
      AbsorbWord(Compress(v, blocks[..n]), LeValue(blocks[n..]))
  }

  /** The length of the message rounded down to whole blocks. */
  function BlocksEnd(data: seq<byte>): (e: nat)
    ensures e <= |data| && e % 8 == 0 && |data| - e < 8
  {
    |data| - |data| % 8
  }

  /** The last word: the 0 to 7 leftover bytes little-endian, the length mod 256 in the top byte. */
  function FinalValue(data: seq<byte>): nat
  {
    LeValue(data[BlocksEnd(data)..]) + (|data| % 256) * Pow256(7)
  }

  /** The last word fits in 64 bits. */
  lemma FinalValueBound(data: seq<byte>)
    ensures FinalValue(data) < TwoTo64
  {
    var tail := data[BlocksEnd(data)..];
    LeValueBound(tail);
    PowMonotone(|tail|, 7);
    Pow256Of8();
  }

  /** The layout of the last word, byte by byte: the leftover bytes, zeros, and the length mod 256 on top. */
  lemma FinalValueBytes(data: seq<byte>, j: nat)
    requires j < 8
    ensures Digit(FinalValue(data), j) ==
      if j == 7 then |data| % 256
      else if j < |data| % 8 then data[BlocksEnd(data) + j]
      else 0
  {
    var tail := data[BlocksEnd(data)..];
    LeValueBound(tail);
    PowMonotone(|tail|, 7);
    DigitsOfSum(LeValue(tail), |data| % 256, 7, j);
    LeValueDigits(tail, j);
  }

  /** Finalisation: v2 xor 0xff, four rounds, the xor of the four words. */
  function Finalize(v: State): nat
  {
    var w := SipRound(SipRound(SipRound(SipRound(v.(v2 := Xor(v.v2, 0xff))))));
    Xor(Xor(Xor(w.v0, w.v1), w.v2), w.v3)
  }

  /** SipHash-2-4 of `data` under the key (k0, k1). */
  function SipHash24(k0: nat, k1: nat, data: seq<byte>): nat
  {
    Finalize(AbsorbWord(Compress(Initial(k0, k1), data[..BlocksEnd(data)]), FinalValue(data)))
  }

  /** Absorbing a 64-bit word keeps the state in 64-bit words. */
  lemma AbsorbWordWords(v: State, m: nat)
    requires IsWords(v) && m < TwoTo64
    ensures IsWords(AbsorbWord(v, m))
  {
    XorWord(v.v3, m);
    var u := v.(v3 := Xor(v.v3, m));
    XorWord(SipRound(SipRound(u)).v0, m);
  }

  lemma {:induction false} CompressWords(v: State, blocks: seq<byte>)
    requires IsWords(v) && |blocks| % 8 == 0
    ensures IsWords(Compress(v, blocks))
    decreases |blocks|
  {
    if blocks != [] {
      var n := |blocks| - 8;
      CompressWords(v, blocks[..n]);
      WordBound(blocks[n..]);
      AbsorbWordWords(Compress(v, blocks[..n]), LeValue(blocks[n..]));
    }
  }

  /** With a 128-bit key the hash is a 64-bit value. */
  lemma SipHashBound(k0: nat, k1: nat, data: seq<byte>)
    requires k0 < TwoTo64 && k1 < TwoTo64
    ensures SipHash24(k0, k1, data) < TwoTo64
  {
    var blocks := data[..BlocksEnd(data)];
    InitialWords(k0, k1);
    CompressWords(Initial(k0, k1), blocks);
    FinalValueBound(data);
    AbsorbWordWords(Compress(Initial(k0, k1), blocks), FinalValue(data));
    FinalizeWord(AbsorbWord(Compress(Initial(k0, k1), blocks), FinalValue(data)));
  }

  /** A 128-bit key gives an initial state of 64-bit words. */
  lemma InitialWords(k0: nat, k1: nat)
    requires k0 < TwoTo64 && k1 < TwoTo64
    ensures IsWords(Initial(k0, k1))
  {
    XorWord(0x736f6d6570736575, k0);
    XorWord(0x646f72616e646f6d, k1);
    XorWord(0x6c7967656e657261, k0);
    XorWord(0x7465646279746573, k1);
  }

  /** Finalising a state of 64-bit words gives a 64-bit value. */
  lemma FinalizeWord(v: State)
    requires IsWords(v)
    ensures Finalize(v) < TwoTo64
  {
    XorWord(v.v2, 0xff);
    var w := SipRound(SipRound(SipRound(SipRound(v.(v2 := Xor(v.v2, 0xff))))));
    XorWord(w.v0, w.v1);
    XorWord(Xor(w.v0, w.v1), w.v2);
    XorWord(Xor(Xor(w.v0, w.v1), w.v2), w.v3);
  }

  /**
   * The original's loop over the message: `t` collects the bytes of the
   * current block, `c` counts bytes modulo 256, and every eighth byte the
   * block is absorbed and `t` cleared; then the last word is built from the
   * leftover bytes and the count, absorbed, and the state finalised.
   */
  method SipHash(k0: nat, k1: nat, data: seq<byte>) returns (h: nat)
    ensures h == SipHash24(k0, k1, data)
  {
    var v := State(Xor(0x736f6d6570736575, k0), Xor(0x646f72616e646f6d, k1),
                   Xor(0x6c7967656e657261, k0), Xor(0x7465646279746573, k1));
    var c: nat := 0;
    var t: nat := 0;
    ghost var b: nat := 0;
    for i := 0 to |data|
      invariant Scanned(Initial(k0, k1), data, i, b, c, t, v)
    {
      ScanStep(Initial(k0, k1), data, i, b, c, t, v);
      t := Or(t, ShiftLeft(data[i], 8 * (c % 8)));
      c := (c + 1) % 256;
      if c % 8 == 0 {
        v := v.(v3 := Xor(v.v3, t));
        v := SipRound(v);
        v := SipRound(v);
        v := v.(v0 := Xor(v.v0, t));
        t := 0;
        b := i + 1;
      }
    }
    FinalStep(Initial(k0, k1), data, b, c, t, v);
    t := Or(t, ShiftLeft(c, 56));
    v := v.(v3 := Xor(v.v3, t));
    v := SipRound(v);
    v := SipRound(v);
    v := v.(v0 := Xor(v.v0, t));
    v := v.(v2 := Xor(v.v2, 0xff));
    v := SipRound(v);
    v := SipRound(v);
    v := SipRound(v);
    v := SipRound(v);
    h := Xor(Xor(Xor(v.v0, v.v1), v.v2), v.v3);
  }

  /**
   * The loop's state after the first `i` bytes: `b` bytes (a multiple of 8)
   * have been absorbed from the start state `init` into `v`, `t` holds the
   * bytes from `b` to `i` little-endian, and `c` counts bytes modulo 256.
   */
  ghost predicate Scanned(init: State, data: seq<byte>, i: nat, b: nat, c: nat, t: nat, v: State)
  {
    b <= i <= |data| && b % 8 == 0 && c == i % 256 && i - b == c % 8
    && v == Compress(init, data[..b]) && t == LeValue(data[b .. i])
  }

  /** One iteration of the loop keeps `Scanned`, absorbing the block when the eighth byte arrives. */
  lemma ScanStep(init: State, data: seq<byte>, i: nat, b: nat, c: nat, t: nat, v: State)
    requires Scanned(init, data, i, b, c, t, v) && i < |data|
    ensures var t' := Or(t, ShiftLeft(data[i], 8 * (c % 8)));
            var c' := (c + 1) % 256;
            if c' % 8 == 0 then Scanned(init, data, i + 1, i + 1, c', 0, AbsorbWord(v, t'))
            else Scanned(init, data, i + 1, b, c', t', v)
  {
    CounterNext(i, b, c);
    PackNext(data, b, i);
    if ((c + 1) % 256) % 8 == 0 {
      CompressNext(init, data, b);
      assert data[i + 1 .. i + 1] == [];
    }
  }

  /**
   * One step of the counter: it stays the index modulo 256, and its low three
   * bits reach 0 exactly when the current block of eight bytes is complete.
   */
  lemma CounterNext(i: nat, b: nat, c: nat)
    requires c == i % 256 && b % 8 == 0 && b <= i && i - b == c % 8
    ensures (c + 1) % 256 == (i + 1) % 256
    ensures c % 8 == i - b
    ensures ((c + 1) % 256) % 8 == 0 ==> i + 1 == b + 8 && (i + 1) % 8 == 0
    ensures ((c + 1) % 256) % 8 != 0 ==> ((c + 1) % 256) % 8 == i + 1 - b
  {
    DivMod256(i, i / 256, c);
    if c + 1 < 256 {
      DivMod256(i + 1, i / 256, c + 1);
    } else {
      DivMod256(i + 1, i / 256 + 1, 0);
    }
    ModOf8(i + 1);
    DivMod8(b, b / 8, 0);
    if c % 8 + 1 < 8 {
      DivMod8(i + 1, b / 8, c % 8 + 1);
    } else {
      DivMod8(i + 1, b / 8 + 1, 0);
    }
  }

  /** Quotient and remainder by 256, from a decomposition. */
  lemma DivMod256(x: nat, q: nat, s: nat)
    requires s < 256 && x == 256 * q + s
    ensures x / 256 == q && x % 256 == s
  {
  }

  /** Quotient and remainder by 8, from a decomposition. */
  lemma DivMod8(x: nat, q: nat, s: nat)
    requires s < 8 && x == 8 * q + s
    ensures x / 8 == q && x % 8 == s
  {
  }

  /** 8 divides 256, so the count of bytes mod 256 has the same position within a block as the count. */
  lemma ModOf8(x: nat)
    ensures (x % 256) % 8 == x % 8
  {
    var a, r := x / 256, x % 256;
    DivMod8(r, r / 8, r % 8);
    DivMod8(x, 32 * a + r / 8, r % 8);
  }

  /** Or-ing the next byte in at bit 8(i - b) appends it to the little-endian value of the block so far. */
  lemma PackNext(data: seq<byte>, b: nat, i: nat)
    requires b <= i < |data|
    ensures Or(LeValue(data[b .. i]), ShiftLeft(data[i], 8 * (i - b))) == LeValue(data[b .. i + 1])
  {
    assert data[b .. i + 1] == data[b .. i] + [data[i]];
    LeValueAppend(data[b .. i], data[i]);
    LeValueBound(data[b .. i]);
    Pow256IsPow2(i - b);
    OrDisjoint(LeValue(data[b .. i]), data[i], 8 * (i - b));
    ShiftLeftIsMul(data[i], 8 * (i - b));
  }

  /** Absorbing the block `data[b .. b + 8]` extends the compression of the blocks before it. */
  lemma CompressNext(v: State, data: seq<byte>, b: nat)
    requires b % 8 == 0 && b + 8 <= |data|
    ensures Compress(v, data[..b + 8]) == AbsorbWord(Compress(v, data[..b]), LeValue(data[b .. b + 8]))
  {
    assert data[..b + 8][..b] == data[..b];
    assert data[..b + 8][b..] == data[b .. b + 8];
  }

  /** Or-ing `c` in at byte position `m` above a value of at most `m` bytes is adding `c` times 256^m. */
  lemma OrAbove(t: nat, c: nat, n: nat, m: nat)
    requires n <= m && t < Pow256(n)
    ensures Or(t, ShiftLeft(c, 8 * m)) == t + c * Pow256(m)
  {
    PowMonotone(n, m);
    Pow256IsPow2(m);
    OrDisjoint(t, c, 8 * m);
    ShiftLeftIsMul(c, 8 * m);
  }

  /** A multiple of 8 that is `n mod 256 mod 8` below `n` is `n` rounded down to a multiple of 8. */
  lemma BlockOfCount(n: nat, b: nat)
    requires b <= n && b % 8 == 0 && n - b == (n % 256) % 8
    ensures b == n - n % 8
  {
    ModOf8(n);
    DivMod8(b, b / 8, 0);
    DivMod8(n, b / 8, n - b);
  }

  /** After the loop, `b` is where the whole blocks end and the last word is the leftover bytes with the count on top. */
  lemma FinalStep(init: State, data: seq<byte>, b: nat, c: nat, t: nat, v: State)
    requires Scanned(init, data, |data|, b, c, t, v)
    ensures v == Compress(init, data[..BlocksEnd(data)])
    ensures Or(t, ShiftLeft(c, 56)) == FinalValue(data)
  {
    BlockOfCount(|data|, b);
    assert data[b .. |data|] == data[b..];
    LastWord(data, b, c, t);
  }

  /** Or-ing the count in at the top byte of the packed leftover bytes gives the last word. */
  lemma LastWord(data: seq<byte>, b: nat, c: nat, t: nat)
    requires b == BlocksEnd(data) && c == |data| % 256 && t == LeValue(data[b..])
    ensures Or(t, ShiftLeft(c, 56)) == FinalValue(data)
  {
    LeValueBound(data[b..]);
    OrAbove(t, c, |data| - b, 7);
  }

}
