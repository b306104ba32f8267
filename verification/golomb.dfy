/**
 * Golomb-Rice decoding of one value from a bit stream with a cursor, as
 * BIP 158 codes the gaps between the sorted members of a filter: a unary
 * quotient (a run of 1 bits closed by a 0 bit) followed by a `p`-bit
 * remainder read most significant bit first.
 *
 * The stream is a fixed sequence of bits and a cursor that reads move
 * forward; a read past the end fails instead of yielding zeros.
 */
module Golomb {

  import opened Results
  import opened Bitwise

  /** Why a decode failed: the stream ran out, or an empty remainder could not be read as a number. */
  datatype DecodeError = ReadPastEnd | EmptyRemainder

  /** A bit stream: its bits and a read cursor. */
  class BitStream {
    const bits: seq<bool>
    var pos: nat

    ghost predicate Valid()
      reads this
    {
      pos <= |bits|
    }

    constructor (bits: seq<bool>)
      ensures Valid() && this.bits == bits && pos == 0
    {
      this.bits := bits;
      pos := 0;
    }

    /** Reads one bit, or fails without moving when the stream is exhausted. */
    method ReadBit() returns (r: Result<bool, DecodeError>)
      requires Valid()
      modifies this
      ensures Valid()
      ensures old(pos) < |bits| ==> r == Ok(bits[old(pos)]) && pos == old(pos) + 1
      ensures old(pos) == |bits| ==> r == Err(ReadPastEnd) && pos == old(pos)
    {
      if pos == |bits| {
        return Err(ReadPastEnd);
      }
      r := Ok(bits[pos]);
      pos := pos + 1;
    }

    /** Reads the next `n` bits, or fails without moving when fewer than `n` remain. */
    method Read(n: nat) returns (r: Result<seq<bool>, DecodeError>)
      requires Valid()
      modifies this
      ensures Valid()
      ensures old(pos) + n <= |bits| ==> r == Ok(bits[old(pos) .. old(pos) + n]) && pos == old(pos) + n
      ensures old(pos) + n > |bits| ==> r == Err(ReadPastEnd) && pos == old(pos)
    {
      if pos + n > |bits| {
        return Err(ReadPastEnd);
      }
      r := Ok(bits[pos .. pos + n]);
      pos := pos + n;
    }
  }

  /** The number of consecutive 1 bits from `pos` on. */
  function OnesRun(bits: seq<bool>, pos: nat): (q: nat)
    requires pos <= |bits|
    ensures pos + q <= |bits|
    decreases |bits| - pos
  {
    if pos == |bits| || !bits[pos] then 0 else 1 + OnesRun(bits, pos + 1)
  }

  /** The run is all ones and is closed by a 0 bit or by the end of the stream. */
  lemma {:induction false} OnesRunFacts(bits: seq<bool>, pos: nat)
    requires pos <= |bits|
    ensures bits[pos .. pos + OnesRun(bits, pos)] == Ones(OnesRun(bits, pos))
    ensures pos + OnesRun(bits, pos) < |bits| ==> !bits[pos + OnesRun(bits, pos)]
    decreases |bits| - pos
  {
    if pos < |bits| && bits[pos] {
      OnesRunFacts(bits, pos + 1);
      var q := OnesRun(bits, pos);
      assert bits[pos .. pos + q] == [true] + bits[pos + 1 .. pos + q];
    }
  }

  /** The number whose binary digits, most significant first, are `s` (`int(s.bin, 2)`). */
  function BitsValue(s: seq<bool>): nat
  {
    if s == [] then 0 else 2 * BitsValue(s[..|s| - 1]) + (if s[|s| - 1] then 1 else 0)
  }

  /** `k` bits hold a value below 2^k. */
  lemma {:induction false} BitsValueBound(s: seq<bool>)
    ensures BitsValue(s) < Pow2(|s|)
  {
    if s != [] {
      BitsValueBound(s[..|s| - 1]);
    }
  }

  /**
   * Decoding one value at `pos`: the result and where the cursor ends up.
   * The quotient is the run of 1 bits; the 0 bit after it and then `p`
   * remainder bits must be present; a zero-width remainder is refused.
   */
  function RiceDecode(bits: seq<bool>, pos: nat, p: nat): (res: (Result<nat, DecodeError>, nat))
    requires pos <= |bits|
    ensures pos <= res.1 <= |bits|
  {
    var q := OnesRun(bits, pos);
    var z := pos + q;
    if z == |bits| then (Err(ReadPastEnd), z)
    else if z + 1 + p > |bits| then (Err(ReadPastEnd), z + 1)
    else if p == 0 then (Err(EmptyRemainder), z + 1)
    else (Ok(ShiftLeft(q, p) + BitsValue(bits[z + 1 .. z + 1 + p])), z + 1 + p)
  }

  /**
   * The original's decoder: counts 1 bits until a 0 bit, reads `p` bits as
   * the remainder and returns `(q << p) + r`, leaving the cursor after the
   * code word.
   */
  method GolombDecode(stream: BitStream, p: nat) returns (res: Result<nat, DecodeError>)
    requires stream.Valid()
    modifies stream
    ensures stream.Valid()
    ensures (res, stream.pos) == RiceDecode(stream.bits, old(stream.pos), p)
  {
    var q: nat := 0;
    while true
      invariant stream.Valid() && stream.pos == old(stream.pos) + q
      invariant OnesRun(stream.bits, old(stream.pos)) == q + OnesRun(stream.bits, stream.pos)
      decreases |stream.bits| - stream.pos
    {
      ghost var before := stream.pos;
      var b := stream.ReadBit();
      if b.Err? {
        return Err(b.error);
      }
      if !b.value {
        break;
      }
      OnesRunStep(stream.bits, old(stream.pos), before);
      q := q + 1;
    }
    var rb := stream.Read(p);
    if rb.Err? {
      return Err(rb.error);
    }
    if p == 0 {
      return Err(EmptyRemainder);
    }
    var r := BitsValue(rb.value);
    res := Ok(ShiftLeft(q, p) + r);
  }

  /** Past a 1 bit the run from an earlier start continues one further. */
  lemma OnesRunStep(bits: seq<bool>, start: nat, k: nat)
    requires start <= k < |bits| && bits[k]
    requires OnesRun(bits, start) == (k - start) + OnesRun(bits, k)
    ensures OnesRun(bits, start) == (k + 1 - start) + OnesRun(bits, k + 1)
  {
  }

  /** `k` ones. */
  function Ones(k: nat): (s: seq<bool>)
    ensures |s| == k
  {
    if k == 0 then [] else [true] + Ones(k - 1)
  }

  /** The low `k` bits of `v`, most significant first. */
  function BitsOf(v: nat, k: nat): (s: seq<bool>)
    ensures |s| == k
  {
    if k == 0 then [] else BitsOf(v / 2, k - 1) + [v % 2 == 1]
  }

  /** The Rice code of `x`: `x >> p` ones, a zero, and the low `p` bits of `x`. */
  function RiceEncode(x: nat, p: nat): (s: seq<bool>)
    ensures |s| == ShiftRight(x, p) + 1 + p
  {
    Ones(ShiftRight(x, p)) + [false] + BitsOf(x, p)
  }

  /** Reading back `k` written bits gives the low `k` bits of the value. */
  lemma {:induction false} BitsValueOf(v: nat, k: nat)
    ensures BitsValue(BitsOf(v, k)) == LowBits(v, k)
  {
    if k > 0 {
      var s := BitsOf(v, k);
      assert s[..|s| - 1] == BitsOf(v / 2, k - 1);
      BitsValueOf(v / 2, k - 1);
    }
  }

  /** Writing out the value of a bit string in as many bits gives the string back. */
  lemma {:induction false} BitsOfValue(s: seq<bool>)
    ensures BitsOf(BitsValue(s), |s|) == s
  {
    if s != [] {
      var t := s[..|s| - 1];
      var v := BitsValue(s);
      assert v / 2 == BitsValue(t);
      BitsOfValue(t);
      assert s == t + [s[|s| - 1]];
    }
  }

  /** The low `k` bits do not see what was shifted in above them. */
  lemma {:induction false} BitsOfShifted(a: nat, m: nat, k: nat)
    ensures BitsOf(ShiftLeft(a, k) + m, k) == BitsOf(m, k)
  {
    if k > 0 {
      assert (ShiftLeft(a, k) + m) / 2 == ShiftLeft(a, k - 1) + m / 2;
      BitsOfShifted(a, m / 2, k - 1);
    }
  }

  /** A run of `k` ones closed by a 0 bit is a run of length `k`. */
  lemma {:induction false} OnesRunOf(bits: seq<bool>, pos: nat, k: nat)
    requires pos + k < |bits| && !bits[pos + k] && bits[pos .. pos + k] == Ones(k)
    ensures OnesRun(bits, pos) == k
    decreases k
  {
    if k > 0 {
      assert bits[pos] == bits[pos .. pos + k][0];
      assert bits[pos + 1 .. pos + k] == bits[pos .. pos + k][1..];
      OnesRunOf(bits, pos + 1, k - 1);
    }
  }

  /** `code` sits in `bits` starting at `pos`. */
  predicate At(bits: seq<bool>, pos: nat, code: seq<bool>)
  {
    pos + |code| <= |bits| && bits[pos .. pos + |code|] == code
  }

  /** The three parts of a Rice code found in a stream: the ones, the zero, the remainder bits. */
  lemma CodeParts(x: nat, p: nat, bits: seq<bool>, pos: nat)
    requires At(bits, pos, RiceEncode(x, p))
    ensures var z := pos + ShiftRight(x, p);
            && bits[pos .. z] == Ones(ShiftRight(x, p))
            && !bits[z]
            && bits[z + 1 .. z + 1 + p] == BitsOf(x, p)
  {
    var code := RiceEncode(x, p);
    var q := ShiftRight(x, p);
    var z := pos + q;
    assert bits[pos .. z] == code[..q];
    assert bits[z] == code[q];
    assert bits[z + 1 .. z + 1 + p] == code[q + 1 ..];
  }

  /** A run of `q` ones, a 0 bit and `p > 0` further bits decode to `(q << p)` plus those bits' value. */
  lemma RiceDecodeOfParts(bits: seq<bool>, pos: nat, p: nat, q: nat, v: nat)
    requires p > 0 && pos + q + 1 + p <= |bits|
    requires bits[pos .. pos + q] == Ones(q) && !bits[pos + q]
    requires v == ShiftLeft(q, p) + BitsValue(bits[pos + q + 1 .. pos + q + 1 + p])
    ensures RiceDecode(bits, pos, p) == (Ok(v), pos + q + 1 + p)
  {
    OnesRunOf(bits, pos, q);
  }

  /** The parts of the code of `x` put back together give `x`. */
  lemma CodeValue(x: nat, p: nat)
    ensures x == ShiftLeft(ShiftRight(x, p), p) + BitsValue(BitsOf(x, p))
  {
    BitsValueOf(x, p);
    BitsSplit(x, p);
  }

  /**
   * Wherever it sits in a stream, the Rice code of `x` decodes to `x` and
   * leaves the cursor just after the code, for any remainder width `p > 0`.
   */
  lemma RiceRoundTrip(x: nat, p: nat, bits: seq<bool>, pos: nat)
    requires p > 0 && At(bits, pos, RiceEncode(x, p))
    ensures RiceDecode(bits, pos, p) == (Ok(x), pos + |RiceEncode(x, p)|)
  {
    CodeParts(x, p, bits, pos);
    CodeValue(x, p);
    RiceDecodeOfParts(bits, pos, p, ShiftRight(x, p), x);
  }

  /** The Rice code of `x = (q << p) + r`, for `p` bits `s` of value `r`, is `q` ones, a zero and `s`. */
  lemma CodeOfParts(x: nat, q: nat, s: seq<bool>)
    requires x == ShiftLeft(q, |s|) + BitsValue(s)
    ensures RiceEncode(x, |s|) == Ones(q) + [false] + s
  {
    var p, r := |s|, BitsValue(s);
    BitsValueBound(s);
    BitsJoin(q, r, p);
    BitsOfShifted(q, r, p);
    BitsOfValue(s);
  }

  /**
   * Conversely, whatever decodes successfully was a Rice code: the bits read
   * are exactly the code of the value returned.
   */
  lemma RiceDecodeIsCode(bits: seq<bool>, pos: nat, p: nat)
    requires pos <= |bits| && RiceDecode(bits, pos, p).0.Ok?
    ensures bits[pos .. RiceDecode(bits, pos, p).1] == RiceEncode(RiceDecode(bits, pos, p).0.value, p)
  {
    var q := OnesRun(bits, pos);
    var z := pos + q;
    RiceDecodeValue(bits, pos, p);
    var s := bits[z + 1 .. z + 1 + p];
    CodeOfParts(RiceDecode(bits, pos, p).0.value, q, s);
    SliceOfParts(bits, pos, q, p);
  }

  /** A stretch of `q` ones, a 0 bit and `p` more bits, cut into those three parts. */
  lemma SliceOfParts(bits: seq<bool>, pos: nat, q: nat, p: nat)
    requires pos + q + 1 + p <= |bits| && bits[pos .. pos + q] == Ones(q) && !bits[pos + q]
    ensures bits[pos .. pos + q + 1 + p] == Ones(q) + [false] + bits[pos + q + 1 .. pos + q + 1 + p]
  {
    assert bits[pos .. pos + q + 1 + p] == bits[pos .. pos + q] + [bits[pos + q]] + bits[pos + q + 1 .. pos + q + 1 + p];
  }

  /** The success case of `RiceDecode` spelled out: where the code ends and the value it carries. */
  lemma RiceDecodeOk(bits: seq<bool>, pos: nat, p: nat)
    requires pos <= |bits| && RiceDecode(bits, pos, p).0.Ok?
    ensures var z := pos + OnesRun(bits, pos);
            && p > 0 && z + 1 + p <= |bits|
            && RiceDecode(bits, pos, p).0.value == ShiftLeft(OnesRun(bits, pos), p) + BitsValue(bits[z + 1 .. z + 1 + p])
            && RiceDecode(bits, pos, p).1 == z + 1 + p
  {
  }

  /**
   * A successful decode reads `q` ones, a zero and `p` remainder bits, and
   * returns `(q << p) + r` with `r < 2^p`, that is `q * 2^p + r`
   * (`ShiftLeftIsMul`).
   */
  lemma RiceDecodeValue(bits: seq<bool>, pos: nat, p: nat)
    requires pos <= |bits| && RiceDecode(bits, pos, p).0.Ok?
    ensures var q := OnesRun(bits, pos);
            var r := BitsValue(bits[pos + q + 1 .. pos + q + 1 + p]);
            && p > 0 && r < Pow2(p)
            && pos + q < |bits| && bits[pos .. pos + q] == Ones(q) && !bits[pos + q]
            && RiceDecode(bits, pos, p).0.value == ShiftLeft(q, p) + r
            && RiceDecode(bits, pos, p).1 == pos + q + 1 + p
  {
    var q := OnesRun(bits, pos);
    RiceDecodeOk(bits, pos, p);
    OnesRunFacts(bits, pos);
    BitsValueBound(bits[pos + q + 1 .. pos + q + 1 + p]);
  }

  /** Decodes `n` values one after the other from `pos`, as a list of the values. */
  function DecodeAll(bits: seq<bool>, pos: nat, n: nat, p: nat): Result<seq<nat>, DecodeError>
    requires pos <= |bits|
    decreases n
  {
    if n == 0 then Ok([])
    else
      var (r, next) := RiceDecode(bits, pos, p);
      if r.Err? then Err(r.error)
      else
        var rest := DecodeAll(bits, next, n - 1, p);
        if rest.Err? then rest else Ok([r.value] + rest.value)
  }

  /** The Rice codes of `xs`, one after the other. */
  function EncodeAll(xs: seq<nat>, p: nat): seq<bool>
  {
    if xs == [] then [] else RiceEncode(xs[0], p) + EncodeAll(xs[1..], p)
  }

  /** The codes of `xs` in the stream at `pos`: the code of its head, then the codes of its tail. */
  lemma EncodedHead(xs: seq<nat>, p: nat, bits: seq<bool>, pos: nat)
    requires xs != [] && At(bits, pos, EncodeAll(xs, p))
    ensures At(bits, pos, RiceEncode(xs[0], p))
    ensures At(bits, pos + |RiceEncode(xs[0], p)|, EncodeAll(xs[1..], p))
  {
    var head, tail := RiceEncode(xs[0], p), EncodeAll(xs[1..], p);
    var all := bits[pos .. pos + |head| + |tail|];
    assert all == head + tail;
    assert bits[pos .. pos + |head|] == all[..|head|];
    assert bits[pos + |head| .. pos + |head| + |tail|] == all[|head| ..];
  }

  /** Codes of a non-empty list in the stream: the head decodes, and the codes of the tail follow it. */
  lemma EncodedStep(xs: seq<nat>, p: nat, bits: seq<bool>, pos: nat, next: nat)
    requires p > 0 && xs != [] && At(bits, pos, EncodeAll(xs, p))
    requires next == pos + |RiceEncode(xs[0], p)|
    ensures RiceDecode(bits, pos, p) == (Ok(xs[0]), next)
    ensures At(bits, next, EncodeAll(xs[1..], p))
  {
    EncodedHead(xs, p, bits, pos);
    RiceRoundTrip(xs[0], p, bits, pos);
  }

  /** A first value decoded at `pos` heads the list of values decoded from there. */
  lemma DecodeAllStep(bits: seq<bool>, pos: nat, p: nat, xs: seq<nat>, next: nat)
    requires pos <= |bits| && xs != [] && RiceDecode(bits, pos, p) == (Ok(xs[0]), next)
    requires DecodeAll(bits, next, |xs| - 1, p) == Ok(xs[1..])
    ensures DecodeAll(bits, pos, |xs|, p) == Ok(xs)
  {
    assert [xs[0]] + xs[1..] == xs;
  }

  /** Decoding as many values as were encoded gives them back, wherever the codes sit in the stream. */
  lemma {:induction false} DecodeAllEncoded(xs: seq<nat>, p: nat, bits: seq<bool>, pos: nat)
    requires p > 0 && At(bits, pos, EncodeAll(xs, p))
    ensures DecodeAll(bits, pos, |xs|, p) == Ok(xs)
  {
    if xs != [] {
      var next := pos + |RiceEncode(xs[0], p)|;
      EncodedStep(xs, p, bits, pos, next);
      DecodeAllEncoded(xs[1..], p, bits, next);
      DecodeAllStep(bits, pos, p, xs, next);
    }
  }

}
