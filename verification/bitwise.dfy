/**
 * Python's shift and bitwise operators on non-negative integers, defined one
 * bit at a time from the least significant end, and the facts about them
 * that the hash needs.
 *
 *   x >> k               ShiftRight(x, k)
 *   x << k               ShiftLeft(x, k)
 *   x & ((1 << k) - 1)   LowBits(x, k)
 *   x | y                Or(x, y)
 *   x ^ y                Xor(x, y)
 */
module Bitwise {

  const TwoTo64: nat := 0x1_0000_0000_0000_0000

  /** 2 to the power `k`. */
  function Pow2(k: nat): (r: nat)
    ensures r > 0
  {
    if k == 0 then 1 else 2 * Pow2(k - 1)
  }

  /** `x >> k`: drops the low `k` bits. */
  function ShiftRight(x: nat, k: nat): nat
  {
    if k == 0 then x else ShiftRight(x / 2, k - 1)
  }

  /** `x << k`: appends `k` zero bits. */
  function ShiftLeft(x: nat, k: nat): nat
  {
    if k == 0 then x else 2 * ShiftLeft(x, k - 1)
  }

  /** `x & ((1 << k) - 1)`: keeps the low `k` bits. */
  function LowBits(x: nat, k: nat): nat
  {
    if k == 0 then 0 else x % 2 + 2 * LowBits(x / 2, k - 1)
  }

  /** `a | b`. */
  function Or(a: nat, b: nat): nat
    decreases a + b
  {
    if a == 0 then b
    else if b == 0 then a
    else 2 * Or(a / 2, b / 2) + (if a % 2 == 1 || b % 2 == 1 then 1 else 0)
  }

  /** `a ^ b`. */
  function Xor(a: nat, b: nat): nat
    decreases a + b
  {
    if a == 0 && b == 0 then 0
    else 2 * Xor(a / 2, b / 2) + (if a % 2 == b % 2 then 0 else 1)
  }

  lemma {:induction false} Pow2Add(a: nat, b: nat)
    ensures Pow2(a + b) == Pow2(a) * Pow2(b)
  {
    if a > 0 {
      Pow2Add(a - 1, b);
    }
  }

  lemma Pow2Of64()
    ensures Pow2(64) == TwoTo64
  {
    assert Pow2(4) == 0x10;
    Pow2Add(4, 4);
    Pow2Add(8, 8);
    assert Pow2(16) == 0x1_0000;
    Pow2Add(16, 16);
    assert Pow2(32) == 0x1_0000_0000;
    Pow2Add(32, 32);
  }

  /** Shifting left by `k` multiplies by 2^k. */
  lemma {:induction false} ShiftLeftIsMul(x: nat, k: nat)
    ensures ShiftLeft(x, k) == x * Pow2(k)
  {
    if k > 0 {
      ShiftLeftIsMul(x, k - 1);
    }
  }

  /** A value splits into its bits from `k` up, shifted back into place, plus its low `k` bits. */
  lemma {:induction false} BitsSplit(x: nat, k: nat)
    ensures x == ShiftLeft(ShiftRight(x, k), k) + LowBits(x, k)
    ensures LowBits(x, k) < Pow2(k)
  {
    if k > 0 {
      BitsSplit(x / 2, k - 1);
    }
  }

  /** The converse: shifting `a` up by `k` and filling the low bits with `m < 2^k` is undone by `>> k` and `& (2^k - 1)`. */
  lemma {:induction false} BitsJoin(a: nat, m: nat, k: nat)
    requires m < Pow2(k)
    ensures ShiftRight(ShiftLeft(a, k) + m, k) == a
    ensures LowBits(ShiftLeft(a, k) + m, k) == m
  {
    if k > 0 {
      var x := ShiftLeft(a, k) + m;
      assert x / 2 == ShiftLeft(a, k - 1) + m / 2;
      BitsJoin(a, m / 2, k - 1);
    }
  }

  /** Shifting out `k` bits of a value below 2^(m + k) leaves a value below 2^m. */
  lemma {:induction false} ShiftRightBound(x: nat, m: nat, k: nat)
    requires x < Pow2(m + k)
    ensures ShiftRight(x, k) < Pow2(m)
  {
    if k > 0 {
      ShiftRightBound(x / 2, m, k - 1);
    }
  }

  /** A value below `f << k` shifted right by `k` is below `f`. */
  lemma {:induction false} ShiftRightBelow(x: nat, f: nat, k: nat)
    requires x < ShiftLeft(f, k)
    ensures ShiftRight(x, k) < f
  {
    if k > 0 {
      ShiftRightBelow(x / 2, f, k - 1);
    }
  }

  lemma {:induction false} ShiftRightZero(k: nat)
    ensures ShiftRight(0, k) == 0
  {
    if k > 0 {
      ShiftRightZero(k - 1);
    }
  }

  /** A value below 2^m shifted up by `k`, plus low bits below 2^k, stays below 2^(m + k). */
  lemma {:induction false} JoinBound(x: nat, y: nat, m: nat, k: nat)
    requires x < Pow2(m) && y < Pow2(k)
    ensures ShiftLeft(x, k) + y < Pow2(m + k)
  {
    if k > 0 {
      JoinBound(x, y / 2, m, k - 1);
    }
  }

  /** When `x` fits below bit `k`, or-ing it with `y << k` is addition: the bits are disjoint. */
  lemma {:induction false} OrDisjoint(x: nat, y: nat, k: nat)
    requires x < Pow2(k)
    ensures Or(x, ShiftLeft(y, k)) == x + ShiftLeft(y, k)
  {
    if k > 0 && x != 0 && ShiftLeft(y, k) != 0 {
      OrDisjoint(x / 2, y, k - 1);
    }
  }

  /** The lowest bit of `a ^ b` is the xor of the lowest bits, and the rest is the xor of the rest. */
  lemma XorSplit(a: nat, b: nat)
    ensures Xor(a, b) % 2 == (if a % 2 == b % 2 then 0 else 1)
    ensures Xor(a, b) / 2 == Xor(a / 2, b / 2)
  {
    if a != 0 || b != 0 {
      Halves(Xor(a / 2, b / 2), if a % 2 == b % 2 then 0 else 1);
    }
  }

  /** `2x + c` with a bit `c` halves to `x` with remainder `c`. */
  lemma Halves(x: nat, c: nat)
    requires c < 2
    ensures (2 * x + c) % 2 == c && (2 * x + c) / 2 == x
  {
  }

  /** Xor with `b` undoes xor with `b`. */
  lemma {:induction false} XorSelfInverse(a: nat, b: nat)
    ensures Xor(Xor(a, b), b) == a
    decreases a + b
  {
    if a + b > 0 {
      var c := Xor(a, b);
      XorSplit(a, b);
      XorSplit(c, b);
      XorSelfInverse(a / 2, b / 2);
      assert Xor(c, b) / 2 == a / 2;
    }
  }

  /** Xor of two values below 2^k is below 2^k: it never sets a bit neither operand has. */
  lemma {:induction false} XorBound(a: nat, b: nat, k: nat)
    requires a < Pow2(k) && b < Pow2(k)
    ensures Xor(a, b) < Pow2(k)
  {
    if a != 0 || b != 0 {
      XorBound(a / 2, b / 2, k - 1);
    }
  }

  /** Xor of two 64-bit words is a 64-bit word. */
  lemma XorWord(a: nat, b: nat)
    requires a < TwoTo64 && b < TwoTo64
    ensures Xor(a, b) < TwoTo64
  {
    var k := 64;
    Pow2Of64();
    XorBound(a, b, k);
  }

}
