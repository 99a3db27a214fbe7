/** Bits of a non-negative integer, as integer.h's GetBit, BitCount, WordCount and shifts see them. */
module Bits {
  import opened Arithmetic

  // The number of bits in one machine word; config.h makes it 32 or 64. Nothing below depends on which.
  const WORD_BITS := 32

  function Pow2(n: nat): (p: nat)
    ensures p > 0
  {
    if n == 0 then 1 else 2 * Pow2(n - 1)
  }

  // Shifts are defined one bit at a time, so that equations between shifted numbers stay linear.
  function ShiftRight(x: nat, n: nat): nat {
    if n == 0 then x else ShiftRight(x, n - 1) / 2
  }

  function ShiftLeft(x: int, n: nat): (y: int)
    ensures x >= 0 ==> y >= 0
  {
    if n == 0 then x else 2 * ShiftLeft(x, n - 1)
  }

  // The n low bits, x % 2^n.
  function LowBits(x: nat, n: nat): nat {
    if n == 0 then 0 else x % 2 + 2 * LowBits(x / 2, n - 1)
  }

  predicate GetBit(x: nat, i: nat) {
    ShiftRight(x, i) % 2 == 1
  }

  function Bit(x: nat, i: nat): nat {
    ShiftRight(x, i) % 2
  }

  function BitCount(x: nat): nat {
    if x == 0 then 0 else 1 + BitCount(x / 2)
  }

  function WordCount(x: nat): nat {
    (BitCount(x) + WORD_BITS - 1) / WORD_BITS
  }

  lemma {:induction false} Pow2Sum(a: nat, b: nat)
    ensures Pow2(a + b) == Pow2(a) * Pow2(b)
  {
    if a > 0 {
      Pow2Sum(a - 1, b);
      MulAssociates(2, Pow2(a - 1), Pow2(b));
    }
  }

  lemma {:induction false} Pow2Monotone(a: nat, b: nat)
    requires a <= b
    ensures Pow2(a) <= Pow2(b)
  {
    if a < b {
      Pow2Monotone(a, b - 1);
    }
  }

  lemma {:induction false} ShiftIsDivision(x: nat, n: nat)
    ensures ShiftRight(x, n) == x / Pow2(n)
    ensures x == Pow2(n) * ShiftRight(x, n) + x % Pow2(n)
  {
    if n > 0 {
      ShiftIsDivision(x, n - 1);
      DivDiv(x, Pow2(n - 1), 2);
    }
    DivMod(x, Pow2(n));
  }

  lemma {:induction false} ShiftShift(x: nat, a: nat, b: nat)
    ensures ShiftRight(ShiftRight(x, a), b) == ShiftRight(x, a + b)
  {
    if b > 0 { ShiftShift(x, a, b - 1); }
  }

  // Peeling off the lowest bit of a shifted number.
  lemma ShiftStep(x: nat, i: nat)
    ensures ShiftRight(x, i) == 2 * ShiftRight(x, i + 1) + Bit(x, i)
  {
  }

  lemma {:induction false} BitCountBounds(x: nat)
    ensures x < Pow2(BitCount(x))
    ensures x > 0 ==> BitCount(x) > 0 && Pow2(BitCount(x) - 1) <= x
  {
    if x > 0 {
      BitCountBounds(x / 2);
    }
  }

  lemma {:induction false} ShiftToZero(x: nat, n: nat)
    requires x < Pow2(n)
    ensures ShiftRight(x, n) == 0
  {
    ShiftIsDivision(x, n);
    DivUnique(x, Pow2(n), 0, x);
  }

  lemma BitsPastTheEnd(x: nat, n: nat)
    requires BitCount(x) <= n
    ensures ShiftRight(x, n) == 0
  {
    BitCountBounds(x);
    Pow2Monotone(BitCount(x), n);
    ShiftToZero(x, n);
  }

  // The part of a number at and below its top bit is not zero.
  lemma HighPartNonzero(x: nat, i: nat)
    requires i < BitCount(x)
    ensures ShiftRight(x, i) > 0
  {
    BitCountBounds(x);
    Pow2Monotone(i, BitCount(x) - 1);
    ShiftIsDivision(x, i);
    assert x >= Pow2(i);
  }

  lemma FewerBitsIsLess(x: nat, y: nat)
    requires BitCount(x) < BitCount(y)
    ensures x < y
  {
    BitCountBounds(x);
    BitCountBounds(y);
    Pow2Monotone(BitCount(x), BitCount(y) - 1);
  }

  lemma {:induction false} BitCountUpTo(x: nat, n: nat)
    requires x < Pow2(n)
    ensures BitCount(x) <= n
  {
    if x > 0 {
      BitCountUpTo(x / 2, n - 1);
    }
  }

  lemma ShiftByZero(x: nat)
    ensures ShiftRight(x, 0) == x && ShiftLeft(x, 0) == x
  {
  }

  lemma {:induction false} ShiftLeftSum(x: int, y: int, n: nat)
    ensures ShiftLeft(x + y, n) == ShiftLeft(x, n) + ShiftLeft(y, n)
  {
    if n > 0 { ShiftLeftSum(x, y, n - 1); }
  }

  lemma {:induction false} ShiftLeftTwice(x: int, m: nat, n: nat)
    ensures ShiftLeft(ShiftLeft(x, m), n) == ShiftLeft(x, m + n)
  {
    if n > 0 { ShiftLeftTwice(x, m, n - 1); }
  }

  lemma {:induction false} ShiftLeftOfZero(n: nat)
    ensures ShiftLeft(0, n) == 0
  {
    if n > 0 { ShiftLeftOfZero(n - 1); }
  }

  lemma {:induction false} ShiftLeftIsProduct(x: int, n: nat)
    ensures ShiftLeft(x, n) == x * Pow2(n)
  {
    if n > 0 {
      ShiftLeftIsProduct(x, n - 1);
      MulAssociates(2, x, Pow2(n - 1));
      MulAssociates(x, 2, Pow2(n - 1));
    }
  }

  lemma {:induction false} ShiftLeftGrows(x: nat, n: nat)
    ensures ShiftLeft(x, n) >= x
  {
    if n > 0 { ShiftLeftGrows(x, n - 1); }
  }

  // The low bits and the rest make up the number.
  lemma {:induction false} SplitBits(x: nat, w: nat)
    ensures x == ShiftLeft(ShiftRight(x, w), w) + LowBits(x, w)
    ensures 0 <= LowBits(x, w) < Pow2(w)
  {
    if w > 0 {
      SplitBits(x / 2, w - 1);
      ShiftShift(x, 1, w - 1);
      assert ShiftRight(x, 1) == x / 2;
    }
  }

  // Adding one unit above the low bits.
  lemma AddAboveLowBits(x: nat, w: nat)
    ensures ShiftRight(x + Pow2(w), w) == ShiftRight(x, w) + 1
  {
    ShiftIsDivision(x, w);
    ShiftIsDivision(x + Pow2(w), w);
    DivMod(x, Pow2(w));
    MulDistributes(Pow2(w), x / Pow2(w), 1);
    DivUnique(x + Pow2(w), Pow2(w), x / Pow2(w) + 1, x % Pow2(w));
  }
}
