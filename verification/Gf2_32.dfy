/** GF2_32 of gf2_32.cpp: the field GF(2)[x] / (x^32 + m) on 32-bit words, with its table-driven product
    and its in-place Euclidean inverse. Words are numbers below 2^32 and every shift says what it drops. */
module BinaryField32 {
  import opened Bits
  import opened BinaryPolynomial

  const TOP := 0x8000_0000
  const WORD := 0x1_0000_0000

  type Word32 = x: nat | x < WORD

  // x << 1 in 32 bits
  function ShiftWord(x: Word32): Word32 {
    if x < TOP then 2 * x else 2 * x - WORD
  }

  lemma WordIs32Bits()
    ensures Pow2(32) == WORD && Pow2(31) == TOP
  {
    assert Pow2(4) == 16 by { assert Pow2(4) == 2 * Pow2(3) == 4 * Pow2(2) == 8 * Pow2(1) == 16 * Pow2(0); }
    assert Pow2(32) == 2 * Pow2(31);
    hide Pow2;
    Pow2Sum(4, 4);
    Pow2Sum(8, 8);
    Pow2Sum(16, 16);
  }

  lemma XorWord(p: Word32, q: Word32)
    ensures Xor(p, q) < WORD
  {
    WordIs32Bits();
    XorBelow(p, q, 32);
  }

  // x * a, reduced
  function XTimes(m: Word32, a: Word32): (r: Word32) {
    XorWord(ShiftWord(a), m);
    if a < TOP then ShiftWord(a) else Xor(ShiftWord(a), m)
  }

  lemma XTimesCongruent(m: Word32, a: Word32)
    ensures Congruent(WORD + m, 2 * a, XTimes(m, a))
  {
    if a < TOP {
      CongruentSelf(WORD + m, 2 * a);
    } else {
      DropTop(m, ShiftWord(a));
    }
  }

  // x^32 + low is low + m.
  lemma DropTop(m: Word32, low: Word32)
    ensures Congruent(WORD + m, WORD + low, Xor(low, m))
  {
    hide Xor, Congruent;
    WordIs32Bits();
    XorTopBit(32, low);
    XorTopBit(32, m);
    XorFour(WORD, low, WORD, m);
    XorSelf(WORD);
    XorZero(Xor(low, m));
    CongruentModulus(WORD + m, WORD + low);
  }

  // ----- The product -----

  // The four table entries: what to add for the next bit of b and the bit falling off the result.
  ghost predicate IsTable(m: Word32, a: Word32, table: seq<Word32>) {
    && |table| == 4
    && table[0] == 0 && table[1] == m
    && table[2] == XTimes(m, a) && table[3] == Xor(XTimes(m, a), m)
  }

  lemma TableStep(m: Word32, a: Word32, table: seq<Word32>, p: nat, result: Word32, bit: nat)
    requires IsTable(m, a, table) && bit <= 1
    requires Congruent(WORD + m, Times(p, XTimes(m, a)), result)
    ensures var next := Xor(ShiftWord(result), table[2 * bit + result / TOP]);
            next < WORD && Congruent(WORD + m, Times(2 * p + bit, XTimes(m, a)), next)
  {
    hide Xor, Congruent, Times;
    var xa, M := XTimes(m, a), WORD + m;
    var step := XTimes(m, result);
    XTimesCongruent(m, result);
    CongruentDouble(M, Times(p, xa), result);
    CongruentTransitive(M, 2 * Times(p, xa), 2 * result, step);
    var add := if bit == 1 then xa else 0;
    CongruentSelf(M, add);
    CongruentXor(M, add, add, 2 * Times(p, xa), step);
    TimesStep(p, bit, xa);
    XorCommutes(add, step);
    XorZero(ShiftWord(result));
    XorZero(step);
    XorAssociates(ShiftWord(result), m, xa);
    XorCommutes(xa, m);
    XorWord(step, add);
  }

  // ----- The product, where rotating a word is fast -----

  // rotlFixed(x, 1)
  function RotateLeft(x: Word32): Word32 {
    ShiftWord(x) + if x >= TOP then 1 else 0
  }

  ghost function Rotated(b: Word32, n: nat): Word32 {
    if n == 0 then b else RotateLeft(Rotated(b, n - 1))
  }

  lemma {:induction false} HighPartBelow(b: Word32, k: nat)
    requires k <= 32
    ensures ShiftRight(b, k) < Pow2(32 - k)
  {
    WordIs32Bits();
    if k > 0 {
      HighPartBelow(b, k - 1);
      assert Pow2(32 - (k - 1)) == 2 * Pow2(32 - k);
    }
  }

  lemma {:induction false} ShiftLeftMonotone(x: nat, y: nat, n: nat)
    requires x <= y
    ensures ShiftLeft(x, n) <= ShiftLeft(y, n)
  {
    if n > 0 { ShiftLeftMonotone(x, y, n - 1); }
  }

  // The bits that have left at the top have come back at the bottom.
  lemma {:induction false} RotatedParts(b: Word32, n: nat)
    requires n <= 32
    ensures Rotated(b, n) == ShiftLeft(b, n) - ShiftRight(b, 32 - n) * (WORD - 1)
  {
    if n == 0 {
      HighPartBelow(b, 32);
    } else {
      RotatedParts(b, n - 1);
      TopOfRotated(b, n - 1);
    }
  }

  lemma ShiftLeftTop(x: int)
    ensures ShiftLeft(x, 31) == x * TOP
  {
    WordIs32Bits();
    ShiftLeftIsProduct(x, 31);
  }

  // Below 2^k, shifted up by n: at least 2^n below 2^(k + n).
  lemma LowPartShifted(low: nat, k: nat, n: nat)
    requires low < Pow2(k)
    ensures ShiftLeft(low, n) + Pow2(n) <= Pow2(k + n)
  {
    hide ShiftLeft;
    ShiftLeftMonotone(low + 1, Pow2(k), n);
    ShiftLeftSum(low, 1, n);
    ShiftLeftIsProduct(1, n);
    ShiftLeftIsProduct(1, k);
    ShiftLeftTwice(1, k, n);
    ShiftLeftIsProduct(1, k + n);
  }

  lemma TopOfRotated(b: Word32, n: nat)
    requires n < 32 && Rotated(b, n) == ShiftLeft(b, n) - ShiftRight(b, 32 - n) * (WORD - 1)
    ensures Rotated(b, n) >= TOP <==> Bit(b, 31 - n) == 1
    ensures ShiftRight(b, 31 - n) == 2 * ShiftRight(b, 32 - n) + Bit(b, 31 - n)
  {
    hide ShiftLeft, Pow2, ShiftRight, LowBits, Rotated;
    var high, low := ShiftRight(b, 31 - n), LowBits(b, 31 - n);
    ShiftStep(b, 31 - n);
    WordIs32Bits();
    HighPartBelow(b, 32 - n);
    SplitBits(b, 31 - n);
    ShiftLeftSum(low, ShiftLeft(high, 31 - n), n);
    ShiftLeftTwice(high, 31 - n, n);
    ShiftLeftTop(high);
    LowPartShifted(low, 31 - n, n);
    var lows := ShiftLeft(low, n);
    assert Rotated(b, n) == lows + high * TOP - ShiftRight(b, 32 - n) * (WORD - 1);
    RotatedSum(lows, high, ShiftRight(b, 32 - n), Bit(b, 31 - n));
  }

  lemma RotatedSum(lows: nat, high: nat, rest: nat, bit: nat)
    requires high == 2 * rest + bit && bit <= 1
    ensures lows + high * TOP - rest * (WORD - 1) == lows + rest + bit * TOP
  {
  }

  // After at least two rotations, the second lowest bit is the one that came round first but one.
  lemma SecondBitOfRotated(b: Word32, n: nat)
    requires 2 <= n <= 32
    ensures Rotated(b, n) / 2 % 2 == Bit(b, 33 - n)
  {
    RotatedParts(b, n);
    var s := ShiftRight(b, 32 - n);
    assert ShiftRight(b, 33 - n) == s / 2;
    assert ShiftLeft(b, n) == 2 * ShiftLeft(b, n - 1) == 4 * ShiftLeft(b, n - 2);
    hide Rotated, ShiftLeft, ShiftRight;
    ModFour(ShiftLeft(b, n - 2), s, Rotated(b, n));
  }

  lemma ModFour(p: nat, s: nat, r: nat)
    requires r == 4 * p - s * (WORD - 1)
    ensures r / 2 % 2 == s / 2 % 2
  {
    var q := p - s * 0x4000_0000;
    assert r == 4 * q + s;
    assert r / 2 == 2 * q + s / 2;
  }

  class GF2_32 {
    const modulus: Word32

    constructor (modulus: Word32)
      ensures this.modulus == modulus
    {
      this.modulus := modulus;
    }

    // The remainder of the product of the two polynomials by x^32 + modulus.
    method Multiply(a: Word32, b: Word32) returns (product: Word32)
      ensures Congruent(WORD + modulus, Times(a, b), product)
    {
      hide Xor, Congruent, Times, XTimes;
      var m := modulus;
      var shifted := ShiftWord(a);
      XorWord(m, shifted);
      var table: seq<Word32>;
      if a >= TOP {
        table := [0, m, Xor(m, shifted), shifted];
      } else {
        table := [0, m, shifted, Xor(m, shifted)];
      }
      TableIsRight(m, a, table);
      HighestBit(b);
      var result: Word32 := table[2 * Bit(b, 31)];
      FirstBit(m, a, table, Bit(b, 31));
      var i := 29;
      while i >= 0
        invariant -1 <= i <= 29
        invariant Congruent(WORD + m, Times(ShiftRight(b, i + 2), XTimes(m, a)), result)
      {
        TableStep(m, a, table, ShiftRight(b, i + 2), result, Bit(b, i + 1));
        ShiftStep(b, i + 1);
        result := Xor(ShiftWord(result), table[2 * Bit(b, i + 1) + result / TOP]);
        i := i - 1;
      }
      LastBit(m, a, b, result);
      product := if b % 2 == 1 then Xor(result, a) else result;
    }

    // The same product where rotating a word is fast: b goes round once, its next bit at the second place.
    method MultiplyRotating(a: Word32, b: Word32) returns (product: Word32)
      ensures Congruent(WORD + modulus, Times(a, b), product)
    {
      hide Xor, Congruent, Times, XTimes, RotateLeft, Rotated, IsTable;
      var m := modulus;
      var shifted := ShiftWord(a);
      XorWord(m, shifted);
      var table: seq<Word32>;
      if a >= TOP {
        table := [0, m, Xor(m, shifted), shifted];
      } else {
        table := [0, m, shifted, Xor(m, shifted)];
      }
      TableIsRight(m, a, table);
      TableLength(m, a, table);
      HighestBit(b);
      var rotating := RotateLeft(RotateLeft(b));
      RotatedTwice(b);
      SecondBitOfRotated(b, 2);
      var result: Word32 := table[2 * (rotating / 2 % 2)];
      FirstBit(m, a, table, Bit(b, 31));
      var i := 29;
      while i >= 0
        invariant -1 <= i <= 29 && rotating == Rotated(b, 31 - i)
        invariant Congruent(WORD + m, Times(ShiftRight(b, i + 2), XTimes(m, a)), result)
      {
        BitIsSmall(b, i + 1);
        TableStep(m, a, table, ShiftRight(b, i + 2), result, Bit(b, i + 1));
        ShiftStep(b, i + 1);
        NextRotated(b, 31 - i);
        rotating := RotateLeft(rotating);
        SecondBitOfRotated(b, 32 - i);
        result := Xor(ShiftWord(result), table[2 * (rotating / 2 % 2) + result / TOP]);
        i := i - 1;
      }
      WholeTurn(b);
      LastBit(m, a, b, result);
      product := if rotating % 2 == 1 then Xor(result, a) else result;
    }

    // The inverse of every element but zero, which is returned unchanged.
    method MultiplicativeInverse(a: Word32) returns (inverse: Word32)
      requires Irreducible(WORD + modulus)
      ensures a != 0 ==> Congruent(WORD + modulus, Times(a, inverse), 1)
      ensures a == 0 ==> inverse == 0
    {
      if a <= 1 {
        TimesOne(1);
        CongruentSelf(WORD + modulus, 1);
        return a;
      }
      var g0: Word32, g1: Word32, v0: Word32, v1: Word32 := StartEuclid(modulus, a);
      hide Euclid;
      while g0 != 1
        invariant Euclid(modulus, a, g0, g1, v0, v1)
        decreases BitCount(g0) + BitCount(g1)
      {
        XorWord(g0, g1);
        if g1 < g0 || (Xor(g0, g1) < g0 && Xor(g0, g1) < g1) {
          NotLonger(g0, g1);
        } else {
          Longer(g0, g1);
          g0, g1 := g1, g0;
          v0, v1 := v1, v0;
        }
        g0, v0 := ReduceOnce(modulus, a, g0, g1, v0, v1);
      }
      TimesCommutes(a, v0);
      inverse := v0;
    }
  }

  lemma TableLength(m: Word32, a: Word32, table: seq<Word32>)
    requires IsTable(m, a, table)
    ensures |table| == 4
  {
  }

  lemma RotatedTwice(b: Word32)
    ensures Rotated(b, 2) == RotateLeft(RotateLeft(b))
  {
    assert Rotated(b, 1) == RotateLeft(b) by { assert Rotated(b, 0) == b; }
  }

  lemma NextRotated(b: Word32, n: nat)
    ensures Rotated(b, n + 1) == RotateLeft(Rotated(b, n))
  {
  }

  lemma BitIsSmall(b: Word32, i: nat)
    ensures Bit(b, i) <= 1
  {
  }

  lemma WholeTurn(b: Word32)
    ensures Rotated(b, 32) == b
  {
    hide Rotated, ShiftLeft, ShiftRight, Pow2;
    RotatedParts(b, 32);
    ShiftByZero(b);
    ShiftLeftIsProduct(b, 32);
    WordIs32Bits();
  }

  /** An element times its inverse is 1, by either form of the product; zero has none and gives zero. */
  method MultiplyByInverse(field: GF2_32, a: Word32) returns (product: Word32, rotating: Word32)
    requires Irreducible(WORD + field.modulus)
    ensures product == rotating == if a == 0 then 0 else 1
  {
    hide Congruent, Times;
    var inverse := field.MultiplicativeInverse(a);
    product := field.Multiply(a, inverse);
    rotating := field.MultiplyRotating(a, inverse);
    if a == 0 {
      TimesZero(0);
      CongruentSelf(WORD + field.modulus, 0);
    }
    ReducedUnique(field.modulus, Times(a, inverse), if a == 0 then 0 else 1, product);
    ReducedUnique(field.modulus, Times(a, inverse), if a == 0 then 0 else 1, rotating);
  }

  // What a polynomial is reduced to is one word.
  lemma ReducedUnique(m: Word32, p: nat, r: Word32, s: Word32)
    requires Congruent(WORD + m, p, r) && Congruent(WORD + m, p, s)
    ensures r == s
  {
    WordIs32Bits();
    CongruentSymmetric(WORD + m, p, r);
    CongruentTransitive(WORD + m, r, p, s);
    CongruentUnique(WORD + m, 32, r, s);
  }

  lemma TableIsRight(m: Word32, a: Word32, table: seq<Word32>)
    requires Xor(m, ShiftWord(a)) < WORD
    requires a >= TOP ==> table == [0, m, Xor(m, ShiftWord(a)), ShiftWord(a)]
    requires a < TOP ==> table == [0, m, ShiftWord(a), Xor(m, ShiftWord(a))]
    ensures IsTable(m, a, table)
  {
    hide Xor;
    XorCommutes(m, ShiftWord(a));
    XorCancel(m, ShiftWord(a));
  }

  lemma HighestBit(b: Word32)
    ensures ShiftRight(b, 31) == Bit(b, 31) <= 1
  {
    WordIs32Bits();
    SplitBits(b, 31);
    ShiftIsDivision(b, 31);
  }

  lemma FirstBit(m: Word32, a: Word32, table: seq<Word32>, bit: nat)
    requires IsTable(m, a, table) && bit <= 1
    ensures Congruent(WORD + m, Times(bit, XTimes(m, a)), table[2 * bit])
  {
    TimesOne(XTimes(m, a));
    CongruentSelf(WORD + m, table[2 * bit]);
  }

  lemma LastBit(m: Word32, a: Word32, b: Word32, result: Word32)
    requires Congruent(WORD + m, Times(ShiftRight(b, 1), XTimes(m, a)), result)
    ensures var product := if b % 2 == 1 then Xor(result, a) else result;
            product < WORD && Congruent(WORD + m, Times(a, b), product)
  {
    hide Xor, Congruent, Times, XTimes;
    var M, h := WORD + m, b / 2;
    assert ShiftRight(b, 1) == h by { assert ShiftRight(b, 0) == b; }
    XTimesCongruent(m, a);
    CongruentTimes(M, h, 2 * a, XTimes(m, a));
    CongruentTransitive(M, Times(h, 2 * a), Times(h, XTimes(m, a)), result);
    TimesDoubleRight(h, a);
    var add := if b % 2 == 1 then a else 0;
    CongruentSelf(M, add);
    CongruentXor(M, add, add, 2 * Times(h, a), result);
    TimesStep(h, b % 2, a);
    TimesCommutes(a, b);
    XorCommutes(add, result);
    XorZero(result);
    XorWord(result, a);
  }

  // ----- The inverse -----

  ghost predicate OnlyOneDividesBoth(p: nat, q: nat) {
    forall d: nat :: Divides(d, p) && Divides(d, q) ==> d == 1
  }

  // g0 and g1 are the multiples v0 and v1 of a; they have no common factor; and the degrees leave room:
  // deg v0 + deg g1 <= 32 and deg v1 + deg g0 <= 32, with deg g1 at least 1.
  ghost predicate Euclid(m: Word32, a: Word32, g0: Word32, g1: Word32, v0: Word32, v1: Word32) {
    && Congruent(WORD + m, Times(v0, a), g0)
    && Congruent(WORD + m, Times(v1, a), g1)
    && OnlyOneDividesBoth(g0, g1)
    && g0 > 0 && g1 > 1
    && BitCount(v0) + BitCount(g1) <= 34
    && BitCount(v1) + BitCount(g0) <= 34
  }

  lemma NotLonger(g0: Word32, g1: Word32)
    requires g0 > 0 && g1 > 0
    requires g1 < g0 || (Xor(g0, g1) < g0 && Xor(g0, g1) < g1)
    ensures BitCount(g1) <= BitCount(g0)
  {
    BitCountBounds(g0);
    BitCountBounds(g1);
    if BitCount(g1) > BitCount(g0) {
      var n := BitCount(g1) - 1;
      Pow2Monotone(BitCount(g0), n);
      XorKeepsTop(g0, g1, n);
    }
  }

  lemma Longer(g0: Word32, g1: Word32)
    requires g0 > 0 && g1 > 0
    requires !(g1 < g0 || (Xor(g0, g1) < g0 && Xor(g0, g1) < g1))
    ensures BitCount(g1) > BitCount(g0)
  {
    BitCountBounds(g0);
    BitCountBounds(g1);
    if BitCount(g1) == BitCount(g0) {
      XorDropsTop(g0, g1, BitCount(g0) - 1);
    } else if BitCount(g1) < BitCount(g0) {
      FewerBitsIsLess(g1, g0);
    }
  }

  // The inner loop's test: g0 has the higher degree exactly when g2 does not exceed the sum.
  lemma ShiftNeeded(g0: Word32, g2: Word32)
    requires g0 > 0 && g2 > 0 && BitCount(g2) <= BitCount(g0)
    ensures Xor(g0, g2) >= g2 <==> BitCount(g2) < BitCount(g0)
  {
    BitCountBounds(g0);
    BitCountBounds(g2);
    if BitCount(g2) < BitCount(g0) {
      var n := BitCount(g0) - 1;
      Pow2Monotone(BitCount(g2), n);
      XorKeepsTop(g2, g0, n);
      XorCommutes(g0, g2);
    } else {
      XorDropsTop(g0, g2, BitCount(g0) - 1);
    }
  }

  lemma BitsOfWord(x: nat)
    ensures x < WORD <==> BitCount(x) <= 32
    ensures x < TOP <==> BitCount(x) <= 31
  {
    WordIs32Bits();
    BitCountBounds(x);
    if BitCount(x) <= 32 { Pow2Monotone(BitCount(x), 32); } else { Pow2Monotone(32, BitCount(x) - 1); }
    if BitCount(x) <= 31 { Pow2Monotone(BitCount(x), 31); } else { Pow2Monotone(31, BitCount(x) - 1); }
  }

  lemma ShiftKeepsMultiple(M: nat, a: nat, v: nat, g: nat)
    requires Congruent(M, Times(v, a), g)
    ensures Congruent(M, Times(2 * v, a), 2 * g)
  {
    TimesDoubleLeft(v, a);
    CongruentDouble(M, Times(v, a), g);
  }

  // g1 is shifted up to g0's degree, and v1 goes along; no bit is lost.
  method AlignDegrees(m: Word32, a: Word32, g0: Word32, g1: Word32, v1: Word32) returns (g2: Word32, v2: Word32)
    requires Congruent(WORD + m, Times(v1, a), g1) && g0 > 0 && g1 > 1
    requires BitCount(v1) + BitCount(g0) <= 34 && BitCount(g1) <= BitCount(g0)
    ensures Congruent(WORD + m, Times(v2, a), g2)
    ensures g2 > 0 && BitCount(g2) == BitCount(g0) && BitCount(v2) <= 34 - BitCount(g1)
    ensures forall d :: Divides(d, g1) ==> Divides(d, g2)
  {
    hide *;
    g2, v2 := g1, v1;
    ghost var shifts := 0;
    XorWord(g0, g2);
    ShiftNeeded(g0, g2);
    ShiftByZero(g1);
    MoreThanOneBit(g1);
    while Xor(g0, g2) >= g2
      invariant 0 < BitCount(g2) <= BitCount(g0) && g2 > 0
      invariant Xor(g0, g2) >= g2 <==> BitCount(g2) < BitCount(g0)
      invariant BitCount(v2) - BitCount(g2) <= 34 - BitCount(g0) - BitCount(g1)
      invariant Congruent(WORD + m, Times(v2, a), g2) && g2 == ShiftLeft(g1, shifts)
      decreases BitCount(g0) - BitCount(g2)
    {
      ShiftKeepsMultiple(WORD + m, a, v2, g2);
      BitsOfWord(g0);
      ShiftWordExact(g2);
      ShiftWordExact(v2);
      NextShift(g1, shifts);
      g2, v2, shifts := ShiftWord(g2), ShiftWord(v2), shifts + 1;
      XorWord(g0, g2);
      ShiftNeeded(g0, g2);
    }
    forall d | Divides(d, g1) ensures Divides(d, g2) { DividesShift(d, g1, shifts); }
  }

  lemma MoreThanOneBit(x: nat)
    ensures x > 1 ==> BitCount(x) >= 2
    ensures x > 0 ==> BitCount(x) >= 1
  {
  }

  lemma NextShift(x: nat, n: nat)
    ensures ShiftLeft(x, n + 1) == 2 * ShiftLeft(x, n)
  {
  }

  // Below 32 bits, a shift in a word loses nothing.
  lemma ShiftWordExact(x: Word32)
    requires BitCount(x) <= 31
    ensures ShiftWord(x) == 2 * x && BitCount(2 * x) <= BitCount(x) + 1
    ensures x > 0 ==> BitCount(2 * x) == BitCount(x) + 1
  {
    BitsOfWord(x);
  }

  method ReduceOnce(m: Word32, a: Word32, g0: Word32, g1: Word32, v0: Word32, v1: Word32)
    returns (g: Word32, v: Word32)
    requires Euclid(m, a, g0, g1, v0, v1) && BitCount(g1) <= BitCount(g0)
    ensures Euclid(m, a, g, g1, v, v1)
    ensures BitCount(g) < BitCount(g0)
  {
    hide Congruent, Times, Divides, OnlyOneDividesBoth, Xor;
    var g2, v2 := AlignDegrees(m, a, g0, g1, v1);
    BitCountBounds(g0);
    BitCountBounds(g2);
    XorDropsTop(g0, g2, BitCount(g0) - 1);
    XorWord(g0, g2);
    XorWord(v0, v2);
    TimesXorLeft(v0, v2, a);
    CongruentXor(WORD + m, Times(v0, a), g0, Times(v2, a), g2);
    g, v := Xor(g0, g2), Xor(v0, v2);
    BitCountUpTo(g, BitCount(g0) - 1);
    SumFits(v0, v2, 34 - BitCount(g1));
    StillCoprime(g0, g1, g2);
  }

  lemma SumFits(p: nat, q: nat, n: nat)
    requires BitCount(p) <= n && BitCount(q) <= n
    ensures BitCount(Xor(p, q)) <= n
  {
    BitCountBounds(p);
    BitCountBounds(q);
    Pow2Monotone(BitCount(p), n);
    Pow2Monotone(BitCount(q), n);
    XorBelow(p, q, n);
    BitCountUpTo(Xor(p, q), n);
  }

  // g2 is a multiple of g1: whatever divides g0 + g2 and g1 divides g0. The sum is not zero, or g1 would divide both.
  lemma StillCoprime(g0: nat, g1: nat, g2: nat)
    requires OnlyOneDividesBoth(g0, g1) && g1 > 1
    requires forall d :: Divides(d, g1) ==> Divides(d, g2)
    ensures OnlyOneDividesBoth(Xor(g0, g2), g1) && Xor(g0, g2) > 0
  {
    XorCancel(g2, g0);
    forall d: nat | Divides(d, Xor(g0, g2)) && Divides(d, g1)
      ensures d == 1
    {
      DividesXor(d, Xor(g0, g2), g2);
    }
    DividesSelfAndZero(g1);
  }

  // x^k * a with its top bit cancelled against the modulus, where k makes a's leading term x^32.
  method StartEuclid(m: Word32, a: Word32) returns (g0: Word32, g1: Word32, v0: Word32, v1: Word32)
    requires a > 1 && Irreducible(WORD + m)
    ensures Euclid(m, a, g0, g1, v0, v1)
  {
    hide Congruent, Times, Divides, OnlyOneDividesBoth, Xor;
    g0, g1 := m, a;
    v0, v1 := 0, 1;
    var g2: Word32, v2: Word32 := a, 1;
    ghost var M := WORD + m;
    TimesOne(a);
    CongruentSelf(M, a);
    BitsOfWord(a);
    while g2 < TOP
      invariant g2 > 0 && v2 > 0 && BitCount(v2) + BitCount(a) == BitCount(g2) + 1
      invariant Congruent(M, Times(v2, a), g2)
      invariant forall d :: Divides(d, a) ==> Divides(d, g2)
      decreases TOP - g2
    {
      BitsOfWord(g2);
      BitsOfWord(v2);
      ShiftKeepsMultiple(M, a, v2, g2);
      forall d | Divides(d, a) ensures Divides(d, 2 * g2) { DividesDouble(d, g2); }
      g2, v2 := ShiftWord(g2), ShiftWord(v2);
    }
    BitsOfWord(g2);
    BitsOfWord(v2);
    ShiftKeepsMultiple(M, a, v2, g2);
    forall d | Divides(d, a) ensures Divides(d, 2 * g2) { DividesDouble(d, g2); }
    g2, v2 := ShiftWord(g2), ShiftWord(v2);
    ghost var full := WORD + g2;
    DropTop(m, g2);
    CongruentTransitive(M, Times(v2, a), full, Xor(g2, m));
    XorCommutes(g2, m);
    XorWord(g0, g2);
    g0 := Xor(g0, g2);
    v0 := v2;
    StartsCoprime(m, a, full, g2);
    BitsOfWord(g0);
  }

  lemma StartsCoprime(m: Word32, a: Word32, full: nat, low: Word32)
    requires a > 1 && Irreducible(WORD + m) && full == WORD + low
    requires forall d :: Divides(d, a) ==> Divides(d, full)
    ensures OnlyOneDividesBoth(Xor(m, low), a) && Xor(m, low) > 0
  {
    var M, g0 := WORD + m, Xor(m, low);
    WordIs32Bits();
    XorTopBit(32, m);
    XorTopBit(32, low);
    XorFour(WORD, m, WORD, low);
    XorSelf(WORD);
    assert Xor(M, full) == g0;
    XorCommutes(M, full);
    XorCancel(full, M);
    forall d: nat | Divides(d, g0) && Divides(d, a)
      ensures d == 1
    {
      DividesXor(d, full, g0);
      assert Xor(full, g0) == M;
      var q: nat :| Times(q, d) == M;
      if q == 1 {
        TimesOne(d);
        var t: nat :| Times(t, M) == a;
        assert Times(0, M) == 0;
        MultipleIsLarge(t, M, 32);
      }
    }
    DividesSelfAndZero(a);
  }
}
