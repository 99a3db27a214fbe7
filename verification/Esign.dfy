/** The ESIGN trapdoor function of esign.cpp: applying it, and finding a randomized preimage with the factors. */
module Esign {
  import opened Arithmetic
  import opened Bits
  import opened Congruence
  import opened Options
  import QuotientRing

  // ----- Inverses modulo a prime -----

  lemma InverseExists(m: nat, a: nat) returns (v: int)
    requires m > 0 && a < m && Coprime(a, m)
    ensures Cong(v * a, 1, m)
  {
    hide *;
    var g0: nat, g1: nat := m, a;
    var v0, v1 := 0, 1;
    QuotientRing.Start(m, a);
    while g1 % m != 0
      invariant 0 < g0
      invariant QuotientRing.Loop(m, a, g0, g1, v0, v1)
      decreases if g0 < g1 then 1 else 0, g1
    {
      QuotientRing.Step(m, a, g0, g1, v0, v1);
      v0, v1 := v1, v0 - v1 * (g0 / g1);
      g0, g1 := g1, g0 % g1;
    }
    QuotientRing.End(m, a, g0, g1, v0, v1);
    v := v0;
  }

  // An inverse of a's remainder is one of a.
  lemma InverseOfRemainder(v: int, a: int, m: nat)
    requires m > 0 && Cong(v * (a % m), 1, m)
    ensures Cong(v * a, 1, m)
  {
    hide Cong;
    CongRemainder(a, m);
    CongTimes(v, a, a % m, m);
    CongTransitive(v * a, v * (a % m), 1, m);
  }

  lemma InverseModPrime(a: int, p: nat) returns (v: int)
    requires Prime(p) && a % p != 0
    ensures Cong(v * a, 1, p)
  {
    CongRemainder(a, p);
    RemainderNotZero(a, p);
    CoprimeToPrime(a % p, p);
    v := InverseExists(p, a % p);
    InverseOfRemainder(v, a, p);
  }

  lemma RemainderNotZero(a: int, p: nat)
    requires p > 0
    ensures (a % p) % p == a % p
  {
    DivMod(a, p);
    DivUnique(a % p, p, 0, a % p);
  }

  lemma CancelFactor(r: int, x: int, y: int, p: nat)
    requires Prime(p) && r % p != 0 && Cong(r * x, r * y, p)
    ensures Cong(x, y, p)
  {
    hide Cong;
    var v := InverseModPrime(r, p);
    TimesInverse(v, r, x, p);
    TimesInverse(v, r, y, p);
    CongTimes(v, r * x, r * y, p);
    CongSymmetric(v * (r * x), x, p);
    CongTransitive(x, v * (r * x), v * (r * y), p);
    CongTransitive(x, v * (r * y), y, p);
  }

  lemma TimesInverse(v: int, r: int, x: int, p: nat)
    requires p > 0 && Cong(v * r, 1, p)
    ensures Cong(v * (r * x), x, p)
  {
    hide Cong;
    MulAssociates(v, r, x);
    CongTimes(x, v * r, 1, p);
  }

  // A prime that divides a product divides a factor.
  lemma PrimeDividesFactor(a: int, b: int, p: nat)
    requires Prime(p) && a % p != 0 && b % p != 0
    ensures (a * b) % p != 0
  {
    if (a * b) % p == 0 {
      assert Cong(a * b, a * 0, p);
      CancelFactor(a, b, 0, p);
    }
  }

  lemma {:induction false} PrimeDividesPower(a: int, e: nat, p: nat)
    requires Prime(p) && a % p != 0
    ensures Pow(a, e) % p != 0
  {
    if e == 0 {
      DivUnique(1, p, 0, 1);
    } else {
      PrimeDividesPower(a, e - 1, p);
      PrimeDividesFactor(a, Pow(a, e - 1), p);
    }
  }

  // ----- The expansion of (r + u)^e to first order -----

  lemma TaylorStep(r: int, u: int, d: int, k: int, e: int)
    ensures (r + u) * (r * d + e * d * u + (u * u) * k)
         == r * (r * d) + (e + 1) * (r * d) * u + (u * u) * (e * d + (r + u) * k)
  {
  }

  lemma {:induction false} Taylor(r: int, u: int, e: nat) returns (k: int)
    requires e > 0
    ensures Pow(r + u, e) == Pow(r, e) + e * Pow(r, e - 1) * u + (u * u) * k
  {
    if e == 1 {
      assert Pow(r + u, 1) == (r + u) * Pow(r + u, 0) && Pow(r, 1) == r * Pow(r, 0);
      k := 0;
    } else {
      var k' := Taylor(r, u, e - 1);
      var d := Pow(r, e - 2);
      TaylorStep(r, u, d, k', e - 1);
      k := (e - 1) * d + (r + u) * k';
    }
  }

  // ----- The keys and the trapdoor function -----

  // m_n, m_e and the factors m_p, m_q.
  datatype Key = Key(n: nat, e: nat, p: nat, q: nat)

  ghost predicate ValidKey(key: Key) {
    && Prime(key.p) && key.q > 0 && key.e > 0
    && key.n == (key.p * key.p) * key.q
    && BitCount(key.n) >= 3
  }

  // GetK()
  function K(n: nat): nat
    requires BitCount(n) >= 3
  {
    BitCount(n) / 3 - 1
  }

  function MaxImage(n: nat): nat
    requires BitCount(n) >= 3
  {
    Pow2(K(n)) - 1
  }

  function ApplyFunction(n: nat, e: nat, x: nat): nat
    requires BitCount(n) >= 3
  {
    var y := ShiftRight(PowMod(x, e, n), 2 * K(n) + 2);
    if y < MaxImage(n) then y else MaxImage(n)
  }

  // a_exp_b_mod_c
  function PowMod(b: int, e: nat, m: nat): (r: nat)
    requires m > 0
    ensures r < m
  {
    DivMod(Pow(b, e), m);
    Pow(b, e) % m
  }

  // With 3k + 3 to 3k + 5 bits in the modulus, the image is what the power has above its 2k + 2 low bits, but at most
  // the largest number of k bits.
  lemma ApplyIsTopBits(n: nat, e: nat, x: nat, k: nat)
    requires 3 * k + 3 <= BitCount(n) <= 3 * k + 5
    ensures var y, v := ApplyFunction(n, e, x), Pow(x, e) % n;
            && y < Pow2(k) && y * Pow2(2 * k + 2) <= v
            && (y + 1 < Pow2(k) ==> v < (y + 1) * Pow2(2 * k + 2))
  {
    assert n > 0;
    hide Pow2, Pow, BitCount, ShiftRight;
    assert K(n) == k;
    DivMod(Pow(x, e), n);
    var v, m := Pow(x, e) % n, Pow2(2 * k + 2);
    ShiftIsDivision(v, 2 * k + 2);
    var q := ShiftRight(v, 2 * k + 2);
    DivMod(v, m);
    MulDistributes(m, q, 1);
    MulMonotone(if q < MaxImage(n) then q else MaxImage(n), q, m);
  }

  // How far a is below the next multiple of m.
  function Gap(a: nat, m: nat): nat
    requires m > 0
  {
    (0 - a) % m
  }

  // The image x, scaled up, less the e-th power of the draw.
  function Shortfall(key: Key, x: nat, r: nat): (a: nat)
    requires key.n > 0 && BitCount(key.n) >= 3
  {
    DivMod(ShiftLeft(x, 2 * K(key.n) + 2) - PowMod(r, key.e, key.n), key.n);
    (ShiftLeft(x, 2 * K(key.n) + 2) - PowMod(r, key.e, key.n)) % key.n
  }

  // The draws that the loop lets through.
  ghost predicate Accepted(key: Key, x: nat, r: nat)
    requires ValidKey(key)
  {
    PositiveModulus(key);
    Gap(Shortfall(key, x, r), key.p * key.q) < Pow2(2 * K(key.n) + 1)
  }

  lemma PositiveModulus(key: Key)
    requires ValidKey(key)
    ensures key.p * key.q > 0 && key.n > 0
    ensures key.n == key.p * (key.p * key.q)
  {
    MulAtLeast(key.p, key.q);
    MulAssociates(key.p, key.p, key.q);
    MulAtLeast(key.p * key.q, key.p);
  }

  // ----- What reaches the image -----

  // x << (2K+2), with anything below half a unit added, is below n and shifts back to x.
  lemma ShiftsBack(n: nat, x: nat, w: nat)
    requires BitCount(n) >= 3 && x <= MaxImage(n) && w < Pow2(2 * K(n) + 2)
    ensures ShiftLeft(x, 2 * K(n) + 2) + w < n
    ensures ShiftRight(ShiftLeft(x, 2 * K(n) + 2) + w, 2 * K(n) + 2) == x
  {
    hide BitCount, ShiftRight, ShiftLeft, Pow2, K;
    ModulusSize(n);
    Scaled(x, w, K(n), 2 * K(n) + 2);
    assert K(n) + (2 * K(n) + 2) == 3 * K(n) + 2;
  }

  lemma ModulusSize(n: nat)
    requires BitCount(n) >= 3
    ensures Pow2(3 * K(n) + 2) <= n
  {
    assert n > 0 by { assert BitCount(0) == 0; }
    var bits := BitCount(n);
    assert K(n) == bits / 3 - 1;
    hide Pow2, BitCount, K;
    BitCountBounds(n);
    Thirds(bits);
    Pow2Monotone(3 * K(n) + 2, bits - 1);
  }

  lemma Thirds(bits: nat)
    requires bits >= 3
    ensures 3 * (bits / 3 - 1) + 2 <= bits - 1
  {
  }

  lemma Scaled(x: nat, w: nat, k: nat, m: nat)
    requires x + 1 <= Pow2(k) && w < Pow2(m)
    ensures ShiftLeft(x, m) + w < Pow2(k + m)
    ensures ShiftRight(ShiftLeft(x, m) + w, m) == x
  {
    hide Pow2, ShiftRight, ShiftLeft;
    ShiftLeftIsProduct(x, m);
    Pow2Sum(k, m);
    ScaledFits(x, Pow2(k), w, Pow2(m));
    ShiftIsDivision(ShiftLeft(x, m) + w, m);
    DivUnique(ShiftLeft(x, m) + w, Pow2(m), x, w);
  }

  lemma ScaledFits(x: nat, p: nat, w: nat, unit: nat)
    requires x + 1 <= p && w < unit
    ensures x * unit + w < p * unit
  {
    MulMonotone(x + 1, p, unit);
    MulDistributes(unit, x, 1);
  }

  // A number whose e-th power is congruent to such a sum is a preimage of x.
  lemma Preimage(n: nat, e: nat, x: nat, w: nat, s: nat)
    requires BitCount(n) >= 3 && n > 0 && x <= MaxImage(n) && w < Pow2(2 * K(n) + 2)
    requires Cong(Pow(s, e), ShiftLeft(x, 2 * K(n) + 2) + w, n)
    ensures ApplyFunction(n, e, s) == x
  {
    hide Cong, ShiftRight, ShiftLeft, Pow, Pow2, BitCount, K;
    var y := ShiftLeft(x, 2 * K(n) + 2) + w;
    ShiftsBack(n, x, w);
    SameRemainder(Pow(s, e), y, n);
    DivUnique(y, n, 0, y);
  }

  // ----- The correction t -----

  // With e r^e t congruent to w0 r modulo p, the first-order coefficient is congruent to w0.
  lemma Coefficient(p: nat, r: nat, e: nat, t: nat, w0: nat)
    requires Prime(p) && e > 0 && r % p != 0
    requires Cong((e * Pow(r, e)) * t, w0 * r, p)
    ensures Cong((e * Pow(r, e - 1)) * t, w0, p)
  {
    hide Cong, Prime;
    MoveOut(e, r, Pow(r, e - 1), t);
    CancelFactor(r, (e * Pow(r, e - 1)) * t, w0, p);
  }

  // Then the first-order term makes up w0 m modulo m p, and the rest vanishes.
  lemma Correction(p: nat, q: nat, m: nat, r: nat, e: nat, t: nat, w0: nat)
    requires p > 0 && q > 0 && e > 0 && m == p * q && m > 0
    requires Cong((e * Pow(r, e - 1)) * t, w0, p)
    ensures p * m > 0
    ensures Cong(Pow(r + t * m, e), Pow(r, e) + w0 * m, p * m)
  {
    hide Cong, Pow;
    var c, f := (e * Pow(r, e - 1)) * t, Pow(r, e);
    CongScale(c, w0, p, m);
    var k := Taylor(r, t * m, e);
    var rest := ((t * m) * (t * m)) * k;
    SquareVanishes(p, q, m, t, k);
    MulAssociates(e * Pow(r, e - 1), t, m);
    CongSelf(f, p * m);
    CongAdd(f, f, c * m, w0 * m, p * m);
    CongAdd(f + c * m, f + w0 * m, rest, 0, p * m);
  }

  lemma MoveOut(e: int, r: int, d: int, t: int)
    ensures (e * (r * d)) * t == r * ((e * d) * t)
  {
    MulAssociates(e, r, d);
    MulAssociates(r, e, d);
    MulAssociates(r, e * d, t);
  }

  // The square of t p q is a multiple of p p q.
  lemma SquareVanishes(p: nat, q: nat, m: nat, t: nat, k: int)
    requires m == p * q && p * m > 0
    ensures Cong(((t * m) * (t * m)) * k, 0, p * m)
  {
    RegroupSquare(m, p, q, t, k);
    FromQuotient(((t * m) * (t * m)) * k, 0, p * m, q * (t * t) * k);
  }

  lemma RegroupSquare(m: int, p: int, q: int, t: int, k: int)
    requires m == p * q
    ensures ((t * m) * (t * m)) * k == (p * m) * (q * (t * t) * k)
  {
    calc {
      ((t * m) * (t * m)) * k;
      { MiddleSwap(t, m, t, m); }
      ((t * t) * (m * m)) * k;
      { MulAssociates(m, p, q); assert m * p == p * m; }
      ((t * t) * ((p * m) * q)) * k;
      { MulAssociates(t * t, p * m, q); }
      (((t * t) * (p * m)) * q) * k;
      { MulAssociates((t * t) * (p * m), q, k); }
      ((t * t) * (p * m)) * (q * k);
      { MulAssociates(p * m, t * t, q * k); }
      (p * m) * ((t * t) * (q * k));
      { MulAssociates(t * t, q, k); }
      (p * m) * (q * (t * t) * k);
    }
  }

  // ----- Finding a preimage -----

  // ModularArithmetic::Divide, with a zero result where there is no inverse.
  method DivideMod(a: nat, b: nat, p: nat) returns (t: nat)
    requires a < p && b < p
    ensures t < p
    ensures Coprime(b, p) ==> Cong(b * t, a, p)
    ensures !Coprime(b, p) ==> t == 0
  {
    hide *;
    var v := QuotientRing.MultiplicativeInverse(p, b);
    CongRemainder(v, p);
    CongRemainder(a * (v % p), p);
    t := (a * (v % p)) % p;
    if Coprime(b, p) {
      QuotientOfInverse(a, b, v, p);
    } else {
      assert v == 0;
      ZeroQuotient(a, v, p);
    }
  }

  lemma ZeroQuotient(a: nat, v: int, p: nat)
    requires p > 0 && v == 0
    ensures (a * (v % p)) % p == 0
  {
    DivUnique(0, p, 0, 0);
  }

  lemma QuotientOfInverse(a: nat, b: nat, v: int, p: nat)
    requires p > 0 && Cong(v * b, 1, p)
    ensures Cong(b * ((a * (v % p)) % p), a, p)
  {
    hide Cong;
    var i := v % p;
    CongRemainder(v, p);
    CongTimes(b, i, v, p);
    CongTransitive(b * i, b * v, 1, p);
    CongTimes(a, b * i, 1, p);
    assert a * (b * i) == b * (a * i) by { MulAssociates(a, b, i); MulAssociates(b, a, i); }
    CongRemainder(a * i, p);
    CongTimes(b, (a * i) % p, a * i, p);
    CongTransitive(b * ((a * i) % p), b * (a * i), a, p);
  }

  // One turn of the loop for the draw r: the quotient w0, rounded up, and what the rounding added.
  method RoundUp(a: nat, pq: nat) returns (w0: nat, w1: nat)
    requires pq > 0
    ensures a + w1 == w0 * pq
    ensures w1 == Gap(a, pq)
  {
    DivMod(a, pq);
    w1, w0 := a % pq, a / pq;
    if w1 != 0 {
      w0 := w0 + 1;
      w1 := pq - w1;
      MulDistributes(pq, w0 - 1, 1);
    }
    DivUnique(0 - a, pq, 0 - w0, w1);
  }

  // What the loop keeps of the draw it accepted: z + w1 is congruent to r^e + w0 p q modulo n.
  lemma Balanced(key: Key, x: nat, r: nat, w0: nat, w1: nat)
    requires BitCount(key.n) >= 3 && key.n > 0
    requires Shortfall(key, x, r) + w1 == w0 * (key.p * key.q)
    ensures Cong(Pow(r, key.e) + w0 * (key.p * key.q), ShiftLeft(x, 2 * K(key.n) + 2) + w1, key.n)
  {
    hide ShiftLeft, Cong, Pow, K, BitCount;
    BalancedTerms(ShiftLeft(x, 2 * K(key.n) + 2), Pow(r, key.e), Shortfall(key, x, r), w1, w0 * (key.p * key.q), key.n);
  }

  lemma BalancedTerms(z: int, f: int, a: int, w1: int, c: int, n: nat)
    requires n > 0 && a == (z - f % n) % n && a + w1 == c
    ensures Cong(f + c, z + w1, n)
  {
    hide Cong;
    CongRemainder(f, n);
    CongRemainder(z - f % n, n);
    CongAdd(f, f % n, a, z - f % n, n);
    CongSelf(w1, n);
    CongAdd(f + a, z, w1, w1, n);
  }

  // The divisor e re is invertible modulo p, and dividing by it solves the equation of Coefficient.
  lemma Solvable(key: Key, r: nat)
    requires ValidKey(key) && key.n > 0 && r % key.p != 0 && key.e % key.p != 0
    ensures Coprime(key.e * PowMod(r, key.e, key.n) % key.p, key.p)
    ensures Cong(key.e * Pow(r, key.e), key.e * PowMod(r, key.e, key.n) % key.p, key.p)
  {
    hide Pow, Cong, Prime, Coprime, BitCount;
    var p, e, re, b := key.p, key.e, PowMod(r, key.e, key.n), key.e * PowMod(r, key.e, key.n) % key.p;
    PositiveModulus(key);
    CongRemainder(Pow(r, e), key.n);
    CongFactor(Pow(r, e), re, p, p * key.q);
    CongTimes(e, Pow(r, e), re, p);
    CongRemainder(e * re, p);
    CongTransitive(e * Pow(r, e), e * re, b, p);
    PrimeDividesPower(r, e, p);
    PrimeDividesFactor(e, Pow(r, e), p);
    SameRemainder(e * Pow(r, e), b, p);
    CoprimeToPrime(b, p);
  }

  lemma QuotientSolves(c: int, b: int, t: int, a: int, x: int, p: nat)
    requires p > 0 && Cong(c, b, p) && Cong(b * t, a, p) && a == x % p
    ensures Cong(c * t, x, p)
  {
    hide Cong;
    CongTimes(t, c, b, p);
    CongTransitive(c * t, b * t, a, p);
    CongRemainder(x, p);
    CongTransitive(c * t, a, x, p);
  }

  lemma BelowModulus(p: nat, m: nat, r: nat, t: nat)
    requires t < p && r < m
    ensures r + t * m < p * m
  {
    MulMonotone(t + 1, p, m);
    MulDistributes(m, t, 1);
  }

  // The steps after the loop give a preimage of x, whatever draw was accepted.
  lemma InverseIsRight(key: Key, x: nat, r: nat, w0: nat, w1: nat, t: nat)
    requires ValidKey(key) && key.n > 0 && x <= MaxImage(key.n)
    requires r <= key.p * key.q && r % key.p != 0 && key.e % key.p != 0
    requires Shortfall(key, x, r) + w1 == w0 * (key.p * key.q) && w1 < Pow2(2 * K(key.n) + 2)
    requires t < key.p
    requires Cong((key.e * PowMod(r, key.e, key.n) % key.p) * t, w0 * r % key.p, key.p)
    ensures r + t * (key.p * key.q) < key.n
    ensures ApplyFunction(key.n, key.e, r + t * (key.p * key.q)) == x
  {
    hide Cong, Prime, Pow, Shortfall, ApplyFunction, BitCount, Pow2, K, MaxImage;
    var p, q, e, n, m := key.p, key.q, key.e, key.n, key.p * key.q;
    PositiveModulus(key);
    Solvable(key, r);
    QuotientSolves(e * Pow(r, e), e * PowMod(r, e, n) % p, t, w0 * r % p, w0 * r, p);
    Coefficient(p, r, e, t, w0);
    Correction(p, q, m, r, e, t, w0);
    Balanced(key, x, r, w0, w1);
    CongTransitive(Pow(r + t * m, e), Pow(r, e) + w0 * m, ShiftLeft(x, 2 * K(n) + 2) + w1, n);
    Preimage(n, e, x, w1, r + t * m);
    if r == m { MultipleIsZero(p, q); }
    BelowModulus(p, m, r, t);
  }

  lemma AcceptanceTest(key: Key, x: nat, r: nat, w1: nat)
    requires ValidKey(key) && key.n > 0 && key.p * key.q > 0
    requires w1 == Gap(Shortfall(key, x, r), key.p * key.q)
    ensures ShiftRight(w1, 2 * K(key.n) + 1) == 0 <==> Accepted(key, x, r)
    ensures Accepted(key, x, r) ==> w1 < Pow2(2 * K(key.n) + 2)
  {
    hide Gap, Shortfall, K;
    var j := 2 * K(key.n) + 1;
    ShiftIsDivision(w1, j);
    if w1 < Pow2(j) {
      ShiftToZero(w1, j);
    } else {
      DivMod(w1, Pow2(j));
    }
  }

  // Where p divides r or e there is nothing to divide by.
  lemma NoDivisor(key: Key, r: nat)
    requires ValidKey(key) && key.n > 0 && (r % key.p == 0 || key.e % key.p == 0)
    ensures !Coprime(key.e * PowMod(r, key.e, key.n) % key.p, key.p)
  {
    hide Cong, BitCount;
    var p, e, re := key.p, key.e, PowMod(r, key.e, key.n);
    PositiveModulus(key);
    CongRemainder(Pow(r, e), key.n);
    CongFactor(re, Pow(r, e), p, p * key.q);
    CongMultiple(e, r, re, Pow(r, e - 1), p);
    assert Divides(p, 0) && Divides(p, p) by { DivUnique(0, p, 0, 0); DivUnique(p, p, 1, 0); }
  }

  lemma CongMultiple(e: int, r: int, re: int, d: int, p: nat)
    requires p > 0 && Cong(re, r * d, p) && (e % p == 0 || r % p == 0)
    ensures e * re % p == 0
  {
    if e % p == 0 {
      assert Cong(e, 0, p);
      CongTimes(re, e, 0, p);
    } else {
      assert Cong(r, 0, p);
      CongTimes(d, r, 0, p);
      CongTransitive(re, r * d, 0, p);
      CongTimes(e, re, 0, p);
    }
  }

  // p divides neither the draw nor the exponent.
  ghost predicate Regular(key: Key, r: nat)
    requires key.p > 0
  {
    r % key.p != 0 && key.e % key.p != 0
  }

  // The statements after the loop.
  method Correct(key: Key, x: nat, r: nat, re: nat, w0: nat, ghost w1: nat) returns (s: nat)
    requires ValidKey(key) && key.n > 0 && x <= MaxImage(key.n) && r <= key.p * key.q
    requires re == PowMod(r, key.e, key.n)
    requires Shortfall(key, x, r) + w1 == w0 * (key.p * key.q) && w1 < Pow2(2 * K(key.n) + 2)
    ensures Regular(key, r) ==> s < key.n && ApplyFunction(key.n, key.e, s) == x
    ensures !Regular(key, r) ==> s == r
  {
    hide Cong, Coprime, Prime, Pow, Shortfall, ApplyFunction, PowMod, BitCount, Pow2, K, MaxImage;
    DivMod(w0 * r, key.p);
    DivMod(key.e * re, key.p);
    var t := DivideMod(w0 * r % key.p, key.e * re % key.p, key.p);
    s := r + t * (key.p * key.q);
    if Regular(key, r) {
      Solvable(key, r);
      InverseIsRight(key, x, r, w0, w1, t);
    } else {
      NoDivisor(key, r);
    }
  }

  // The body of the loop, and what follows when it is the last turn.
  method TryDraw(key: Key, x: nat, r: nat) returns (s: Option<nat>)
    requires ValidKey(key) && key.n > 0 && key.p * key.q > 0 && x <= MaxImage(key.n) && r <= key.p * key.q
    ensures s.Some? <==> Accepted(key, x, r)
    ensures s.Some? && Regular(key, r) ==> s.value < key.n && ApplyFunction(key.n, key.e, s.value) == x
    ensures s.Some? && !Regular(key, r) ==> s.value == r
  {
    hide Accepted, Regular, Cong, Coprime, Prime, Pow, ApplyFunction, Pow2, BitCount, K, MaxImage, Gap;
    var z := ShiftLeft(x, 2 * K(key.n) + 2);
    var re := PowMod(r, key.e, key.n);
    DivMod(z - re, key.n);
    var a := (z - re) % key.n;
    var w0, w1 := RoundUp(a, key.p * key.q);
    AcceptanceTest(key, x, r, w1);
    if ShiftRight(w1, 2 * K(key.n) + 1) == 0 {
      var preimage := Correct(key, x, r, re, w0, w1);
      s := Some(preimage);
    } else {
      s := None;
    }
  }

  // ----- Where the result is no preimage -----

  // The e-th power of the draw lies where x is what is left of it; the largest image takes in all that is above it.
  ghost predicate PowerGives(key: Key, x: nat, r: nat)
    requires ValidKey(key)
  {
    PositiveModulus(key);
    && ShiftLeft(x, 2 * K(key.n) + 2) <= PowMod(r, key.e, key.n)
    && (x == MaxImage(key.n) || PowMod(r, key.e, key.n) < ShiftLeft(x + 1, 2 * K(key.n) + 2))
  }

  // The bare draw is a preimage exactly then.
  lemma PreimageByChance(key: Key, x: nat, r: nat)
    requires ValidKey(key) && x <= MaxImage(key.n)
    ensures key.n > 0
    ensures ApplyFunction(key.n, key.e, r) == x <==> PowerGives(key, x, r)
  {
    hide Pow2, ShiftRight, ShiftLeft, BitCount, K, Pow, Prime, MaxImage;
    PositiveModulus(key);
    ShiftRightBetween(PowMod(r, key.e, key.n), x, 2 * K(key.n) + 2);
    ShiftRightBetween(PowMod(r, key.e, key.n), x + 1, 2 * K(key.n) + 2);
  }

  lemma ShiftRightBetween(y: nat, x: nat, m: nat)
    ensures ShiftRight(y, m) >= x <==> y >= ShiftLeft(x, m)
  {
    hide Pow2, ShiftRight, ShiftLeft;
    var q, unit := ShiftRight(y, m), Pow2(m);
    ShiftIsDivision(y, m);
    ShiftLeftIsProduct(x, m);
    DivMod(y, unit);
    if q >= x {
      MulMonotone(x, q, unit);
    } else {
      MulMonotone(q + 1, x, unit);
      MulDistributes(unit, q, 1);
    }
  }

  // A draw that is a multiple of p q has a power of zero: it is a preimage of zero only.
  lemma MultipleOfFactors(key: Key, x: nat, k: nat)
    requires ValidKey(key) && x <= MaxImage(key.n) && key.e >= 2
    ensures key.n > 0
    ensures PowerGives(key, x, k * (key.p * key.q)) <==> x == 0
    ensures !Regular(key, k * (key.p * key.q))
  {
    hide Pow2, ShiftLeft, BitCount, K, Prime, MaxImage, Cong;
    var p, q, r := key.p, key.q, k * (key.p * key.q);
    PositiveModulus(key);
    var d := Pow(r, key.e - 2);
    assert Pow(r, key.e) == r * (r * d) by { assert Pow(r, key.e) == r * Pow(r, key.e - 1); }
    MulAssociates(r, r, d);
    SquareVanishes(p, q, p * q, k, d);
    DivUnique(0, key.n, 0, 0);
    SameRemainder(Pow(r, key.e), 0, key.n);
    ShiftLeftGrows(x, 2 * K(key.n) + 2);
    ShiftLeftOfZero(2 * K(key.n) + 2);
    ShiftLeftGrows(x + 1, 2 * K(key.n) + 2);
    assert r == p * (q * k) by { MulAssociates(p, q, k); }
    MultipleIsZero(p, q * k);
  }

  /** A key, an image and a draw that the loop accepts and that p divides: what comes back is no preimage. */
  lemma DrawFails(key: Key)
    requires key == Key(1573, 8, 11, 13)
    ensures ValidKey(key) && 2 <= MaxImage(key.n) && Accepted(key, 2, 0) && !Regular(key, 0)
    ensures ApplyFunction(key.n, key.e, 0) != 2
  {
    SmallKey(key);
    PositiveModulus(key);
    assert MaxImage(key.n) == 3 by { assert Pow2(2) == 2 * Pow2(1) == 4 * Pow2(0); }
    assert ShiftLeft(2, 6) == 128 by {
      assert ShiftLeft(2, 6) == 2 * ShiftLeft(2, 5) == 4 * ShiftLeft(2, 4) == 8 * ShiftLeft(2, 3);
      assert ShiftLeft(2, 3) == 2 * ShiftLeft(2, 2) == 4 * ShiftLeft(2, 1) == 8 * ShiftLeft(2, 0);
    }
    assert Pow(0, 8) == 0;
    assert Pow2(5) == 2 * Pow2(4) == 4 * Pow2(3) == 8 * Pow2(2) == 16 * Pow2(1) == 32 * Pow2(0);
    MultipleOfFactors(key, 2, 0);
    PreimageByChance(key, 2, 0);
  }

  lemma SmallKey(key: Key)
    requires key == Key(1573, 8, 11, 13)
    ensures ValidKey(key) && K(key.n) == 2
  {
    hide Prime;
    ElevenIsPrime();
    assert BitCount(1573) == 4 + BitCount(98);
    assert BitCount(98) == 4 + BitCount(6);
    assert BitCount(6) == 3;
  }

  lemma ElevenIsPrime()
    ensures Prime(11)
  {
    forall d: nat | Divides(d, 11)
      ensures d == 1 || d == 11
    {
      DivisorAtMost(d, 11);
      assert d != 2 && d != 3 && d != 4 && d != 5 && d != 6 && d != 7 && d != 8 && d != 9 && d != 10;
    }
  }

  lemma DrawBelowModulus(key: Key, r: nat)
    requires ValidKey(key) && r <= key.p * key.q
    ensures r < key.n
  {
    PositiveModulus(key);
    MulDistributes(key.p * key.q, key.p - 1, 1);
    MulAtLeast(key.p * key.q, key.p - 1);
  }

  /** The loop draws until the rounding fits; no result when the draws run out. Where p divides the accepted draw or the
      exponent the division gives zero and the result is the draw itself. The result is a preimage of x exactly if p
      divides neither, or the draw's own power gives x. */
  method CalculateRandomizedInverse(key: Key, x: nat, draws: seq<nat>) returns (s: Option<nat>, used: nat)
    requires ValidKey(key) && x <= MaxImage(key.n)
    requires forall i :: 0 <= i < |draws| ==> draws[i] <= key.p * key.q
    ensures used <= |draws|
    ensures s.None? ==> used == |draws| && forall i :: 0 <= i < |draws| ==> !Accepted(key, x, draws[i])
    ensures s.Some? ==> used > 0 && Accepted(key, x, draws[used - 1])
    ensures s.Some? ==> forall i :: 0 <= i < used - 1 ==> !Accepted(key, x, draws[i])
    ensures s.Some? ==> s.value < key.n
    ensures s.Some? ==> (ApplyFunction(key.n, key.e, s.value) == x <==>
                           Regular(key, draws[used - 1]) || PowerGives(key, x, draws[used - 1]))
    ensures s.Some? && !Regular(key, draws[used - 1]) ==> s.value == draws[used - 1]
  {
    hide *;
    PositiveModulus(key);
    used := 0;
    while used < |draws|
      invariant used <= |draws|
      invariant forall i :: 0 <= i < used ==> !Accepted(key, x, draws[i])
    {
      var r := draws[used];
      used := used + 1;
      s := TryDraw(key, x, r);
      if s.Some? {
        PreimageByChance(key, x, r);
        DrawBelowModulus(key, r);
        return;
      }
    }
    s := None;
  }
}
