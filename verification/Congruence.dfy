/** Congruence of integers, powers, and the greatest common divisor. */
module Congruence {
  import opened Arithmetic

  ghost predicate Cong(a: int, b: int, m: int)
    requires m > 0
  {
    (a - b) % m == 0
  }

  function Pow(b: int, e: nat): int {
    if e == 0 then 1 else b * Pow(b, e - 1)
  }

  lemma MultipleIsZero(m: int, k: int)
    requires m > 0
    ensures (m * k) % m == 0
  {
    DivUnique(m * k, m, k, 0);
  }

  // a - b is m times the result.
  lemma Quotient(a: int, b: int, m: int) returns (k: int)
    requires m > 0 && Cong(a, b, m)
    ensures a == b + m * k
  {
    DivMod(a - b, m);
    k := (a - b) / m;
  }

  lemma FromQuotient(a: int, b: int, m: int, k: int)
    requires m > 0 && a == b + m * k
    ensures Cong(a, b, m)
  {
    MultipleIsZero(m, k);
  }

  lemma CongSelf(a: int, m: int)
    requires m > 0
    ensures Cong(a, a, m)
  {
    FromQuotient(a, a, m, 0);
  }

  lemma CongSymmetric(a: int, b: int, m: int)
    requires m > 0 && Cong(a, b, m)
    ensures Cong(b, a, m)
  {
    var k := Quotient(a, b, m);
    assert m * -k == -(m * k);
    FromQuotient(b, a, m, -k);
  }

  lemma CongTransitive(a: int, b: int, c: int, m: int)
    requires m > 0 && Cong(a, b, m) && Cong(b, c, m)
    ensures Cong(a, c, m)
  {
    var k := Quotient(a, b, m);
    var l := Quotient(b, c, m);
    MulDistributes(m, k, l);
    FromQuotient(a, c, m, k + l);
  }

  lemma CongAdd(a: int, b: int, c: int, d: int, m: int)
    requires m > 0 && Cong(a, b, m) && Cong(c, d, m)
    ensures Cong(a + c, b + d, m) && Cong(a - c, b - d, m)
  {
    var k := Quotient(a, b, m);
    var l := Quotient(c, d, m);
    MulDistributes(m, k, l);
    FromQuotient(a + c, b + d, m, k + l);
    assert m * (k - l) == m * k - m * l;
    FromQuotient(a - c, b - d, m, k - l);
  }

  lemma CongTimes(c: int, a: int, b: int, m: int)
    requires m > 0 && Cong(a, b, m)
    ensures Cong(c * a, c * b, m)
  {
    var k := Quotient(a, b, m);
    MulDistributes(c, b, m * k);
    MulAssociates(c, m, k);
    MulAssociates(m, c, k);
    FromQuotient(c * a, c * b, m, c * k);
  }

  lemma CongMul(a: int, b: int, c: int, d: int, m: int)
    requires m > 0 && Cong(a, b, m) && Cong(c, d, m)
    ensures Cong(a * c, b * d, m)
  {
    CongTimes(a, c, d, m);
    CongTimes(d, a, b, m);
    CongTransitive(a * c, a * d, b * d, m);
  }

  lemma {:induction false} CongPow(a: int, b: int, e: nat, m: int)
    requires m > 0 && Cong(a, b, m)
    ensures Cong(Pow(a, e), Pow(b, e), m)
  {
    CongSelf(1, m);
    if e > 0 {
      CongPow(a, b, e - 1, m);
      CongMul(a, b, Pow(a, e - 1), Pow(b, e - 1), m);
    }
  }

  lemma CongRemainder(a: int, m: int)
    requires m > 0
    ensures Cong(a, a % m, m) && Cong(a % m, a, m) && 0 <= a % m < m
  {
    DivMod(a, m);
    FromQuotient(a, a % m, m, a / m);
    CongSymmetric(a, a % m, m);
  }

  // Congruent numbers have the same remainder.
  lemma SameRemainder(a: int, b: int, m: int)
    requires m > 0 && Cong(a, b, m)
    ensures a % m == b % m
  {
    var k := Quotient(a, b, m);
    DivMod(b, m);
    MulDistributes(m, b / m, k);
    DivUnique(a, m, b / m + k, b % m);
  }

  // A factor of the modulus may replace it.
  lemma CongFactor(a: int, b: int, m: int, n: int)
    requires m > 0 && n > 0 && Cong(a, b, m * n)
    ensures Cong(a, b, m)
  {
    var k := Quotient(a, b, m * n);
    MulAssociates(m, n, k);
    FromQuotient(a, b, m, n * k);
  }

  // Multiplying the modulus along.
  lemma CongScale(a: int, b: int, m: int, n: int)
    requires m > 0 && n > 0 && Cong(a, b, m)
    ensures m * n > 0 && Cong(a * n, b * n, m * n)
  {
    MulAtLeast(m, n);
    var k := Quotient(a, b, m);
    MulDistributes(n, b, m * k);
    MulAssociates(n, m, k);
    assert a * n == b * n + (m * n) * k;
    FromQuotient(a * n, b * n, m * n, k);
  }

  lemma MiddleSwap(a: int, b: int, x: int, y: int)
    ensures (a * b) * (x * y) == (a * x) * (b * y)
  {
    MulAssociates(a * b, x, y);
    MulAssociates(a, b, x);
    MulAssociates(a, x, b);
    MulAssociates(a * x, b, y);
  }

  lemma {:induction false} PowOfOne(e: nat)
    ensures Pow(1, e) == 1
  {
    if e > 0 { PowOfOne(e - 1); }
  }

  lemma {:induction false} PowSum(b: int, d: nat, e: nat)
    ensures Pow(b, d + e) == Pow(b, d) * Pow(b, e)
  {
    if d > 0 {
      PowSum(b, d - 1, e);
      MulAssociates(b, Pow(b, d - 1), Pow(b, e));
    }
  }

  lemma {:induction false} PowOfPow(b: int, d: nat, e: nat)
    ensures Pow(Pow(b, d), e) == Pow(b, d * e)
  {
    if e > 0 {
      PowOfPow(b, d, e - 1);
      MulDistributes(d, e - 1, 1);
      MulNonNegative(d, e - 1);
      PowSum(b, d, d * (e - 1));
    }
  }

  lemma MulNonNegative(a: nat, b: nat)
    ensures a * b >= 0
  {
  }

  // ----- Divisors -----

  ghost predicate Divides(d: nat, a: nat) {
    d > 0 && a % d == 0
  }

  lemma DivisorAtMost(d: nat, a: nat)
    requires Divides(d, a) && a > 0
    ensures d <= a
  {
    if d > a { DivUnique(a, d, 0, a); }
  }

  ghost predicate Coprime(a: nat, b: nat) {
    forall d: nat :: Divides(d, a) && Divides(d, b) ==> d == 1
  }

  ghost predicate Prime(p: nat) {
    p > 1 && forall d: nat :: Divides(d, p) ==> d == 1 || d == p
  }

  lemma CoprimeToPrime(a: nat, p: nat)
    requires Prime(p) && a % p != 0
    ensures Coprime(a, p)
  {
    forall d: nat | Divides(d, a) && Divides(d, p)
      ensures d == 1
    {
    }
  }
}
