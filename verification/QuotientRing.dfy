/** AbstractEuclideanDomain::Gcd and QuotientRing::MultiplicativeInverse of algebra.cpp, over the integers. */
module QuotientRing {
  import opened Arithmetic
  import opened Congruence

  ghost predicate SameDivisors(a: nat, b: nat, c: nat, d: nat) {
    forall k: nat :: (Divides(k, a) && Divides(k, b)) <==> (Divides(k, c) && Divides(k, d))
  }

  lemma DividesStep(k: nat, a: nat, b: nat)
    requires b > 0
    ensures (Divides(k, a) && Divides(k, b)) <==> (Divides(k, b) && Divides(k, a % b))
  {
    DivMod(a, b);
    if Divides(k, b) {
      // a and a % b differ by a multiple of b, hence of k
      var t := b / k;
      DivMod(b, k);
      MulAssociates(k, t, a / b);
      FromQuotient(a, a % b, k, t * (a / b));
      SameRemainder(a, a % b, k);
    }
  }

  // g divides both, and every common divisor divides g.
  ghost predicate IsGcd(g: nat, a: nat, b: nat) {
    forall k: nat :: (Divides(k, a) && Divides(k, b)) <==> Divides(k, g)
  }

  method Gcd(a: nat, b: nat) returns (g: nat)
    ensures IsGcd(g, a, b)
  {
    var g0, g1 := b, a;
    while g1 != 0
      invariant SameDivisors(g0, g1, a, b)
      decreases g1
    {
      forall k: nat
        ensures (Divides(k, g0) && Divides(k, g1)) <==> (Divides(k, g1) && Divides(k, g0 % g1))
      {
        DividesStep(k, g0, g1);
      }
      g0, g1 := g1, g0 % g1;
    }
    g := g0;
  }

  // What Euclid's loop keeps while it looks for the inverse of a reduced a.
  ghost predicate Bezout(m: nat, a: nat, g0: nat, g1: nat, v0: int, v1: int)
    requires m > 0
  {
    Cong(v0 * a, g0, m) && Cong(v1 * a, g1, m) && SameDivisors(g0, g1, a, m)
  }

  // An argument that is not below the modulus is swapped with it and then the loop ends: it tests g1 modulo m.
  ghost predicate Unreduced(m: nat, a: nat, g0: nat, g1: nat, v0: int) {
    m <= a && ((g0 == m && g1 == a && v0 == 0) || (g0 == a && g1 == m && m < a))
  }

  method MultiplicativeInverse(m: nat, a: nat) returns (v: int)
    requires m > 0
    ensures a < m && Coprime(a, m) ==> Cong(v * a, 1, m)
    ensures a < m && !Coprime(a, m) ==> v == 0
    ensures a >= m ==> v == 0
  {
    hide *;
    var g0: nat, g1: nat := m, a;
    var v0, v1 := 0, 1;
    Start(m, a);
    while g1 % m != 0
      invariant 0 < g0
      invariant Loop(m, a, g0, g1, v0, v1)
      decreases if g0 < g1 then 1 else 0, g1
    {
      Step(m, a, g0, g1, v0, v1);
      var y, r := g0 / g1, g0 % g1;
      v0, v1 := v1, v0 - v1 * y;
      g0, g1 := g1, r;
    }
    End(m, a, g0, g1, v0, v1);
    v := if g0 == 1 then v0 else 0;
  }

  ghost predicate Loop(m: nat, a: nat, g0: nat, g1: nat, v0: int, v1: int)
    requires m > 0
  {
    if a < m then g1 < g0 <= m && Bezout(m, a, g0, g1, v0, v1) else Unreduced(m, a, g0, g1, v0)
  }

  lemma Start(m: nat, a: nat)
    requires m > 0
    ensures Loop(m, a, m, a, 0, 1)
  {
    BezoutStart(m, a);
  }

  lemma NonzeroRemainder(g: nat, m: nat)
    requires m > 0 && g % m != 0
    ensures g != 0
  {
    DivUnique(0, m, 0, 0);
  }

  lemma Step(m: nat, a: nat, g0: nat, g1: nat, v0: int, v1: int)
    requires m > 0 && g0 > 0 && g1 % m != 0 && Loop(m, a, g0, g1, v0, v1)
    ensures g1 > 0 && 0 <= g0 % g1 < g1
    ensures Loop(m, a, g1, g0 % g1, v1, v0 - v1 * (g0 / g1))
  {
    hide *;
    NonzeroRemainder(g1, m);
    DivMod(g0, g1);
    if a < m {
      ReducedStep(m, a, g0, g1, v0, v1, g0 / g1, g0 % g1);
    } else {
      SwapOnce(m, a, g0, g1, v0, v1, v0 - v1 * (g0 / g1));
    }
  }

  lemma ReducedStep(m: nat, a: nat, g0: nat, g1: nat, v0: int, v1: int, q: nat, r: nat)
    requires a < m && g1 > 0 && Loop(m, a, g0, g1, v0, v1)
    requires q == g0 / g1 && r == g0 % g1 && r < g1
    ensures Loop(m, a, g1, r, v1, v0 - v1 * q)
  {
    hide Bezout;
    BezoutStep(m, a, g0, g1, v0, v1);
  }

  lemma End(m: nat, a: nat, g0: nat, g1: nat, v0: int, v1: int)
    requires m > 0 && g0 > 0 && g1 % m == 0 && Loop(m, a, g0, g1, v0, v1)
    ensures a < m ==> Cong(v0 * a, g0, m) && (g0 == 1 <==> Coprime(a, m))
    ensures a >= m && g0 == 1 ==> v0 == 0
  {
    hide Cong, Coprime, Bezout;
    if a < m {
      BezoutEnd(m, a, g0, g1, v0, v1);
    }
  }

  lemma BezoutStart(m: nat, a: nat)
    requires m > 0
    ensures Bezout(m, a, m, a, 0, 1)
  {
    CongSelf(a, m);
    FromQuotient(0 * a, m, m, -1);
  }

  lemma BezoutStep(m: nat, a: nat, g0: nat, g1: nat, v0: int, v1: int)
    requires m > 0 && g1 > 0 && Bezout(m, a, g0, g1, v0, v1)
    ensures Bezout(m, a, g1, g0 % g1, v1, v0 - v1 * (g0 / g1))
  {
    CombinationStep(m, a, g0, g1, v0, v1);
    DivisorsStep(g0, g1, a, m);
  }

  lemma CombinationStep(m: nat, a: nat, g0: nat, g1: nat, v0: int, v1: int)
    requires m > 0 && g1 > 0 && Cong(v0 * a, g0, m) && Cong(v1 * a, g1, m)
    ensures Cong((v0 - v1 * (g0 / g1)) * a, g0 % g1, m)
  {
    hide Cong;
    var y := g0 / g1;
    DivMod(g0, g1);
    CongTimes(y, v1 * a, g1, m);
    CongAdd(v0 * a, g0, y * (v1 * a), y * g1, m);
    MulDistributes(a, v0 - v1 * y, v1 * y);
    MulAssociates(y, v1, a);
  }

  lemma DivisorsStep(g0: nat, g1: nat, a: nat, m: nat)
    requires g1 > 0 && SameDivisors(g0, g1, a, m)
    ensures SameDivisors(g1, g0 % g1, a, m)
  {
    hide Divides;
    forall k: nat
      ensures (Divides(k, g1) && Divides(k, g0 % g1)) <==> (Divides(k, a) && Divides(k, m))
    {
      DividesStep(k, g0, g1);
    }
  }

  lemma BezoutEnd(m: nat, a: nat, g0: nat, g1: nat, v0: int, v1: int)
    requires m > 0 && g0 > 0 && g1 < m && g1 % m == 0 && Bezout(m, a, g0, g1, v0, v1)
    ensures Cong(v0 * a, g0, m)
    ensures g0 == 1 <==> Coprime(a, m)
  {
    DivUnique(g1, m, 0, g1);
    UnitOrNot(g0, a, m);
  }

  lemma UnitOrNot(g: nat, a: nat, m: nat)
    requires g > 0 && SameDivisors(g, 0, a, m)
    ensures g == 1 <==> Coprime(a, m)
  {
    assert Divides(g, g) && Divides(g, 0);
    if g == 1 {
      forall d: nat | Divides(d, a) && Divides(d, m)
        ensures d == 1
      {
        DivisorAtMost(d, 1);
      }
    }
  }

  lemma SwapOnce(m: nat, a: nat, g0: nat, g1: nat, v0: int, v1: int, v2: int)
    requires 0 < m <= a && g0 > 0 && g1 > 0 && g1 % m != 0 && Loop(m, a, g0, g1, v0, v1)
    ensures Loop(m, a, g1, g0 % g1, v1, v2)
  {
    DivUnique(m, m, 1, 0);
    if a > m { DivUnique(m, a, 0, m); }
  }

  // 7 is invertible modulo 5, since 7 * 3 leaves 1, yet for the unreduced 7 the routine returns 0. For an argument
  // a >= m it is right exactly when there is no inverse to find.
  lemma UnreducedArgument(m: nat, a: nat, v: int)
    requires 1 < m <= a && v == 0
    ensures Coprime(7, 5) && !Cong(0 * 7, 1, 5) && Cong(3 * 7, 1, 5)
    ensures (Coprime(a, m) ==> Cong(v * a, 1, m)) <==> !Coprime(a, m)
  {
    SevenAndFive();
    if Cong(0, 1, m) {
      SameRemainder(0, 1, m);
    }
  }

  lemma SevenAndFive()
    ensures Coprime(7, 5)
  {
    forall d: nat | Divides(d, 7) && Divides(d, 5)
      ensures d == 1
    {
      DivisorAtMost(d, 5);
    }
  }
}
