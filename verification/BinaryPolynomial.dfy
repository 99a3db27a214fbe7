/** Polynomials over GF(2), each written as the number whose bits are its coefficients: addition is
    exclusive or, and multiplication is the carry-less product. */
module BinaryPolynomial {
  import opened Bits

  function Xor(p: nat, q: nat): nat {
    if p == 0 then q
    else if q == 0 then p
    else (if p % 2 == q % 2 then 0 else 1) + 2 * Xor(p / 2, q / 2)
  }

  ghost function Times(p: nat, q: nat): nat {
    if p == 0 then 0
    else Xor(if p % 2 == 1 then q else 0, 2 * Times(p / 2, q))
  }

  ghost predicate Divides(d: nat, p: nat) {
    exists q: nat :: Times(q, d) == p
  }

  // No factors but 1 and the polynomial itself.
  ghost predicate Irreducible(p: nat) {
    forall q: nat, d: nat :: Times(q, d) == p ==> q == 1 || d == 1
  }

  // p and r differ by a multiple of m.
  ghost predicate Congruent(m: nat, p: nat, r: nat) {
    exists q: nat :: p == Xor(Times(q, m), r)
  }

  // ----- Exclusive or -----

  lemma XorZero(p: nat)
    ensures Xor(0, p) == p && Xor(p, 0) == p
  {
  }

  lemma ParityOfSum(p: nat, q: nat)
    ensures (p + q) % 2 == if p % 2 == q % 2 then 0 else 1
  {
  }

  lemma XorStep(p: nat, q: nat)
    ensures Xor(p, q) % 2 == (p + q) % 2
    ensures Xor(p, q) / 2 == Xor(p / 2, q / 2)
  {
    ParityOfSum(p, q);
    var rest := Xor(p / 2, q / 2);
    if p > 0 && q > 0 {
      var bit := if p % 2 == q % 2 then 0 else 1;
      assert Xor(p, q) == bit + 2 * rest;
    }
  }

  lemma XorLowBit(b: nat, h: nat)
    requires b <= 1
    ensures Xor(b, 2 * h) == b + 2 * h
  {
    if b == 1 && h > 0 { assert Xor(0, h) == h; }
  }

  lemma {:induction false} XorCommutes(p: nat, q: nat)
    ensures Xor(p, q) == Xor(q, p)
  {
    if p > 0 && q > 0 { XorCommutes(p / 2, q / 2); }
  }

  lemma {:induction false} XorAssociates(p: nat, q: nat, r: nat)
    ensures Xor(Xor(p, q), r) == Xor(p, Xor(q, r))
  {
    if p > 0 && q > 0 && r > 0 {
      XorAssociates(p / 2, q / 2, r / 2);
      XorStep(p, q);
      XorStep(q, r);
      XorStep(Xor(p, q), r);
      XorStep(p, Xor(q, r));
    }
  }

  lemma {:induction false} XorSelf(p: nat)
    ensures Xor(p, p) == 0
  {
    if p > 0 { XorSelf(p / 2); }
  }

  lemma XorCancel(p: nat, q: nat)
    ensures Xor(p, Xor(p, q)) == q && Xor(Xor(q, p), p) == q
  {
    XorSelf(p);
    XorAssociates(p, p, q);
    XorAssociates(q, p, p);
    XorCommutes(q, 0);
  }

  // (p + q) + (r + s) == (p + r) + (q + s)
  lemma XorFour(p: nat, q: nat, r: nat, s: nat)
    ensures Xor(Xor(p, q), Xor(r, s)) == Xor(Xor(p, r), Xor(q, s))
  {
    XorAssociates(p, q, Xor(r, s));
    XorAssociates(q, r, s);
    XorCommutes(q, r);
    XorAssociates(r, q, s);
    XorAssociates(p, r, Xor(q, s));
  }

  lemma XorDouble(p: nat, q: nat)
    ensures Xor(2 * p, 2 * q) == 2 * Xor(p, q)
  {
    XorStep(2 * p, 2 * q);
  }

  lemma {:induction false} XorBelow(p: nat, q: nat, n: nat)
    requires p < Pow2(n) && q < Pow2(n)
    ensures Xor(p, q) < Pow2(n)
  {
    if n > 0 {
      XorBelow(p / 2, q / 2, n - 1);
      XorStep(p, q);
    }
  }

  // The higher of two degrees wins.
  lemma {:induction false} XorKeepsTop(p: nat, q: nat, n: nat)
    requires p < Pow2(n) && Pow2(n) <= q < Pow2(n + 1)
    ensures Pow2(n) <= Xor(p, q) < Pow2(n + 1)
  {
    XorStep(p, q);
    if n > 0 {
      XorKeepsTop(p / 2, q / 2, n - 1);
    }
  }

  // Equal degrees cancel.
  lemma {:induction false} XorDropsTop(p: nat, q: nat, n: nat)
    requires Pow2(n) <= p < Pow2(n + 1) && Pow2(n) <= q < Pow2(n + 1)
    ensures Xor(p, q) < Pow2(n)
  {
    XorStep(p, q);
    if n > 0 {
      XorDropsTop(p / 2, q / 2, n - 1);
    }
  }

  // Adding the top bit is exclusive or with it.
  lemma {:induction false} XorTopBit(n: nat, m: nat)
    requires m < Pow2(n)
    ensures Xor(Pow2(n), m) == Pow2(n) + m
  {
    if n > 0 && m > 0 {
      XorTopBit(n - 1, m / 2);
    }
  }

  // ----- Products -----

  // One more bit of the left factor.
  lemma TimesStep(p: nat, bit: nat, q: nat)
    requires bit <= 1
    ensures Times(2 * p + bit, q) == Xor(if bit == 1 then q else 0, 2 * Times(p, q))
  {
    if 2 * p + bit == 0 { assert Times(p, q) == 0; }
  }

  lemma TimesOne(q: nat)
    ensures Times(1, q) == q
  {
    assert Times(0, q) == 0;
    XorCommutes(q, 0);
  }

  lemma {:induction false} TimesZero(p: nat)
    ensures Times(p, 0) == 0
  {
    if p > 0 { TimesZero(p / 2); }
  }

  lemma TimesDoubleLeft(p: nat, q: nat)
    ensures Times(2 * p, q) == 2 * Times(p, q)
  {
  }

  lemma {:induction false} TimesDoubleRight(p: nat, q: nat)
    ensures Times(p, 2 * q) == 2 * Times(p, q)
  {
    if p > 0 {
      TimesDoubleRight(p / 2, q);
      XorDouble(q, 2 * Times(p / 2, q));
    }
  }

  lemma {:induction false} TimesXorRight(p: nat, q: nat, r: nat)
    ensures Times(p, Xor(q, r)) == Xor(Times(p, q), Times(p, r))
  {
    if p > 0 {
      TimesXorRight(p / 2, q, r);
      var tq, tr := Times(p / 2, q), Times(p / 2, r);
      XorDouble(tq, tr);
      if p % 2 == 1 {
        XorFour(q, 2 * tq, r, 2 * tr);
      }
    }
  }

  lemma {:induction false} TimesXorLeft(p: nat, q: nat, r: nat)
    ensures Times(Xor(p, q), r) == Xor(Times(p, r), Times(q, r))
    decreases p + q
  {
    if p == 0 || q == 0 {
      XorCommutes(Times(p, r), 0);
    } else {
      TimesXorLeft(p / 2, q / 2, r);
      XorStep(p, q);
      var tp, tq := Times(p / 2, r), Times(q / 2, r);
      var bp, bq := if p % 2 == 1 then r else 0, if q % 2 == 1 then r else 0;
      XorDouble(tp, tq);
      XorFour(bp, 2 * tp, bq, 2 * tq);
      XorSelf(r);
      XorCommutes(r, 0);
      var x := Xor(p, q);
      assert Times(x, r) == Xor(if x % 2 == 1 then r else 0, 2 * Times(x / 2, r)) by {
        if x == 0 { assert Times(x / 2, r) == 0; }
      }
    }
  }

  // Degrees add up.
  lemma {:induction false} TimesDegree(p: nat, q: nat, k: nat, n: nat)
    requires Pow2(k) <= p < Pow2(k + 1) && Pow2(n) <= q < Pow2(n + 1)
    ensures Pow2(k + n) <= Times(p, q) < Pow2(k + n + 1)
  {
    if k == 0 {
      assert p == 1 by { assert Pow2(0) == 1; assert Pow2(1) == 2; }
      TimesOne(q);
    } else {
      TimesDegree(p / 2, q, k - 1, n);
      Pow2Monotone(n + 1, k + n);
      XorKeepsTop(if p % 2 == 1 then q else 0, 2 * Times(p / 2, q), k + n);
    }
  }

  // A multiple of m other than zero is at least as large as m's leading term.
  lemma MultipleIsLarge(q: nat, m: nat, n: nat)
    requires q > 0 && Pow2(n) <= m < Pow2(n + 1)
    ensures Times(q, m) >= Pow2(n)
  {
    BitCountBounds(q);
    TimesDegree(q, m, BitCount(q) - 1, n);
    Pow2Monotone(n, BitCount(q) - 1 + n);
  }

  // ----- Congruence -----

  lemma CongruentSelf(m: nat, p: nat)
    ensures Congruent(m, p, p)
  {
    assert p == Xor(Times(0, m), p);
  }

  lemma CongruentXor(m: nat, p: nat, r: nat, p': nat, r': nat)
    requires Congruent(m, p, r) && Congruent(m, p', r')
    ensures Congruent(m, Xor(p, p'), Xor(r, r'))
  {
    var q: nat :| p == Xor(Times(q, m), r);
    var q': nat :| p' == Xor(Times(q', m), r');
    XorFour(Times(q, m), r, Times(q', m), r');
    TimesXorLeft(q, q', m);
    assert Xor(p, p') == Xor(Times(Xor(q, q'), m), Xor(r, r'));
  }

  lemma CongruentDouble(m: nat, p: nat, r: nat)
    requires Congruent(m, p, r)
    ensures Congruent(m, 2 * p, 2 * r)
  {
    var q: nat :| p == Xor(Times(q, m), r);
    TimesDoubleLeft(q, m);
    XorDouble(Times(q, m), r);
    assert 2 * p == Xor(Times(2 * q, m), 2 * r);
  }

  lemma CongruentTransitive(m: nat, p: nat, r: nat, s: nat)
    requires Congruent(m, p, r) && Congruent(m, r, s)
    ensures Congruent(m, p, s)
  {
    var q: nat :| p == Xor(Times(q, m), r);
    var q': nat :| r == Xor(Times(q', m), s);
    XorAssociates(Times(q, m), Times(q', m), s);
    TimesXorLeft(q, q', m);
    assert p == Xor(Times(Xor(q, q'), m), s);
  }

  lemma CongruentSymmetric(m: nat, p: nat, r: nat)
    requires Congruent(m, p, r)
    ensures Congruent(m, r, p)
  {
    var q: nat :| p == Xor(Times(q, m), r);
    XorCancel(Times(q, m), r);
    assert r == Xor(Times(q, m), p);
  }

  // m itself may be added or dropped.
  lemma CongruentModulus(m: nat, p: nat)
    ensures Congruent(m, p, Xor(p, m))
  {
    TimesOne(m);
    XorCancel(m, p);
    XorCommutes(p, m);
    assert p == Xor(Times(1, m), Xor(p, m));
  }

  // Below the modulus' degree, congruent means equal.
  lemma CongruentUnique(m: nat, n: nat, p: nat, r: nat)
    requires Pow2(n) <= m < Pow2(n + 1) && p < Pow2(n) && r < Pow2(n)
    requires Congruent(m, p, r)
    ensures p == r
  {
    var q: nat :| p == Xor(Times(q, m), r);
    XorCancel(r, Times(q, m));
    XorBelow(p, r, n);
    assert Times(q, m) == Xor(p, r);
    if q > 0 { MultipleIsLarge(q, m, n); }
  }

  // The lower bits of a product's left factor decide the rest: multiplying by p respects congruence on the right.
  lemma {:induction false} CongruentTimes(m: nat, p: nat, a: nat, b: nat)
    requires Congruent(m, a, b)
    ensures Congruent(m, Times(p, a), Times(p, b))
  {
    CongruentSelf(m, 0);
    if p > 0 {
      CongruentTimes(m, p / 2, a, b);
      CongruentDouble(m, Times(p / 2, a), Times(p / 2, b));
      if p % 2 == 1 {
        CongruentXor(m, a, b, 2 * Times(p / 2, a), 2 * Times(p / 2, b));
      }
    }
  }

  lemma {:induction false} TimesCommutes(p: nat, q: nat)
    ensures Times(p, q) == Times(q, p)
  {
    if p == 0 {
      TimesZero(q);
    } else {
      TimesCommutes(p / 2, q);
      TimesDoubleRight(q, p / 2);
      var b: nat := p % 2;
      XorLowBit(b, p / 2);
      TimesXorRight(q, b, 2 * (p / 2));
      TimesZero(q);
      if b == 1 { TimesByOne(q); }
    }
  }

  lemma {:induction false} TimesByOne(p: nat)
    ensures Times(p, 1) == p
  {
    if p > 0 {
      TimesByOne(p / 2);
      XorLowBit(p % 2, p / 2);
    }
  }

  // ----- Common divisors -----

  // Adding a multiple of one to the other does not change what divides both.
  lemma DividesXor(d: nat, p: nat, q: nat)
    requires Divides(d, p) && Divides(d, q)
    ensures Divides(d, Xor(p, q))
  {
    var s: nat :| Times(s, d) == p;
    var t: nat :| Times(t, d) == q;
    TimesXorLeft(s, t, d);
    assert Times(Xor(s, t), d) == Xor(p, q);
  }

  lemma DividesDouble(d: nat, p: nat)
    requires Divides(d, p)
    ensures Divides(d, 2 * p)
  {
    var s: nat :| Times(s, d) == p;
    TimesDoubleLeft(s, d);
    assert Times(2 * s, d) == 2 * p;
  }

  lemma {:induction false} DividesShift(d: nat, p: nat, n: nat)
    requires Divides(d, p)
    ensures Divides(d, ShiftLeft(p, n))
  {
    if n > 0 {
      DividesShift(d, p, n - 1);
      DividesDouble(d, ShiftLeft(p, n - 1));
    }
  }

  lemma DividesSelfAndZero(d: nat)
    ensures Divides(d, d) && Divides(d, 0)
  {
    TimesOne(d);
    assert Times(0, d) == 0;
  }
}
