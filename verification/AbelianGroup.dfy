/** The interface that algebra.h calls AbstractGroup, as a record of functions, and what it means
    to add an element to itself a given number of times. */
module AbelianGroup {

  // `contains` picks out the elements the laws are about: for an elliptic curve these are the
  // points on the curve, a proper subset of the representable points.
  datatype Group<!T> = Group(
    contains: T -> bool,
    identity: T,
    add: (T, T) -> T,
    inverse: T -> T,
    double: T -> T,
    inversionIsFast: bool)

  ghost predicate Laws<T>(G: Group<T>, a: T, b: T, c: T) {
    && G.contains(G.identity)
    && (G.contains(a) ==>
          && G.add(G.identity, a) == a
          && G.contains(G.inverse(a))
          && G.add(a, G.inverse(a)) == G.identity
          && G.double(a) == G.add(a, a))
    && (G.contains(a) && G.contains(b) ==> G.contains(G.add(a, b)) && G.add(a, b) == G.add(b, a))
    && (G.contains(a) && G.contains(b) && G.contains(c) ==>
          G.add(G.add(a, b), c) == G.add(a, G.add(b, c)))
  }

  // Every use of a law names the elements it is about: the quantifier only fires on `Laws`.
  ghost predicate IsAbelianGroup<T(!new)>(G: Group<T>) {
    forall a, b, c :: Laws(G, a, b, c)
  }

  // "x added to itself n times"; a negative n counts the inverse of x.
  ghost function Mul<T>(G: Group<T>, n: int, x: T): T
    decreases n < 0, if n < 0 then -n else n
  {
    if n == 0 then G.identity
    else if n > 0 then G.add(Mul(G, n - 1, x), x)
    else G.inverse(Mul(G, -n, x))
  }

  lemma {:induction false} MulContained<T(!new)>(G: Group<T>, n: int, x: T)
    requires IsAbelianGroup(G) && G.contains(x)
    ensures G.contains(Mul(G, n, x))
    decreases n < 0, if n < 0 then -n else n
  {
    assert Laws(G, x, x, x);
    if n > 0 {
      MulContained(G, n - 1, x);
      assert Laws(G, Mul(G, n - 1, x), x, x);
    } else if n < 0 {
      MulContained(G, -n, x);
      assert Laws(G, Mul(G, -n, x), x, x);
    }
  }

  lemma MulOne<T(!new)>(G: Group<T>, x: T)
    requires IsAbelianGroup(G) && G.contains(x)
    ensures Mul(G, 1, x) == x
  {
    assert Laws(G, x, x, x);
    assert Mul(G, 0, x) == G.identity;
  }

  // If a + b is the identity then b is the inverse of a.
  lemma InverseUnique<T(!new)>(G: Group<T>, a: T, b: T)
    requires IsAbelianGroup(G) && G.contains(a) && G.contains(b)
    requires G.add(a, b) == G.identity
    ensures b == G.inverse(a)
  {
    var i := G.inverse(a);
    assert Laws(G, a, i, b);
    assert Laws(G, i, a, b);
    assert Laws(G, b, G.identity, i) && Laws(G, i, G.identity, b);
  }

  lemma DoubleInverse<T(!new)>(G: Group<T>, a: T)
    requires IsAbelianGroup(G) && G.contains(a)
    ensures G.inverse(G.inverse(a)) == a
  {
    assert Laws(G, a, G.inverse(a), a);
    InverseUnique(G, G.inverse(a), a);
  }

  lemma MulNegate<T(!new)>(G: Group<T>, n: int, x: T)
    requires IsAbelianGroup(G) && G.contains(x)
    ensures G.inverse(Mul(G, n, x)) == Mul(G, -n, x)
  {
    if n == 0 {
      assert Laws(G, G.identity, x, x);
      InverseUnique(G, G.identity, G.identity);
    } else if n < 0 {
      MulContained(G, -n, x);
      DoubleInverse(G, Mul(G, -n, x));
    }
  }

  lemma InverseOfSum<T(!new)>(G: Group<T>, a: T, b: T)
    requires IsAbelianGroup(G) && G.contains(a) && G.contains(b)
    ensures G.inverse(G.add(a, b)) == G.add(G.inverse(a), G.inverse(b))
  {
    var i, j := G.inverse(a), G.inverse(b);
    assert Laws(G, a, b, i);
    assert Laws(G, b, i, j);
    assert Laws(G, i, j, a);
    RearrangeFour(G, a, b, i, j);
    assert Laws(G, G.identity, a, a);
    InverseUnique(G, G.add(a, b), G.add(i, j));
  }

  lemma RearrangeFour<T(!new)>(G: Group<T>, a: T, b: T, c: T, d: T)
    requires IsAbelianGroup(G) && G.contains(a) && G.contains(b) && G.contains(c) && G.contains(d)
    ensures G.contains(G.add(a, b)) && G.contains(G.add(c, d))
    ensures G.add(G.add(a, b), G.add(c, d)) == G.add(G.add(a, c), G.add(b, d))
  {
    assert Laws(G, a, b, c) && Laws(G, c, d, a) && Laws(G, a, c, b) && Laws(G, b, d, a) && Laws(G, b, c, d);
    assert Laws(G, a, b, G.add(c, d));
    assert Laws(G, b, c, d);
    assert Laws(G, c, b, d);
    assert Laws(G, a, c, G.add(b, d));
  }

  // One more copy of x, for negative counts too.
  lemma MulStep<T(!new)>(G: Group<T>, n: int, x: T)
    requires IsAbelianGroup(G) && G.contains(x)
    ensures Mul(G, n + 1, x) == G.add(Mul(G, n, x), x)
  {
    if n < 0 {
      var m := Mul(G, -n - 1, x);
      MulContained(G, -n - 1, x);
      assert Mul(G, -n, x) == G.add(m, x);
      InverseOfSum(G, m, x);
      MulNegate(G, -n - 1, x);
      assert Laws(G, m, x, x) && Laws(G, x, G.inverse(x), x);
      assert Laws(G, G.inverse(m), G.inverse(x), x);
      assert Laws(G, G.identity, G.inverse(m), x);
    }
  }

  lemma {:induction false} MulSum<T(!new)>(G: Group<T>, m: int, n: int, x: T)
    requires IsAbelianGroup(G) && G.contains(x)
    ensures G.add(Mul(G, m, x), Mul(G, n, x)) == Mul(G, m + n, x)
    decreases if n < 0 then -n else n
  {
    MulContained(G, m, x);
    MulContained(G, n, x);
    if n == 0 {
      assert Laws(G, G.identity, Mul(G, m, x), x);
      assert Laws(G, Mul(G, m, x), x, x);
    } else if n > 0 {
      MulSum(G, m, n - 1, x);
      MulContained(G, n - 1, x);
      assert Laws(G, Mul(G, m, x), Mul(G, n - 1, x), x);
      MulStep(G, m + n - 1, x);
    } else {
      MulSum(G, m, n + 1, x);
      MulStep(G, n, x);
      MulStep(G, m + n, x);
      MulContained(G, m + n, x);
      assert Laws(G, Mul(G, m, x), Mul(G, n, x), x);
      CancelRight(G, G.add(Mul(G, m, x), Mul(G, n, x)), Mul(G, m + n, x), x);
    }
  }

  lemma CancelRight<T(!new)>(G: Group<T>, a: T, b: T, x: T)
    requires IsAbelianGroup(G) && G.contains(a) && G.contains(b) && G.contains(x)
    requires G.add(a, x) == G.add(b, x)
    ensures a == b
  {
    var i := G.inverse(x);
    assert Laws(G, x, i, a);
    assert Laws(G, a, x, i) && Laws(G, b, x, i);
    assert Laws(G, G.identity, a, a) && Laws(G, G.identity, b, b);
    assert Laws(G, a, b, b) && Laws(G, b, a, a);
    assert Laws(G, a, G.identity, b) && Laws(G, b, G.identity, a);
  }

  lemma MulDouble<T(!new)>(G: Group<T>, n: int, x: T)
    requires IsAbelianGroup(G) && G.contains(x)
    ensures G.double(Mul(G, n, x)) == Mul(G, 2 * n, x)
  {
    MulContained(G, n, x);
    assert Laws(G, Mul(G, n, x), x, x);
    MulSum(G, n, n, x);
  }

  lemma {:induction false} MulOfSum<T(!new)>(G: Group<T>, n: nat, x: T, y: T)
    requires IsAbelianGroup(G) && G.contains(x) && G.contains(y)
    ensures Mul(G, n, G.add(x, y)) == G.add(Mul(G, n, x), Mul(G, n, y))
  {
    assert Laws(G, x, y, x);
    if n == 0 {
      assert Laws(G, G.identity, x, y);
    } else {
      MulOfSum(G, n - 1, x, y);
      MulContained(G, n - 1, x);
      MulContained(G, n - 1, y);
      RearrangeFour(G, Mul(G, n - 1, x), Mul(G, n - 1, y), x, y);
    }
  }

  lemma {:induction false} MulOfMul<T(!new)>(G: Group<T>, m: nat, n: int, x: T)
    requires IsAbelianGroup(G) && G.contains(x)
    ensures Mul(G, m, Mul(G, n, x)) == Mul(G, m * n, x)
  {
    MulContained(G, n, x);
    if m > 0 {
      MulOfMul(G, m - 1, n, x);
      MulSum(G, (m - 1) * n, n, x);
      assert (m - 1) * n + n == m * n;
    }
  }
}
