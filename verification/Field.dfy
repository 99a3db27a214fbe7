/** The field arithmetic that modarith.h offers to the elliptic curve, as a record of functions, and
    batch inversion (ParallelInvert of ecp.cpp). */
module FieldArithmetic {

  // Plain residues and Montgomery representatives are two such records.
  datatype Field<!F> = Field(
    contains: F -> bool,
    zero: F,
    one: F,
    add: (F, F) -> F,
    negate: F -> F,
    multiply: (F, F) -> F,
    invert: F -> F,
    half: F -> F)
  {
    function Subtract(a: F, b: F): F { add(a, negate(b)) }
    function Double(a: F): F { add(a, a) }
    function Square(a: F): F { multiply(a, a) }
    function Divide(a: F, b: F): F { multiply(a, invert(b)) }
  }

  // `half` can only satisfy its law when the characteristic is odd. The inverse of zero is zero.
  ghost predicate Laws<F>(f: Field<F>, a: F, b: F, c: F) {
    && f.contains(f.zero) && f.contains(f.one) && f.zero != f.one
    && (f.contains(a) ==>
          && f.contains(f.negate(a)) && f.contains(f.invert(a)) && f.contains(f.half(a))
          && f.add(a, f.zero) == a && f.add(a, f.negate(a)) == f.zero
          && f.multiply(a, f.one) == a
          && (a != f.zero ==> f.multiply(a, f.invert(a)) == f.one)
          && f.add(f.half(a), f.half(a)) == a)
    && f.invert(f.zero) == f.zero
    && (f.contains(a) && f.contains(b) ==>
          && f.contains(f.add(a, b)) && f.contains(f.multiply(a, b))
          && f.add(a, b) == f.add(b, a) && f.multiply(a, b) == f.multiply(b, a))
    && (f.contains(a) && f.contains(b) && f.contains(c) ==>
          && f.add(f.add(a, b), c) == f.add(a, f.add(b, c))
          && f.multiply(f.multiply(a, b), c) == f.multiply(a, f.multiply(b, c))
          && f.multiply(a, f.add(b, c)) == f.add(f.multiply(a, b), f.multiply(a, c)))
  }

  ghost predicate IsField<F(!new)>(f: Field<F>) {
    forall a, b, c :: Laws(f, a, b, c)
  }

  lemma Closed<F(!new)>(f: Field<F>, a: F, b: F)
    requires IsField(f) && f.contains(a) && f.contains(b)
    ensures f.contains(f.add(a, b)) && f.contains(f.multiply(a, b))
    ensures f.contains(f.negate(a)) && f.contains(f.invert(a)) && f.contains(f.half(a))
    ensures f.contains(f.Subtract(a, b)) && f.contains(f.Divide(a, b))
    ensures f.contains(f.Double(a)) && f.contains(f.Square(a))
    ensures f.contains(f.zero) && f.contains(f.one)
  {
    assert Laws(f, a, b, a) && Laws(f, b, a, a) && Laws(f, a, a, a);
    assert Laws(f, a, f.negate(b), a) && Laws(f, a, f.invert(b), a);
  }

  // ----- Addition -----

  lemma AddCancel<F(!new)>(f: Field<F>, a: F, b: F, c: F)
    requires IsField(f) && f.contains(a) && f.contains(b) && f.contains(c)
    requires f.add(a, c) == f.add(b, c)
    ensures a == b
  {
    var n := f.negate(c);
    assert Laws(f, c, n, a) && Laws(f, a, c, n) && Laws(f, b, c, n);
  }

  lemma SubtractIsZero<F(!new)>(f: Field<F>, a: F, b: F)
    requires IsField(f) && f.contains(a) && f.contains(b) && f.Subtract(a, b) == f.zero
    ensures a == b
  {
    assert Laws(f, b, f.negate(b), a);
    AddCancel(f, a, b, f.negate(b));
  }

  // a + b - b == a, and a - b + b == a
  lemma AddThenSubtract<F(!new)>(f: Field<F>, a: F, b: F)
    requires IsField(f) && f.contains(a) && f.contains(b)
    ensures f.Subtract(f.add(a, b), b) == a && f.add(f.Subtract(a, b), b) == a
  {
    var n := f.negate(b);
    assert Laws(f, a, b, n) && Laws(f, a, n, b) && Laws(f, b, n, a);
    assert Laws(f, n, b, a);
  }

  lemma NegateOfProduct<F(!new)>(f: Field<F>, a: F, b: F)
    requires IsField(f) && f.contains(a) && f.contains(b)
    ensures f.multiply(a, f.negate(b)) == f.negate(f.multiply(a, b))
  {
    var n := f.negate(b);
    assert Laws(f, a, b, n) && Laws(f, b, n, a) && Laws(f, a, n, b);
    TimesZero(f, a);
    var p := f.multiply(a, b);
    assert Laws(f, p, f.multiply(a, n), f.negate(p)) && Laws(f, f.negate(p), p, p);
    assert f.add(f.multiply(a, n), p) == f.zero by { assert Laws(f, f.multiply(a, n), p, p); }
    assert f.add(f.negate(p), p) == f.zero;
    AddCancel(f, f.multiply(a, n), f.negate(p), p);
  }

  lemma TimesZero<F(!new)>(f: Field<F>, a: F)
    requires IsField(f) && f.contains(a)
    ensures f.multiply(a, f.zero) == f.zero && f.multiply(f.zero, a) == f.zero
  {
    var z := f.multiply(a, f.zero);
    assert Laws(f, a, f.zero, f.zero) && Laws(f, f.zero, a, a);
    assert Laws(f, z, f.zero, z) && Laws(f, f.zero, z, z);
    AddCancel(f, z, f.zero, z);
  }

  lemma DoubleNegate<F(!new)>(f: Field<F>, a: F)
    requires IsField(f) && f.contains(a)
    ensures f.negate(f.negate(a)) == a
  {
    var n := f.negate(a);
    assert Laws(f, a, n, a) && Laws(f, n, f.negate(n), a) && Laws(f, n, a, a);
    assert Laws(f, f.negate(n), n, a);
    AddCancel(f, f.negate(n), a, n);
  }

  lemma NegateZero<F(!new)>(f: Field<F>)
    requires IsField(f)
    ensures f.negate(f.zero) == f.zero
  {
    assert Laws(f, f.zero, f.negate(f.zero), f.zero) && Laws(f, f.negate(f.zero), f.zero, f.zero);
  }

  lemma DistributeAdd<F(!new)>(f: Field<F>, a: F, b: F, c: F)
    requires IsField(f) && f.contains(a) && f.contains(b) && f.contains(c)
    ensures f.multiply(f.add(a, b), c) == f.add(f.multiply(a, c), f.multiply(b, c))
  {
    Closed(f, a, b);
    assert Laws(f, c, a, b) && Laws(f, a, c, b) && Laws(f, b, c, a) && Laws(f, f.add(a, b), c, a);
  }

  lemma DistributeSubtract<F(!new)>(f: Field<F>, a: F, b: F, c: F)
    requires IsField(f) && f.contains(a) && f.contains(b) && f.contains(c)
    ensures f.multiply(f.Subtract(a, b), c) == f.Subtract(f.multiply(a, c), f.multiply(b, c))
  {
    Closed(f, b, b);
    DistributeAdd(f, a, f.negate(b), c);
    NegateOfProduct(f, c, b);
    assert Laws(f, c, f.negate(b), a) && Laws(f, c, b, a) && Laws(f, f.negate(b), c, a);
  }

  // Twice something is zero only for zero: the characteristic is not two.
  lemma DoubleIsZero<F(!new)>(f: Field<F>, a: F)
    requires IsField(f) && f.contains(a)
    ensures f.Double(a) == f.zero <==> a == f.zero
  {
    Closed(f, a, a);
    var h := f.half(a);
    assert Laws(f, a, a, a) && Laws(f, h, h, a);
    assert Laws(f, f.zero, f.zero, f.zero);
    if f.Double(a) == f.zero && a != f.zero {
      // 1 == half(1) + half(1), and half(1) == half(1) * a * inv(a)
      var u := f.half(f.one);
      assert Laws(f, f.one, f.one, f.one);
      Closed(f, f.one, u);
      Closed(f, a, u);
      DistributeAdd(f, u, u, a);
      assert Laws(f, f.one, a, a) && Laws(f, a, f.one, a);
      // a == (u + u) a == u a + u a == u (a + a) == 0
      assert Laws(f, u, a, a);
      TimesZero(f, u);
    }
  }

  lemma HalfOfDouble<F(!new)>(f: Field<F>, a: F)
    requires IsField(f) && f.contains(a)
    ensures f.half(f.Double(a)) == a
  {
    Closed(f, a, a);
    var h := f.half(f.Double(a));
    assert Laws(f, f.Double(a), a, a) && Laws(f, h, h, a);
    // h + h == a + a, so twice their difference is zero
    Closed(f, h, a);
    var d := f.Subtract(h, a);
    AddThenSubtract(f, h, a);
    assert f.add(d, a) == h;
    assert Laws(f, d, a, a) && Laws(f, d, a, h) && Laws(f, a, d, a) && Laws(f, d, d, a) && Laws(f, f.add(d, a), d, a);
    assert f.add(h, h) == f.add(f.add(d, d), f.add(a, a)) by {
      calc {
        f.add(h, h);
        f.add(f.add(d, a), f.add(d, a));
        { assert Laws(f, d, a, f.add(d, a)); }
        f.add(d, f.add(a, f.add(d, a)));
        { assert Laws(f, a, d, a) && Laws(f, d, a, a); }
        f.add(d, f.add(d, f.add(a, a)));
        { assert Laws(f, d, d, f.add(a, a)); }
        f.add(f.add(d, d), f.add(a, a));
      }
    }
    assert Laws(f, f.zero, f.add(a, a), a) && Laws(f, f.add(a, a), f.zero, a);
    Closed(f, d, d);
    AddCancel(f, f.add(d, d), f.zero, f.add(a, a));
    DoubleIsZero(f, d);
    SubtractIsZero(f, h, a);
  }

  // ----- Multiplication -----

  lemma MultiplyCommutes<F(!new)>(f: Field<F>, a: F, b: F)
    requires IsField(f) && f.contains(a) && f.contains(b)
    ensures f.multiply(a, b) == f.multiply(b, a)
  {
    assert Laws(f, a, b, a);
  }

  lemma MultiplyAssociates<F(!new)>(f: Field<F>, a: F, b: F, c: F)
    requires IsField(f) && f.contains(a) && f.contains(b) && f.contains(c)
    ensures f.multiply(f.multiply(a, b), c) == f.multiply(a, f.multiply(b, c))
  {
    assert Laws(f, a, b, c);
  }

  // (ab)(cd) == (ac)(bd)
  lemma MultiplyFour<F(!new)>(f: Field<F>, a: F, b: F, c: F, d: F)
    requires IsField(f) && f.contains(a) && f.contains(b) && f.contains(c) && f.contains(d)
    ensures f.multiply(f.multiply(a, b), f.multiply(c, d)) == f.multiply(f.multiply(a, c), f.multiply(b, d))
  {
    Closed(f, c, d);
    Closed(f, b, d);
    assert Laws(f, a, b, f.multiply(c, d)) && Laws(f, b, c, d) && Laws(f, c, b, d) && Laws(f, a, c, f.multiply(b, d));
  }

  lemma InverseUnique<F(!new)>(f: Field<F>, a: F, b: F)
    requires IsField(f) && f.contains(a) && f.contains(b) && f.multiply(a, b) == f.one
    ensures a != f.zero && b == f.invert(a)
  {
    TimesZero(f, b);
    assert Laws(f, b, b, b);
    var i := f.invert(a);
    assert Laws(f, a, i, b) && Laws(f, i, a, b) && Laws(f, b, f.one, i) && Laws(f, i, f.one, b);
  }

  lemma ProductIsZero<F(!new)>(f: Field<F>, a: F, b: F)
    requires IsField(f) && f.contains(a) && f.contains(b)
    ensures f.multiply(a, b) == f.zero <==> a == f.zero || b == f.zero
  {
    TimesZero(f, a);
    TimesZero(f, b);
    if f.multiply(a, b) == f.zero && a != f.zero {
      var i := f.invert(a);
      assert Laws(f, a, i, b) && Laws(f, i, a, b) && Laws(f, b, f.one, i);
      TimesZero(f, i);
      assert Laws(f, f.one, b, b);
    }
  }

  lemma InverseOfProduct<F(!new)>(f: Field<F>, a: F, b: F)
    requires IsField(f) && f.contains(a) && f.contains(b)
    ensures f.invert(f.multiply(a, b)) == f.multiply(f.invert(a), f.invert(b))
  {
    var i, j := f.invert(a), f.invert(b);
    assert Laws(f, a, b, a) && Laws(f, b, a, a);
    ProductIsZero(f, a, b);
    if a == f.zero {
      TimesZero(f, j);
    } else if b == f.zero {
      TimesZero(f, i);
    } else {
      MultiplyFour(f, a, b, i, j);
      assert Laws(f, f.one, f.one, f.one);
      Closed(f, i, j);
      InverseUnique(f, f.multiply(a, b), f.multiply(i, j));
    }
  }

  // The inverse of one factor from the inverse of the product.
  lemma InverseFromProduct<F(!new)>(f: Field<F>, a: F, b: F)
    requires IsField(f) && f.contains(a) && f.contains(b)
    requires f.invert(f.multiply(a, b)) != f.zero
    ensures f.multiply(b, f.invert(f.multiply(a, b))) == f.invert(a)
    ensures f.multiply(a, f.invert(f.multiply(a, b))) == f.invert(b)
  {
    var i, j := f.invert(a), f.invert(b);
    InverseOfProduct(f, a, b);
    Closed(f, a, b);
    Closed(f, b, a);
    ProductIsZero(f, i, j);
    assert Laws(f, a, b, a) && Laws(f, b, a, a) && Laws(f, i, j, a) && Laws(f, j, i, a);
    assert Laws(f, a, i, j) && Laws(f, b, j, i) && Laws(f, f.one, i, j) && Laws(f, f.one, j, i);
    assert Laws(f, i, f.one, j) && Laws(f, j, f.one, i);
  }

  // ----- Inverting many elements with one inversion -----

  method PairProducts<F(==, 0, !new)>(f: Field<F>, a: array<F>) returns (vec: array<F>)
    requires IsField(f) && forall i :: 0 <= i < a.Length ==> f.contains(a[i])
    requires a.Length > 1
    ensures fresh(vec) && vec.Length == (a.Length + 1) / 2
    ensures forall k :: 0 <= k < a.Length / 2 ==> vec[k] == f.multiply(a[2 * k], a[2 * k + 1])
    ensures a.Length % 2 == 1 ==> vec[a.Length / 2] == a[a.Length - 1]
    ensures forall k :: 0 <= k < vec.Length ==> f.contains(vec[k])
  {
    hide IsField;
    var n := a.Length;
    var products: seq<F> := [];
    for i := 0 to n / 2
      invariant |products| == i
      invariant forall k :: 0 <= k < i ==> products[k] == f.multiply(a[2 * k], a[2 * k + 1]) && f.contains(products[k])
    {
      Closed(f, a[2 * i], a[2 * i + 1]);
      products := products + [f.multiply(a[2 * i], a[2 * i + 1])];
    }
    if n % 2 == 1 {
      products := products + [a[n - 1]];
    }
    vec := new F[|products|](i requires 0 <= i < |products| => products[i]);
  }

  // x and y become their inverses, given the inverse of their product.
  method SplitInverse<F(==, 0, !new)>(f: Field<F>, a: array<F>, i: nat, inverse: F)
    requires IsField(f) && i + 1 < a.Length && f.contains(a[i]) && f.contains(a[i + 1])
    requires inverse == f.invert(f.multiply(a[i], a[i + 1]))
    modifies a
    ensures a[..] == old(a[..])[i := f.invert(old(a[i]))][i + 1 := f.invert(old(a[i + 1]))]
  {
    if inverse == f.zero {
      a[i] := f.invert(a[i]);
      a[i + 1] := f.invert(a[i + 1]);
    } else {
      InverseFromProduct(f, a[i], a[i + 1]);
      a[i], a[i + 1] := a[i + 1], a[i];
      a[i] := f.multiply(a[i], inverse);
      a[i + 1] := f.multiply(a[i + 1], inverse);
    }
  }

  // Every element of the array is replaced by its inverse; zeros stay zero.
  method ParallelInvert<F(==, 0, !new)>(f: Field<F>, a: array<F>)
    requires IsField(f) && forall i :: 0 <= i < a.Length ==> f.contains(a[i])
    modifies a
    ensures forall i :: 0 <= i < a.Length ==> a[i] == f.invert(old(a[i]))
    decreases a.Length
  {
    hide IsField;
    var n := a.Length;
    if n == 1 {
      a[0] := f.invert(a[0]);
    } else if n > 1 {
      var vec := PairProducts(f, a);
      ghost var products := vec[..];
      ParallelInvert(f, vec);
      for i := 0 to n / 2
        invariant forall k :: 0 <= k < vec.Length ==> vec[k] == f.invert(products[k])
        invariant forall k :: 0 <= k < 2 * i ==> a[k] == f.invert(old(a[k]))
        invariant forall k :: 2 * i <= k < n ==> a[k] == old(a[k])
      {
        SplitInverse(f, a, 2 * i, vec[i]);
      }
      if n % 2 == 1 {
        a[n - 1] := vec[n / 2];
      }
    }
  }
}
