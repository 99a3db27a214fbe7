/** The wrappers in ecp.cpp that move a point into Montgomery representation, multiply there and move
    the result back. */
module MontgomeryCurve {
  import opened Bits
  import opened FieldArithmetic
  import opened EllipticCurve
  import Groups = AbelianGroup
  import Simultaneous = SimultaneousMultiplication
  import Ecp = EcpMultiplication

  // A curve over plain residues, the same curve over Montgomery representatives, and the maps between the fields.
  datatype Conversion<!F> = Conversion(plain: Curve<F>, montgomery: Curve<F>, convertIn: F -> F, convertOut: F -> F)

  ghost predicate ConvertsAt<F>(v: Conversion<F>, a: F, b: F) {
    var f, g := v.plain.field, v.montgomery.field;
    && (f.contains(a) ==> g.contains(v.convertIn(a)) && v.convertOut(v.convertIn(a)) == a)
    && (g.contains(a) ==> f.contains(v.convertOut(a)) && v.convertIn(v.convertOut(a)) == a)
    && (f.contains(a) && f.contains(b) ==>
          && v.convertIn(f.add(a, b)) == g.add(v.convertIn(a), v.convertIn(b))
          && v.convertIn(f.multiply(a, b)) == g.multiply(v.convertIn(a), v.convertIn(b)))
  }

  // The maps are inverse to each other and keep sums, products and the curve.
  ghost predicate IsConversion<F(!new)>(v: Conversion<F>) {
    && IsCurve(v.plain) && IsField(v.montgomery.field)
    && v.montgomery.a == v.convertIn(v.plain.a) && v.montgomery.b == v.convertIn(v.plain.b)
    && forall a, b :: ConvertsAt(v, a, b)
  }

  // ----- The other field operations are kept too -----

  lemma ConvertZeroOne<F(!new)>(v: Conversion<F>)
    requires IsConversion(v)
    ensures v.convertIn(v.plain.field.zero) == v.montgomery.field.zero
    ensures v.convertIn(v.plain.field.one) == v.montgomery.field.one
  {
    var f, g := v.plain.field, v.montgomery.field;
    var z, o := v.convertIn(f.zero), v.convertIn(f.one);
    assert FieldArithmetic.Laws(f, f.zero, f.zero, f.zero) && FieldArithmetic.Laws(f, f.one, f.one, f.one);
    assert ConvertsAt(v, f.zero, f.zero) && ConvertsAt(v, f.one, f.one) && ConvertsAt(v, z, z) && ConvertsAt(v, o, o);
    assert FieldArithmetic.Laws(g, z, g.zero, z) && FieldArithmetic.Laws(g, g.zero, z, z);
    AddCancel(g, z, g.zero, z);
    // o is a preimage of one times one
    var p := v.convertOut(g.one);
    assert FieldArithmetic.Laws(g, g.one, o, g.one) && FieldArithmetic.Laws(g, o, g.one, o);
    assert ConvertsAt(v, g.one, g.one) && ConvertsAt(v, p, f.one);
    assert FieldArithmetic.Laws(f, p, f.one, p);
  }

  lemma ConvertNegate<F(!new)>(v: Conversion<F>, a: F)
    requires IsConversion(v) && v.plain.field.contains(a)
    ensures v.convertIn(v.plain.field.negate(a)) == v.montgomery.field.negate(v.convertIn(a))
  {
    var f, g := v.plain.field, v.montgomery.field;
    var n := f.negate(a);
    var a', n' := v.convertIn(a), v.convertIn(n);
    assert FieldArithmetic.Laws(f, a, n, a);
    assert ConvertsAt(v, a, n) && ConvertsAt(v, n, a);
    ConvertZeroOne(v);
    var m := g.negate(a');
    assert FieldArithmetic.Laws(g, a', n', a') && FieldArithmetic.Laws(g, m, a', a') && FieldArithmetic.Laws(g, n', a', a');
    AddCancel(g, n', m, a');
  }

  lemma ConvertInvert<F(!new)>(v: Conversion<F>, a: F)
    requires IsConversion(v) && v.plain.field.contains(a)
    ensures v.convertIn(v.plain.field.invert(a)) == v.montgomery.field.invert(v.convertIn(a))
  {
    var f, g := v.plain.field, v.montgomery.field;
    ConvertZeroOne(v);
    assert FieldArithmetic.Laws(f, a, a, a) && FieldArithmetic.Laws(g, g.zero, g.zero, g.zero);
    var i := f.invert(a);
    assert ConvertsAt(v, a, i) && ConvertsAt(v, i, a);
    if a != f.zero {
      InverseUnique(g, v.convertIn(a), v.convertIn(i));
    }
  }

  lemma ConvertOperations<F(!new)>(v: Conversion<F>, a: F, b: F)
    requires IsConversion(v) && v.plain.field.contains(a) && v.plain.field.contains(b)
    ensures var f, g, i := v.plain.field, v.montgomery.field, v.convertIn;
            && i(f.add(a, b)) == g.add(i(a), i(b))
            && i(f.multiply(a, b)) == g.multiply(i(a), i(b))
            && i(f.Subtract(a, b)) == g.Subtract(i(a), i(b))
            && i(f.Divide(a, b)) == g.Divide(i(a), i(b))
            && i(f.Square(a)) == g.Square(i(a)) && i(f.Double(a)) == g.Double(i(a))
            && (i(a) == i(b) <==> a == b) && g.contains(i(a))
  {
    var f := v.plain.field;
    Closed(f, b, b);
    ConvertNegate(v, b);
    ConvertInvert(v, b);
    assert ConvertsAt(v, a, b) && ConvertsAt(v, a, a) && ConvertsAt(v, b, b);
    assert ConvertsAt(v, a, f.negate(b)) && ConvertsAt(v, a, f.invert(b));
  }

  // ----- Points -----

  function ConvertPoint<F>(convert: F -> F, P: Point<F>): Point<F> {
    if P.Identity? then P else Affine(convert(P.x), convert(P.y))
  }

  lemma ConvertOnCurve<F(!new)>(v: Conversion<F>, P: Point<F>)
    requires IsConversion(v) && InField(v.plain, P)
    ensures OnCurve(v.montgomery, ConvertPoint(v.convertIn, P)) <==> OnCurve(v.plain, P)
    ensures InField(v.montgomery, ConvertPoint(v.convertIn, P))
    ensures ConvertPoint(v.convertOut, ConvertPoint(v.convertIn, P)) == P
  {
    if P.Affine? {
      var f, c := v.plain.field, v.plain;
      var xx := f.Square(P.x);
      Closed(f, P.x, P.x);
      Closed(f, P.y, P.y);
      Closed(f, xx, c.a);
      var n := f.add(xx, c.a);
      Closed(f, n, P.x);
      var left := f.add(f.multiply(n, P.x), c.b);
      Closed(f, f.multiply(n, P.x), c.b);
      ConvertOperations(v, P.x, P.x);
      ConvertOperations(v, P.y, P.y);
      ConvertOperations(v, xx, c.a);
      ConvertOperations(v, n, P.x);
      ConvertOperations(v, f.multiply(n, P.x), c.b);
      ConvertOperations(v, left, f.Square(P.y));
      assert ConvertsAt(v, P.x, P.x) && ConvertsAt(v, P.y, P.y);
    }
  }

  lemma ConvertBack<F(!new)>(v: Conversion<F>, P: Point<F>)
    requires IsConversion(v) && OnCurve(v.montgomery, P)
    ensures OnCurve(v.plain, ConvertPoint(v.convertOut, P))
    ensures ConvertPoint(v.convertIn, ConvertPoint(v.convertOut, P)) == P
  {
    if P.Affine? {
      assert ConvertsAt(v, P.x, P.x) && ConvertsAt(v, P.y, P.y);
    }
    ConvertOnCurve(v, ConvertPoint(v.convertOut, P));
  }

  lemma ConvertThroughSlope<F(!new)>(v: Conversion<F>, t: F, P: Point<F>, x2: F)
    requires IsConversion(v) && v.plain.field.contains(t) && InField(v.plain, P) && P.Affine? && v.plain.field.contains(x2)
    ensures ConvertPoint(v.convertIn, ThroughSlope(v.plain, t, P, x2))
         == ThroughSlope(v.montgomery, v.convertIn(t), ConvertPoint(v.convertIn, P), v.convertIn(x2))
  {
    var f := v.plain.field;
    Closed(f, t, t);
    Closed(f, f.Square(t), P.x);
    Closed(f, f.Subtract(f.Square(t), P.x), x2);
    var x := f.Subtract(f.Subtract(f.Square(t), P.x), x2);
    Closed(f, P.x, x);
    Closed(f, t, f.Subtract(P.x, x));
    ConvertOperations(v, t, t);
    ConvertOperations(v, f.Square(t), P.x);
    ConvertOperations(v, f.Subtract(f.Square(t), P.x), x2);
    ConvertOperations(v, P.x, x);
    ConvertOperations(v, t, f.Subtract(P.x, x));
    ConvertOperations(v, f.multiply(t, f.Subtract(P.x, x)), P.y);
  }

  lemma ConvertDouble<F(!new)>(v: Conversion<F>, P: Point<F>)
    requires IsConversion(v) && InField(v.plain, P)
    ensures ConvertPoint(v.convertIn, DoublePoint(v.plain, P)) == DoublePoint(v.montgomery, ConvertPoint(v.convertIn, P))
  {
    if P.Affine? {
      var c, f := v.plain, v.plain.field;
      ConvertZeroOne(v);
      Closed(f, P.y, P.y);
      ConvertOperations(v, P.y, P.y);
      ConvertOperations(v, P.y, f.zero);
      if P.y != f.zero {
        var xx := f.Square(P.x);
        Closed(f, P.x, P.x);
        Closed(f, xx, xx);
        Closed(f, f.Double(xx), xx);
        var n := f.add(f.add(f.Double(xx), xx), c.a);
        Closed(f, f.add(f.Double(xx), xx), c.a);
        ConvertOperations(v, P.x, P.x);
        ConvertOperations(v, xx, xx);
        ConvertOperations(v, f.Double(xx), xx);
        ConvertOperations(v, f.add(f.Double(xx), xx), c.a);
        ConvertOperations(v, n, f.Double(P.y));
        SlopeClosed(c, P);
        ConvertThroughSlope(v, TangentSlope(c, P), P, P.x);
      }
    }
  }

  lemma ConvertAdd<F(!new)>(v: Conversion<F>, P: Point<F>, Q: Point<F>)
    requires IsConversion(v) && InField(v.plain, P) && InField(v.plain, Q)
    ensures ConvertPoint(v.convertIn, AddPoints(v.plain, P, Q))
         == AddPoints(v.montgomery, ConvertPoint(v.convertIn, P), ConvertPoint(v.convertIn, Q))
  {
    if P.Affine? && Q.Affine? {
      var f := v.plain.field;
      ConvertOperations(v, P.x, Q.x);
      ConvertOperations(v, P.y, Q.y);
      if P.x == Q.x {
        ConvertDouble(v, P);
      } else {
        ConvertOperations(v, Q.y, P.y);
        ConvertOperations(v, Q.x, P.x);
        Closed(f, Q.y, P.y);
        Closed(f, Q.x, P.x);
        var dy, dx := f.Subtract(Q.y, P.y), f.Subtract(Q.x, P.x);
        Closed(f, dy, dx);
        ConvertOperations(v, dy, dx);
        ConvertThroughSlope(v, f.Divide(dy, dx), P, Q.x);
      }
    }
  }

  // The law about chords carries over: the Montgomery curve is a curve.
  lemma MontgomeryIsCurve<F(!new)>(v: Conversion<F>)
    requires IsConversion(v)
    ensures IsCurve(v.montgomery)
  {
    var c, d := v.plain, v.montgomery;
    assert ConvertsAt(v, c.a, c.b) && ConvertsAt(v, c.b, c.a);
    hide ChordLawAt;
    forall P, Q, R
      ensures ChordLawAt(d, P, Q, R)
    {
      ChordLawCarriesOver(v, P, Q, R);
    }
  }

  lemma ChordLawCarriesOver<F(!new)>(v: Conversion<F>, P: Point<F>, Q: Point<F>, R: Point<F>)
    requires IsConversion(v)
    ensures ChordLawAt(v.montgomery, P, Q, R)
  {
    var c, d := v.plain, v.montgomery;
    if OnCurve(d, P) && OnCurve(d, Q) && OnCurve(d, R) {
      var P', Q', R' := ConvertPoint(v.convertOut, P), ConvertPoint(v.convertOut, Q), ConvertPoint(v.convertOut, R);
      assert ChordLawAt(c, P', Q', R');
      ConversionFacts(v);
      hide IsConversion, OnCurve, AddPoints, ConvertPoint, InField;
      ConvertBack(v, P);
      ConvertBack(v, Q);
      ConvertBack(v, R);
      SumOnCurve(c, P', Q');
      SumOnCurve(c, Q', R');
      InFieldIfOnCurve(c, P');
      InFieldIfOnCurve(c, Q');
      InFieldIfOnCurve(c, R');
      InFieldIfOnCurve(c, AddPoints(c, P', Q'));
      InFieldIfOnCurve(c, AddPoints(c, Q', R'));
      ConvertAdd(v, P', Q');
      ConvertAdd(v, Q', R');
      ConvertAdd(v, AddPoints(c, P', Q'), R');
      ConvertAdd(v, P', AddPoints(c, Q', R'));
    }
  }

  lemma {:induction false} ConvertMul<F(!new)>(v: Conversion<F>, k: nat, P: Point<F>)
    requires IsConversion(v) && OnCurve(v.plain, P)
    ensures ConvertPoint(v.convertIn, Groups.Mul(CurveGroup(v.plain), k, P))
         == Groups.Mul(CurveGroup(v.montgomery), k, ConvertPoint(v.convertIn, P))
    ensures OnCurve(v.plain, Groups.Mul(CurveGroup(v.plain), k, P))
  {
    hide Groups.IsAbelianGroup, OnCurve, IsConversion;
    ConversionFacts(v);
    CurveIsGroup(v.plain);
    Groups.MulContained(CurveGroup(v.plain), k, P);
    if k > 0 {
      ConvertMul(v, k - 1, P);
      InFieldIfOnCurve(v.plain, P);
      InFieldIfOnCurve(v.plain, Groups.Mul(CurveGroup(v.plain), k - 1, P));
      ConvertAdd(v, Groups.Mul(CurveGroup(v.plain), k - 1, P), P);
    }
  }

  lemma ConversionFacts<F(!new)>(v: Conversion<F>)
    requires IsConversion(v)
    ensures IsCurve(v.plain) && IsField(v.montgomery.field)
    ensures IsField(v.plain.field) && v.plain.field.contains(v.plain.a) && v.plain.field.contains(v.plain.b)
  {
  }

  lemma InFieldIfOnCurve<F>(c: Curve<F>, P: Point<F>)
    requires OnCurve(c, P)
    ensures InField(c, P)
  {
  }

  // ----- The operations on a curve in plain representation -----

  method SimultaneousMultiply<F(==, 0, !new)>(v: Conversion<F>, P: Point<F>, exps: seq<nat>) returns (results: seq<Point<F>>)
    requires IsConversion(v) && OnCurve(v.plain, P)
    requires forall i :: 0 <= i < |exps| ==> exps[i] > 0
    ensures |results| == |exps|
    ensures forall i :: 0 <= i < |exps| ==> results[i] == Groups.Mul(CurveGroup(v.plain), exps[i], P)
  {
    hide IsConversion, OnCurve, Groups.Mul, CurveGroup;
    ConversionFacts(v);
    MontgomeryIsCurve(v);
    InFieldIfOnCurve(v.plain, P);
    ConvertOnCurve(v, P);
    var inside := Ecp.SimultaneousMultiply(v.montgomery, ConvertPoint(v.convertIn, P), exps);
    results := [];
    for i := 0 to |exps|
      invariant |results| == i
      invariant forall k :: 0 <= k < i ==> results[k] == Groups.Mul(CurveGroup(v.plain), exps[k], P)
    {
      ConvertMul(v, exps[i], P);
      InFieldIfOnCurve(v.plain, Groups.Mul(CurveGroup(v.plain), exps[i], P));
      ConvertOnCurve(v, Groups.Mul(CurveGroup(v.plain), exps[i], P));
      results := results + [ConvertPoint(v.convertOut, inside[i])];
    }
  }

  method ScalarMultiply<F(==, 0, !new)>(v: Conversion<F>, P: Point<F>, k: nat) returns (result: Point<F>)
    requires IsConversion(v) && OnCurve(v.plain, P)
    ensures result == Groups.Mul(CurveGroup(v.plain), k, P)
  {
    hide Groups.Mul, Groups.IsAbelianGroup;
    CurveIsGroup(v.plain);
    var results;
    if BitCount(k) <= 5 {
      results := Simultaneous.SimultaneousMultiply(CurveGroup(v.plain), P, [k]);
    } else {
      results := SimultaneousMultiply(v, P, [k]);
    }
    result := results[0];
  }

  method CascadeScalarMultiply<F(==, 0, !new)>(v: Conversion<F>, P: Point<F>, k1: nat, Q: Point<F>, k2: nat)
    returns (result: Point<F>)
    requires IsConversion(v) && OnCurve(v.plain, P) && OnCurve(v.plain, Q)
    ensures result == AddPoints(v.plain, Groups.Mul(CurveGroup(v.plain), k1, P), Groups.Mul(CurveGroup(v.plain), k2, Q))
  {
    hide IsConversion, OnCurve, Groups.Mul, Groups.IsAbelianGroup, AddPoints;
    ConversionFacts(v);
    MontgomeryIsCurve(v);
    InFieldIfOnCurve(v.plain, P);
    InFieldIfOnCurve(v.plain, Q);
    ConvertOnCurve(v, P);
    ConvertOnCurve(v, Q);
    var inside := Ecp.CascadeScalarMultiply(v.montgomery, ConvertPoint(v.convertIn, P), k1, ConvertPoint(v.convertIn, Q), k2);
    ghost var m, n := Groups.Mul(CurveGroup(v.plain), k1, P), Groups.Mul(CurveGroup(v.plain), k2, Q);
    ConvertMul(v, k1, P);
    ConvertMul(v, k2, Q);
    InFieldIfOnCurve(v.plain, m);
    InFieldIfOnCurve(v.plain, n);
    ConvertAdd(v, m, n);
    SumOnCurve(v.plain, m, n);
    InFieldIfOnCurve(v.plain, AddPoints(v.plain, m, n));
    ConvertOnCurve(v, AddPoints(v.plain, m, n));
    result := ConvertPoint(v.convertOut, inside);
  }
}
