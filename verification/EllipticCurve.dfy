/** The curve y^2 = x^3 + a*x + b of ecp.cpp: its points, and the chained projective doubling that
    the fast multiplication of EcpMultiply.dfy runs on. */
module EllipticCurve {
  import opened FieldArithmetic
  import Groups = AbelianGroup

  datatype Curve<!F> = Curve(field: Field<F>, a: F, b: F)

  datatype Point<+F> = Identity | Affine(x: F, y: F)

  predicate InField<F>(c: Curve<F>, P: Point<F>) {
    P.Affine? ==> c.field.contains(P.x) && c.field.contains(P.y)
  }

  predicate OnCurve<F(==)>(c: Curve<F>, P: Point<F>) {
    var f := c.field;
    InField(c, P) &&
    (P.Affine? ==> f.add(f.multiply(f.add(f.Square(P.x), c.a), P.x), c.b) == f.Square(P.y))
  }

  function InversePoint<F>(c: Curve<F>, P: Point<F>): Point<F> {
    if P.Identity? then P else Affine(P.x, c.field.negate(P.y))
  }

  function ThroughSlope<F>(c: Curve<F>, t: F, P: Point<F>, x2: F): Point<F>
    requires P.Affine?
  {
    var f := c.field;
    var x := f.Subtract(f.Subtract(f.Square(t), P.x), x2);
    Affine(x, f.Subtract(f.multiply(t, f.Subtract(P.x, x)), P.y))
  }

  function TangentSlope<F>(c: Curve<F>, P: Point<F>): F
    requires P.Affine?
  {
    var f := c.field;
    var xx := f.Square(P.x);
    f.Divide(f.add(f.add(f.Double(xx), xx), c.a), f.Double(P.y))
  }

  function DoublePoint<F(==)>(c: Curve<F>, P: Point<F>): Point<F> {
    if P.Identity? || P.y == c.field.zero then Identity
    else ThroughSlope(c, TangentSlope(c, P), P, P.x)
  }

  function AddPoints<F(==)>(c: Curve<F>, P: Point<F>, Q: Point<F>): Point<F> {
    var f := c.field;
    if P.Identity? then Q
    else if Q.Identity? then P
    else if P.x == Q.x then if P.y == Q.y then DoublePoint(c, P) else Identity
    else ThroughSlope(c, f.Divide(f.Subtract(Q.y, P.y), f.Subtract(Q.x, P.x)), P, Q.x)
  }

  function CurveGroup<F(==)>(c: Curve<F>): Groups.Group<Point<F>> {
    Groups.Group(P => OnCurve(c, P), Identity, (P, Q) => AddPoints(c, P, Q), P => InversePoint(c, P), P => DoublePoint(c, P), true)
  }

  // ----- The points form a group -----

  // The classical theorem about chords and tangents on a curve without singular points: addition associates.
  // It is a fact about the curve, not about this program; everything else about the group is proved here.
  ghost predicate ChordLawAt<F>(c: Curve<F>, P: Point<F>, Q: Point<F>, R: Point<F>) {
    OnCurve(c, P) && OnCurve(c, Q) && OnCurve(c, R) ==>
      AddPoints(c, AddPoints(c, P, Q), R) == AddPoints(c, P, AddPoints(c, Q, R))
  }

  ghost predicate IsCurve<F(!new)>(c: Curve<F>) {
    && IsField(c.field) && c.field.contains(c.a) && c.field.contains(c.b)
    && forall P, Q, R :: ChordLawAt(c, P, Q, R)
  }

  lemma NegateSquare<F(!new)>(f: Field<F>, y: F)
    requires IsField(f) && f.contains(y)
    ensures f.Square(f.negate(y)) == f.Square(y)
  {
    Closed(f, y, y);
    var n := f.negate(y);
    NegateOfProduct(f, n, y);
    NegateOfProduct(f, y, y);
    MultiplyCommutes(f, n, y);
    DoubleNegate(f, f.multiply(y, y));
  }

  lemma InverseOnCurve<F(!new)>(c: Curve<F>, P: Point<F>)
    requires IsCurve(c) && OnCurve(c, P)
    ensures OnCurve(c, InversePoint(c, P)) && AddPoints(c, P, InversePoint(c, P)) == Identity
  {
    if P.Affine? {
      var f := c.field;
      Closed(f, P.y, P.y);
      NegateSquare(f, P.y);
      if P.y == f.negate(P.y) {
        assert FieldArithmetic.Laws(f, P.y, P.y, P.y);
        DoubleIsZero(f, P.y);
      }
    }
  }

  // The chord's slope does not depend on the order of the points.
  lemma SlopeSymmetric<F(!new)>(f: Field<F>, dy: F, dx: F)
    requires IsField(f) && f.contains(dy) && f.contains(dx)
    ensures f.Divide(f.negate(dy), f.negate(dx)) == f.Divide(dy, dx)
  {
    Closed(f, dx, dx);
    var i := f.invert(dx);
    if dx == f.zero {
      assert FieldArithmetic.Laws(f, dx, dx, dx);
      NegateZero(f);
      TimesZero(f, dy);
      Closed(f, dy, dy);
      TimesZero(f, f.negate(dy));
    } else {
      NegateOfProduct(f, f.negate(dx), i);
      MultiplyCommutes(f, f.negate(dx), i);
      NegateOfProduct(f, i, dx);
      MultiplyCommutes(f, i, dx);
      assert FieldArithmetic.Laws(f, dx, dx, dx);
      Closed(f, f.one, i);
      DoubleNegate(f, f.one);
      Closed(f, i, i);
      InverseUnique(f, f.negate(dx), f.negate(i));
      Closed(f, dy, dy);
      NegateOfProduct(f, f.negate(dy), i);
      MultiplyCommutes(f, f.negate(dy), i);
      NegateOfProduct(f, i, dy);
      MultiplyCommutes(f, i, dy);
      Closed(f, dy, i);
      DoubleNegate(f, f.multiply(dy, i));
    }
  }

  lemma SubtractSwap<F(!new)>(f: Field<F>, a: F, b: F)
    requires IsField(f) && f.contains(a) && f.contains(b)
    ensures f.Subtract(b, a) == f.negate(f.Subtract(a, b))
  {
    Closed(f, a, b);
    Closed(f, b, a);
    var d, e := f.Subtract(a, b), f.Subtract(b, a);
    AddThenSubtract(f, a, b);
    AddThenSubtract(f, b, a);
    var L := FieldArithmetic.Laws(f, d, b, e);
    assert FieldArithmetic.Laws(f, e, a, d) && FieldArithmetic.Laws(f, e, d, b) && FieldArithmetic.Laws(f, d, e, b);
    // e + (d + b) == e + a == b, so e + d == 0
    assert f.add(f.add(e, d), b) == b;
    assert FieldArithmetic.Laws(f, f.zero, b, b) && FieldArithmetic.Laws(f, b, f.zero, b);
    Closed(f, e, d);
    AddCancel(f, f.add(e, d), f.zero, b);
    var n := f.negate(d);
    assert FieldArithmetic.Laws(f, n, d, d) && FieldArithmetic.Laws(f, d, n, d);
    AddCancel(f, e, n, d);
  }

  // a - b - c == a - c - b
  lemma SubtractTwice<F(!new)>(f: Field<F>, a: F, b: F, c: F)
    requires IsField(f) && f.contains(a) && f.contains(b) && f.contains(c)
    ensures f.Subtract(f.Subtract(a, b), c) == f.Subtract(f.Subtract(a, c), b)
  {
    Closed(f, b, c);
    Closed(f, c, b);
    var m, n := f.negate(b), f.negate(c);
    assert FieldArithmetic.Laws(f, a, m, n) && FieldArithmetic.Laws(f, a, n, m) && FieldArithmetic.Laws(f, m, n, a);
  }

  lemma AddCommutes<F(!new)>(c: Curve<F>, P: Point<F>, Q: Point<F>)
    requires IsCurve(c) && OnCurve(c, P) && OnCurve(c, Q)
    ensures AddPoints(c, P, Q) == AddPoints(c, Q, P)
  {
    if P.Affine? && Q.Affine? && P.x != Q.x {
      var f := c.field;
      var dy, dx := f.Subtract(Q.y, P.y), f.Subtract(Q.x, P.x);
      Closed(f, Q.y, P.y);
      Closed(f, Q.x, P.x);
      SubtractSwap(f, Q.y, P.y);
      SubtractSwap(f, Q.x, P.x);
      SlopeSymmetric(f, dy, dx);
      Closed(f, dy, dx);
      var t := f.Divide(dy, dx);
      Closed(f, t, t);
      SubtractTwice(f, f.Square(t), P.x, Q.x);
      Closed(f, f.Square(t), P.x);
      var x := f.Subtract(f.Subtract(f.Square(t), P.x), Q.x);
      Closed(f, f.Subtract(f.Square(t), P.x), Q.x);
      SlopeTimesRun(f, dy, dx, Q.x, P.x);
      SameLine(f, t, P.x, P.y, Q.x, Q.y, x);
    }
  }

  lemma SlopeTimesRun<F(!new)>(f: Field<F>, dy: F, dx: F, x2: F, x1: F)
    requires IsField(f) && f.contains(dy) && f.contains(x1) && f.contains(x2) && dx == f.Subtract(x2, x1) && x1 != x2
    ensures f.multiply(f.Divide(dy, dx), dx) == dy
  {
    Closed(f, x2, x1);
    if dx == f.zero { SubtractIsZero(f, x2, x1); }
    DivideThenMultiply(f, dy, dx);
  }

  lemma DivideThenMultiply<F(!new)>(f: Field<F>, a: F, d: F)
    requires IsField(f) && f.contains(a) && f.contains(d) && d != f.zero
    ensures f.multiply(f.Divide(a, d), d) == a
  {
    Closed(f, d, d);
    MultiplyAssociates(f, a, f.invert(d), d);
    MultiplyCommutes(f, f.invert(d), d);
    assert FieldArithmetic.Laws(f, d, d, d) && FieldArithmetic.Laws(f, a, a, a);
  }

  // t(x1 - x) - y1 == t(x2 - x) - y2 when t(x2 - x1) == y2 - y1
  lemma SameLine<F(!new)>(f: Field<F>, t: F, x1: F, y1: F, x2: F, y2: F, x: F)
    requires IsField(f) && f.contains(t) && f.contains(x1) && f.contains(y1) && f.contains(x2) && f.contains(y2) && f.contains(x)
    requires f.multiply(t, f.Subtract(x2, x1)) == f.Subtract(y2, y1)
    ensures f.Subtract(f.multiply(t, f.Subtract(x1, x)), y1) == f.Subtract(f.multiply(t, f.Subtract(x2, x)), y2)
  {
    Closed(f, x1, x);
    Closed(f, x2, x);
    Closed(f, x2, x1);
    Closed(f, y2, y1);
    Closed(f, t, f.Subtract(x1, x));
    var u, v, d, e := f.multiply(t, f.Subtract(x1, x)), f.multiply(t, f.Subtract(x2, x)), f.Subtract(y2, y1), f.Subtract(x2, x1);
    // (x2 - x1) + (x1 - x) == x2 - x
    assert f.add(e, f.Subtract(x1, x)) == f.Subtract(x2, x) by {
      AddThenSubtract(f, x2, x1);
      Closed(f, x, x);
      assert FieldArithmetic.Laws(f, e, x1, f.negate(x));
    }
    assert FieldArithmetic.Laws(f, t, e, f.Subtract(x1, x));
    assert v == f.add(d, u);
    // d + u - y2 == u - y1
    AddThenSubtract(f, y2, y1);
    var m, n := f.negate(y1), f.negate(y2);
    Closed(f, y1, y2);
    Closed(f, y2, y1);
    assert f.add(d, n) == m by {
      assert FieldArithmetic.Laws(f, y2, m, n) && FieldArithmetic.Laws(f, m, n, y2) && FieldArithmetic.Laws(f, n, y2, m);
      assert FieldArithmetic.Laws(f, m, y2, n) && FieldArithmetic.Laws(f, y2, n, m);
    }
    assert FieldArithmetic.Laws(f, d, u, n) && FieldArithmetic.Laws(f, u, d, n);
  }

  // ----- Sums of points stay on the curve -----

  // (a + b) + (p + q) == (a + p) + (b + q)
  lemma AddFour<F(!new)>(f: Field<F>, a: F, b: F, p: F, q: F)
    requires IsField(f) && f.contains(a) && f.contains(b) && f.contains(p) && f.contains(q)
    ensures f.add(f.add(a, b), f.add(p, q)) == f.add(f.add(a, p), f.add(b, q))
  {
    Closed(f, p, q);
    Closed(f, b, q);
    assert FieldArithmetic.Laws(f, a, b, f.add(p, q)) && FieldArithmetic.Laws(f, b, p, q);
    assert FieldArithmetic.Laws(f, p, b, q) && FieldArithmetic.Laws(f, a, p, f.add(b, q));
  }

  // (p + e) (q + e) == p q + e ((p + q) + e)
  lemma ShiftedProduct<F(!new)>(f: Field<F>, p: F, q: F, e: F)
    requires IsField(f) && f.contains(p) && f.contains(q) && f.contains(e)
    ensures f.multiply(f.add(p, e), f.add(q, e)) == f.add(f.multiply(p, q), f.multiply(e, f.add(f.add(p, q), e)))
  {
    Closed(f, p, q);
    Closed(f, q, e);
    Closed(f, p, e);
    Closed(f, e, f.add(q, e));
    DistributeAdd(f, p, e, f.add(q, e));
    assert FieldArithmetic.Laws(f, p, q, e) && FieldArithmetic.Laws(f, e, p, f.add(q, e));
    MultiplyCommutes(f, p, e);
    assert FieldArithmetic.Laws(f, f.multiply(p, q), f.multiply(e, p), f.multiply(e, f.add(q, e)));
  }

  // (a + b)^2 == a^2 + b (2a + b)
  lemma SquareOfSum<F(!new)>(f: Field<F>, a: F, b: F)
    requires IsField(f) && f.contains(a) && f.contains(b)
    ensures f.Square(f.add(a, b)) == f.add(f.Square(a), f.multiply(b, f.add(f.Double(a), b)))
  {
    ShiftedProduct(f, a, a, b);
  }

  function RightSide<F>(c: Curve<F>, x: F): F {
    c.field.add(c.field.multiply(c.field.add(c.field.Square(x), c.a), x), c.b)
  }

  // What the curve's right side and the squared line rise by from x to x + u, each divided by u.
  function CurveRise<F>(c: Curve<F>, x: F, u: F): F {
    var f := c.field;
    f.add(f.add(f.Square(x), c.a), f.multiply(f.add(f.Double(x), u), f.add(x, u)))
  }

  function LineRise<F>(f: Field<F>, t: F, y: F, u: F): F {
    f.multiply(t, f.add(f.Double(y), f.multiply(t, u)))
  }

  lemma RisesClosed<F(!new)>(c: Curve<F>, t: F, x: F, y: F, u: F)
    requires IsField(c.field) && c.field.contains(c.a) && c.field.contains(c.b)
    requires c.field.contains(t) && c.field.contains(x) && c.field.contains(y) && c.field.contains(u)
    ensures c.field.contains(CurveRise(c, x, u)) && c.field.contains(LineRise(c.field, t, y, u))
    ensures c.field.contains(RightSide(c, x))
  {
    var f := c.field;
    Closed(f, x, x);
    Closed(f, y, y);
    Closed(f, f.Square(x), c.a);
    Closed(f, f.add(f.Square(x), c.a), x);
    Closed(f, f.multiply(f.add(f.Square(x), c.a), x), c.b);
    Closed(f, f.Double(x), u);
    Closed(f, x, u);
    Closed(f, f.add(f.Double(x), u), f.add(x, u));
    Closed(f, f.add(f.Square(x), c.a), f.multiply(f.add(f.Double(x), u), f.add(x, u)));
    Closed(f, t, u);
    Closed(f, f.Double(y), f.multiply(t, u));
    Closed(f, t, f.add(f.Double(y), f.multiply(t, u)));
  }

  lemma CurveRises<F(!new)>(c: Curve<F>, x: F, u: F)
    requires IsField(c.field) && c.field.contains(c.a) && c.field.contains(c.b)
    requires c.field.contains(x) && c.field.contains(u)
    ensures RightSide(c, c.field.add(x, u)) == c.field.add(RightSide(c, x), c.field.multiply(u, CurveRise(c, x, u)))
  {
    hide IsField;
    var f := c.field;
    Closed(f, x, x);
    Closed(f, x, u);
    Closed(f, f.Double(x), u);
    Closed(f, f.Square(x), c.a);
    var s, w, v := f.add(f.Square(x), c.a), f.add(f.Double(x), u), f.add(x, u);
    Closed(f, u, w);
    Closed(f, w, v);
    Closed(f, s, x);
    Closed(f, s, f.multiply(w, v));
    Closed(f, u, s);
    Closed(f, u, f.multiply(w, v));
    // (x + u)^2 + a == s + u w
    SquareOfSum(f, x, u);
    SumLaws(f, f.Square(x), f.multiply(u, w), c.a);
    // (s + u w) (x + u) == s x + u (s + w v)
    DistributeAdd(f, s, f.multiply(u, w), v);
    MultiplyAssociates(f, u, w, v);
    LeftDistribute(f, s, x, u);
    MultiplyCommutes(f, s, u);
    SumLaws(f, f.multiply(s, x), f.multiply(u, s), f.multiply(u, f.multiply(w, v)));
    LeftDistribute(f, u, s, f.multiply(w, v));
    Closed(f, u, f.add(s, f.multiply(w, v)));
    SumLaws(f, f.multiply(s, x), f.multiply(u, f.add(s, f.multiply(w, v))), c.b);
  }

  // Both ways to move the last of three summands inward.
  lemma SumLaws<F(!new)>(f: Field<F>, a: F, b: F, d: F)
    requires IsField(f) && f.contains(a) && f.contains(b) && f.contains(d)
    ensures f.add(f.add(a, b), d) == f.add(a, f.add(b, d)) == f.add(f.add(a, d), b)
  {
    assert FieldArithmetic.Laws(f, a, b, d) && FieldArithmetic.Laws(f, a, d, b) && FieldArithmetic.Laws(f, b, d, a);
  }

  lemma LeftDistribute<F(!new)>(f: Field<F>, a: F, b: F, d: F)
    requires IsField(f) && f.contains(a) && f.contains(b) && f.contains(d)
    ensures f.multiply(a, f.add(b, d)) == f.add(f.multiply(a, b), f.multiply(a, d))
  {
    assert FieldArithmetic.Laws(f, a, b, d);
  }

  lemma LineRises<F(!new)>(f: Field<F>, t: F, y: F, u: F)
    requires IsField(f) && f.contains(t) && f.contains(y) && f.contains(u)
    ensures f.Square(f.add(y, f.multiply(t, u))) == f.add(f.Square(y), f.multiply(u, LineRise(f, t, y, u)))
  {
    Closed(f, t, u);
    Closed(f, y, y);
    SquareOfSum(f, y, f.multiply(t, u));
    var w := f.add(f.Double(y), f.multiply(t, u));
    Closed(f, f.Double(y), f.multiply(t, u));
    MultiplyCommutes(f, t, u);
    MultiplyAssociates(f, u, t, w);
  }

  // The third intersection: where the rises agree at d, they agree at u if d, u and 3x add up to t^2.
  lemma RisesAgreeAgain<F(!new)>(c: Curve<F>, t: F, x: F, y: F, d: F, u: F)
    requires IsField(c.field) && c.field.contains(c.a) && c.field.contains(c.b)
    requires c.field.contains(t) && c.field.contains(x) && c.field.contains(y) && c.field.contains(d) && c.field.contains(u)
    requires CurveRise(c, x, d) == LineRise(c.field, t, y, d)
    requires var f := c.field; f.add(f.add(x, f.add(x, d)), f.add(x, u)) == f.Square(t)
    ensures CurveRise(c, x, u) == LineRise(c.field, t, y, u)
  {
    hide IsField;
    var f := c.field;
    var e := f.Subtract(u, d);
    Closed(f, u, d);
    Closed(f, x, d);
    Closed(f, x, x);
    Closed(f, y, y);
    Closed(f, f.Double(x), d);
    Closed(f, f.Square(x), c.a);
    AddThenSubtract(f, u, d);
    AddCommute(f, e, d);
    var s, p, q := f.add(f.Square(x), c.a), f.add(f.Double(x), d), f.add(x, d);
    Closed(f, p, q);
    Closed(f, t, t);
    Closed(f, e, f.Square(t));
    // the curve: s + (p + e)(q + e) == (s + p q) + e t^2
    SumLaws(f, f.Double(x), d, e);
    SumLaws(f, x, d, e);
    SumLaws(f, x, x, d);
    SumLaws(f, p, q, e);
    ShiftedProduct(f, p, q, e);
    assert f.add(f.add(p, q), e) == f.Square(t);
    SumLaws(f, s, f.multiply(p, q), f.multiply(e, f.Square(t)));
    // the line: t (2y + t (d + e)) == t (2y + t d) + e t^2
    Closed(f, t, d);
    Closed(f, t, e);
    LeftDistribute(f, t, d, e);
    SumLaws(f, f.Double(y), f.multiply(t, d), f.multiply(t, e));
    Closed(f, f.Double(y), f.multiply(t, d));
    LeftDistribute(f, t, f.add(f.Double(y), f.multiply(t, d)), f.multiply(t, e));
    MultiplyAssociates(f, t, t, e);
    MultiplyCommutes(f, f.Square(t), e);
  }

  lemma AddCommute<F(!new)>(f: Field<F>, a: F, b: F)
    requires IsField(f) && f.contains(a) && f.contains(b)
    ensures f.add(a, b) == f.add(b, a)
  {
    assert FieldArithmetic.Laws(f, a, b, a);
  }

  // The third point of a line of slope t through P, reflected.
  lemma ThirdPoint<F(!new)>(c: Curve<F>, t: F, P: Point<F>, d: F)
    requires IsField(c.field) && c.field.contains(c.a) && c.field.contains(c.b)
    requires OnCurve(c, P) && P.Affine? && c.field.contains(t) && c.field.contains(d)
    requires CurveRise(c, P.x, d) == LineRise(c.field, t, P.y, d)
    ensures OnCurve(c, ThroughSlope(c, t, P, c.field.add(P.x, d)))
  {
    hide IsField;
    var f, x, y := c.field, P.x, P.y;
    var x2 := f.add(x, d);
    Closed(f, x, d);
    SlopePointClosed(c, t, P, x2);
    var R := ThroughSlope(c, t, P, x2);
    var u := f.Subtract(R.x, x);
    Closed(f, R.x, x);
    AddThenSubtract(f, R.x, x);
    AddCommute(f, u, x);
    // x3 + x2 + x == t^2
    Closed(f, t, t);
    Closed(f, f.Square(t), x);
    AddThenSubtract(f, f.Square(t), x);
    AddThenSubtract(f, f.Subtract(f.Square(t), x), x2);
    SumLaws(f, R.x, x2, x);
    Closed(f, x2, x);
    AddCommute(f, x2, x);
    AddCommute(f, R.x, f.add(x, x2));
    RisesAgreeAgain(c, t, x, y, d, u);
    CurveRises(c, x, u);
    LineRises(f, t, y, u);
    // the reflected point
    SubtractSwap(f, R.x, x);
    NegateOfProduct(f, t, u);
    Closed(f, t, u);
    NegateOfSum(f, f.multiply(t, u), y);
    AddCommute(f, f.multiply(t, u), y);
    Closed(f, y, f.multiply(t, u));
    NegateSquare(f, f.add(y, f.multiply(t, u)));
  }

  lemma NegateOfSum<F(!new)>(f: Field<F>, a: F, b: F)
    requires IsField(f) && f.contains(a) && f.contains(b)
    ensures f.Subtract(f.negate(a), b) == f.negate(f.add(a, b))
  {
    hide IsField;
    Closed(f, a, b);
    Closed(f, b, a);
    var m, n, s := f.negate(a), f.negate(b), f.add(a, b);
    Closed(f, s, s);
    Closed(f, m, n);
    AddFour(f, m, n, a, b);
    Cancels(f, a);
    Cancels(f, b);
    Cancels(f, s);
    AddZero(f, f.zero);
    AddCancel(f, f.add(m, n), f.negate(s), s);
  }

  lemma Cancels<F(!new)>(f: Field<F>, a: F)
    requires IsField(f) && f.contains(a)
    ensures f.add(f.negate(a), a) == f.zero && f.contains(f.zero)
  {
    assert FieldArithmetic.Laws(f, a, f.negate(a), a);
  }

  lemma AddZero<F(!new)>(f: Field<F>, a: F)
    requires IsField(f) && f.contains(a)
    ensures f.add(a, f.zero) == a == f.add(f.zero, a)
  {
    assert FieldArithmetic.Laws(f, a, f.zero, a);
  }

  lemma DoubleOnCurve<F(!new)>(c: Curve<F>, P: Point<F>)
    requires IsField(c.field) && c.field.contains(c.a) && c.field.contains(c.b) && OnCurve(c, P)
    ensures OnCurve(c, DoublePoint(c, P))
  {
    hide IsField;
    var f := c.field;
    if P.Affine? && P.y != f.zero {
      var t, x, y := TangentSlope(c, P), P.x, P.y;
      SlopeClosed(c, P);
      Closed(f, x, x);
      Closed(f, y, y);
      DoubleIsZero(f, y);
      var xx := f.Square(x);
      Closed(f, xx, xx);
      Closed(f, xx, c.a);
      Closed(f, f.Double(xx), xx);
      Closed(f, f.add(f.Double(xx), xx), c.a);
      DivideThenMultiply(f, f.add(f.add(f.Double(xx), xx), c.a), f.Double(y));
      // the rises at zero are 3 x^2 + a and t 2y
      AddZero(f, x);
      AddZero(f, f.Double(x));
      AddZero(f, f.Double(y));
      TimesZero(f, t);
      DistributeAdd(f, x, x, x);
      Closed(f, f.Double(xx), c.a);
      SumLaws(f, xx, c.a, f.Double(xx));
      AddCommute(f, xx, f.Double(xx));
      ThirdPoint(c, t, P, f.zero);
    }
  }

  lemma ChordOnCurve<F(!new)>(c: Curve<F>, P: Point<F>, Q: Point<F>)
    requires IsField(c.field) && c.field.contains(c.a) && c.field.contains(c.b)
    requires OnCurve(c, P) && OnCurve(c, Q) && P.Affine? && Q.Affine? && P.x != Q.x
    ensures OnCurve(c, AddPoints(c, P, Q))
  {
    hide IsField;
    var f, x, y := c.field, P.x, P.y;
    Closed(f, Q.x, x);
    Closed(f, Q.y, y);
    var d, dy := f.Subtract(Q.x, x), f.Subtract(Q.y, y);
    Closed(f, dy, d);
    var t := f.Divide(dy, d);
    SlopeTimesRun(f, dy, d, Q.x, x);
    AddThenSubtract(f, Q.x, x);
    AddThenSubtract(f, Q.y, y);
    AddCommute(f, d, x);
    AddCommute(f, dy, y);
    CurveRises(c, x, d);
    LineRises(f, t, y, d);
    RisesClosed(c, t, x, y, d);
    // u A == u B with u not zero
    var A, B := CurveRise(c, x, d), LineRise(f, t, y, d);
    Closed(f, d, A);
    Closed(f, d, B);
    Closed(f, y, y);
    AddCommute(f, f.Square(y), f.multiply(d, A));
    AddCommute(f, f.Square(y), f.multiply(d, B));
    AddCancel(f, f.multiply(d, A), f.multiply(d, B), f.Square(y));
    if d == f.zero { SubtractIsZero(f, Q.x, x); }
    MultiplyCancel(f, d, A, B);
    ThirdPoint(c, t, P, d);
  }

  lemma MultiplyCancel<F(!new)>(f: Field<F>, d: F, a: F, b: F)
    requires IsField(f) && f.contains(d) && f.contains(a) && f.contains(b) && d != f.zero
    requires f.multiply(d, a) == f.multiply(d, b)
    ensures a == b
  {
    Closed(f, d, d);
    var i := f.invert(d);
    MultiplyAssociates(f, i, d, a);
    MultiplyAssociates(f, i, d, b);
    MultiplyCommutes(f, i, d);
    assert FieldArithmetic.Laws(f, d, a, a);
    assert FieldArithmetic.Laws(f, f.one, a, a) && FieldArithmetic.Laws(f, f.one, b, b);
    assert FieldArithmetic.Laws(f, a, f.one, a) && FieldArithmetic.Laws(f, b, f.one, b);
  }

  lemma SumOnCurve<F(!new)>(c: Curve<F>, P: Point<F>, Q: Point<F>)
    requires IsField(c.field) && c.field.contains(c.a) && c.field.contains(c.b)
    requires OnCurve(c, P) && OnCurve(c, Q)
    ensures OnCurve(c, AddPoints(c, P, Q))
  {
    hide IsField;
    if P.Affine? && Q.Affine? {
      if P.x != Q.x {
        ChordOnCurve(c, P, Q);
      } else if P.y == Q.y {
        DoubleOnCurve(c, P);
      }
    }
  }

  // ----- What the sum is: the third point of the line, reflected -----

  // R is on the line of slope t through P, and the x coordinates of the three points add up to t^2.
  lemma ReflectedThroughSlope<F(!new)>(c: Curve<F>, t: F, P: Point<F>, x2: F)
    requires IsField(c.field) && InField(c, P) && P.Affine? && c.field.contains(t) && c.field.contains(x2)
    ensures var f, R := c.field, InversePoint(c, ThroughSlope(c, t, P, x2));
            && InField(c, R)
            && f.Subtract(R.y, P.y) == f.multiply(t, f.Subtract(R.x, P.x))
            && f.add(f.add(P.x, x2), R.x) == f.Square(t)
  {
    hide IsField;
    var f, x := c.field, P.x;
    SlopePointClosed(c, t, P, x2);
    var T := ThroughSlope(c, t, P, x2);
    Closed(f, T.y, x);
    Closed(f, T.x, x);
    Closed(f, x, T.x);
    var rise := f.multiply(t, f.Subtract(x, T.x));
    Closed(f, t, f.Subtract(x, T.x));
    // -(rise - y) - y == -rise == t (x3 - x)
    Closed(f, rise, P.y);
    NegateOfSum(f, f.Subtract(rise, P.y), P.y);
    AddThenSubtract(f, rise, P.y);
    NegateOfProduct(f, t, f.Subtract(x, T.x));
    SubtractSwap(f, x, T.x);
    // x3 + x2 + x == t^2
    Closed(f, t, t);
    Closed(f, f.Square(t), x);
    AddThenSubtract(f, f.Square(t), x);
    AddThenSubtract(f, f.Subtract(f.Square(t), x), x2);
    SumLaws(f, T.x, x2, x);
    Closed(f, x, x2);
    AddCommute(f, x, x2);
    AddCommute(f, T.x, f.add(x, x2));
  }

  // The third point on the line of slope dy / dx through P, which has x2 for its second x coordinate.
  ghost predicate OnLine<F>(c: Curve<F>, dy: F, dx: F, P: Point<F>, x2: F, R: Point<F>)
    requires P.Affine?
  {
    var f := c.field;
    && R.Affine? && InField(c, R)
    && f.multiply(dy, f.Subtract(R.x, P.x)) == f.multiply(f.Subtract(R.y, P.y), dx)
    && f.multiply(f.add(f.add(P.x, x2), R.x), f.Square(dx)) == f.Square(dy)
  }

  // Cleared of the division, the two equations hold of that point and of no other.
  lemma ThirdOnLine<F(!new)>(c: Curve<F>, dy: F, dx: F, P: Point<F>, x2: F, R: Point<F>)
    requires IsField(c.field) && InField(c, P) && P.Affine? && c.field.contains(x2)
    requires c.field.contains(dy) && c.field.contains(dx) && dx != c.field.zero
    ensures OnLine(c, dy, dx, P, x2, R) <==> R == InversePoint(c, ThroughSlope(c, c.field.Divide(dy, dx), P, x2))
  {
    hide IsField;
    var f := c.field;
    var t := f.Divide(dy, dx);
    Closed(f, dy, dx);
    ReflectedThroughSlope(c, t, P, x2);
    var T := InversePoint(c, ThroughSlope(c, t, P, x2));
    assert T.Affine?;
    hide ThroughSlope;
    DivideThenMultiply(f, dy, dx);
    LineHolds(c, dy, dx, t, P, x2, T);
    if OnLine(c, dy, dx, P, x2, R) {
      LineDetermines(c, dy, dx, P, x2, R, T);
    }
  }

  lemma LineHolds<F(!new)>(c: Curve<F>, dy: F, dx: F, t: F, P: Point<F>, x2: F, T: Point<F>)
    requires IsField(c.field) && InField(c, P) && P.Affine? && InField(c, T) && T.Affine?
    requires c.field.contains(x2) && c.field.contains(dx) && c.field.contains(t) && c.field.multiply(t, dx) == dy
    requires c.field.Subtract(T.y, P.y) == c.field.multiply(t, c.field.Subtract(T.x, P.x))
    requires c.field.add(c.field.add(P.x, x2), T.x) == c.field.Square(t)
    ensures OnLine(c, dy, dx, P, x2, T)
  {
    hide IsField;
    var f := c.field;
    var run := f.Subtract(T.x, P.x);
    Closed(f, T.x, P.x);
    // (t dx) run == (t run) dx
    MultiplyAssociates(f, t, dx, run);
    MultiplyAssociates(f, t, run, dx);
    MultiplyCommutes(f, dx, run);
    // (t t)(dx dx) == (t dx)(t dx)
    MultiplyFour(f, t, t, dx, dx);
  }

  lemma LineDetermines<F(!new)>(c: Curve<F>, dy: F, dx: F, P: Point<F>, x2: F, R: Point<F>, T: Point<F>)
    requires IsField(c.field) && InField(c, P) && P.Affine? && c.field.contains(x2)
    requires c.field.contains(dy) && c.field.contains(dx) && dx != c.field.zero
    requires OnLine(c, dy, dx, P, x2, R) && OnLine(c, dy, dx, P, x2, T)
    ensures R == T
  {
    hide IsField;
    var f, s := c.field, c.field.add(P.x, x2);
    Closed(f, P.x, x2);
    Closed(f, s, R.x);
    Closed(f, s, T.x);
    Closed(f, dx, dx);
    ProductIsZero(f, dx, dx);
    MultiplyCommutes(f, f.add(s, R.x), f.Square(dx));
    MultiplyCommutes(f, f.add(s, T.x), f.Square(dx));
    MultiplyCancel(f, f.Square(dx), f.add(s, R.x), f.add(s, T.x));
    AddCommute(f, s, R.x);
    AddCommute(f, s, T.x);
    AddCancel(f, R.x, T.x, s);
    Closed(f, R.y, P.y);
    Closed(f, T.y, P.y);
    Closed(f, P.y, P.y);
    MultiplyCommutes(f, f.Subtract(R.y, P.y), dx);
    MultiplyCommutes(f, f.Subtract(T.y, P.y), dx);
    MultiplyCancel(f, dx, f.Subtract(R.y, P.y), f.Subtract(T.y, P.y));
    AddCancel(f, R.y, T.y, f.negate(P.y));
  }

  /** The sum of two points with different x is the reflection of the one point R with
      (Q.y - P.y)(R.x - P.x) == (R.y - P.y)(Q.x - P.x) and (P.x + Q.x + R.x)(Q.x - P.x)^2 == (Q.y - P.y)^2. */
  lemma SumByChord<F(!new)>(c: Curve<F>, P: Point<F>, Q: Point<F>, R: Point<F>)
    requires IsField(c.field) && InField(c, P) && InField(c, Q) && P.Affine? && Q.Affine? && P.x != Q.x
    requires InField(c, R)
    ensures R == InversePoint(c, AddPoints(c, P, Q)) <==>
              var f := c.field;
              && R.Affine?
              && f.multiply(f.Subtract(Q.y, P.y), f.Subtract(R.x, P.x)) == f.multiply(f.Subtract(R.y, P.y), f.Subtract(Q.x, P.x))
              && f.multiply(f.add(f.add(P.x, Q.x), R.x), f.Square(f.Subtract(Q.x, P.x))) == f.Square(f.Subtract(Q.y, P.y))
  {
    hide IsField;
    var f := c.field;
    var dy, dx := f.Subtract(Q.y, P.y), f.Subtract(Q.x, P.x);
    Closed(f, Q.y, P.y);
    Closed(f, Q.x, P.x);
    if dx == f.zero { SubtractIsZero(f, Q.x, P.x); }
    ThirdOnLine(c, dy, dx, P, Q.x, R);
  }

  /** The double of a point is the reflection of the one point R with 2y (R.y - y) == (3x^2 + a)(R.x - x) and
      (2x + R.x)(2y)^2 == (3x^2 + a)^2; where y is zero it is the identity. */
  lemma DoubleByTangent<F(!new)>(c: Curve<F>, P: Point<F>, R: Point<F>)
    requires IsField(c.field) && c.field.contains(c.a) && InField(c, P) && P.Affine? && InField(c, R)
    ensures P.y == c.field.zero ==> DoublePoint(c, P) == Identity
    ensures P.y != c.field.zero ==>
              (R == InversePoint(c, DoublePoint(c, P)) <==>
                 var f := c.field;
                 var xx := f.Square(P.x);
                 var s := f.add(f.add(f.add(xx, xx), xx), c.a);
                 && R.Affine?
                 && f.multiply(s, f.Subtract(R.x, P.x)) == f.multiply(f.Subtract(R.y, P.y), f.add(P.y, P.y))
                 && f.multiply(f.add(f.add(P.x, P.x), R.x), f.Square(f.add(P.y, P.y))) == f.Square(s))
  {
    hide IsField;
    if P.y != c.field.zero {
      var f := c.field;
      var xx := f.Square(P.x);
      Closed(f, P.x, P.x);
      Closed(f, P.y, P.y);
      Closed(f, xx, xx);
      Closed(f, f.Double(xx), xx);
      Closed(f, f.add(f.Double(xx), xx), c.a);
      DoubleIsZero(f, P.y);
      ThirdOnLine(c, f.add(f.add(f.Double(xx), xx), c.a), f.Double(P.y), P, P.x, R);
    }
  }

  // The other cases of the sum: adding the identity, doubling, and opposite points.
  lemma SumByCase<F(!new)>(c: Curve<F>, P: Point<F>, Q: Point<F>)
    requires IsField(c.field) && OnCurve(c, P) && OnCurve(c, Q)
    ensures AddPoints(c, Identity, Q) == Q && AddPoints(c, P, Identity) == P
    ensures AddPoints(c, P, P) == DoublePoint(c, P)
    ensures AddPoints(c, P, Q) == Identity <==> Q == InversePoint(c, P)
  {
    if P.Affine? && Q.Affine? && P.x == Q.x {
      var f := c.field;
      SquaresAgree(f, P.y, Q.y);
      if P.y == Q.y {
        Closed(f, P.y, P.y);
        assert FieldArithmetic.Laws(f, P.y, P.y, P.y);
        DoubleIsZero(f, P.y);
        NegateZero(f);
      } else if Q.y == f.negate(P.y) {
        assert Q == InversePoint(c, P);
      }
    }
  }

  // Equal squares: the same or opposite.
  lemma SquaresAgree<F(!new)>(f: Field<F>, y: F, z: F)
    requires IsField(f) && f.contains(y) && f.contains(z) && f.Square(y) == f.Square(z)
    ensures z == y || z == f.negate(y)
  {
    hide IsField;
    var d, s := f.Subtract(z, y), f.add(z, y);
    Closed(f, z, y);
    Closed(f, y, z);
    Closed(f, z, z);
    Closed(f, y, y);
    // (z - y)(z + y) == z z - y y
    DistributeSubtract(f, z, y, s);
    LeftDistribute(f, z, z, y);
    LeftDistribute(f, y, z, y);
    MultiplyCommutes(f, y, z);
    var p := f.multiply(z, y);
    Closed(f, f.Square(z), p);
    AddCommute(f, p, f.Square(z));
    Cancels(f, f.add(f.Square(z), p));
    Closed(f, f.add(f.Square(z), p), p);
    AddCommute(f, f.negate(f.add(f.Square(z), p)), f.add(f.Square(z), p));
    ProductIsZero(f, d, s);
    if d == f.zero {
      SubtractIsZero(f, z, y);
    } else {
      Cancels(f, y);
      AddCancel(f, z, f.negate(y), y);
    }
  }

  lemma CurveIsGroup<F(!new)>(c: Curve<F>)
    requires IsCurve(c)
    ensures Groups.IsAbelianGroup(CurveGroup(c))
  {
    var G := CurveGroup(c);
    forall P, Q, R
      ensures Groups.Laws(G, P, Q, R)
    {
      assert ChordLawAt(c, P, Q, R) && ChordLawAt(c, P, Q, Identity);
      if OnCurve(c, P) {
        InverseOnCurve(c, P);
        if OnCurve(c, Q) {
          AddCommutes(c, P, Q);
          SumOnCurve(c, P, Q);
        }
      }
    }
  }

  // ----- Projective coordinates: (X, Y, Z) stands for (X / Z^2, Y / Z^3) -----

  datatype ProjectivePoint<+F> = ProjectivePoint(x: F, y: F, z: F)

  function Cube<F>(f: Field<F>, z: F): F {
    f.multiply(f.Square(z), z)
  }

  function Fourth<F>(f: Field<F>, z: F): F {
    f.Square(f.Square(z))
  }

  // z is zero exactly for the identity.
  ghost predicate StandsFor<F>(f: Field<F>, J: ProjectivePoint<F>, P: Point<F>) {
    && f.contains(J.x) && f.contains(J.y) && f.contains(J.z)
    && (J.z == f.zero <==> P.Identity?)
    && (P.Affine? ==>
          && f.contains(P.x) && f.contains(P.y)
          && J.x == f.multiply(P.x, f.Square(J.z))
          && J.y == f.multiply(P.y, Cube(f, J.z)))
  }

  lemma CubeSquared<F(!new)>(f: Field<F>, z: F)
    requires IsField(f) && f.contains(z)
    ensures f.contains(f.Square(z)) && f.contains(Cube(f, z)) && f.contains(Fourth(f, z))
    ensures f.Square(Cube(f, z)) == f.multiply(Fourth(f, z), f.Square(z))
    ensures f.multiply(z, Cube(f, z)) == Fourth(f, z)
  {
    Closed(f, z, z);
    var s := f.Square(z);
    Closed(f, s, z);
    Closed(f, s, s);
    MultiplyFour(f, s, z, s, z);
    MultiplyCommutes(f, z, f.multiply(s, z));
    MultiplyAssociates(f, s, z, z);
  }

  // 2Y, and the new Z
  lemma NewZ<F(!new)>(f: Field<F>, y: F, z: F)
    requires IsField(f) && f.contains(y) && f.contains(z)
    ensures var Y := f.multiply(y, Cube(f, z)); var d := f.Double(y);
            && f.Double(Y) == f.multiply(d, Cube(f, z))
            && f.multiply(z, f.Double(Y)) == f.multiply(d, Fourth(f, z))
  {
    CubeSquared(f, z);
    var k, d := Cube(f, z), f.Double(y);
    Closed(f, y, y);
    Closed(f, d, k);
    DistributeAdd(f, y, y, k);
    MultiplyCommutes(f, d, k);
    MultiplyAssociates(f, z, k, d);
    MultiplyCommutes(f, Fourth(f, z), d);
  }

  // S == x * w where w is the square of the new Z
  lemma NewS<F(!new)>(f: Field<F>, x: F, d: F, z: F)
    requires IsField(f) && f.contains(x) && f.contains(d) && f.contains(z)
    ensures var fourY2 := f.Square(f.multiply(d, Cube(f, z))); var w := f.Square(f.multiply(d, Fourth(f, z)));
            f.multiply(fourY2, f.multiply(x, f.Square(z))) == f.multiply(x, w)
  {
    CubeSquared(f, z);
    Closed(f, d, z);
    var s, k, z4, dd := f.Square(z), Cube(f, z), Fourth(f, z), f.Square(d);
    Closed(f, z4, s);
    Closed(f, z4, z4);
    Closed(f, k, k);
    MultiplyFour(f, d, k, d, k);
    MultiplyFour(f, d, z4, d, z4);
    Closed(f, dd, f.multiply(k, k));
    // (dd * kk) * (x * s) == (dd * kk) * (s * x) == ((dd * kk) * s) * x
    MultiplyCommutes(f, x, s);
    MultiplyAssociates(f, f.multiply(dd, f.multiply(k, k)), s, x);
    MultiplyAssociates(f, dd, f.multiply(k, k), s);
    // kk * s == (z4 * s) * s == z4 * (s * s)
    MultiplyAssociates(f, z4, s, s);
    Closed(f, dd, f.multiply(z4, z4));
    MultiplyCommutes(f, f.multiply(dd, f.multiply(z4, z4)), x);
  }

  // M == t * Z', the tangent's slope times the new Z
  lemma NewM<F(!new)>(f: Field<F>, a: F, x: F, d: F, z: F)
    requires IsField(f) && f.contains(a) && f.contains(x) && f.contains(d) && f.contains(z) && d != f.zero
    ensures var X := f.multiply(x, f.Square(z)); var XX := f.Square(X); var xx := f.Square(x);
            var t := f.Divide(f.add(f.add(f.Double(xx), xx), a), d);
            f.add(f.add(f.Double(XX), XX), f.multiply(a, Fourth(f, z))) == f.multiply(t, f.multiply(d, Fourth(f, z)))
  {
    CubeSquared(f, z);
    var s, z4, xx := f.Square(z), Fourth(f, z), f.Square(x);
    MultiplyFour(f, x, s, x, s);
    Closed(f, x, x);
    Closed(f, xx, xx);
    DistributeAdd(f, xx, xx, z4);
    DistributeAdd(f, f.Double(xx), xx, z4);
    Closed(f, f.Double(xx), xx);
    var n := f.add(f.Double(xx), xx);
    DistributeAdd(f, n, a, z4);
    Closed(f, n, a);
    DivideThenMultiply(f, f.add(n, a), d);
    Closed(f, f.add(n, a), d);
    MultiplyAssociates(f, f.Divide(f.add(n, a), d), d, z4);
  }

  // X' == (t^2 - x - x) * w
  lemma NewX<F(!new)>(f: Field<F>, t: F, x: F, Z: F)
    requires IsField(f) && f.contains(t) && f.contains(x) && f.contains(Z)
    ensures var w := f.Square(Z); var S := f.multiply(x, w);
            (f.Subtract(f.Subtract(f.Square(f.multiply(t, Z)), S), S)
             == f.multiply(f.Subtract(f.Subtract(f.Square(t), x), x), w))
  {
    var w := f.Square(Z);
    Closed(f, Z, Z);
    Closed(f, t, t);
    MultiplyFour(f, t, Z, t, Z);
    Closed(f, f.Square(t), x);
    DistributeSubtract(f, f.Square(t), x, w);
    DistributeSubtract(f, f.Subtract(f.Square(t), x), x, w);
  }

  // (t * Z) * (x * w - x' * w) - y * Zw == (t * (x - x') - y) * Zw
  lemma NewY<F(!new)>(f: Field<F>, t: F, x: F, x': F, y: F, Z: F)
    requires IsField(f) && f.contains(t) && f.contains(x) && f.contains(x') && f.contains(y) && f.contains(Z)
    ensures var w := f.Square(Z); var rise := f.Subtract(f.multiply(x, w), f.multiply(x', w));
            (f.Subtract(f.multiply(f.multiply(t, Z), rise), f.multiply(y, Cube(f, Z)))
             == f.multiply(f.Subtract(f.multiply(t, f.Subtract(x, x')), y), Cube(f, Z)))
  {
    CubeSquared(f, Z);
    var w, r := f.Square(Z), f.Subtract(x, x');
    Closed(f, x, x');
    DistributeSubtract(f, x, x', w);
    MultiplyFour(f, t, Z, r, w);
    MultiplyCommutes(f, Z, w);
    Closed(f, t, r);
    DistributeSubtract(f, f.multiply(t, r), y, Cube(f, Z));
  }

  // Half of 16 Y^4 is y times the cube of the new Z
  lemma SixteenY4<F(!new)>(f: Field<F>, y: F, z: F)
    requires IsField(f) && f.contains(y) && f.contains(z)
    ensures var d := f.Double(y); var Z := f.multiply(d, Fourth(f, z));
            var sixteenY4 := f.Square(f.Square(f.multiply(d, Cube(f, z))));
            && f.contains(sixteenY4) && f.contains(Z)
            && sixteenY4 == f.Double(f.multiply(y, Cube(f, Z)))
            && f.half(sixteenY4) == f.multiply(y, Cube(f, Z))
            && f.multiply(Fourth(f, z), sixteenY4) == Fourth(f, Z)
  {
    CubeSquared(f, z);
    Closed(f, y, y);
    var d, k, z4, s := f.Double(y), Cube(f, z), Fourth(f, z), f.Square(z);
    Closed(f, d, z4);
    Closed(f, d, k);
    var Z := f.multiply(d, z4);
    CubeSquared(f, Z);
    var dd, kk, zz, w := f.Square(d), f.Square(k), f.Square(z4), f.Square(Z);
    Closed(f, d, d);
    Closed(f, k, k);
    Closed(f, z4, z4);
    Closed(f, dd, kk);
    Closed(f, z4, s);
    MultiplyFour(f, d, k, d, k);
    MultiplyFour(f, dd, kk, dd, kk);
    MultiplyFour(f, z4, s, z4, s);
    MultiplyFour(f, d, z4, d, z4);
    // 16 Y^4 == d^4 * (z4^2 * z4)
    var sixteenY4 := f.Square(f.Square(f.multiply(d, k)));
    Closed(f, f.multiply(dd, kk), f.multiply(dd, kk));
    assert f.Square(kk) == f.multiply(zz, z4);
    assert sixteenY4 == f.multiply(f.Square(dd), f.multiply(zz, z4));
    // d * Z^3 == d * ((dd * zz) * (d * z4)) == d * ((dd * d) * (zz * z4))
    MultiplyFour(f, dd, zz, d, z4);
    Closed(f, dd, d);
    Closed(f, zz, z4);
    MultiplyAssociates(f, d, f.multiply(dd, d), f.multiply(zz, z4));
    MultiplyCommutes(f, d, f.multiply(dd, d));
    MultiplyAssociates(f, dd, d, d);
    assert f.multiply(d, Cube(f, Z)) == sixteenY4;
    DistributeAdd(f, y, y, Cube(f, Z));
    Closed(f, y, Cube(f, Z));
    HalfOfDouble(f, f.multiply(y, Cube(f, Z)));
    // z4 * (d * Z^3) == (d * z4) * Z^3
    MultiplyAssociates(f, z4, d, Cube(f, Z));
    MultiplyCommutes(f, z4, d);
  }

  // The straight-line formulas of one doubling, given a * Z^4.
  function NewPoint<F>(f: Field<F>, J: ProjectivePoint<F>, aZ4: F): ProjectivePoint<F> {
    var twoY := f.Double(J.y);
    var fourY2 := f.Square(twoY);
    var S := f.multiply(fourY2, J.x);
    var XX := f.Square(J.x);
    var M := f.add(f.add(f.Double(XX), XX), aZ4);
    var x := f.Subtract(f.Subtract(f.Square(M), S), S);
    ProjectivePoint(x, f.Subtract(f.multiply(M, f.Subtract(S, x)), f.half(f.Square(fourY2))), f.multiply(J.z, twoY))
  }

  function NewSixteenY4<F>(f: Field<F>, J: ProjectivePoint<F>): F {
    f.Square(f.Square(f.Double(J.y)))
  }

  class ProjectiveDoubling<F(==, !new)> {
    const curve: Curve<F>
    var P: ProjectivePoint<F>
    var sixteenY4: F
    var aZ4: F

    // The object stands for `point`, and the two cached values multiply to a * Z^4.
    ghost predicate Valid(point: Point<F>)
      reads this
    {
      && StandsFor(curve.field, P, point)
      && curve.field.contains(aZ4) && curve.field.contains(sixteenY4)
      && curve.field.multiply(aZ4, sixteenY4) == curve.field.multiply(curve.a, Fourth(curve.field, P.z))
    }

    constructor (curve: Curve<F>, Q: Point<F>)
      requires IsField(curve.field) && curve.field.contains(curve.a) && InField(curve, Q)
      ensures Valid(Q) && this.curve == curve
    {
      var f := curve.field;
      this.curve := curve;
      if Q.Identity? {
        P := ProjectivePoint(f.one, f.one, f.zero);
        sixteenY4 := f.one;
        aZ4 := f.zero;
      } else {
        P := ProjectivePoint(Q.x, Q.y, f.one);
        sixteenY4 := f.one;
        aZ4 := curve.a;
      }
      new;
      assert FieldArithmetic.Laws(f, f.zero, f.one, f.one);
      Closed(f, f.one, f.one);
      TimesZero(f, f.zero);
      TimesZero(f, f.one);
      TimesZero(f, curve.a);
      assert FieldArithmetic.Laws(f, f.one, f.one, f.one) && FieldArithmetic.Laws(f, curve.a, f.one, f.one);
      if Q.Affine? {
        assert FieldArithmetic.Laws(f, Q.x, Q.x, Q.x) && FieldArithmetic.Laws(f, Q.y, Q.y, Q.y);
      }
    }

    method Double(ghost point: Point<F>)
      requires IsField(curve.field) && curve.field.contains(curve.a) && Valid(point)
      modifies this
      ensures Valid(DoublePoint(curve, point))
    {
      hide IsField, StandsFor, NewPoint, NewSixteenY4;
      var f, J := curve.field, P;
      aZ4 := f.multiply(aZ4, sixteenY4);
      P := NewPoint(f, J, aZ4);
      sixteenY4 := NewSixteenY4(f, J);
      DoublingIsRight(curve, J, aZ4, point);
    }
  }

  lemma DoublingClosed<F(!new)>(f: Field<F>, J: ProjectivePoint<F>, aZ4: F)
    requires IsField(f) && f.contains(J.x) && f.contains(J.y) && f.contains(J.z) && f.contains(aZ4)
    ensures var N := NewPoint(f, J, aZ4);
            f.contains(N.x) && f.contains(N.y) && f.contains(N.z) && f.contains(NewSixteenY4(f, J))
  {
    hide IsField;
    var twoY := f.Double(J.y);
    Closed(f, J.y, J.y);
    Closed(f, twoY, twoY);
    var fourY2 := f.Square(twoY);
    Closed(f, fourY2, J.x);
    Closed(f, fourY2, fourY2);
    Closed(f, f.Square(fourY2), J.x);
    Closed(f, J.z, twoY);
    var S := f.multiply(fourY2, J.x);
    Closed(f, J.x, J.x);
    var XX := f.Square(J.x);
    Closed(f, XX, XX);
    Closed(f, f.Double(XX), XX);
    Closed(f, f.add(f.Double(XX), XX), aZ4);
    var M := f.add(f.add(f.Double(XX), XX), aZ4);
    Closed(f, M, M);
    Closed(f, f.Square(M), S);
    Closed(f, f.Subtract(f.Square(M), S), S);
    var x := f.Subtract(f.Subtract(f.Square(M), S), S);
    Closed(f, S, x);
    Closed(f, M, f.Subtract(S, x));
    Closed(f, f.multiply(M, f.Subtract(S, x)), f.half(f.Square(fourY2)));
  }

  // The identity, or a point whose double is the identity: Z becomes zero and stays zero.
  lemma DoublingVanishes<F(!new)>(f: Field<F>, a: F, J: ProjectivePoint<F>, P: Point<F>)
    requires IsField(f) && f.contains(a) && StandsFor(f, J, P)
    requires P.Identity? || P.y == f.zero
    ensures f.multiply(J.z, f.Double(J.y)) == f.zero
    ensures f.multiply(f.multiply(a, Fourth(f, J.z)), NewSixteenY4(f, J)) == f.multiply(a, Fourth(f, f.zero))
  {
    hide IsField;
    CubeSquared(f, J.z);
    Closed(f, J.y, J.y);
    var twoY := f.Double(J.y);
    Closed(f, twoY, twoY);
    Closed(f, f.Square(twoY), a);
    Closed(f, f.Square(twoY), f.Square(twoY));
    Closed(f, a, Fourth(f, J.z));
    TimesZero(f, f.zero);
    TimesZero(f, a);
    TimesZero(f, J.z);
    TimesZero(f, twoY);
    TimesZero(f, Cube(f, J.z));
    TimesZero(f, NewSixteenY4(f, J));
    TimesZero(f, f.multiply(a, Fourth(f, J.z)));
    if P.Affine? {
      assert J.y == f.zero;
      DoubleIsZero(f, f.zero);
    }
  }

  lemma DoublingStands<F(!new)>(c: Curve<F>, J: ProjectivePoint<F>, P: Point<F>)
    requires IsField(c.field) && c.field.contains(c.a) && StandsFor(c.field, J, P)
    requires P.Affine? && P.y != c.field.zero
    ensures var f := c.field; var aZ4 := f.multiply(c.a, Fourth(f, J.z)); var N := NewPoint(f, J, aZ4);
            && StandsFor(f, N, DoublePoint(c, P))
            && f.multiply(aZ4, NewSixteenY4(f, J)) == f.multiply(c.a, Fourth(f, N.z))
  {
    hide IsField;
    var f, x, y, z := c.field, P.x, P.y, J.z;
    var d, aZ4 := f.Double(y), f.multiply(c.a, Fourth(f, z));
    var Q := DoublePoint(c, P);
    DoubleIsZero(f, y);
    Closed(f, y, y);
    CubeSquared(f, z);
    Closed(f, c.a, Fourth(f, z));
    DoublingClosed(f, J, aZ4);
    var Z := f.multiply(d, Fourth(f, z));
    NewZ(f, y, z);
    FourthNonzero(f, z);
    ProductIsZero(f, d, Fourth(f, z));
    NewS(f, x, d, z);
    NewM(f, c.a, x, d, z);
    var t := TangentSlope(c, P);
    SlopeClosed(c, P);
    Closed(f, d, Fourth(f, z));
    NewX(f, t, x, Z);
    SlopePointClosed(c, t, P, x);
    NewY(f, t, x, Q.x, y, Z);
    SixteenY4(f, y, z);
    MultiplyAssociates(f, c.a, Fourth(f, z), NewSixteenY4(f, J));
  }

  lemma DoublingIsRight<F(!new)>(c: Curve<F>, J: ProjectivePoint<F>, aZ4: F, P: Point<F>)
    requires IsField(c.field) && c.field.contains(c.a) && StandsFor(c.field, J, P)
    requires aZ4 == c.field.multiply(c.a, Fourth(c.field, J.z))
    ensures var f := c.field; var N := NewPoint(f, J, aZ4); var s := NewSixteenY4(f, J);
            && StandsFor(f, N, DoublePoint(c, P))
            && f.contains(aZ4) && f.contains(s)
            && f.multiply(aZ4, s) == f.multiply(c.a, Fourth(f, N.z))
  {
    hide IsField;
    var f := c.field;
    CubeSquared(f, J.z);
    Closed(f, c.a, Fourth(f, J.z));
    DoublingClosed(f, J, aZ4);
    if P.Identity? || P.y == f.zero {
      DoublingVanishes(f, c.a, J, P);
    } else {
      DoublingStands(c, J, P);
    }
  }

  lemma FourthNonzero<F(!new)>(f: Field<F>, z: F)
    requires IsField(f) && f.contains(z) && z != f.zero
    ensures Fourth(f, z) != f.zero
  {
    Closed(f, z, z);
    ProductIsZero(f, z, z);
    ProductIsZero(f, f.Square(z), f.Square(z));
  }

  lemma SlopeClosed<F(!new)>(c: Curve<F>, P: Point<F>)
    requires IsField(c.field) && c.field.contains(c.a) && InField(c, P) && P.Affine?
    ensures c.field.contains(TangentSlope(c, P))
  {
    var f := c.field;
    var xx := f.Square(P.x);
    Closed(f, P.x, P.x);
    Closed(f, P.y, P.y);
    Closed(f, xx, xx);
    Closed(f, f.Double(xx), xx);
    Closed(f, f.add(f.Double(xx), xx), c.a);
    Closed(f, f.add(f.add(f.Double(xx), xx), c.a), f.Double(P.y));
  }

  lemma SlopePointClosed<F(!new)>(c: Curve<F>, t: F, P: Point<F>, x2: F)
    requires IsField(c.field) && c.field.contains(t) && InField(c, P) && P.Affine? && c.field.contains(x2)
    ensures InField(c, ThroughSlope(c, t, P, x2))
  {
    var f := c.field;
    Closed(f, t, t);
    Closed(f, f.Square(t), P.x);
    Closed(f, f.Subtract(f.Square(t), P.x), x2);
    var x := f.Subtract(f.Subtract(f.Square(t), P.x), x2);
    Closed(f, P.x, x);
    Closed(f, t, f.Subtract(P.x, x));
    Closed(f, f.multiply(t, f.Subtract(P.x, x)), P.y);
  }

  // ----- Back to affine coordinates, once z holds the inverse of Z -----

  lemma BackToAffine<F(!new)>(f: Field<F>, J: ProjectivePoint<F>, P: Point<F>)
    requires IsField(f) && StandsFor(f, J, P) && P.Affine?
    ensures var i := f.invert(J.z);
            && i != f.zero
            && f.multiply(J.x, f.Square(i)) == P.x
            && f.multiply(f.multiply(J.y, i), f.Square(i)) == P.y
  {
    var z, i := J.z, f.invert(J.z);
    Closed(f, z, z);
    Closed(f, z, i);
    Closed(f, i, i);
    Closed(f, z, z);
    CubeSquared(f, z);
    assert FieldArithmetic.Laws(f, z, z, z) && FieldArithmetic.Laws(f, f.one, f.one, f.one);
    assert FieldArithmetic.Laws(f, P.x, P.x, P.x) && FieldArithmetic.Laws(f, P.y, P.y, P.y);
    TimesZero(f, z);
    // (z z)(i i) == 1
    MultiplyFour(f, z, z, i, i);
    MultiplyAssociates(f, P.x, f.Square(z), f.Square(i));
    // ((z z) z) i == z z
    MultiplyAssociates(f, f.Square(z), z, i);
    assert FieldArithmetic.Laws(f, f.Square(z), z, z);
    MultiplyAssociates(f, P.y, Cube(f, z), i);
    MultiplyAssociates(f, P.y, f.Square(z), f.Square(i));
  }
}
