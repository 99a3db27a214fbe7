/** ECP::SimultaneousMultiply, ScalarMultiply and CascadeScalarMultiply of ecp.cpp: multiples of a point
    from doublings in projective coordinates, one batch inversion, and a cascade of small exponents. */
module EcpMultiplication {
  import opened Bits
  import opened WindowSliding
  import opened FieldArithmetic
  import opened EllipticCurve
  import opened ExponentHeap
  import Groups = AbelianGroup
  import Simultaneous = SimultaneousMultiplication
  import Cascade = CascadeMultiplication
  import General = GeneralCascade
  import FixedBase

  // One window of one exponent: which stored doubling it multiplies, and with which sign.
  datatype Entry = Entry(window: nat, baseIndex: nat, negate: bool)

  // ----- What the entries are worth -----

  ghost function Worth(e: Entry, positions: seq<nat>): int
    requires e.baseIndex < |positions|
  {
    ShiftLeft(if e.negate then 0 - e.window else e.window, positions[e.baseIndex])
  }

  ghost predicate Fits(entries: seq<Entry>, n: nat) {
    forall e :: e in entries ==> e.baseIndex < n && 1 <= e.window <= 31
  }

  ghost function Covered(entries: seq<Entry>, positions: seq<nat>): int
    requires Fits(entries, |positions|)
  {
    if entries == [] then 0
    else Covered(entries[..|entries| - 1], positions) + Worth(entries[|entries| - 1], positions)
  }

  lemma {:induction false} CoveredExtends(entries: seq<Entry>, positions: seq<nat>, p: nat)
    requires Fits(entries, |positions|)
    ensures Fits(entries, |positions| + 1)
    ensures Covered(entries, positions + [p]) == Covered(entries, positions)
  {
    if entries != [] {
      CoveredExtends(entries[..|entries| - 1], positions, p);
    }
  }

  // ----- The stored doublings -----

  // bases[k] stands for 2^positions[k] * P.
  ghost predicate Doublings<F(!new)>(c: Curve<F>, P: Point<F>, bases: seq<ProjectivePoint<F>>, positions: seq<nat>) {
    && |bases| == |positions|
    && forall k :: 0 <= k < |bases| ==>
        StandsFor(c.field, bases[k], Groups.Mul(CurveGroup(c), Pow2(positions[k]), P))
  }

  lemma DoublingStored<F(!new)>(c: Curve<F>, P: Point<F>, bases: seq<ProjectivePoint<F>>, positions: seq<nat>,
                                J: ProjectivePoint<F>, position: nat)
    requires Doublings(c, P, bases, positions)
    requires StandsFor(c.field, J, Groups.Mul(CurveGroup(c), Pow2(position), P))
    ensures Doublings(c, P, bases + [J], positions + [position])
  {
  }

  // ----- Collecting the windows -----

  ghost predicate Follows(s: WindowSlider, exponent: nat, entries: seq<Entry>, positions: seq<nat>, rest: nat, position: nat)
    reads s
  {
    && s.windowSize == 5 && Fits(entries, |positions|)
    && Tracks(s, exponent, Covered(entries, positions), position) && rest == Remaining(s)
  }

  ghost predicate AllFollow(exps: seq<nat>, sliders: seq<WindowSlider>, entries: seq<seq<Entry>>, positions: seq<nat>,
                            rests: seq<nat>, position: nat, from: nat)
    reads sliders
  {
    && |sliders| == |entries| == |rests| == |exps|
    && (forall i, j :: 0 <= i < j < |sliders| ==> sliders[i] != sliders[j])
    && (forall i :: 0 <= i < |sliders| ==>
          Follows(sliders[i], exps[i], entries[i], positions, rests[i], if i < from then position + 1 else position))
  }

  lemma FollowsExtends(s: WindowSlider, exponent: nat, entries: seq<Entry>, positions: seq<nat>, rest: nat, position: nat, p: nat)
    requires Follows(s, exponent, entries, positions, rest, position)
    ensures Follows(s, exponent, entries, positions + [p], rest, position)
  {
    CoveredExtends(entries, positions, p);
  }

  lemma AllFollowExtends(exps: seq<nat>, sliders: seq<WindowSlider>, entries: seq<seq<Entry>>, positions: seq<nat>,
                         rests: seq<nat>, position: nat, from: nat, p: nat)
    requires AllFollow(exps, sliders, entries, positions, rests, position, from)
    ensures AllFollow(exps, sliders, entries, positions + [p], rests, position, from)
  {
    hide Follows;
    forall i | 0 <= i < |sliders|
      ensures Follows(sliders[i], exps[i], entries[i], positions + [p], rests[i], if i < from then position + 1 else position)
    {
      FollowsExtends(sliders[i], exps[i], entries[i], positions, rests[i], if i < from then position + 1 else position, p);
    }
  }

  method StartSliders(exps: seq<nat>)
    returns (sliders: seq<WindowSlider>, entries: seq<seq<Entry>>, ghost rests: seq<nat>, ghost horizon: nat)
    ensures fresh(sliders)
    ensures AllFollow(exps, sliders, entries, [], rests, 0, 0) && WithinHorizon(sliders, horizon)
  {
    sliders, entries, rests, horizon := [], [], [], 0;
    NoSliders();
    hide AllFollow, Follows, WithinHorizon;
    for i := 0 to |exps|
      invariant fresh(sliders)
      invariant AllFollow(exps[..i], sliders, entries, [], rests, 0, 0) && WithinHorizon(sliders, horizon)
    {
      assert exps[..i + 1] == exps[..i] + [exps[i]];
      var s := StartSlider(exps[i]);
      OneMoreSlider(exps[..i], sliders, entries, rests, horizon, s, exps[i]);
      sliders := sliders + [s];
      entries := entries + [[]];
      rests := rests + [Remaining(s)];
      horizon := if s.windowBegin > horizon then s.windowBegin else horizon;
    }
    assert exps[..|exps|] == exps;
  }

  lemma NoSliders()
    ensures AllFollow([], [], [], [], [], 0, 0) && WithinHorizon([], 0)
  {
  }

  lemma OneMoreSlider(exps: seq<nat>, sliders: seq<WindowSlider>, entries: seq<seq<Entry>>, rests: seq<nat>,
                      horizon: nat, s: WindowSlider, exponent: nat)
    requires AllFollow(exps, sliders, entries, [], rests, 0, 0) && WithinHorizon(sliders, horizon)
    requires s !in sliders && Follows(s, exponent, [], [], Remaining(s), 0)
    ensures AllFollow(exps + [exponent], sliders + [s], entries + [[]], [], rests + [Remaining(s)], 0, 0)
    ensures WithinHorizon(sliders + [s], if s.windowBegin > horizon then s.windowBegin else horizon)
  {
    hide Follows;
  }

  method StartSlider(exponent: nat) returns (s: WindowSlider)
    ensures fresh(s) && Follows(s, exponent, [], [], Remaining(s), 0)
  {
    s := new WindowSlider(exponent, true, 5);
    s.FindNextWindow();
  }

  // The window on offer is noted down against the doubling stored last.
  method NoteWindow(s: WindowSlider, entriesIn: seq<Entry>, baseIndex: nat, ghost positions: seq<nat>, ghost exponent: nat,
                    ghost restIn: nat, ghost position: nat)
    returns (entries: seq<Entry>, ghost rest: nat)
    requires Follows(s, exponent, entriesIn, positions, restIn, position)
    requires !s.finished && s.windowBegin == position
    requires baseIndex < |positions| && positions[baseIndex] == position
    modifies s
    ensures Follows(s, exponent, entries, positions, rest, position + 1)
    ensures rest < restIn
  {
    var entry := Entry(s.expWindow, baseIndex, s.negateNext);
    assert s.expWindow <= 31 by {
      assert Pow2(5) == 2 * Pow2(4) == 4 * Pow2(3) == 8 * Pow2(2) == 16 * Pow2(1) == 32 * Pow2(0);
    }
    entries := entriesIn + [entry];
    assert entries[..|entriesIn|] == entriesIn;
    ghost var worth := Worth(entry, positions);
    TakeDigit(s, exponent, Covered(entriesIn, positions), position);
    assert Covered(entries, positions) == Covered(entriesIn, positions) + worth;
    rest := Remaining(s);
  }

  // One exponent at one bit position: if its window begins there, it is noted down.
  method Visit(s: WindowSlider, entriesIn: seq<Entry>, baseIndex: int, position: nat, ghost positions: seq<nat>,
               ghost exponent: nat, ghost restIn: nat)
    returns (entries: seq<Entry>, ghost rest: nat)
    requires Follows(s, exponent, entriesIn, positions, restIn, position)
    requires !s.finished && s.windowBegin == position ==>
               0 <= baseIndex < |positions| && positions[baseIndex] == position
    modifies s
    ensures Follows(s, exponent, entries, positions, rest, position + 1)
    ensures !s.finished ==> position < s.windowBegin
    ensures rest < restIn || (rest == restIn && s.finished == old(s.finished) && s.windowBegin == old(s.windowBegin))
  {
    entries, rest := entriesIn, restIn;
    if !s.finished && position == s.windowBegin {
      entries, rest := NoteWindow(s, entriesIn, baseIndex, positions, exponent, restIn, position);
    }
  }

  // One pass over the exponents at one bit position. The current doubling is stored at most once.
  method Sweep<F(==, !new)>(exps: seq<nat>, sliders: seq<WindowSlider>, entriesIn: seq<seq<Entry>>,
                            basesIn: seq<ProjectivePoint<F>>, current: ProjectivePoint<F>, expBitPosition: nat,
                            ghost c: Curve<F>, ghost P: Point<F>,
                            ghost positionsIn: seq<nat>, ghost restsIn: seq<nat>, ghost horizonIn: nat)
    returns (entries: seq<seq<Entry>>, bases: seq<ProjectivePoint<F>>, notDone: bool,
             ghost positions: seq<nat>, ghost rests: seq<nat>, ghost horizon: nat)
    requires AllFollow(exps, sliders, entriesIn, positionsIn, restsIn, expBitPosition, 0)
    requires WithinHorizon(sliders, horizonIn)
    requires |basesIn| == |positionsIn| && Doublings(c, P, basesIn, positionsIn)
    requires StandsFor(c.field, current, Groups.Mul(CurveGroup(c), Pow2(expBitPosition), P))
    modifies sliders
    ensures AllFollow(exps, sliders, entries, positions, rests, expBitPosition + 1, 0)
    ensures WithinHorizon(sliders, horizon)
    ensures |bases| == |positions| && Doublings(c, P, bases, positions)
    ensures !notDone ==> AllFinished(sliders)
    ensures notDone && Total(rests) >= Total(restsIn) ==>
              Total(rests) == Total(restsIn) && expBitPosition < horizon <= horizonIn
  {
    hide Follows, Doublings, StandsFor, CurveGroup, Groups.Mul, Pow2, Total;
    entries, bases, notDone, positions, rests, horizon := entriesIn, basesIn, false, positionsIn, restsIn, 0;
    var baseAdded := false;
    for i := 0 to |exps|
      invariant AllFollow(exps, sliders, entries, positions, rests, expBitPosition, i)
      invariant Doublings(c, P, bases, positions)
      invariant |bases| == |positions| && (baseAdded ==> |positions| > 0 && positions[|positions| - 1] == expBitPosition)
      invariant !notDone ==> forall j :: 0 <= j < i ==> sliders[j].finished
      invariant forall j :: 0 <= j < i && !sliders[j].finished ==> sliders[j].windowBegin <= horizon
      invariant forall j :: i <= j < |sliders| && !sliders[j].finished ==> sliders[j].windowBegin <= horizonIn
      invariant Total(rests) <= Total(restsIn)
      invariant Total(rests) == Total(restsIn) ==> horizon <= horizonIn && (notDone ==> expBitPosition < horizon)
    {
      var s := sliders[i];
      if !s.finished && expBitPosition == s.windowBegin && !baseAdded {
        AllFollowExtends(exps, sliders, entries, positions, rests, expBitPosition, i, expBitPosition);
        DoublingStored(c, P, bases, positions, current, expBitPosition);
        bases, positions := bases + [current], positions + [expBitPosition];
        baseAdded := true;
      }
      var noted;
      ghost var rest;
      noted, rest := Visit(s, entries[i], |bases| - 1, expBitPosition, positions, exps[i], rests[i]);
      TotalOfUpdate(rests, i, rest);
      entries, rests := entries[i := noted], rests[i := rest];
      notDone := notDone || !s.finished;
      if !s.finished && s.windowBegin > horizon {
        horizon := s.windowBegin;
      }
    }
  }

  lemma NothingLeft(exps: seq<nat>, sliders: seq<WindowSlider>, entries: seq<seq<Entry>>, positions: seq<nat>,
                    rests: seq<nat>, position: nat)
    requires AllFollow(exps, sliders, entries, positions, rests, position, 0)
    requires AllFinished(sliders)
    ensures forall i :: 0 <= i < |exps| ==> Fits(entries[i], |positions|)
    ensures forall i :: 0 <= i < |exps| ==> Covered(entries[i], positions) == exps[i]
    ensures |entries| == |exps|
  {
    hide Covered, Fits;
    forall i | 0 <= i < |exps|
      ensures Fits(entries[i], |positions|) && Covered(entries[i], positions) == exps[i]
    {
      assert Follows(sliders[i], exps[i], entries[i], positions, rests[i], position);
    }
  }

  // One turn of the loop: the windows that begin at this bit, and the doubling for the next one if any are left.
  method NextBit<F(==, !new)>(exps: seq<nat>, sliders: seq<WindowSlider>, entriesIn: seq<seq<Entry>>,
                              basesIn: seq<ProjectivePoint<F>>, rd: ProjectiveDoubling<F>, expBitPosition: nat,
                              ghost P: Point<F>, ghost positionsIn: seq<nat>, ghost restsIn: seq<nat>, ghost horizonIn: nat)
    returns (entries: seq<seq<Entry>>, bases: seq<ProjectivePoint<F>>, notDone: bool,
             ghost positions: seq<nat>, ghost rests: seq<nat>, ghost horizon: nat)
    requires IsCurve(rd.curve) && OnCurve(rd.curve, P)
    requires rd.Valid(Groups.Mul(CurveGroup(rd.curve), Pow2(expBitPosition), P))
    requires AllFollow(exps, sliders, entriesIn, positionsIn, restsIn, expBitPosition, 0)
    requires WithinHorizon(sliders, horizonIn)
    requires |basesIn| == |positionsIn| && Doublings(rd.curve, P, basesIn, positionsIn)
    modifies sliders, rd
    ensures AllFollow(exps, sliders, entries, positions, rests, expBitPosition + 1, 0)
    ensures WithinHorizon(sliders, horizon)
    ensures |bases| == |positions| && Doublings(rd.curve, P, bases, positions)
    ensures notDone ==> rd.Valid(Groups.Mul(CurveGroup(rd.curve), Pow2(expBitPosition + 1), P))
    ensures !notDone ==> AllFinished(sliders)
    ensures notDone && Total(rests) >= Total(restsIn) ==>
              Total(rests) == Total(restsIn) && expBitPosition < horizon <= horizonIn
  {
    CurveFacts(rd.curve, P);
    hide Groups.Mul, StandsFor, DoublePoint, AllFollow, Doublings, WithinHorizon, IsCurve, OnCurve, CurveGroup, Pow2, Total;
    ghost var point := Groups.Mul(CurveGroup(rd.curve), Pow2(expBitPosition), P);
    entries, bases, notDone, positions, rests, horizon :=
      Sweep(exps, sliders, entriesIn, basesIn, rd.P, expBitPosition, rd.curve, P, positionsIn, restsIn, horizonIn);
    if notDone {
      rd.Double(point);
      NextPoint(rd.curve, P, expBitPosition);
    }
  }

  ghost predicate AllFinished(sliders: seq<WindowSlider>)
    reads sliders
  {
    forall i :: 0 <= i < |sliders| ==> sliders[i].finished
  }

  method CollectWindows<F(==, !new)>(c: Curve<F>, P: Point<F>, exps: seq<nat>)
    returns (entries: seq<seq<Entry>>, bases: seq<ProjectivePoint<F>>, ghost positions: seq<nat>)
    requires IsCurve(c) && OnCurve(c, P)
    ensures Doublings(c, P, bases, positions) && |entries| == |exps|
    ensures forall i :: 0 <= i < |exps| ==> Fits(entries[i], |positions|)
    ensures forall i :: 0 <= i < |exps| ==> Covered(entries[i], positions) == exps[i]
  {
    hide *;
    FirstPoint(c, P);
    CurveFacts(c, P);
    NoDoublings(c, P);
    var rd := new ProjectiveDoubling(c, P);
    var sliders;
    ghost var rests;
    ghost var horizon: int;
    sliders, entries, rests, horizon := StartSliders(exps);
    bases, positions := [], [];
    var expBitPosition := 0;
    var notDone := true;
    ghost var position := 0;
    while notDone
      invariant fresh(sliders) && fresh(rd) && rd.curve == c
      invariant 0 <= horizon && WithinHorizon(sliders, horizon)
      invariant AllFollow(exps, sliders, entries, positions, rests, position, 0)
      invariant |bases| == |positions| && Doublings(c, P, bases, positions)
      invariant notDone ==> position == expBitPosition && rd.Valid(Groups.Mul(CurveGroup(c), Pow2(expBitPosition), P))
      invariant !notDone ==> AllFinished(sliders)
      decreases notDone, Total(rests), horizon - expBitPosition
    {
      entries, bases, notDone, positions, rests, horizon :=
        NextBit(exps, sliders, entries, bases, rd, expBitPosition, P, positions, rests, horizon);
      position := position + 1;
      if notDone {
        expBitPosition := expBitPosition + 1;
      }
    }
    NothingLeft(exps, sliders, entries, positions, rests, position);
  }

  lemma FirstPoint<F(!new)>(c: Curve<F>, P: Point<F>)
    requires IsCurve(c) && OnCurve(c, P)
    ensures Groups.Mul(CurveGroup(c), Pow2(0), P) == P
  {
    CurveIsGroup(c);
    Groups.MulOne(CurveGroup(c), P);
  }

  lemma NextPoint<F(!new)>(c: Curve<F>, P: Point<F>, k: nat)
    requires IsCurve(c) && OnCurve(c, P)
    ensures DoublePoint(c, Groups.Mul(CurveGroup(c), Pow2(k), P)) == Groups.Mul(CurveGroup(c), Pow2(k + 1), P)
  {
    hide Groups.Mul, Groups.IsAbelianGroup, DoublePoint, AddPoints;
    CurveIsGroup(c);
    Groups.MulDouble(CurveGroup(c), Pow2(k), P);
  }

  lemma CurveFacts<F(!new)>(c: Curve<F>, P: Point<F>)
    requires IsCurve(c) && OnCurve(c, P)
    ensures IsField(c.field) && c.field.contains(c.a) && InField(c, P)
  {
  }

  lemma NoDoublings<F(!new)>(c: Curve<F>, P: Point<F>)
    ensures Doublings(c, P, [], [])
  {
  }

  // ----- Back to affine points, all with one inversion -----

  // x and y of a point, with z zero exactly for the identity.
  ghost predicate IsAffine<F>(f: Field<F>, J: ProjectivePoint<F>, P: Point<F>) {
    if P.Identity? then J.z == f.zero else J.z != f.zero && J.x == P.x && J.y == P.y
  }

  lemma AffineAfterInversion<F(!new)>(f: Field<F>, J: ProjectivePoint<F>, P: Point<F>, i: F)
    requires IsField(f) && StandsFor(f, J, P) && i == f.invert(J.z)
    ensures i != f.zero ==>
              IsAffine(f, ProjectivePoint(f.multiply(J.x, f.Square(i)), f.multiply(f.multiply(J.y, i), f.Square(i)), f.Square(i)), P)
    ensures i == f.zero ==> IsAffine(f, J.(z := i), P)
  {
    if P.Affine? {
      BackToAffine(f, J, P);
      Closed(f, J.z, J.z);
      ProductIsZero(f, i, i);
    } else {
      assert FieldArithmetic.Laws(f, f.zero, f.zero, f.zero);
    }
  }

  method ToAffine<F(==, 0, !new)>(f: Field<F>, basesIn: seq<ProjectivePoint<F>>, ghost points: seq<Point<F>>)
    returns (bases: seq<ProjectivePoint<F>>)
    requires IsField(f) && |points| == |basesIn|
    requires forall k :: 0 <= k < |points| ==> StandsFor(f, basesIn[k], points[k])
    ensures |bases| == |points| && forall k :: 0 <= k < |points| ==> IsAffine(f, bases[k], points[k])
  {
    hide IsField, IsAffine, StandsFor;
    var inverses := InvertAll(f, basesIn, points);
    bases := [];
    for k := 0 to |basesIn|
      invariant |bases| == k && forall j :: 0 <= j < k ==> IsAffine(f, bases[j], points[j])
    {
      var x, y, z := basesIn[k].x, basesIn[k].y, inverses[k];
      AffineAfterInversion(f, basesIn[k], points[k], z);
      if z != f.zero {
        y := f.multiply(y, z);
        z := f.Square(z);
        x := f.multiply(x, z);
        y := f.multiply(y, z);
      }
      bases := bases + [ProjectivePoint(x, y, z)];
    }
  }

  // The range of z coordinates, inverted in place.
  method InvertAll<F(==, 0, !new)>(f: Field<F>, bases: seq<ProjectivePoint<F>>, ghost points: seq<Point<F>>)
    returns (inverses: seq<F>)
    requires IsField(f) && |points| == |bases|
    requires forall k :: 0 <= k < |points| ==> StandsFor(f, bases[k], points[k])
    ensures |inverses| == |bases| && forall k :: 0 <= k < |bases| ==> inverses[k] == f.invert(bases[k].z)
  {
    hide IsField;
    var zs := new F[|bases|](i requires 0 <= i < |bases| => bases[i].z);
    ghost var z0 := zs[..];
    assert forall k :: 0 <= k < |bases| ==> z0[k] == bases[k].z && f.contains(zs[k]);
    ParallelInvert(f, zs);
    assert forall k :: 0 <= k < |bases| ==> zs[k] == f.invert(z0[k]);
    inverses := zs[..];
  }

  // ----- The final cascade of one exponent -----

  // The point an entry multiplies: its doubling, negated if the entry says so.
  function CascadeBase<F(==)>(f: Field<F>, base: ProjectivePoint<F>, negate: bool): Point<F> {
    if base.z == f.zero then Identity
    else Affine(base.x, if negate then f.negate(base.y) else base.y)
  }

  lemma EntryTerm<F(!new)>(c: Curve<F>, P: Point<F>, base: ProjectivePoint<F>, e: Entry, positions: seq<nat>)
    requires IsCurve(c) && OnCurve(c, P) && e.baseIndex < |positions|
    requires IsAffine(c.field, base, Groups.Mul(CurveGroup(c), Pow2(positions[e.baseIndex]), P))
    ensures var pair := BaseAndExponent(CascadeBase(c.field, base, e.negate), e.window);
            && OnCurve(c, pair.base)
            && General.Term(CurveGroup(c), pair) == Groups.Mul(CurveGroup(c), Worth(e, positions), P)
  {
    hide Groups.Mul, Groups.IsAbelianGroup, Pow2, OnCurve;
    CurveIsGroup(c);
    var G, position := CurveGroup(c), positions[e.baseIndex];
    var doubled := Groups.Mul(G, Pow2(position), P);
    Groups.MulContained(G, Pow2(position), P);
    assert CascadeBase(c.field, base, e.negate) == if e.negate then InversePoint(c, doubled) else doubled;
    FixedBase.SegmentTerm(G, P, e.window, position);
    FixedBase.NegatedSegmentTerm(G, P, e.window, position);
  }

  lemma {:induction false} EntriesTotal<F(!new)>(c: Curve<F>, P: Point<F>, pairs: seq<BaseAndExponent<Point<F>>>,
                                                 entries: seq<Entry>, positions: seq<nat>)
    requires IsCurve(c) && OnCurve(c, P) && Fits(entries, |positions|) && |pairs| == |entries|
    requires forall j :: 0 <= j < |pairs| ==>
               General.Term(CurveGroup(c), pairs[j]) == Groups.Mul(CurveGroup(c), Worth(entries[j], positions), P)
    ensures General.Total(CurveGroup(c), pairs) == Groups.Mul(CurveGroup(c), Covered(entries, positions), P)
  {
    hide Groups.IsAbelianGroup, General.Term, Worth, CurveGroup;
    if entries == [] {
      assert Groups.Mul(CurveGroup(c), 0, P) == CurveGroup(c).identity;
    } else {
      var n := |entries| - 1;
      EntriesTotal(c, P, pairs[..n], entries[..n], positions);
      CurveIsGroup(c);
      OnCurveContained(c, P);
      Groups.MulSum(CurveGroup(c), Covered(entries[..n], positions), Worth(entries[n], positions), P);
    }
  }

  lemma OnCurveContained<F>(c: Curve<F>, P: Point<F>)
    ensures CurveGroup(c).contains(P) == OnCurve(c, P)
  {
  }

  method FinalCascade<F(==, 0, !new)>(c: Curve<F>, ghost P: Point<F>, bases: seq<ProjectivePoint<F>>, entries: seq<Entry>,
                                      ghost positions: seq<nat>)
    returns (result: Point<F>)
    requires IsCurve(c) && OnCurve(c, P) && Fits(entries, |positions|) && entries != [] && |bases| == |positions|
    requires forall k :: 0 <= k < |bases| ==> IsAffine(c.field, bases[k], Groups.Mul(CurveGroup(c), Pow2(positions[k]), P))
    ensures result == Groups.Mul(CurveGroup(c), Covered(entries, positions), P)
    decreases 2
  {
    hide Groups.IsAbelianGroup, General.Term, Worth, CurveGroup, OnCurve, Groups.Mul, IsAffine, Pow2, Covered;
    var pairs: seq<BaseAndExponent<Point<F>>> := [];
    for j := 0 to |entries|
      invariant |pairs| == j
      invariant forall k :: 0 <= k < j ==> OnCurve(c, pairs[k].base) && pairs[k].exponent <= 31
      invariant forall k :: 0 <= k < j ==>
        General.Term(CurveGroup(c), pairs[k]) == Groups.Mul(CurveGroup(c), Worth(entries[k], positions), P)
    {
      var e := entries[j];
      EntryTerm(c, P, bases[e.baseIndex], e, positions);
      pairs := pairs + [BaseAndExponent(CascadeBase(c.field, bases[e.baseIndex], e.negate), e.window)];
    }
    EntriesTotal(c, P, pairs, entries, positions);
    CurveIsGroup(c);
    forall p | p in pairs ensures CurveGroup(c).contains(p.base) { OnCurveContained(c, p.base); }
    var finalCascade := new BaseAndExponent<Point<F>>[|pairs|](i requires 0 <= i < |pairs| => pairs[i]);
    assert finalCascade[..] == pairs;
    result := GeneralCascadeMultiplication(c, finalCascade);
  }

  // ----- The cascade on the curve, whose scalar multiplications are the curve's own -----

  // GeneralCascadeMultiplication with the curve for its group: what it multiplies by is at most 31.
  method GeneralCascadeMultiplication<F(==, 0, !new)>(c: Curve<F>, range: array<BaseAndExponent<Point<F>>>)
    returns (result: Point<F>)
    requires IsCurve(c) && range.Length > 0 && General.Bounded(CurveGroup(c), range[..], 31)
    modifies range
    ensures result == General.Total(CurveGroup(c), old(range[..]))
    decreases 1, 1
  {
    hide Groups.IsAbelianGroup, Groups.Mul, AddPoints;
    var n := range.Length;
    CurveIsGroup(c);
    if n == 1 {
      General.OneTermLeft(CurveGroup(c), range[..], 31);
      CascadeStaysSmall(range[0].exponent);
      result := ScalarMultiply(c, range[0].base, range[0].exponent);
    } else if n == 2 {
      General.OneTermLeft(CurveGroup(c), range[..1], 31);
      assert range[..][..1] == range[..1];
      result := CascadeScalarMultiply(c, range[0].base, range[0].exponent, range[1].base, range[1].exponent);
    } else {
      General.TakeFirst(CurveGroup(c), range, 31);
      while range[0].exponent != 0
        invariant General.Ready(CurveGroup(c), range[..], 31)
        invariant General.Total(CurveGroup(c), range[..]) == General.Total(CurveGroup(c), old(range[..]))
        decreases General.ExponentSum(range[..])
      {
        ReduceLast(c, range);
      }
      General.LastIsTotal(CurveGroup(c), range[..], 31);
      assert range[..][n - 1] in range[..];
      CascadeStaysSmall(range[n - 1].exponent);
      result := ScalarMultiply(c, range[n - 1].base, range[n - 1].exponent);
    }
  }

  method ReduceLast<F(==, 0, !new)>(c: Curve<F>, range: array<BaseAndExponent<Point<F>>>)
    requires IsCurve(c) && range.Length > 1 && General.Ready(CurveGroup(c), range[..], 31) && range[0].exponent != 0
    modifies range
    ensures General.Ready(CurveGroup(c), range[..], 31)
    ensures General.Total(CurveGroup(c), range[..]) == General.Total(CurveGroup(c), old(range[..]))
    ensures General.ExponentSum(range[..]) < General.ExponentSum(old(range[..]))
    decreases 1, 0
  {
    hide Groups.IsAbelianGroup, Groups.Mul, AddPoints, General.Total, General.ExponentSum, IsCurve;
    CurveIsGroup(c);
    ghost var s := range[..];
    var base := range[range.Length - 1].base;
    assert s[|s| - 1] in s;
    OnCurveContained(c, base);
    var q := General.DivideLast(CurveGroup(c), range, 31);
    var copies;
    if q == 1 {
      Groups.MulOne(CurveGroup(c), base);
      copies := base;
    } else {
      CascadeStaysSmall(q);
      copies := ScalarMultiply(c, base, q);
    }
    General.MoveCopies(CurveGroup(c), range, copies, s, q, 31);
  }

  // Five bits are enough: the curve's scalar multiplication is generic here and does not lead back to a cascade.
  lemma CascadeStaysSmall(k: nat)
    requires k <= 31
    ensures BitCount(k) <= 5
  {
    assert Pow2(5) == 2 * Pow2(4) == 4 * Pow2(3) == 8 * Pow2(2) == 16 * Pow2(1) == 32 * Pow2(0);
    BitCountUpTo(k, 5);
  }

  // ----- The public operations, on a curve in Montgomery representation -----

  // Exponents must be positive: a zero would leave the cascade with nothing to add up.
  method SimultaneousMultiply<F(==, 0, !new)>(c: Curve<F>, P: Point<F>, exps: seq<nat>) returns (results: seq<Point<F>>)
    requires IsCurve(c) && OnCurve(c, P)
    requires forall i :: 0 <= i < |exps| ==> exps[i] > 0
    ensures |results| == |exps|
    ensures forall i :: 0 <= i < |exps| ==> results[i] == Groups.Mul(CurveGroup(c), exps[i], P)
    decreases 3
  {
    hide Groups.Mul, Groups.IsAbelianGroup, StandsFor, IsAffine, OnCurve, CurveGroup, IsCurve;
    var entries, bases;
    ghost var positions;
    entries, bases, positions := CollectWindows(c, P, exps);
    ghost var points := seq(|positions|, k requires 0 <= k < |positions| => Groups.Mul(CurveGroup(c), Pow2(positions[k]), P));
    CurveField(c);
    bases := ToAffine(c.field, bases, points);
    results := [];
    for i := 0 to |exps|
      invariant |results| == i
      invariant forall k :: 0 <= k < i ==> results[k] == Groups.Mul(CurveGroup(c), exps[k], P)
    {
      assert entries[i] != [];
      var r := FinalCascade(c, P, bases, entries[i], positions);
      results := results + [r];
    }
  }

  lemma CurveField<F(!new)>(c: Curve<F>)
    requires IsCurve(c)
    ensures IsField(c.field)
  {
  }

  // Small multiples are generic; for the others the way leads through the cascade, which asks for small ones only.
  method ScalarMultiply<F(==, 0, !new)>(c: Curve<F>, P: Point<F>, k: nat) returns (result: Point<F>)
    requires IsCurve(c) && OnCurve(c, P)
    ensures result == Groups.Mul(CurveGroup(c), k, P)
    decreases if BitCount(k) <= 5 then 0 else 4
  {
    CurveIsGroup(c);
    var results;
    if BitCount(k) <= 5 {
      results := Simultaneous.SimultaneousMultiply(CurveGroup(c), P, [k]);
    } else {
      results := SimultaneousMultiply(c, P, [k]);
    }
    result := results[0];
  }

  method CascadeScalarMultiply<F(==, 0, !new)>(c: Curve<F>, P: Point<F>, k1: nat, Q: Point<F>, k2: nat)
    returns (result: Point<F>)
    requires IsCurve(c) && OnCurve(c, P) && OnCurve(c, Q)
    ensures result == AddPoints(c, Groups.Mul(CurveGroup(c), k1, P), Groups.Mul(CurveGroup(c), k2, Q))
  {
    CurveIsGroup(c);
    result := Cascade.CascadeScalarMultiply(CurveGroup(c), P, k1, Q, k2);
  }
}
