/** DL_FixedBasePrecomputationImpl of eprecomp.cpp: multiples of one fixed base from stored
    multiples by powers of 2^windowSize. */
module FixedBase {
  import opened Arithmetic
  import opened Bits
  import opened AbelianGroup
  import opened ExponentHeap
  import Cascade = GeneralCascade
  import Simultaneous = SimultaneousMultiplication

  // The group the work is done in, and the maps into it and back out of it.
  datatype GroupPrecomputation<!T(!new)> = GroupPrecomputation(
    needConversions: bool,
    convertIn: T -> T,
    convertOut: T -> T,
    group: Group<T>)
  {
    // The default maps are the identity.
    ghost predicate Valid() {
      !needConversions ==> forall x :: convertIn(x) == x && convertOut(x) == x
    }
  }

  // ----- What the results are outside -----

  // The group that callers see: converting in keeps sums, and converting out undoes it.
  ghost predicate ConvertsAt<T(!new)>(p: GroupPrecomputation<T>, outside: Group<T>, x: T, y: T) {
    && (outside.contains(x) ==> p.group.contains(p.convertIn(x)) && p.convertOut(p.convertIn(x)) == x)
    && (outside.contains(x) && outside.contains(y) ==>
          p.convertIn(outside.add(x, y)) == p.group.add(p.convertIn(x), p.convertIn(y)))
  }

  ghost predicate IsConversion<T(!new)>(p: GroupPrecomputation<T>, outside: Group<T>) {
    forall x, y :: ConvertsAt(p, outside, x, y)
  }

  lemma {:induction false} ConvertInMul<T(!new)>(p: GroupPrecomputation<T>, outside: Group<T>, k: nat, x: T)
    requires IsAbelianGroup(p.group) && IsAbelianGroup(outside) && IsConversion(p, outside) && outside.contains(x)
    ensures p.convertIn(Mul(outside, k, x)) == Mul(p.group, k, p.convertIn(x))
    ensures outside.contains(Mul(outside, k, x))
  {
    MulContained(outside, k, x);
    if k == 0 {
      // i + i == i only for the identity
      var i := p.convertIn(outside.identity);
      assert Laws(outside, outside.identity, x, x);
      assert ConvertsAt(p, outside, outside.identity, outside.identity);
      var n := p.group.inverse(i);
      assert Laws(p.group, i, i, n) && Laws(p.group, i, n, i) && Laws(p.group, p.group.identity, i, i);
    } else {
      ConvertInMul(p, outside, k - 1, x);
      assert ConvertsAt(p, outside, Mul(outside, k - 1, x), x);
    }
  }

  // What Exponentiate and CascadeExponentiate return are the multiples in that group.
  lemma ConvertedResults<T(!new)>(p: GroupPrecomputation<T>, outside: Group<T>, k: nat, x: T, l: nat, y: T)
    requires IsAbelianGroup(p.group) && IsAbelianGroup(outside) && IsConversion(p, outside)
    requires outside.contains(x) && outside.contains(y)
    ensures p.convertOut(Mul(p.group, k, p.convertIn(x))) == Mul(outside, k, x)
    ensures p.convertOut(p.group.add(Mul(p.group, k, p.convertIn(x)), Mul(p.group, l, p.convertIn(y))))
         == outside.add(Mul(outside, k, x), Mul(outside, l, y))
  {
    ConvertInMul(p, outside, k, x);
    ConvertInMul(p, outside, l, y);
    var X, Y := Mul(outside, k, x), Mul(outside, l, y);
    assert ConvertsAt(p, outside, X, Y) && Laws(outside, X, Y, x);
    assert ConvertsAt(p, outside, outside.add(X, Y), x);
  }

  // ----- Totals of concatenated cascades -----

  lemma {:induction false} TotalOfConcat<T(!new)>(G: Group<T>, s: seq<BaseAndExponent<T>>, t: seq<BaseAndExponent<T>>,
                                                  limit: nat)
    requires IsAbelianGroup(G) && Cascade.Bounded(G, s, limit) && Cascade.Bounded(G, t, limit)
    ensures Cascade.Total(G, s + t) == G.add(Cascade.Total(G, s), Cascade.Total(G, t))
  {
    hide IsAbelianGroup, Cascade.Term;
    Cascade.TotalContained(G, s, limit);
    if t == [] {
      assert s + t == s;
      IdentityRight(G, Cascade.Total(G, s));
    } else {
      var front, last := t[..|t| - 1], t[|t| - 1];
      assert (s + t)[..|s + t| - 1] == s + front;
      TotalOfConcat(G, s, front, limit);
      Cascade.TotalContained(G, front, limit);
      Cascade.TermContained(G, last);
      Associate(G, Cascade.Total(G, s), Cascade.Total(G, front), Cascade.Term(G, last));
    }
  }

  lemma IdentityRight<T(!new)>(G: Group<T>, a: T)
    requires IsAbelianGroup(G) && G.contains(a)
    ensures G.add(a, G.identity) == a
  {
    assert Laws(G, a, G.identity, a);
  }

  lemma Associate<T(!new)>(G: Group<T>, a: T, b: T, c: T)
    requires IsAbelianGroup(G) && G.contains(a) && G.contains(b) && G.contains(c)
    ensures G.add(a, G.add(b, c)) == G.add(G.add(a, b), c)
  {
    assert Laws(G, a, b, c);
  }

  ghost function Largest<T>(s: seq<BaseAndExponent<T>>): nat {
    if s == [] then 0
    else var rest := Largest(s[1..]); if s[0].exponent > rest then s[0].exponent else rest
  }

  lemma {:induction false} LargestBounds<T>(s: seq<BaseAndExponent<T>>)
    ensures forall p :: p in s ==> p.exponent <= Largest(s)
  {
    if s != [] {
      LargestBounds(s[1..]);
      assert s == [s[0]] + s[1..];
    }
  }

  // ----- One segment of the exponent -----

  // What is still to come, `e` at bit `position`, is split into its low `w` bits and the rest; low bits that
  // reach half of 2^w may be replaced by what they lack to 2^w, counted negatively.
  lemma SplitSegment(e: nat, w: nat, position: nat)
    ensures ShiftLeft(LowBits(e, w), position) + ShiftLeft(ShiftRight(e, w), position + w) == ShiftLeft(e, position)
    ensures LowBits(e, w) < Pow2(w)
    ensures ShiftLeft(LowBits(e, w) - Pow2(w), position) + ShiftLeft(ShiftRight(e, w) + 1, position + w) == ShiftLeft(e, position)
  {
    hide LowBits, ShiftRight, ShiftLeft;
    SplitBits(e, w);
    var r, q := LowBits(e, w), ShiftRight(e, w);
    ShiftLeftTwice(q, w, position);
    ShiftLeftSum(r, ShiftLeft(q, w), position);
    ShiftLeftSum(q, 1, position + w);
    var lack: int := 0 - Pow2(w);
    ShiftLeftSum(r, lack, position);
    ShiftLeftIsProduct(1, w);
    ShiftLeftTwice(1, w, position);
    ShiftLeftSum(Pow2(w), lack, position);
    ShiftLeftOfZero(position);
  }

  lemma SegmentTerm<T(!new)>(G: Group<T>, base: T, r: nat, position: nat)
    requires IsAbelianGroup(G) && G.contains(base)
    ensures Mul(G, r, Mul(G, Pow2(position), base)) == Mul(G, ShiftLeft(r, position), base)
  {
    MulOfMul(G, r, Pow2(position), base);
    ShiftLeftIsProduct(r, position);
  }

  lemma NegatedSegmentTerm<T(!new)>(G: Group<T>, base: T, r: nat, position: nat)
    requires IsAbelianGroup(G) && G.contains(base)
    ensures Mul(G, r, G.inverse(Mul(G, Pow2(position), base))) == Mul(G, ShiftLeft(0 - r, position), base)
    ensures G.contains(G.inverse(Mul(G, Pow2(position), base)))
  {
    var p: int := Pow2(position);
    MulNegate(G, p, base);
    MulContained(G, -p, base);
    MulOfMul(G, r, -p, base);
    ShiftLeftIsProduct(0 - r, position);
    assert r * -p == (0 - r) * p;
  }

  // Where segment i begins.
  ghost function Position(i: nat, windowSize: nat): nat {
    if i == 0 then 0 else Position(i - 1, windowSize) + windowSize
  }

  // Cuts one segment off the exponent, and negates it together with its base when that makes it shorter.
  method CutSegment<T(!new)>(G: Group<T>, ghost first: T, stored: T, e: nat, fastNegate: bool, windowSize: nat,
                             exponentBase: nat, ghost position: nat)
    returns (segment: BaseAndExponent<T>, e': nat)
    requires IsAbelianGroup(G) && G.contains(first) && stored == Mul(G, Pow2(position), first)
    requires windowSize > 0 && exponentBase == Pow2(windowSize)
    ensures G.contains(segment.base)
    ensures Cascade.Term(G, segment) == Mul(G, ShiftLeft(e, position) - ShiftLeft(e', position + windowSize), first)
  {
    hide IsAbelianGroup, Mul, ShiftLeft, ShiftRight, LowBits, Pow2;
    var r, q := LowBits(e, windowSize), ShiftRight(e, windowSize);
    SplitSegment(e, windowSize, position);
    e' := q;
    if fastNegate && GetBit(r, windowSize - 1) {
      e' := e' + 1;
      NegatedSegmentTerm(G, first, exponentBase - r, position);
      segment := BaseAndExponent(G.inverse(stored), exponentBase - r);
    } else {
      MulContained(G, Pow2(position), first);
      SegmentTerm(G, first, r, position);
      segment := BaseAndExponent(stored, r);
    }
  }

  lemma NextStored<T(!new)>(G: Group<T>, first: T, position: nat, windowSize: nat)
    requires IsAbelianGroup(G) && G.contains(first)
    ensures G.contains(Mul(G, Pow2(position), first))
    ensures Mul(G, Pow2(windowSize), Mul(G, Pow2(position), first)) == Mul(G, Pow2(position + windowSize), first)
  {
    MulContained(G, Pow2(position), first);
    MulOfMul(G, Pow2(windowSize), Pow2(position), first);
    Pow2Sum(windowSize, position);
  }

  // Stored base i is 2^(i * windowSize) times the first.
  ghost predicate Multiples<T>(G: Group<T>, stored: seq<T>, first: T, windowSize: nat) {
    forall i :: 0 <= i < |stored| ==> stored[i] == Mul(G, Pow2(Position(i, windowSize)), first)
  }

  lemma FirstMultiple<T(!new)>(G: Group<T>, first: T, windowSize: nat)
    requires IsAbelianGroup(G) && G.contains(first)
    ensures Multiples(G, [first], first, windowSize)
  {
    MulOne(G, first);
    assert Pow2(Position(0, windowSize)) == 1;
  }

  // The last one times the exponent base is the next.
  lemma NextMultiple<T(!new)>(G: Group<T>, stored: seq<T>, first: T, windowSize: nat)
    requires IsAbelianGroup(G) && G.contains(first) && stored != [] && Multiples(G, stored, first, windowSize)
    ensures G.contains(stored[|stored| - 1])
    ensures Multiples(G, stored + [Mul(G, Pow2(windowSize), stored[|stored| - 1])], first, windowSize)
  {
    var n := |stored|;
    NextStored(G, first, Position(n - 1, windowSize), windowSize);
    assert Position(n, windowSize) == Position(n - 1, windowSize) + windowSize;
    hide IsAbelianGroup, Mul, Pow2, Position;
  }

  class FixedBasePrecomputation<T(==, 0, !new)> {
    var base: T
    var windowSize: nat
    var exponentBase: nat
    var bases: seq<T>

    ghost predicate Valid(G: Group<T>)
      reads this
    {
      && |bases| > 0 && G.contains(bases[0])
      && (|bases| > 1 ==> windowSize > 0 && exponentBase == Pow2(windowSize))
      && Multiples(G, bases, bases[0], windowSize)
    }

    constructor ()
      ensures bases == []
    {
      windowSize, exponentBase, bases := 0, 0, [];
    }

    // A new base discards what was stored; the base already there keeps it.
    method SetBase(group: GroupPrecomputation<T>, newBase: T)
      requires group.Valid() && IsAbelianGroup(group.group) && group.group.contains(group.convertIn(newBase))
      requires bases == [] || Valid(group.group)
      modifies this
      ensures Valid(group.group) && bases[0] == group.convertIn(newBase) && base == newBase
      ensures old(|bases|) > 0 && old(bases[0]) == group.convertIn(newBase) ==>
                bases == old(bases) && windowSize == old(windowSize)
    {
      base := if group.needConversions then group.convertIn(newBase) else newBase;
      if |bases| == 0 || base != bases[0] {
        bases := [base];
        MulOne(group.group, base);
      }
      if group.needConversions {
        base := newBase;
      }
    }

    method Precompute(group: GroupPrecomputation<T>, maxExpBits: nat, storage: nat)
      requires IsAbelianGroup(group.group) && Valid(group.group)
      requires 0 < storage <= maxExpBits
      modifies this
      ensures Valid(group.group) && |bases| == storage && bases[0] == old(bases[0])
      ensures base == old(base)
    {
      hide IsAbelianGroup, Mul, Pow2;
      if storage > 1 {
        windowSize := (maxExpBits + storage - 1) / storage;
        SomeWindow(maxExpBits, storage);
        exponentBase := Pow2(windowSize);
      }
      bases := FillBases(group.group, bases[0], windowSize, exponentBase, storage);
    }

    // Each stored base is the one before it times the exponent base.
    static method FillBases(G: Group<T>, first: T, windowSize: nat, exponentBase: nat, storage: nat)
      returns (stored: seq<T>)
      requires IsAbelianGroup(G) && G.contains(first) && storage > 0
      requires storage > 1 ==> windowSize > 0 && exponentBase == Pow2(windowSize)
      ensures |stored| == storage && stored[0] == first && Multiples(G, stored, first, windowSize)
    {
      FirstMultiple(G, first, windowSize);
      hide *;
      stored := [first];
      for i := 1 to storage
        invariant 1 <= |stored| == i <= storage && stored[0] == first
        invariant Multiples(G, stored, first, windowSize)
      {
        NextMultiple(G, stored, first, windowSize);
        var next := Simultaneous.ScalarMultiply(G, stored[i - 1], exponentBase);
        stored := stored + [next];
      }
    }

    static lemma SomeWindow(maxExpBits: nat, storage: nat)
      requires 0 < storage <= maxExpBits
      ensures (maxExpBits + storage - 1) / storage > 0
    {
      DivMod(maxExpBits + storage - 1, storage);
    }

    // Appends segments of the exponent, each with its stored base: together they are worth exponent * bases[0].
    method PrepareCascade(group: GroupPrecomputation<T>, ebIn: seq<BaseAndExponent<T>>, exponent: nat)
      returns (eb: seq<BaseAndExponent<T>>)
      requires IsAbelianGroup(group.group) && Valid(group.group)
      requires forall p :: p in ebIn ==> group.group.contains(p.base)
      ensures forall p :: p in eb ==> group.group.contains(p.base)
      ensures Cascade.Total(group.group, eb)
           == group.group.add(Cascade.Total(group.group, ebIn), Mul(group.group, exponent, bases[0]))
      ensures |eb| == |ebIn| + |bases|
    {
      var G := group.group;
      hide IsAbelianGroup, Mul, ShiftLeft, Pow2, Cascade.Total;
      var fastNegate := G.inversionIsFast && windowSize > 1;
      var e := exponent;
      eb := ebIn;
      ghost var added: seq<BaseAndExponent<T>> := [];
      ghost var position := 0;
      EmptyTotal(G, bases[0]);
      ShiftByZero(exponent);
      var i := 0;
      while i + 1 < |bases|
        invariant 0 <= i < |bases| && position == Position(i, windowSize)
        invariant eb == ebIn + added && |added| == i
        invariant forall p :: p in added ==> G.contains(p.base)
        invariant Cascade.Total(G, added) == Mul(G, exponent - ShiftLeft(e, position), bases[0])
      {
        var segment, e' := CutSegment(G, bases[0], bases[i], e, fastNegate, windowSize, exponentBase, position);
        AppendTerm(G, bases[0], added, segment, exponent - ShiftLeft(e, position),
                   ShiftLeft(e, position) - ShiftLeft(e', position + windowSize));
        added := added + [segment];
        eb := eb + [segment];
        e := e';
        position := position + windowSize;
        i := i + 1;
      }
      NextStored(G, bases[0], position, windowSize);
      SegmentTerm(G, bases[0], e, position);
      var last := BaseAndExponent(bases[i], e);
      AppendTerm(G, bases[0], added, last, exponent - ShiftLeft(e, position), ShiftLeft(e, position));
      added := added + [last];
      eb := eb + [last];
      assert eb == ebIn + added;
      LargestBounds(eb);
      TotalOfConcat(G, ebIn, added, Largest(eb));
    }

    method Exponentiate(group: GroupPrecomputation<T>, exponent: nat) returns (result: T)
      requires IsAbelianGroup(group.group) && Valid(group.group)
      ensures result == group.convertOut(Mul(group.group, exponent, bases[0]))
    {
      hide IsAbelianGroup, Mul;
      var eb := PrepareCascade(group, [], exponent);
      MulContained(group.group, exponent, bases[0]);
      Cascade.AddIdentity(group.group, Mul(group.group, exponent, bases[0]));
      result := RunCascade(group, eb);
    }

    method CascadeExponentiate(group: GroupPrecomputation<T>, exponent: nat, pc2: FixedBasePrecomputation<T>, exponent2: nat)
      returns (result: T)
      requires IsAbelianGroup(group.group) && Valid(group.group) && pc2.Valid(group.group)
      ensures result == group.convertOut(group.group.add(Mul(group.group, exponent, bases[0]),
                                                         Mul(group.group, exponent2, pc2.bases[0])))
    {
      hide IsAbelianGroup, Mul;
      var eb := PrepareCascade(group, [], exponent);
      MulContained(group.group, exponent, bases[0]);
      Cascade.AddIdentity(group.group, Mul(group.group, exponent, bases[0]));
      eb := pc2.PrepareCascade(group, eb, exponent2);
      result := RunCascade(group, eb);
    }
  }

  lemma AppendTerm<T(!new)>(G: Group<T>, first: T, s: seq<BaseAndExponent<T>>, p: BaseAndExponent<T>, m: int, n: int)
    requires IsAbelianGroup(G) && G.contains(first)
    requires Cascade.Total(G, s) == Mul(G, m, first) && Cascade.Term(G, p) == Mul(G, n, first)
    ensures Cascade.Total(G, s + [p]) == Mul(G, m + n, first)
  {
    hide IsAbelianGroup, Mul, Cascade.Term;
    assert (s + [p])[..|s|] == s;
    MulSum(G, m, n, first);
  }

  lemma EmptyTotal<T(!new)>(G: Group<T>, first: T)
    ensures Cascade.Total(G, []) == Mul(G, 0, first)
  {
  }

  method RunCascade<T(!new)>(group: GroupPrecomputation<T>, eb: seq<BaseAndExponent<T>>) returns (result: T)
    requires IsAbelianGroup(group.group) && eb != []
    requires forall p :: p in eb ==> group.group.contains(p.base)
    ensures result == group.convertOut(Cascade.Total(group.group, eb))
  {
    var range := new BaseAndExponent<T>[|eb|](i requires 0 <= i < |eb| => eb[i]);
    assert range[..] == eb;
    LargestBounds(eb);
    var sum := Cascade.GeneralCascadeMultiplication(group.group, range, Largest(eb));
    result := group.convertOut(sum);
  }
}
