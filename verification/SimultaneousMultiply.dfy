/** AbstractGroup::SimultaneousMultiply and ScalarMultiply of algebra.cpp: many multiples of one
    base at once, by signed windows sorted into buckets. */
module SimultaneousMultiplication {
  import opened Arithmetic
  import opened Bits
  import opened AbelianGroup
  import opened WindowSliding

  // ----- Buckets: bucket j stands for the digit 2j + 1 -----

  // What the buckets from j up are worth when bucket k holds c[k] times the base.
  ghost function Weight(c: seq<int>, j: nat): int
    decreases |c| - j
  {
    if j >= |c| then 0 else (2 * j + 1) * c[j] + Weight(c, j + 1)
  }

  ghost function SuffixSum(c: seq<int>, j: nat): int
    decreases |c| - j
  {
    if j >= |c| then 0 else c[j] + SuffixSum(c, j + 1)
  }

  ghost function SumOfSuffixSums(c: seq<int>, j: nat): int
    decreases |c| - j
  {
    if j >= |c| then 0 else SuffixSum(c, j) + SumOfSuffixSums(c, j + 1)
  }

  lemma {:induction false} SuffixSumsGiveWeight(c: seq<int>, j: nat)
    ensures Weight(c, j) == 2 * SumOfSuffixSums(c, j + 1) + (2 * j + 1) * SuffixSum(c, j)
    decreases |c| - j
  {
    if j < |c| {
      SuffixSumsGiveWeight(c, j + 1);
      MulDistributes(2 * j + 1, c[j], SuffixSum(c, j + 1));
      MulDistributes(SuffixSum(c, j + 1), 2 * j + 1, 2);
    }
  }

  lemma {:induction false} WeightOfUpdate(c: seq<int>, i: nat, d: int, j: nat)
    requires i < |c|
    ensures Weight(c[i := c[i] + d], j) == Weight(c, j) + (if j <= i then (2 * i + 1) * d else 0)
    decreases |c| - j
  {
    if j < |c| {
      WeightOfUpdate(c, i, d, j + 1);
      MulDistributes(2 * i + 1, c[i], d);
    }
  }

  lemma {:induction false} WeightOfZeros(c: seq<int>, j: nat)
    requires forall k :: 0 <= k < |c| ==> c[k] == 0
    ensures Weight(c, j) == 0
    decreases |c| - j
  {
    if j < |c| { WeightOfZeros(c, j + 1); }
  }

  // Bucket k holds coef[k] times the base.
  ghost predicate Holds<T>(G: Group<T>, base: T, bucket: seq<T>, coef: seq<int>) {
    |bucket| == |coef| && forall k :: 0 <= k < |coef| ==> bucket[k] == Mul(G, coef[k], base)
  }

  // The pass that adds each bucket into the one below it and totals the running sums.
  method CombineBuckets<T(!new)>(G: Group<T>, ghost base: T, buckets: seq<T>, ghost coef: seq<int>) returns (r: T)
    requires IsAbelianGroup(G) && G.contains(base)
    requires |buckets| > 0 && Holds(G, base, buckets, coef)
    ensures r == Mul(G, Weight(coef, 0), base)
  {
    hide IsAbelianGroup, Mul;
    var bucket := buckets;
    var last := |bucket| - 1;
    r := bucket[last];
    if |bucket| > 1 {
      LastBucket(coef);
      var j := last - 1;
      while j >= 1
        invariant 0 <= j < last && |bucket| == |coef|
        invariant bucket[..j + 1] == buckets[..j + 1]
        invariant bucket[j + 1] == Mul(G, SuffixSum(coef, j + 1), base)
        invariant r == Mul(G, SumOfSuffixSums(coef, j + 1), base)
        decreases j
      {
        assert bucket[j] == bucket[..j + 1][j] == buckets[j];
        BucketStep(G, base, coef, j);
        bucket := bucket[j := G.add(bucket[j], bucket[j + 1])];
        r := G.add(r, bucket[j]);
        j := j - 1;
      }
      assert bucket[0] == bucket[..1][0] == buckets[0];
      bucket := bucket[0 := G.add(bucket[0], bucket[1])];
      r := G.add(G.double(r), bucket[0]);
      LastStep(G, base, coef);
    } else {
      assert Weight(coef, 0) == coef[0] + Weight(coef, 1);
    }
  }

  lemma LastBucket(coef: seq<int>)
    requires |coef| > 0
    ensures SuffixSum(coef, |coef| - 1) == SumOfSuffixSums(coef, |coef| - 1) == coef[|coef| - 1]
  {
    assert SuffixSum(coef, |coef|) == SumOfSuffixSums(coef, |coef|) == 0;
  }

  lemma BucketStep<T(!new)>(G: Group<T>, base: T, coef: seq<int>, j: nat)
    requires IsAbelianGroup(G) && G.contains(base) && j < |coef|
    ensures G.add(Mul(G, coef[j], base), Mul(G, SuffixSum(coef, j + 1), base)) == Mul(G, SuffixSum(coef, j), base)
    ensures G.add(Mul(G, SumOfSuffixSums(coef, j + 1), base), Mul(G, SuffixSum(coef, j), base))
         == Mul(G, SumOfSuffixSums(coef, j), base)
  {
    MulSum(G, coef[j], SuffixSum(coef, j + 1), base);
    MulSum(G, SumOfSuffixSums(coef, j + 1), SuffixSum(coef, j), base);
  }

  lemma LastStep<T(!new)>(G: Group<T>, base: T, coef: seq<int>)
    requires IsAbelianGroup(G) && G.contains(base) && |coef| > 0
    ensures G.add(G.double(Mul(G, SumOfSuffixSums(coef, 1), base)),
                  G.add(Mul(G, coef[0], base), Mul(G, SuffixSum(coef, 1), base))) == Mul(G, Weight(coef, 0), base)
  {
    hide IsAbelianGroup, Mul;
    SuffixSumsGiveWeight(coef, 0);
    MulSum(G, coef[0], SuffixSum(coef, 1), base);
    MulDouble(G, SumOfSuffixSums(coef, 1), base);
    MulSum(G, 2 * SumOfSuffixSums(coef, 1), SuffixSum(coef, 0), base);
  }

  // ----- One exponent's slider and buckets -----

  method TakeWindow<T(!new)>(G: Group<T>, ghost base: T, s: WindowSlider, g: T, buckets: seq<T>,
                             ghost coef: seq<int>, ghost exponent: nat, ghost position: nat)
    returns (bucket: seq<T>, ghost coef': seq<int>)
    requires IsAbelianGroup(G) && G.contains(base)
    requires Tracks(s, exponent, Weight(coef, 0), position) && !s.finished && s.windowBegin == position
    requires |coef| == Pow2(s.windowSize - 1) && Holds(G, base, buckets, coef)
    requires g == Mul(G, Pow2(position), base)
    modifies s
    ensures Tracks(s, exponent, Weight(coef', 0), position + 1)
    ensures |coef'| == Pow2(s.windowSize - 1) && Holds(G, base, bucket, coef')
    ensures Remaining(s) < old(Remaining(s))
  {
    hide IsAbelianGroup, Mul;
    var k := s.expWindow / 2;
    assert k < Pow2(s.windowSize - 1);
    ghost var power: int := Pow2(position);
    ghost var d := if s.negateNext then -power else power;
    ghost var digit := s.Digit();
    MulSum(G, coef[k], d, base);
    WeightOfUpdate(coef, k, d, 0);
    ShiftLeftIsProduct(digit, position);
    DigitTimesPower(k, power, s.negateNext, d, digit);
    if s.negateNext {
      MulNegate(G, power, base);
      bucket := buckets[k := G.add(buckets[k], G.inverse(g))];
    } else {
      bucket := buckets[k := G.add(buckets[k], g)];
    }
    coef' := coef[k := coef[k] + d];
    TakeDigit(s, exponent, Weight(coef, 0), position);
  }

  lemma DigitTimesPower(k: nat, power: int, negate: bool, d: int, digit: int)
    requires d == if negate then -power else power
    requires digit == if negate then -(2 * k + 1) else 2 * k + 1
    ensures (2 * k + 1) * d == digit * power
  {
  }

  // ----- All exponents together -----

  ghost predicate Keeps<T>(G: Group<T>, base: T, exponent: nat, s: WindowSlider, bucket: seq<T>, coef: seq<int>,
                           rest: nat, position: nat)
    reads s
  {
    && Tracks(s, exponent, Weight(coef, 0), position) && rest == Remaining(s)
    && |coef| == Pow2(s.windowSize - 1) && Holds(G, base, bucket, coef)
  }

  // The sliders from `from` on may offer a window at `position`; those before it only later ones.
  ghost predicate AllKeep<T>(G: Group<T>, base: T, exps: seq<nat>, sliders: seq<WindowSlider>, buckets: seq<seq<T>>,
                             coefs: seq<seq<int>>, rests: seq<nat>, position: nat, from: nat)
    reads sliders
  {
    && |sliders| == |buckets| == |coefs| == |rests| == |exps|
    && (forall i, j :: 0 <= i < j < |sliders| ==> sliders[i] != sliders[j])
    && (forall i :: 0 <= i < |sliders| ==>
          Keeps(G, base, exps[i], sliders[i], buckets[i], coefs[i], rests[i], if i < from then position + 1 else position))
  }

  method StartSlider<T(!new)>(G: Group<T>, ghost base: T, exponent: nat)
    returns (s: WindowSlider, bucket: seq<T>, ghost coef: seq<int>)
    requires IsAbelianGroup(G) && G.contains(base)
    ensures fresh(s) && Keeps(G, base, exponent, s, bucket, coef, Remaining(s), 0)
  {
    s := new WindowSlider(exponent, G.inversionIsFast, 0);
    s.FindNextWindow();
    var size := Pow2(s.windowSize - 1);
    coef := seq(size, _ => 0);
    WeightOfZeros(coef, 0);
    bucket := seq(size, _ => G.identity);
  }

  method StartSliders<T(!new)>(G: Group<T>, ghost base: T, exps: seq<nat>)
    returns (sliders: seq<WindowSlider>, buckets: seq<seq<T>>,
             ghost coefs: seq<seq<int>>, ghost rests: seq<nat>, ghost horizon: nat)
    requires IsAbelianGroup(G) && G.contains(base)
    ensures fresh(sliders)
    ensures AllKeep(G, base, exps, sliders, buckets, coefs, rests, 0, 0) && WithinHorizon(sliders, horizon)
  {
    hide Keeps, IsAbelianGroup;
    sliders, buckets, coefs, rests, horizon := [], [], [], [], 0;
    for i := 0 to |exps|
      invariant fresh(sliders)
      invariant AllKeep(G, base, exps[..i], sliders, buckets, coefs, rests, 0, 0) && WithinHorizon(sliders, horizon)
    {
      var s, bucket;
      ghost var coef;
      s, bucket, coef := StartSlider(G, base, exps[i]);
      sliders := sliders + [s];
      buckets := buckets + [bucket];
      coefs := coefs + [coef];
      rests := rests + [Remaining(s)];
      horizon := if s.windowBegin > horizon then s.windowBegin else horizon;
    }
    assert exps[..|exps|] == exps;
  }

  // One exponent at one bit position: if its window begins there, the window is taken.
  method Visit<T(!new)>(G: Group<T>, ghost base: T, s: WindowSlider, g: T, bucketIn: seq<T>, ghost coefIn: seq<int>,
                        ghost restIn: nat, ghost exponent: nat, position: nat)
    returns (bucket: seq<T>, ghost coef: seq<int>, ghost rest: nat)
    requires IsAbelianGroup(G) && G.contains(base)
    requires Keeps(G, base, exponent, s, bucketIn, coefIn, restIn, position)
    requires g == Mul(G, Pow2(position), base)
    modifies s
    ensures Keeps(G, base, exponent, s, bucket, coef, rest, position + 1)
    ensures !s.finished ==> position < s.windowBegin
    ensures rest < restIn || (rest == restIn && s.finished == old(s.finished) && s.windowBegin == old(s.windowBegin))
  {
    bucket, coef := bucketIn, coefIn;
    if !s.finished && position == s.windowBegin {
      bucket, coef := TakeWindow(G, base, s, g, bucketIn, coefIn, exponent, position);
    }
    rest := Remaining(s);
  }

  // One pass over the exponents at one bit position.
  method Sweep<T(!new)>(G: Group<T>, ghost base: T, exps: seq<nat>, sliders: seq<WindowSlider>, bucketsIn: seq<seq<T>>,
                        g: T, expBitPosition: nat, ghost coefsIn: seq<seq<int>>, ghost restsIn: seq<nat>, ghost horizonIn: nat)
    returns (buckets: seq<seq<T>>, notDone: bool, ghost coefs: seq<seq<int>>, ghost rests: seq<nat>, ghost horizon: nat)
    requires IsAbelianGroup(G) && G.contains(base)
    requires AllKeep(G, base, exps, sliders, bucketsIn, coefsIn, restsIn, expBitPosition, 0)
    requires WithinHorizon(sliders, horizonIn)
    requires g == Mul(G, Pow2(expBitPosition), base)
    modifies sliders
    ensures AllKeep(G, base, exps, sliders, buckets, coefs, rests, expBitPosition + 1, 0)
    ensures WithinHorizon(sliders, horizon)
    ensures !notDone ==> forall i :: 0 <= i < |sliders| ==> sliders[i].finished
    ensures notDone && Total(rests) >= Total(restsIn) ==>
              Total(rests) == Total(restsIn) && expBitPosition < horizon <= horizonIn
  {
    hide Keeps, IsAbelianGroup, Mul;
    buckets, notDone, coefs, rests, horizon := bucketsIn, false, coefsIn, restsIn, 0;
    for i := 0 to |exps|
      invariant AllKeep(G, base, exps, sliders, buckets, coefs, rests, expBitPosition, i)
      invariant !notDone ==> forall j :: 0 <= j < i ==> sliders[j].finished
      invariant forall j :: 0 <= j < i && !sliders[j].finished ==> sliders[j].windowBegin <= horizon
      invariant forall j :: i <= j < |sliders| && !sliders[j].finished ==> sliders[j].windowBegin <= horizonIn
      invariant Total(rests) <= Total(restsIn)
      invariant Total(rests) == Total(restsIn) ==> horizon <= horizonIn && (notDone ==> expBitPosition < horizon)
    {
      var s := sliders[i];
      var bucket;
      ghost var coef, rest;
      bucket, coef, rest := Visit(G, base, s, g, buckets[i], coefs[i], rests[i], exps[i], expBitPosition);
      TotalOfUpdate(rests, i, rest);
      buckets, coefs, rests := buckets[i := bucket], coefs[i := coef], rests[i := rest];
      notDone := notDone || !s.finished;
      if !s.finished && s.windowBegin > horizon {
        horizon := s.windowBegin;
      }
    }
  }

  lemma AllFinished<T>(G: Group<T>, base: T, exps: seq<nat>, sliders: seq<WindowSlider>, buckets: seq<seq<T>>,
                       coefs: seq<seq<int>>, rests: seq<nat>, position: nat)
    requires AllKeep(G, base, exps, sliders, buckets, coefs, rests, position, 0)
    requires forall i :: 0 <= i < |sliders| ==> sliders[i].finished
    ensures forall i :: 0 <= i < |exps| ==> Holds(G, base, buckets[i], coefs[i])
    ensures forall i :: 0 <= i < |exps| ==> Weight(coefs[i], 0) == exps[i] && |buckets[i]| > 0
  {
    forall i | 0 <= i < |exps|
      ensures Holds(G, base, buckets[i], coefs[i])
      ensures Weight(coefs[i], 0) == exps[i] && |buckets[i]| > 0
    {
      assert Keeps(G, base, exps[i], sliders[i], buckets[i], coefs[i], rests[i], position);
    }
  }

  method SimultaneousMultiply<T(!new)>(G: Group<T>, base: T, exps: seq<nat>) returns (results: seq<T>)
    requires IsAbelianGroup(G) && G.contains(base)
    ensures |results| == |exps|
    ensures forall i :: 0 <= i < |exps| ==> results[i] == Mul(G, exps[i], base)
  {
    hide IsAbelianGroup, Mul, Keeps;
    ghost var coefs, rests;
    ghost var horizon: int;
    var sliders, buckets;
    sliders, buckets, coefs, rests, horizon := StartSliders(G, base, exps);

    var expBitPosition := 0;
    var g := base;
    var notDone := true;
    ghost var position := 0;
    MulOne(G, base);

    while notDone
      invariant fresh(sliders) && 0 <= horizon && WithinHorizon(sliders, horizon)
      invariant AllKeep(G, base, exps, sliders, buckets, coefs, rests, position, 0)
      invariant notDone ==> position == expBitPosition && g == Mul(G, Pow2(expBitPosition), base)
      invariant !notDone ==> forall i :: 0 <= i < |sliders| ==> sliders[i].finished
      decreases notDone, Total(rests), horizon - expBitPosition
    {
      buckets, notDone, coefs, rests, horizon :=
        Sweep(G, base, exps, sliders, buckets, g, expBitPosition, coefs, rests, horizon);
      position := position + 1;
      if notDone {
        MulDouble(G, Pow2(expBitPosition), base);
        g := G.double(g);
        expBitPosition := expBitPosition + 1;
      }
    }

    AllFinished(G, base, exps, sliders, buckets, coefs, rests, position);
    results := [];
    for i := 0 to |exps|
      invariant |results| == i
      invariant forall k :: 0 <= k < i ==> results[k] == Mul(G, exps[k], base)
    {
      var r := CombineBuckets(G, base, buckets[i], coefs[i]);
      results := results + [r];
    }
  }

  method ScalarMultiply<T(!new)>(G: Group<T>, base: T, exponent: nat) returns (result: T)
    requires IsAbelianGroup(G) && G.contains(base)
    ensures result == Mul(G, exponent, base)
  {
    var results := SimultaneousMultiply(G, base, [exponent]);
    result := results[0];
  }
}
