/** The signed sliding window of algebra.cpp: it cuts an exponent into odd digits, lowest first. */
module WindowSliding {
  import opened Bits

  class WindowSlider {
    var exp: nat
    var windowModulus: nat
    var windowSize: nat
    var windowBegin: nat
    var expWindow: nat
    var fastNegate: bool
    var negateNext: bool
    var firstTime: bool
    var finished: bool

    ghost predicate Valid()
      reads this
    {
      && windowSize >= 1
      && windowModulus == Pow2(windowSize)
      && (firstTime ==> !finished && windowBegin == 0)
      && (HasWindow() ==> 1 <= expWindow < Pow2(windowSize) && expWindow % 2 == 1 && (negateNext ==> fastNegate))
    }

    // A window has been cut off and its digit is on offer.
    ghost predicate HasWindow()
      reads this
    {
      !firstTime && !finished
    }

    ghost function Digit(): int
      reads this
    {
      var window: int := expWindow; if negateNext then -window else window
    }

    // Where the part of the exponent that no window has covered yet begins, and what it is.
    ghost function RestPosition(): nat
      reads this
    {
      if firstTime then 0 else windowBegin + windowSize
    }

    ghost function Rest(): nat
      reads this
    {
      if firstTime then exp else if finished then 0 else ShiftRight(exp, windowSize)
    }

    ghost function Uncovered(): int
      reads this
    {
      ShiftLeft(Rest(), RestPosition())
    }

    constructor (expIn: nat, fastNegate: bool, windowSizeIn: nat)
      ensures Valid() && firstTime && this.fastNegate == fastNegate
      ensures Uncovered() == expIn
      ensures windowSizeIn > 0 ==> windowSize == windowSizeIn
      ensures windowSizeIn == 0 ==> windowSize <= 7
    {
      exp := expIn;
      this.fastNegate := fastNegate;
      var size := windowSizeIn;
      if size == 0 {
        var expLen := BitCount(expIn);
        size := if expLen <= 17 then 1 else if expLen <= 24 then 2 else if expLen <= 70 then 3
                else if expLen <= 197 then 4 else if expLen <= 539 then 5 else if expLen <= 1434 then 6 else 7;
      }
      windowSize := size;
      windowModulus := Pow2(size);
      windowBegin := 0;
      expWindow := 0;
      negateNext := false;
      firstTime := true;
      finished := false;
    }

    // The digit handed out, at its position, and what is left uncovered add up to what was
    // uncovered before; the uncovered part strictly shrinks; windows never overlap.
    method FindNextWindow()
      requires Valid() && !finished
      modifies this
      ensures Valid() && !firstTime
      ensures windowSize == old(windowSize) && fastNegate == old(fastNegate)
      ensures finished <==> old(Rest()) == 0
      ensures finished ==> old(Uncovered()) == 0
      ensures !finished ==> ShiftLeft(Digit(), windowBegin) + Uncovered() == old(Uncovered())
      ensures !finished ==> windowBegin >= old(RestPosition())
      ensures Rest() <= old(Rest()) && (!finished ==> Rest() < old(Rest()))
    {
      hide ShiftLeft, ShiftRight, LowBits, Pow2, BitCount;
      ghost var rest := Rest();
      ghost var start := RestPosition();
      ghost var skipStart := if firstTime then 0 else windowSize;
      ShiftByZero(exp);
      ShiftByZero(rest);
      assert rest == ShiftRight(exp, skipStart);
      var skipCount, found := FirstBit(exp, if firstTime then 0 else windowSize);
      firstTime := false;
      if !found {
        finished := true;
        ShiftLeftOfZero(start);
        return;
      }

      ghost var skipped := skipCount - skipStart;
      exp := ShiftRight(exp, skipCount);
      ghost var odd := exp;
      windowBegin := windowBegin + skipCount;
      expWindow := LowBits(exp, windowSize);
      OddLowBits(odd, windowSize);

      if fastNegate && GetBit(exp, windowSize) {
        negateNext := true;
        expWindow := Pow2(windowSize) - expWindow;
        exp := exp + windowModulus;
      } else {
        negateNext := false;
      }
      WindowIsExact(start, skipped, windowSize, rest, odd, negateNext, Digit(), Rest());
    }
  }

  // The place of the first bit from `start` on, looked for up to the end of the last word.
  method FirstBit(exp: nat, start: nat) returns (skipCount: nat, found: bool)
    ensures found ==> skipCount >= start && GetBit(exp, skipCount)
    ensures found ==> ShiftRight(exp, start) == ShiftLeft(ShiftRight(exp, skipCount), skipCount - start)
    ensures !found ==> ShiftRight(exp, start) == 0
  {
    hide ShiftLeft, ShiftRight, BitCount;
    var expLen := WordCount(exp) * WORD_BITS;
    assert BitCount(exp) <= expLen;
    skipCount := start;
    ShiftByZero(ShiftRight(exp, start));
    while !GetBit(exp, skipCount)
      invariant start <= skipCount
      invariant ShiftRight(exp, start) == ShiftLeft(ShiftRight(exp, skipCount), skipCount - start)
      decreases expLen - skipCount
    {
      if skipCount >= expLen {
        BitsPastTheEnd(exp, skipCount);
        ShiftLeftOfZero(skipCount - start);
        return skipCount, false;
      }
      SkippedBit(exp, start, skipCount);
      skipCount := skipCount + 1;
    }
    found := true;
  }

  lemma SkippedBit(x: nat, start: nat, i: nat)
    requires start <= i && Bit(x, i) == 0
    requires ShiftRight(x, start) == ShiftLeft(ShiftRight(x, i), i - start)
    ensures ShiftRight(x, start) == ShiftLeft(ShiftRight(x, i + 1), i + 1 - start)
  {
    ShiftStep(x, i);
    ShiftLeftTwice(ShiftRight(x, i + 1), 1, i - start);
    assert ShiftLeft(ShiftRight(x, i + 1), 1) == ShiftRight(x, i);
  }

  lemma OddLowBits(x: nat, w: nat)
    requires w >= 1 && x % 2 == 1
    ensures 1 <= LowBits(x, w) < Pow2(w) && LowBits(x, w) % 2 == 1
    ensures (Pow2(w) - LowBits(x, w)) % 2 == 1
  {
    SplitBits(x, w);
    var low, half := LowBits(x / 2, w - 1), Pow2(w - 1);
    assert LowBits(x, w) == 1 + 2 * low && Pow2(w) == 2 * half;
    assert Pow2(w) - LowBits(x, w) == 2 * (half - low - 1) + 1;
  }

  // Even after the carry, what lies above the window is smaller than the number it was cut from.
  lemma WindowShrinks(x: nat, w: nat)
    requires w >= 1 && x % 2 == 1
    ensures ShiftRight(x, w) < x
    ensures GetBit(x, w) ==> ShiftRight(x, w) + 1 < x
  {
    SplitBits(x, w);
    ShiftLeftGrows(ShiftRight(x, w), w - 1);
    OddLowBits(x, w);
  }

  // Everything FindNextWindow promises about the arithmetic of one cut.
  lemma WindowIsExact(start: nat, skipped: nat, w: nat, rest: nat, odd: nat, negate: bool, digit: int, above: nat)
    requires w >= 1 && odd % 2 == 1
    requires rest == ShiftLeft(odd, skipped)
    requires negate ==> GetBit(odd, w)
    requires digit == if negate then LowBits(odd, w) - Pow2(w) else LowBits(odd, w)
    requires above == ShiftRight(if negate then odd + Pow2(w) else odd, w)
    ensures ShiftLeft(digit, start + skipped) + ShiftLeft(above, start + skipped + w) == ShiftLeft(rest, start)
    ensures above < rest
  {
    SplitBits(odd, w);
    AddAboveLowBits(odd, w);
    if negate {
      ShiftLeftSum(ShiftRight(odd, w), 1, w);
      ShiftLeftIsProduct(1, w);
    }
    assert odd == digit + ShiftLeft(above, w);
    ShiftLeftSum(digit, ShiftLeft(above, w), start + skipped);
    ShiftLeftTwice(above, w, start + skipped);
    ShiftLeftTwice(odd, skipped, start);
    WindowShrinks(odd, w);
    ShiftLeftGrows(odd, skipped);
  }

  // ----- Following one slider, and many -----

  // `covered` is what the digits handed out so far are worth; with the digit on offer and the uncovered
  // part it makes up the exponent. No window still to come begins before bit `position`.
  ghost predicate Tracks(s: WindowSlider, exponent: nat, covered: int, position: nat)
    reads s
  {
    && s.Valid() && !s.firstTime
    && (s.finished ==> exponent == covered)
    && (!s.finished ==>
          && s.windowBegin >= position
          && exponent == covered + ShiftLeft(s.Digit(), s.windowBegin) + s.Uncovered())
  }

  // Strictly falls with every window taken.
  ghost function Remaining(s: WindowSlider): nat
    reads s
  {
    if s.finished then 0 else 1 + s.Rest()
  }

  method TakeDigit(s: WindowSlider, ghost exponent: nat, ghost covered: int, ghost position: nat)
    requires Tracks(s, exponent, covered, position) && !s.finished && s.windowBegin == position
    modifies s
    ensures Tracks(s, exponent, covered + ShiftLeft(old(s.Digit()), position), position + 1)
    ensures s.windowSize == old(s.windowSize) && s.fastNegate == old(s.fastNegate)
    ensures Remaining(s) < old(Remaining(s))
  {
    s.FindNextWindow();
  }

  ghost function Total(rests: seq<nat>): nat {
    if rests == [] then 0 else rests[0] + Total(rests[1..])
  }

  lemma {:induction false} TotalOfUpdate(rests: seq<nat>, i: nat, r: nat)
    requires i < |rests|
    ensures Total(rests[i := r]) == Total(rests) - rests[i] + r
  {
    if i == 0 {
      assert rests[0 := r][1..] == rests[1..];
    } else {
      assert rests[i := r][1..] == rests[1..][i - 1 := r];
      TotalOfUpdate(rests[1..], i - 1, r);
    }
  }

  // No slider that still has a window begins it after `horizon`.
  ghost predicate WithinHorizon(sliders: seq<WindowSlider>, horizon: nat)
    reads sliders
  {
    forall i :: 0 <= i < |sliders| && !sliders[i].finished ==> sliders[i].windowBegin <= horizon
  }
}
