/** Strings of bits, and how they lie in digits of a fixed width, the first bit highest. */
module BitStrings {
  import opened Arithmetic
  import opened Bits

  type bit = x: int | 0 <= x < 2

  function Number(s: seq<bit>): nat {
    if s == [] then 0 else 2 * Number(s[..|s| - 1]) + s[|s| - 1]
  }

  // The n low bits of v.
  function ToBits(v: nat, n: nat): (s: seq<bit>)
    ensures |s| == n
  {
    if n == 0 then [] else ToBits(v / 2, n - 1) + [v % 2]
  }

  lemma {:induction false} NumberBound(s: seq<bit>)
    ensures Number(s) < Pow2(|s|)
  {
    if s != [] { NumberBound(s[..|s| - 1]); }
  }

  lemma {:induction false} NumberOfBits(v: nat, n: nat)
    requires v < Pow2(n)
    ensures Number(ToBits(v, n)) == v
  {
    if n > 0 {
      NumberOfBits(v / 2, n - 1);
      assert ToBits(v, n)[..n - 1] == ToBits(v / 2, n - 1);
    }
  }

  lemma {:induction false} BitsOfNumber(s: seq<bit>)
    ensures ToBits(Number(s), |s|) == s
  {
    if s != [] {
      BitsOfNumber(s[..|s| - 1]);
      assert Number(s) / 2 == Number(s[..|s| - 1]);
    }
  }

  lemma {:induction false} NumberConcat(p: seq<bit>, q: seq<bit>)
    ensures Number(p + q) == ShiftLeft(Number(p), |q|) + Number(q)
  {
    if q == [] {
      assert p + q == p;
    } else {
      var q' := q[..|q| - 1];
      NumberConcat(p, q');
      assert (p + q)[..|p + q| - 1] == p + q';
    }
  }

  // A shift right undoes as much of a shift left, then takes bits away.
  lemma {:induction false} ShiftBack(x: nat, m: nat, k: nat)
    ensures m <= k ==> ShiftRight(ShiftLeft(x, m), k) == ShiftRight(x, k - m)
    ensures m >= k ==> ShiftRight(ShiftLeft(x, m), k) == ShiftLeft(x, m - k)
  {
    if k > 0 {
      ShiftBack(x, m, k - 1);
      if m >= k {
        assert ShiftLeft(x, m - k + 1) == 2 * ShiftLeft(x, m - k);
      } else if m == k - 1 {
      }
    }
  }

  // Shifting right by k drops the last k bits.
  lemma {:induction false} DropBits(s: seq<bit>, k: nat)
    requires k <= |s|
    ensures ShiftRight(Number(s), k) == Number(s[..|s| - k])
  {
    if k > 0 {
      DropBits(s, k - 1);
      var t := s[..|s| - k + 1];
      assert t[..|t| - 1] == s[..|s| - k];
      assert Number(t) / 2 == Number(t[..|t| - 1]);
    } else {
      assert s[..|s|] == s;
    }
  }

  // ----- Bitwise or -----

  function Or(a: nat, b: nat): (c: nat) {
    if a == 0 then b else if b == 0 then a
    else (if a % 2 == 1 || b % 2 == 1 then 1 else 0) + 2 * Or(a / 2, b / 2)
  }

  // Into low bits that are clear, or adds.
  lemma {:induction false} OrIntoClear(h: nat, b: nat, t: nat)
    requires b < Pow2(t)
    ensures Or(ShiftLeft(h, t), b) == ShiftLeft(h, t) + b
  {
    if t > 0 && h > 0 && b > 0 {
      var p := ShiftLeft(h, t - 1);
      ShiftLeftGrows(h, t - 1);
      OrIntoClear(h, b / 2, t - 1);
      assert (2 * p) / 2 == p && (2 * p) % 2 == 0;
    } else if h == 0 {
      ShiftLeftOfZero(t);
    }
  }

  // ----- Digits -----

  // The digits that are complete.
  function Whole(s: seq<bit>, w: nat): (d: seq<nat>)
    requires w > 0
    decreases |s|
  {
    if |s| < w then [] else Whole(s[..|s| - w], w) + [Number(s[|s| - w..])]
  }

  // Where the digit that is not complete begins.
  function WholeLength(k: nat, w: nat): (h: nat)
    requires w > 0
    ensures h <= k
  {
    DivMod(k, w);
    k - k % w
  }

  // The digit that is not complete, if there is one: zeros complete it.
  function Partial(p: seq<bit>, w: nat): (d: seq<nat>)
    requires |p| <= w
  {
    if p == [] then [] else [ShiftLeft(Number(p), w - |p|)]
  }

  function Digits(s: seq<bit>, w: nat): (d: seq<nat>)
    requires w > 0
  {
    var h := WholeLength(|s|, w);
    DivMod(|s|, w);
    Whole(s[..h], w) + Partial(s[h..], w)
  }

  lemma {:induction false} WholeCount(s: seq<bit>, w: nat)
    requires w > 0 && |s| % w == 0
    ensures |Whole(s, w)| == |s| / w
    decreases |s|
  {
    if |s| < w {
      DivUnique(|s|, w, 0, |s|);
    } else {
      Less(|s|, w);
      WholeCount(s[..|s| - w], w);
    }
  }

  lemma Less(k: nat, w: nat)
    requires w > 0 && k >= w
    ensures (k - w) % w == k % w && (k - w) / w == k / w - 1
  {
    DivMod(k, w);
    MulDistributes(w, k / w - 1, 1);
    DivUnique(k - w, w, k / w - 1, k % w);
  }

  // How positions move when m bits are added.
  lemma Advance(k: nat, m: nat, w: nat)
    requires w > 0 && k % w + m <= w
    ensures k % w + m < w ==> (k + m) / w == k / w && (k + m) % w == k % w + m
    ensures k % w + m == w ==> (k + m) / w == k / w + 1 && (k + m) % w == 0
  {
    DivMod(k, w);
    MulDistributes(w, k / w, 1);
    if k % w + m < w {
      DivUnique(k + m, w, k / w, k % w + m);
    } else {
      DivUnique(k + m, w, k / w + 1, 0);
    }
  }

  // A buffer that holds i complete digits, the begun one made of the bits p, and zeros after them.
  ghost predicate Layout(buf: seq<nat>, w: nat, digits: seq<nat>, p: seq<bit>, i: nat) {
    && i <= |buf| && |p| <= w
    && buf[..i] == digits
    && (i < |buf| ==> buf[i] == ShiftLeft(Number(p), w - |p|))
    && forall j :: i < j < |buf| ==> buf[j] == 0
  }

  // A buffer of digits that holds these bits from its start, and zeros after them.
  ghost predicate Filled(buf: seq<nat>, w: nat, s: seq<bit>)
    requires w > 0
  {
    var h := WholeLength(|s|, w);
    Layout(buf, w, Whole(s[..h], w), s[h..], |s| / w)
  }

  lemma FilledNothing(buf: seq<nat>, w: nat)
    requires w > 0 && forall j :: 0 <= j < |buf| ==> buf[j] == 0
    ensures Filled(buf, w, [])
  {
    DivUnique(0, w, 0, 0);
    ShiftLeftOfZero(w);
    assert Number([]) == 0;
  }

  // Bits that fit in the current digit go into it.
  lemma AddBits(buf: seq<nat>, w: nat, s: seq<bit>, d: seq<bit>)
    requires w > 0 && Filled(buf, w, s) && |s| / w < |buf| && 0 < |d| && |s| % w + |d| <= w
    ensures Filled(buf[|s| / w := buf[|s| / w] + ShiftLeft(Number(d), w - |s| % w - |d|)], w, s + d)
  {
    hide Whole, Number, ShiftLeft, Layout;
    DivMod(|s|, w);
    Advance(|s|, |d|, w);
    var h := WholeLength(|s|, w);
    if |s| % w + |d| < w {
      AddPart(s, d, w);
      LayoutPart(buf, w, Whole(s[..h], w), s[h..], |s| / w, d);
    } else {
      AddWhole(s, d, w);
      LayoutWhole(buf, w, Whole(s[..h], w), s[h..], |s| / w, d);
    }
  }

  lemma LayoutPart(buf: seq<nat>, w: nat, digits: seq<nat>, p: seq<bit>, i: nat, d: seq<bit>)
    requires Layout(buf, w, digits, p, i) && i < |buf| && |p| + |d| <= w
    ensures Layout(buf[i := buf[i] + ShiftLeft(Number(d), w - |p| - |d|)], w, digits, p + d, i)
  {
    DigitGrows(p, d, w);
  }

  lemma LayoutWhole(buf: seq<nat>, w: nat, digits: seq<nat>, p: seq<bit>, i: nat, d: seq<bit>)
    requires Layout(buf, w, digits, p, i) && i < |buf| && |p| + |d| == w
    ensures Layout(buf[i := buf[i] + ShiftLeft(Number(d), w - |p| - |d|)], w, digits + [Number(p + d)], [], i + 1)
  {
    hide Number, ShiftLeft;
    DigitGrows(p, d, w);
    DigitComplete(p + d);
    ZeroDigit(w);
    var buf' := buf[i := buf[i] + ShiftLeft(Number(d), w - |p| - |d|)];
    assert buf'[..i + 1] == buf[..i] + [buf'[i]];
  }

  lemma DigitGrows(p: seq<bit>, d: seq<bit>, w: nat)
    requires |p| + |d| <= w
    ensures ShiftLeft(Number(p), w - |p|) + ShiftLeft(Number(d), w - |p| - |d|)
         == ShiftLeft(Number(p + d), w - |p| - |d|)
  {
    var n := w - |p| - |d|;
    NumberConcat(p, d);
    ShiftLeftSum(ShiftLeft(Number(p), |d|), Number(d), n);
    ShiftLeftTwice(Number(p), |d|, n);
  }

  lemma DigitComplete(d: seq<bit>)
    ensures ShiftLeft(Number(d), 0) == Number(d)
  {
  }

  lemma ZeroDigit(w: nat)
    ensures ShiftLeft(Number([]), w) == 0
  {
    ShiftLeftOfZero(w);
  }

  lemma AddPart(s: seq<bit>, d: seq<bit>, w: nat)
    requires w > 0 && |s| % w + |d| < w
    ensures WholeLength(|s + d|, w) == WholeLength(|s|, w)
    ensures (s + d)[..WholeLength(|s|, w)] == s[..WholeLength(|s|, w)]
    ensures (s + d)[WholeLength(|s|, w)..] == s[WholeLength(|s|, w)..] + d
  {
    Advance(|s|, |d|, w);
  }

  lemma AddWhole(s: seq<bit>, d: seq<bit>, w: nat)
    requires w > 0 && |s| % w + |d| == w
    ensures WholeLength(|s + d|, w) == |s + d|
    ensures (s + d)[|s + d|..] == []
    ensures Whole((s + d)[..|s + d|], w) == Whole(s[..WholeLength(|s|, w)], w) + [Number(s[WholeLength(|s|, w)..] + d)]
  {
    var h := WholeLength(|s|, w);
    Advance(|s|, |d|, w);
    DivMod(|s|, w);
    var t := (s + d)[..|s + d|];
    assert |t| - w == h && t[..h] == s[..h] && t[h..] == s[h..] + d;
  }
}
