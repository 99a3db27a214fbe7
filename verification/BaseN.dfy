/** The base-N encoder and decoder, the decoding table and the grouper of basecode.cpp; with six bits a character
    and padding, the encoding of section 4 of RFC 4648. */
module BaseN {
  import opened Arithmetic
  import opened Bits
  import opened Bytes
  import opened Options
  import opened BitStrings
  import Words

  // ----- Bits of bytes, bits of characters -----

  function BitsOf(bytes: seq<byte>): (s: seq<bit>) {
    if bytes == [] then [] else BitsOf(bytes[..|bytes| - 1]) + ToBits(bytes[|bytes| - 1], 8)
  }

  function DigitBits(digits: seq<nat>, w: nat): (s: seq<bit>) {
    if digits == [] then [] else DigitBits(digits[..|digits| - 1], w) + ToBits(digits[|digits| - 1], w)
  }

  lemma {:induction false} BitsOfBytes(bytes: seq<byte>)
    ensures |BitsOf(bytes)| == 8 * |bytes|
    ensures Whole(BitsOf(bytes), 8) == bytes
  {
    if bytes != [] {
      var init, last := bytes[..|bytes| - 1], bytes[|bytes| - 1];
      BitsOfBytes(init);
      assert Pow2(8) == 256;
      hide ToBits, Number;
      NumberOfBits(last, 8);
      var s := BitsOf(bytes);
      assert s[..|s| - 8] == BitsOf(init) && s[|s| - 8..] == ToBits(last, 8);
    }
  }

  lemma {:induction false} WholeAppend(a: seq<bit>, b: seq<bit>, w: nat)
    requires w > 0 && |a| % w == 0 && |b| % w == 0
    ensures Whole(a + b, w) == Whole(a, w) + Whole(b, w)
    decreases |b|
  {
    if |b| < w {
      DivUnique(|b|, w, 0, |b|);
      assert a + b == a;
    } else {
      SubtractModulus(|b|, w);
      WholeAppend(a, b[..|b| - w], w);
      assert (a + b)[..|a + b| - w] == a + b[..|b| - w];
      assert (a + b)[|a + b| - w..] == b[|b| - w..];
    }
  }

  lemma WholeLengthAppend(k: nat, l: nat, w: nat)
    requires w > 0 && k % w == 0
    ensures WholeLength(k + l, w) == k + WholeLength(l, w) && (k + l) % w == l % w
    ensures WholeLength(l, w) % w == 0
  {
    DivMod(k, w);
    DivMod(l, w);
    MulDistributes(w, k / w, l / w);
    DivUnique(k + l, w, k / w + l / w, l % w);
    DivUnique(WholeLength(l, w), w, l / w, 0);
  }

  lemma DigitsAppend(a: seq<bit>, b: seq<bit>, w: nat)
    requires w > 0 && |a| % w == 0
    ensures Digits(a + b, w) == Whole(a, w) + Digits(b, w)
  {
    hide Whole, Partial;
    WholeLengthAppend(|a|, |b|, w);
    var h := WholeLength(|b|, w);
    assert (a + b)[..|a| + h] == a + b[..h] && (a + b)[|a| + h..] == b[h..];
    WholeAppend(a, b[..h], w);
    assert (Whole(a, w) + Whole(b[..h], w)) + Partial(b[h..], w) == Whole(a, w) + (Whole(b[..h], w) + Partial(b[h..], w));
  }

  lemma DigitBitsNext(digits: seq<nat>, d: nat, w: nat)
    ensures DigitBits(digits + [d], w) == DigitBits(digits, w) + ToBits(d, w)
  {
    assert (digits + [d])[..|digits|] == digits;
  }

  lemma {:induction false} WholeBits(s: seq<bit>, w: nat)
    requires w > 0 && |s| % w == 0
    ensures DigitBits(Whole(s, w), w) == s
    decreases |s|
  {
    if |s| < w {
      DivUnique(|s|, w, 0, |s|);
    } else {
      SubtractModulus(|s|, w);
      WholeBits(s[..|s| - w], w);
      WholeBitsStep(s, w);
    }
  }

  lemma WholeBitsStep(s: seq<bit>, w: nat)
    requires 0 < w <= |s| && DigitBits(Whole(s[..|s| - w], w), w) == s[..|s| - w]
    ensures DigitBits(Whole(s, w), w) == s
  {
    hide Number, ToBits, DigitBits;
    var init, last := s[..|s| - w], s[|s| - w..];
    BitsOfNumber(last);
    DigitBitsNext(Whole(init, w), Number(last), w);
    assert s == init + last;
  }

  function ZeroBits(k: nat): (z: seq<bit>)
    ensures |z| == k
  {
    seq(k, i => 0)
  }

  lemma {:induction false} NumberOfZeros(p: seq<bit>, k: nat)
    ensures Number(p + ZeroBits(k)) == ShiftLeft(Number(p), k)
  {
    if k == 0 {
      assert p + ZeroBits(0) == p;
    } else {
      NumberOfZeros(p, k - 1);
      assert (p + ZeroBits(k))[..|p| + k - 1] == p + ZeroBits(k - 1);
    }
  }

  // The digits hold the bits and the zeros that complete the last digit.
  lemma DigitsHoldBits(s: seq<bit>, w: nat)
    requires w > 0
    ensures s <= DigitBits(Digits(s, w), w)
    ensures |DigitBits(Digits(s, w), w)| < |s| + w
    ensures DigitBits(Digits(s, w), w)[|s|..] == ZeroBits(|DigitBits(Digits(s, w), w)| - |s|)
  {
    hide Whole, Number, ToBits, DigitBits, Partial;
    var h := WholeLength(|s|, w);
    DivMod(|s|, w);
    DivUnique(h, w, |s| / w, 0);
    WholeBits(s[..h], w);
    assert s == s[..h] + s[h..];
    if h == |s| {
      NoPartial(s[h..], w);
      assert Whole(s[..h], w) + [] == Whole(s[..h], w);
    } else {
      PartialBits(Whole(s[..h], w), s[h..], w);
      assert s + ZeroBits(w - |s[h..]|) == s[..h] + (s[h..] + ZeroBits(w - |s[h..]|));
    }
  }

  lemma NoPartial(p: seq<bit>, w: nat)
    requires p == []
    ensures Partial(p, w) == []
  {
  }

  lemma PartialBits(digits: seq<nat>, p: seq<bit>, w: nat)
    requires 0 < |p| < w
    ensures DigitBits(digits + Partial(p, w), w) == DigitBits(digits, w) + (p + ZeroBits(w - |p|))
  {
    hide DigitBits, ToBits, Number;
    var k := w - |p|;
    NumberOfZeros(p, k);
    BitsOfNumber(p + ZeroBits(k));
    DigitBitsNext(digits, ShiftLeft(Number(p), k), w);
  }

  // Reading bytes back from bits of which fewer than eight are left over.
  lemma BytesBack(bytes: seq<byte>, s: seq<bit>)
    requires BitsOf(bytes) <= s && |s| < |BitsOf(bytes)| + 8
    ensures Whole(s[..WholeLength(|s|, 8)], 8) == bytes
  {
    hide Whole, BitsOf;
    var n := |bytes|;
    BitsOfBytes(bytes);
    DivUnique(|s|, 8, n, |s| - 8 * n);
    assert WholeLength(|s|, 8) == 8 * n;
    assert s[..8 * n] == BitsOf(bytes);
  }

  // ----- Alphabets -----

  ghost predicate IsAlphabet(alphabet: seq<byte>, w: nat) {
    && 1 <= w <= 7 && |alphabet| == Pow2(w)
    && forall i, j :: 0 <= i < j < |alphabet| ==> alphabet[i] != alphabet[j]
  }

  // The table maps the characters of the alphabet to their values, and no others to any.
  ghost predicate IsLookup(lookup: seq<int>, alphabet: seq<byte>) {
    && |lookup| == 256
    && (forall i :: 0 <= i < |alphabet| ==> lookup[alphabet[i]] == i)
    && forall c: byte :: lookup[c] == -1 || 0 <= lookup[c] < |alphabet|
  }

  function Characters(alphabet: seq<byte>, digits: seq<nat>): (s: seq<byte>)
    requires forall i :: 0 <= i < |digits| ==> digits[i] < |alphabet|
    ensures |s| == |digits|
  {
    seq(|digits|, i requires 0 <= i < |digits| => alphabet[digits[i]])
  }

  // The values of the characters that have one.
  function Values(lookup: seq<int>, text: seq<byte>): (digits: seq<nat>)
    requires |lookup| == 256
  {
    if text == [] then [] else
      Values(lookup, text[..|text| - 1]) + (var v := lookup[text[|text| - 1]]; if 0 <= v < 256 then [v] else [])
  }

  lemma {:induction false} ValuesAppend(lookup: seq<int>, a: seq<byte>, b: seq<byte>)
    requires |lookup| == 256
    ensures Values(lookup, a + b) == Values(lookup, a) + Values(lookup, b)
  {
    if b == [] {
      assert a + b == a;
    } else {
      ValuesAppend(lookup, a, b[..|b| - 1]);
      assert (a + b)[..|a + b| - 1] == a + b[..|b| - 1];
    }
  }

  lemma {:induction false} ValuesOfCharacters(lookup: seq<int>, alphabet: seq<byte>, digits: seq<nat>)
    requires IsLookup(lookup, alphabet) && |alphabet| <= 256
    requires forall i :: 0 <= i < |digits| ==> digits[i] < |alphabet|
    ensures Values(lookup, Characters(alphabet, digits)) == digits
  {
    if digits != [] {
      var init := digits[..|digits| - 1];
      ValuesOfCharacters(lookup, alphabet, init);
      var text := Characters(alphabet, digits);
      assert text[..|text| - 1] == Characters(alphabet, init);
    }
  }

  // Characters without a value.
  ghost predicate Outside(lookup: seq<int>, text: seq<byte>)
    requires |lookup| == 256
  {
    forall i :: 0 <= i < |text| ==> lookup[text[i]] == -1
  }

  lemma {:induction false} OutsideHasNoValues(lookup: seq<int>, text: seq<byte>)
    requires |lookup| == 256 && Outside(lookup, text)
    ensures Values(lookup, text) == []
  {
    if text != [] { OutsideHasNoValues(lookup, text[..|text| - 1]); }
  }

  lemma {:induction false} WholeBelow(s: seq<bit>, w: nat)
    requires w > 0
    ensures forall i :: 0 <= i < |Whole(s, w)| ==> Whole(s, w)[i] < Pow2(w)
    decreases |s|
  {
    if |s| >= w {
      WholeBelow(s[..|s| - w], w);
      NumberBound(s[|s| - w..]);
    }
  }

  lemma DigitBelow(p: seq<bit>, w: nat)
    requires |p| <= w
    ensures ShiftLeft(Number(p), w - |p|) < Pow2(w)
  {
    NumberOfZeros(p, w - |p|);
    NumberBound(p + ZeroBits(w - |p|));
  }

  lemma DigitsBelow(s: seq<bit>, w: nat)
    requires w > 0
    ensures forall i :: 0 <= i < |Digits(s, w)| ==> Digits(s, w)[i] < Pow2(w)
  {
    var h := WholeLength(|s|, w);
    DivMod(|s|, w);
    WholeBelow(s[..h], w);
    DigitBelow(s[h..], w);
  }

  // The characters of these bits.
  function EncodeBits(alphabet: seq<byte>, w: nat, s: seq<bit>): (text: seq<byte>)
    requires IsAlphabet(alphabet, w)
  {
    DigitsBelow(s, w);
    Characters(alphabet, Digits(s, w))
  }

  lemma EncodeBitsAppend(alphabet: seq<byte>, w: nat, a: seq<bit>, b: seq<bit>)
    requires IsAlphabet(alphabet, w) && |a| % w == 0
    ensures EncodeBits(alphabet, w, a + b) == EncodeBits(alphabet, w, a) + EncodeBits(alphabet, w, b)
  {
    hide Digits;
    DigitsAppend(a, b, w);
    DigitsAppend(a, [], w);
    assert a + [] == a && Digits([], w) == [] by { NoDigits(w); }
  }

  lemma NoDigits(w: nat)
    requires w > 0
    ensures Digits([], w) == []
  {
    DivUnique(0, w, 0, 0);
  }

  // ----- The encoder -----

  // What the high bits of the source contribute to a target with t bits left.
  lemma Piece(q: seq<bit>, t: nat)
    requires 0 < |q| <= 8 && 0 < t < 8
    ensures var m := if t <= |q| then t else |q|;
            && ShiftRight(ShiftLeft(Number(q), 8 - |q|), 8 - t) == ShiftLeft(Number(q[..m]), t - m)
            && ShiftLeft(Number(q[..m]), t - m) < Pow2(t)
  {
    hide Number, ShiftLeft, ShiftRight, Pow2;
    ShiftBack(Number(q), 8 - |q|, 8 - t);
    if t <= |q| {
      DropBits(q, |q| - t);
      DigitBelow(q[..t], t);
      DigitComplete(q[..t]);
    } else {
      assert q[..|q|] == q;
      DigitBelow(q, t);
    }
  }

  // What is left in the source, moved to its top.
  lemma SourceMoves(q: seq<bit>, t: nat)
    requires t < |q| <= 8
    ensures ShiftLeft(ShiftLeft(Number(q), 8 - |q|), t) % 256 == ShiftLeft(Number(q[t..]), 8 - |q[t..]|)
    ensures ShiftLeft(Number(q[t..]), 8 - |q[t..]|) < 256
  {
    hide Number, ShiftLeft;
    var a, b, n := q[..t], q[t..], 8 - |q| + t;
    assert q == a + b && Pow2(8) == 256;
    NumberConcat(a, b);
    ShiftLeftTwice(Number(q), 8 - |q|, t);
    ShiftLeftSum(ShiftLeft(Number(a), |b|), Number(b), n);
    ShiftLeftTwice(Number(a), |b|, n);
    ShiftLeftIsProduct(Number(a), 8);
    DigitBelow(b, 8);
  }

  // Or-ing the source's high bits into the current digit puts as many of them there as fit.
  lemma OrDigit(buf: seq<nat>, w: nat, s: seq<bit>, q: seq<bit>, i: nat, t: nat, x: nat)
    requires 0 < w < 8 && Filled(buf, w, s) && i < |buf| && 0 < |q| <= 8 && 0 < t <= w
    requires i == |s| / w && |s| % w == w - t
    requires x == ShiftRight(ShiftLeft(Number(q), 8 - |q|), 8 - t)
    ensures Or(buf[i], x) < 256
    ensures Filled(buf[i := Or(buf[i], x)], w, s + q[..if t <= |q| then t else |q|])
  {
    hide Whole, Number, ShiftLeft, ShiftRight, Or;
    DivMod(|s|, w);
    var m := if t <= |q| then t else |q|;
    var p := s[WholeLength(|s|, w)..];
    Piece(q, t);
    OrIntoClear(Number(p), ShiftLeft(Number(q[..m]), t - m), t);
    AddBits(buf, w, s, q[..m]);
    DigitGrows(p, q[..m], w);
    DigitFits(p + q[..m], w);
  }

  // Position k is in the buffer as long as the block is not full.
  lemma InBuffer(k: nat, w: nat, size: nat)
    requires w > 0 && k <= w * size
    ensures k < w * size ==> k / w < size
    ensures k == w * size ==> k / w == size && k % w == 0
    ensures k / w == size ==> k == w * size
  {
    DivMod(k, w);
    if k == w * size {
      DivUnique(k, w, size, 0);
    } else if k / w >= size {
      MulMonotone(size, k / w, w);
    }
  }

  // How many characters it takes until they end where a byte ends.
  function CharsPerBlock(w: nat): (n: nat)
    ensures n > 0
  {
    if w == 4 then 2 else if w == 2 || w == 6 then 4 else 8
  }

  lemma BlockSizeFound(i: nat, w: nat)
    requires 1 <= w <= 7 && 8 <= i <= 8 * w && i % 8 == 0 && i % w == 0
    requires forall j :: 8 <= j < i && j % 8 == 0 ==> j % w != 0
    ensures i / w == CharsPerBlock(w)
  {
    assert w == 1 ==> i == 8;
    assert w == 2 ==> i == 8 by { assert 8 % 2 == 0; }
    assert w == 3 ==> i == 24;
    assert w == 4 ==> i == 8 by { assert 8 % 4 == 0; }
    assert w == 5 ==> i == 40;
    assert w == 6 ==> i == 24 by { assert 24 % 6 == 0; }
    assert w == 7 ==> i == 56;
  }

  // The smallest multiple of eight bits that is one of w bits, counted in characters.
  method CharacterBlockSize(w: nat) returns (size: nat)
    requires 1 <= w <= 7
    ensures size == CharsPerBlock(w) && (w * size) % 8 == 0
  {
    var i := 8;
    while i % w != 0
      invariant 8 <= i <= 8 * w && i % 8 == 0
      invariant forall j :: 8 <= j < i && j % 8 == 0 ==> j % w != 0
      decreases 8 * w - i
    {
      NotYet(i, w);
      i := i + 8;
    }
    BlockSizeFound(i, w);
    ExactQuotient(i, w);
    size := i / w;
  }

  lemma NotYet(i: nat, w: nat)
    requires 0 < w && i % w != 0 && i % 8 == 0 && i <= 8 * w
    ensures i + 8 <= 8 * w
    ensures forall j :: i < j < i + 8 ==> j % 8 != 0
  {
    DivUnique(8 * w, w, 8, 0);
  }

  lemma ExactQuotient(i: nat, w: nat)
    requires 0 < w && i % w == 0
    ensures w * (i / w) == i
  {
    DivMod(i, w);
  }

  // The encoding of a message: its bits in characters, then padding to a whole number of blocks.
  function Encoded(alphabet: seq<byte>, w: nat, padding: Option<byte>, message: seq<byte>): (text: seq<byte>)
    requires IsAlphabet(alphabet, w)
  {
    var t := EncodeBits(alphabet, w, BitsOf(message));
    match padding
    case None => t
    case Some(c) => t + Repeated(c, (0 - |t|) % CharsPerBlock(w))
  }

  // The padding character fills up the last block, which has at least one other character.
  lemma PaddingCompletesBlock(alphabet: seq<byte>, w: nat, c: byte, message: seq<byte>)
    requires IsAlphabet(alphabet, w)
    ensures var t, text := EncodeBits(alphabet, w, BitsOf(message)), Encoded(alphabet, w, Some(c), message);
            && t <= text && |text| < |t| + CharsPerBlock(w) && |text| % CharsPerBlock(w) == 0
            && (forall i :: |t| <= i < |text| ==> text[i] == c)
            && Encoded(alphabet, w, None, message) == t
  {
    hide EncodeBits, BitsOf, CharsPerBlock;
    var k, n := |EncodeBits(alphabet, w, BitsOf(message))|, CharsPerBlock(w);
    DivMod(0 - k, n);
    MulDistributes(n, (0 - k) / n, -1);
    DivUnique(k + (0 - k) % n, n, -((0 - k) / n), 0);
  }

  // The number with these digits, the first of them highest.
  function DigitsValue(digits: seq<nat>, w: nat): nat {
    if digits == [] then 0 else Pow2(w) * DigitsValue(digits[..|digits| - 1], w) + digits[|digits| - 1]
  }

  lemma {:induction false} NumberOfDigits(digits: seq<nat>, w: nat)
    requires forall i :: 0 <= i < |digits| ==> digits[i] < Pow2(w)
    ensures Number(DigitBits(digits, w)) == DigitsValue(digits, w)
    ensures |DigitBits(digits, w)| == w * |digits|
  {
    hide ToBits, Pow2, Number;
    if digits == [] {
      NumberOfNothing();
    } else {
      var init, last := digits[..|digits| - 1], digits[|digits| - 1];
      NumberOfDigits(init, w);
      NumberWithDigit(DigitBits(init, w), last, w);
      MulDistributes(w, |init|, 1);
    }
  }

  lemma NumberOfNothing()
    ensures Number([]) == 0
  {
  }

  lemma NumberWithDigit(s: seq<bit>, d: nat, w: nat)
    requires d < Pow2(w)
    ensures Number(s + ToBits(d, w)) == Pow2(w) * Number(s) + d
  {
    hide ToBits, Pow2, Number;
    NumberOfBits(d, w);
    NumberConcat(s, ToBits(d, w));
    ShiftLeftIsProduct(Number(s), w);
  }

  lemma {:induction false} NumberOfBytes(bytes: seq<byte>)
    ensures Number(BitsOf(bytes)) == Words.Value(bytes)
  {
    hide Number, ToBits;
    if bytes == [] {
      NumberOfNothing();
    } else {
      var init, last := bytes[..|bytes| - 1], bytes[|bytes| - 1];
      NumberOfBytes(init);
      assert Pow2(8) == 256;
      NumberWithDigit(BitsOf(init), last, 8);
    }
  }

  /** The digits are those of the message as a number, moved up to where a digit ends. */
  lemma DigitsOfNumber(message: seq<byte>, w: nat)
    requires w > 0
    ensures var digits := Digits(BitsOf(message), w);
            && 0 <= w * |digits| - 8 * |message| < w
            && (forall i :: 0 <= i < |digits| ==> digits[i] < Pow2(w))
            && DigitsValue(digits, w) == Words.Value(message) * Pow2(w * |digits| - 8 * |message|)
  {
    hide Digits, BitsOf, DigitBits, Number, Pow2, DigitsValue, Words.Value;
    var s := BitsOf(message);
    var digits := Digits(s, w);
    var k := w * |digits| - 8 * |message|;
    DigitsBelow(s, w);
    NumberOfDigits(digits, w);
    BitsOfBytes(message);
    DigitsHoldBits(s, w);
    assert DigitBits(digits, w) == s + ZeroBits(k);
    NumberOfBytes(message);
    NumberOfZeros(s, k);
    ShiftLeftIsProduct(Number(s), k);
  }

  // The characters of the last block, padded if there are any.
  function LastText(alphabet: seq<byte>, w: nat, padding: Option<byte>, block: seq<bit>): (text: seq<byte>)
    requires IsAlphabet(alphabet, w) && |EncodeBits(alphabet, w, block)| <= CharsPerBlock(w)
  {
    var t := EncodeBits(alphabet, w, block);
    if padding.Some? && block != [] then t + Repeated(padding.value, CharsPerBlock(w) - |t|) else t
  }

  // Whole blocks, then the last one.
  lemma EncodedInTwo(alphabet: seq<byte>, w: nat, padding: Option<byte>, message: seq<byte>,
                     sent: seq<bit>, block: seq<bit>, blocks: nat)
    requires IsAlphabet(alphabet, w) && BitsOf(message) == sent + block && |sent| % w == 0
    requires |EncodeBits(alphabet, w, sent)| == CharsPerBlock(w) * blocks
    requires |EncodeBits(alphabet, w, block)| <= CharsPerBlock(w)
    requires block != [] ==> |EncodeBits(alphabet, w, block)| > 0
    ensures Encoded(alphabet, w, padding, message)
         == EncodeBits(alphabet, w, sent) + LastText(alphabet, w, padding, block)
  {
    hide EncodeBits, BitsOf;
    var a, b := EncodeBits(alphabet, w, sent), EncodeBits(alphabet, w, block);
    EncodeBitsAppend(alphabet, w, sent, block);
    PaddingLength(CharsPerBlock(w), blocks, |b|);
    if block == [] {
      NothingToEncode(alphabet, w);
    }
    if padding.Some? {
      var r := Repeated(padding.value, (0 - |a + b|) % CharsPerBlock(w));
      assert (a + b) + r == a + (b + r);
      if block == [] { assert r == [] && a + b == a; }
    }
  }

  lemma NothingToEncode(alphabet: seq<byte>, w: nat)
    requires IsAlphabet(alphabet, w)
    ensures EncodeBits(alphabet, w, []) == []
  {
    NoDigits(w);
  }

  function Repeated(c: byte, k: nat): (s: seq<byte>)
    ensures |s| == k
  {
    seq(k, i => c)
  }

  lemma DigitCount(s: seq<bit>, w: nat)
    requires w > 0
    ensures |Digits(s, w)| == |s| / w + if |s| % w > 0 then 1 else 0
  {
    var h := WholeLength(|s|, w);
    DivMod(|s|, w);
    DivUnique(h, w, |s| / w, 0);
    WholeCount(s[..h], w);
  }

  class BaseNEncoder {
    const alphabet: seq<byte>
    const bitsPerChar: nat
    const outputBlockSize: nat
    const padding: Option<byte>
    const outBuf: array<byte>
    var bytePos: nat
    var bitPos: nat
    // what has been put to the attached transformation
    var output: seq<byte>
    // of the message: its bytes, their bits in earlier blocks and in this one, and the output before it
    ghost var input: seq<byte>
    ghost var sent: seq<bit>
    ghost var block: seq<bit>
    ghost var blocks: nat
    ghost var before: seq<byte>

    ghost function Capacity(): nat {
      bitsPerChar * outputBlockSize
    }

    ghost predicate Shaped() {
      && IsAlphabet(alphabet, bitsPerChar)
      && outBuf.Length == outputBlockSize == CharsPerBlock(bitsPerChar)
      && Capacity() % 8 == 0
    }

    // The block's bits lie in the buffer, and the positions say where they end.
    ghost predicate Holds()
      reads this`block, this`bytePos, this`bitPos, outBuf
    {
      && Shaped() && |block| <= Capacity()
      && Filled(outBuf[..], bitsPerChar, block)
      && bytePos == |block| / bitsPerChar && bitPos == |block| % bitsPerChar
    }

    ghost predicate Accounted()
      requires Shaped()
      reads this`sent, this`blocks, this`output, this`before
    {
      && |sent| % bitsPerChar == 0
      && |EncodeBits(alphabet, bitsPerChar, sent)| == outputBlockSize * blocks
      && output == before + EncodeBits(alphabet, bitsPerChar, sent)
    }

    ghost predicate Valid()
      reads this, outBuf
    {
      && Shaped() && Accounted() && BitsOf(input) == sent + block
      && |block| % 8 == 0
      && if block == [] then bytePos == 0 && bitPos == 0 else Holds() && |block| < Capacity()
    }

    constructor (alphabet: seq<byte>, log2base: nat, padding: Option<byte>)
      requires IsAlphabet(alphabet, log2base)
      ensures Valid() && input == [] && output == before == []
      ensures this.alphabet == alphabet && bitsPerChar == log2base && this.padding == padding
      ensures fresh(outBuf)
    {
      var size := CharacterBlockSize(log2base);
      this.alphabet, this.bitsPerChar, this.padding := alphabet, log2base, padding;
      this.outputBlockSize := size;
      this.outBuf := new byte[size];
      bytePos, bitPos := 0, 0;
      output, before := [], [];
      input, sent, block, blocks := [], [], [], 0;
      new;
      NoDigits(log2base);
      DivUnique(0, log2base, 0, 0);
    }

    // memset of the buffer at the beginning of a block.
    method ClearBuffer()
      requires Shaped() && block == [] && bytePos == bitPos == 0
      modifies outBuf
      ensures Holds()
    {
      CopyInto(outBuf, 0, seq(outputBlockSize, i => 0));
      FilledNothing(outBuf[..], bitsPerChar);
      DivUnique(0, bitsPerChar, 0, 0);
    }

    // m_outBuf[m_bytePos] |= b >> (8-bitsLeftInTarget)
    method OrHighBits(b: nat, ghost q: seq<bit>)
      requires Holds() && 0 < |q| <= 8 && b == ShiftLeft(Number(q), 8 - |q|) && |block| < Capacity()
      modifies outBuf
      ensures bitPos < bitsPerChar && bytePos < outputBlockSize
      ensures var m := if bitsPerChar - bitPos <= |q| then bitsPerChar - bitPos else |q|;
              Filled(outBuf[..], bitsPerChar, block + q[..m])
    {
      hide *;
      var t := bitsPerChar - bitPos;
      Position();
      OrDigit(outBuf[..], bitsPerChar, block, q, bytePos, t, ShiftRight(b, 8 - t));
      ghost var was := outBuf[..];
      outBuf[bytePos] := Or(outBuf[bytePos], ShiftRight(b, 8 - t));
      assert outBuf[..] == was[bytePos := outBuf[bytePos]];
    }

    lemma Position()
      requires Holds() && |block| < Capacity()
      ensures 0 < bitsPerChar < 8 && outBuf.Length == outputBlockSize
      ensures Filled(outBuf[..], bitsPerChar, block)
      ensures bytePos == |block| / bitsPerChar < outputBlockSize && bitPos == |block| % bitsPerChar < bitsPerChar
    {
      DivMod(|block|, bitsPerChar);
      InBuffer(|block|, bitsPerChar, outputBlockSize);
    }

    // The inner loop: the bits of one byte, spread over the characters.
    method PutByte(b: byte)
      requires Holds() && |block| + 8 <= Capacity()
      modifies this`bytePos, this`bitPos, this`block, outBuf
      ensures Holds() && block == old(block) + ToBits(b, 8)
    {
      hide Filled, Number, ShiftLeft, ToBits, IsAlphabet;
      var bits: nat, bitsLeftInSource: nat := b, 8;
      ghost var q := ToBits(b, 8);
      WholeByte(b);
      while true
        invariant Holds() && 0 < bitsLeftInSource == |q| <= 8 && |block| + |q| <= Capacity()
        invariant bits == ShiftLeft(Number(q), 8 - |q|)
        invariant block + q == old(block) + ToBits(b, 8)
        decreases bitsLeftInSource
      {
        ghost var k := |block|;
        DivMod(k, bitsPerChar);
        OrHighBits(bits, q);
        var bitsLeftInTarget := bitsPerChar - bitPos;
        ghost var m := if bitsLeftInTarget <= |q| then bitsLeftInTarget else |q|;
        block := block + q[..m];
        Advance(k, m, bitsPerChar);
        assert block + q[m..] == old(block) + ToBits(b, 8) by { assert q == q[..m] + q[m..]; }
        if bitsLeftInSource >= bitsLeftInTarget {
          bitPos := 0;
          bytePos := bytePos + 1;
          bitsLeftInSource := bitsLeftInSource - bitsLeftInTarget;
          if bitsLeftInSource == 0 {
            assert block + [] == block && q[m..] == [];
            break;
          }
          SourceMoves(q, bitsLeftInTarget);
          bits := ShiftLeft(bits, bitsLeftInTarget) % 256;
          q := q[m..];
        } else {
          bitPos := bitPos + bitsLeftInSource;
          assert block + [] == block && q[m..] == [];
          break;
        }
      }
    }

    lemma WholeByte(b: byte)
      ensures |ToBits(b, 8)| == 8 && b == ShiftLeft(Number(ToBits(b, 8)), 0)
    {
      assert Pow2(8) == 256;
      NumberOfBits(b, 8);
    }

    // The first count characters of the buffer, through the alphabet.
    method Translate(count: nat)
      requires Shaped() && Filled(outBuf[..], bitsPerChar, block)
      requires count == |Digits(block, bitsPerChar)| <= outputBlockSize
      modifies outBuf
      ensures outBuf[..count] == EncodeBits(alphabet, bitsPerChar, block)
    {
      hide Whole, IsAlphabet, Filled, Digits;
      AlphabetSize(alphabet, bitsPerChar);
      DigitsInBuffer(outBuf[..], bitsPerChar, block);
      DigitsBelow(block, bitsPerChar);
      TranslateDigits(count, Digits(block, bitsPerChar));
    }

    method TranslateDigits(count: nat, ghost digits: seq<nat>)
      requires count <= outBuf.Length && outBuf[..count] == digits
      requires forall i :: 0 <= i < |digits| ==> digits[i] < |alphabet|
      modifies outBuf
      ensures outBuf[..count] == Characters(alphabet, digits)
    {
      var i := 0;
      while i < count
        invariant 0 <= i <= count
        invariant forall j :: 0 <= j < i ==> outBuf[j] == alphabet[digits[j]]
        invariant forall j :: i <= j < count ==> outBuf[j] == digits[j]
      {
        outBuf[i] := alphabet[outBuf[i]];
        i := i + 1;
      }
    }

    lemma EmptyBlock()
      requires Valid() && bytePos == 0
      ensures block == [] && bitPos == 0
    {
      if block != [] {
        QuotientPositive(|block|, bitsPerChar);
      }
    }

    // Put2 without a message end.
    method Put(bytes: seq<byte>)
      requires Valid()
      modifies this, outBuf
      ensures Valid() && input == old(input) + bytes && before == old(before)
    {
      hide Valid, Holds, Accounted;
      var i := 0;
      assert input + bytes[..0] == input;
      while i < |bytes|
        invariant i <= |bytes| && Valid() && input == old(input) + bytes[..i] && before == old(before)
      {
        assert old(input) + bytes[..i + 1] == input + [bytes[i]];
        PutOne(bytes[i]);
        i := i + 1;
      }
      assert bytes[..|bytes|] == bytes;
    }

    method PutOne(b: byte)
      requires Valid()
      modifies this, outBuf
      ensures Valid() && input == old(input) + [b] && before == old(before)
    {
      hide Filled, Digits, IsAlphabet, EncodeBits, ToBits, Accounted, BitsOf;
      BitsOfNext(input, b);
      ghost var was := block;
      AddByte(b);
      assert sent + block == sent + was + ToBits(b, 8);
      input := input + [b];
      FullBlock();
      if bytePos == outputBlockSize {
        FlushBlock();
        assert sent + block == sent;
      }
    }

    // A byte into the buffer, which is cleared first at the beginning of a block.
    method AddByte(b: byte)
      requires Valid()
      modifies this`bytePos, this`bitPos, this`block, outBuf
      ensures Holds() && block == old(block) + ToBits(b, 8) && |block| % 8 == 0
    {
      hide Filled, Digits, IsAlphabet, EncodeBits, ToBits, Accounted, BitsOf;
      if bytePos == 0 {
        EmptyBlock();
        ClearBuffer();
      }
      SomeCapacity();
      RoomForByte(|block|, Capacity());
      PutByte(b);
    }

    lemma SomeCapacity()
      requires Shaped()
      ensures Capacity() > 0
    {
      AlphabetSize(alphabet, bitsPerChar);
      MulAtLeast(outputBlockSize, bitsPerChar);
    }

    lemma FullBlock()
      requires Holds()
      ensures |block| < Capacity() <==> bytePos != outputBlockSize
    {
      AlphabetSize(alphabet, bitsPerChar);
      InBuffer(|block|, bitsPerChar, outputBlockSize);
    }

    // A full block goes out.
    method FlushBlock()
      requires Holds() && Accounted() && |block| == Capacity()
      modifies this, outBuf
      ensures Shaped() && Accounted() && block == [] && bytePos == bitPos == 0
      ensures sent == old(sent + block) && input == old(input) && before == old(before)
    {
      hide Filled, Digits, IsAlphabet, EncodeBits;
      var w := bitsPerChar;
      AlphabetSize(alphabet, w);
      InBuffer(|block|, w, outputBlockSize);
      DigitCount(block, w);
      EncodeLength(alphabet, w, block);
      Translate(outputBlockSize);
      output := output + outBuf[..outputBlockSize];
      EncodeBitsAppend(alphabet, w, sent, block);
      MulDistributes(outputBlockSize, blocks, 1);
      WholeLengthAppend(|sent|, |block|, w);
      sent, block, blocks := sent + block, [], blocks + 1;
      bytePos, bitPos := 0, 0;
    }

    // What goes out at the end of a message, after all whole blocks.
    method LastCharacters() returns (text: seq<byte>)
      requires Valid()
      modifies this`bytePos, outBuf
      ensures |EncodeBits(alphabet, bitsPerChar, block)| <= CharsPerBlock(bitsPerChar)
      ensures block != [] ==> |EncodeBits(alphabet, bitsPerChar, block)| > 0
      ensures text == LastText(alphabet, bitsPerChar, padding, block)
    {
      hide Filled, Digits, IsAlphabet, EncodeBits, BitsOf, Accounted;
      EncodeLength(alphabet, bitsPerChar, block);
      LastDigits();
      if bitPos > 0 {
        bytePos := bytePos + 1;
      }
      if bytePos > 0 {
        Translate(bytePos);
      } else {
        NothingEncoded();
      }
      text := outBuf[..bytePos];
      if padding.Some? && bytePos > 0 {
        text := text + Repeated(padding.value, outputBlockSize - bytePos);
      }
    }

    method MessageEnd()
      requires Valid()
      modifies this, outBuf
      ensures Valid() && input == [] && before == output
      ensures output == old(before) + Encoded(alphabet, bitsPerChar, padding, old(input))
    {
      hide Filled, Digits, IsAlphabet, EncodeBits, Encoded, BitsOf, Holds, LastText;
      var text := LastCharacters();
      EncodedInTwo(alphabet, bitsPerChar, padding, input, sent, block, blocks);
      NothingEncoded();
      output := output + text;
      bytePos, bitPos := 0, 0;
      input, sent, block, blocks, before := [], [], [], 0, output;
    }

    // The digits of what is in the buffer fit in it, and when there are none the buffer is empty.
    lemma LastDigits()
      requires Valid()
      ensures |Digits(block, bitsPerChar)| == bytePos + (if bitPos > 0 then 1 else 0) <= outputBlockSize
      ensures bytePos + bitPos == 0 ==> block == []
    {
      hide Filled, Digits, EncodeBits, BitsOf, Accounted;
      AlphabetSize(alphabet, bitsPerChar);
      DigitCount(block, bitsPerChar);
      if block == [] {
        DivUnique(0, bitsPerChar, 0, 0);
      } else {
        InBuffer(|block|, bitsPerChar, outputBlockSize);
        QuotientPositive(|block|, bitsPerChar);
      }
    }

    lemma NothingEncoded()
      requires Shaped()
      ensures EncodeBits(alphabet, bitsPerChar, []) == [] && BitsOf([]) == [] && 0 % bitsPerChar == 0
    {
      NoDigits(bitsPerChar);
      DivUnique(0, bitsPerChar, 0, 0);
    }
  }

  lemma BitsOfNext(bytes: seq<byte>, b: byte)
    ensures BitsOf(bytes + [b]) == BitsOf(bytes) + ToBits(b, 8)
  {
    assert (bytes + [b])[..|bytes|] == bytes;
  }

  lemma EncodeLength(alphabet: seq<byte>, w: nat, s: seq<bit>)
    requires IsAlphabet(alphabet, w)
    ensures |EncodeBits(alphabet, w, s)| == |Digits(s, w)|
  {
  }

  // After whole blocks, what completes the last one.
  lemma PaddingLength(size: nat, blocks: nat, last: nat)
    requires size > 0 && last <= size
    ensures (0 - (size * blocks + last)) % size == if last == 0 then 0 else size - last
  {
    if last == 0 {
      DivUnique(0 - (size * blocks + last), size, 0 - blocks, 0);
    } else {
      MulDistributes(size, 0 - blocks, 0 - 1);
      DivUnique(0 - (size * blocks + last), size, 0 - blocks - 1, size - last);
    }
  }

  lemma AlphabetSize(alphabet: seq<byte>, w: nat)
    requires IsAlphabet(alphabet, w)
    ensures |alphabet| == Pow2(w) && w > 0
  {
  }

  // The digits are the buffer's first elements.
  lemma DigitsInBuffer(buf: seq<nat>, w: nat, s: seq<bit>)
    requires w > 0 && Filled(buf, w, s) && |Digits(s, w)| <= |buf|
    ensures buf[..|Digits(s, w)|] == Digits(s, w)
  {
    hide Whole, Number, ShiftLeft;
    var h := WholeLength(|s|, w);
    DivMod(|s|, w);
    if h < |s| {
      assert buf[..|s| / w + 1] == buf[..|s| / w] + [buf[|s| / w]];
    }
  }

  lemma QuotientPositive(i: nat, w: nat)
    requires 0 < w <= i
    ensures i / w > 0
  {
    DivMod(i, w);
  }

  // A block boundary is a byte boundary and a character boundary; before one there is room for a byte.
  lemma RoomForByte(k: nat, capacity: nat)
    requires k % 8 == 0 && capacity % 8 == 0 && k < capacity
    ensures k + 8 <= capacity
  {
  }

  lemma DigitFits(p: seq<bit>, w: nat)
    requires |p| <= w <= 8
    ensures ShiftLeft(Number(p), w - |p|) < 256
  {
    DigitBelow(p, w);
    Pow2Monotone(w, 8);
    assert Pow2(8) == 256;
  }
}
