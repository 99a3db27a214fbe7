/** The decoder, the decoding table and the grouper of basecode.cpp, and what encoding and decoding make together. */
module BaseNDecoding {
  import opened Arithmetic
  import opened Bits
  import opened Bytes
  import opened Options
  import opened BitStrings
  import opened BaseN

  // The whole bytes of these bits.
  function BytesOf(s: seq<bit>): (bytes: seq<byte>) {
    var h := WholeLength(|s|, 8);
    WholeBelow(s[..h], 8);
    assert Pow2(8) == 256;
    Whole(s[..h], 8)
  }

  // A decoding table for w bits a character.
  ghost predicate IsTable(lookup: seq<int>, w: nat) {
    && 1 <= w <= 7 && |lookup| == 256
    && forall c: byte :: lookup[c] == -1 || 0 <= lookup[c] < Pow2(w)
  }

  function Decoded(lookup: seq<int>, w: nat, text: seq<byte>): (message: seq<byte>)
    requires |lookup| == 256
  {
    BytesOf(DigitBits(Values(lookup, text), w))
  }

  lemma RoomFor(k: nat, w: nat, capacity: nat)
    requires w > 0 && k % w == 0 && capacity % w == 0 && k < capacity
    ensures k + w <= capacity && (k + w) % w == 0
  {
    DivMod(k, w);
    DivMod(capacity, w);
    MulDistributes(w, k / w, 1);
    if k / w + 1 > capacity / w {
      MulMonotone(capacity / w, k / w, w);
    }
    MulMonotone(k / w + 1, capacity / w, w);
    DivUnique(k + w, w, k / w + 1, 0);
  }

  // A value's bits all into one byte.
  lemma OneByte(value: nat, w: nat, bitPos: nat)
    requires value < Pow2(w) && w <= 7 && bitPos + w <= 8
    ensures ShiftLeft(value, 8 - (bitPos + w)) == ShiftLeft(Number(ToBits(value, w)), 8 - bitPos - w)
    ensures ShiftLeft(value, 8 - (bitPos + w)) < Pow2(8 - bitPos)
  {
    NumberOfBits(value, w);
    DigitBelow(ToBits(value, w), 8 - bitPos);
  }

  // Or its high bits end one byte and its low bits begin the next.
  lemma TwoBytes(value: nat, w: nat, bitPos: nat)
    requires value < Pow2(w) && w <= 7 && bitPos < 8 < bitPos + w
    ensures var d, m := ToBits(value, w), 8 - bitPos;
            && ShiftRight(value, bitPos + w - 8) == Number(d[..m]) < Pow2(m)
            && ShiftLeft(value, 16 - (bitPos + w)) % 256 == ShiftLeft(Number(d[m..]), 8 - |d[m..]|) < 256
  {
    hide Number, ShiftLeft, ShiftRight, ToBits;
    var d, m := ToBits(value, w), 8 - bitPos;
    NumberOfBits(value, w);
    DropBits(d, w - m);
    NumberBound(d[..m]);
    var a, b := d[..m], d[m..];
    assert d == a + b && Pow2(8) == 256;
    NumberConcat(a, b);
    ShiftLeftSum(ShiftLeft(Number(a), |b|), Number(b), 8 - |b|);
    ShiftLeftTwice(Number(a), |b|, 8 - |b|);
    ShiftLeftIsProduct(Number(a), 8);
    DigitBelow(b, 8);
  }

  // The decoder's block: as many bytes as end where a character ends.
  function BytesPerBlock(w: nat): (n: nat) {
    if w == 2 || w == 4 || w == 1 then 1 else if w == 6 then 3 else w
  }

  lemma BytesPerBlockFound(i: nat, w: nat)
    requires 1 <= w <= 7 && w <= i <= 8 * w && i % w == 0 && i % 8 == 0
    requires forall j :: w <= j < i && j % w == 0 ==> j % 8 != 0
    ensures i / 8 == BytesPerBlock(w) > 0
  {
    assert w == 1 ==> i == 8;
    assert w == 2 ==> i == 8 by { assert 8 % 2 == 0; }
    assert w == 3 ==> i == 24;
    assert w == 4 ==> i == 8 by { assert 8 % 4 == 0; }
    assert w == 5 ==> i == 40;
    assert w == 6 ==> i == 24 by { assert 24 % 6 == 0; }
    assert w == 7 ==> i == 56;
  }

  // The smallest multiple of w bits that is one of eight bits, counted in bytes.
  method ByteBlockSize(w: nat) returns (size: nat)
    requires 1 <= w <= 7
    ensures size == BytesPerBlock(w) > 0 && (8 * size) % w == 0
  {
    var i := w;
    DivUnique(i, w, 1, 0);
    while i % 8 != 0
      invariant w <= i <= 8 * w && i % w == 0
      invariant forall j :: w <= j < i && j % w == 0 ==> j % 8 != 0
      decreases 8 * w - i
    {
      StepsOf(i, w);
      i := i + w;
    }
    BytesPerBlockFound(i, w);
    size := i / 8;
  }

  class BaseNDecoder {
    const lookup: seq<int>
    const bitsPerChar: nat
    const outputBlockSize: nat
    const outBuf: array<byte>
    var bytePos: nat
    var bitPos: nat
    // what has been put to the attached transformation
    var output: seq<byte>
    // of the message: its characters, their bits in earlier blocks and in this one, and the output before it
    ghost var input: seq<byte>
    ghost var sent: seq<bit>
    ghost var block: seq<bit>
    ghost var before: seq<byte>

    ghost predicate Shaped() {
      && IsTable(lookup, bitsPerChar)
      && outBuf.Length == outputBlockSize == BytesPerBlock(bitsPerChar) > 0
      && (8 * outputBlockSize) % bitsPerChar == 0
    }

    ghost predicate Holds()
      reads this`block, this`bytePos, this`bitPos, outBuf
    {
      && Shaped() && |block| <= 8 * outputBlockSize
      && Filled(outBuf[..], 8, block)
      && bytePos == |block| / 8 && bitPos == |block| % 8
    }

    ghost predicate Valid()
      reads this, outBuf
    {
      && Shaped() && DigitBits(Values(lookup, input), bitsPerChar) == sent + block
      && |sent| % 8 == 0 && output == before + BytesOf(sent)
      && |block| % bitsPerChar == 0
      && if block == [] then bytePos == 0 && bitPos == 0 else Holds() && |block| < 8 * outputBlockSize
    }

    constructor (lookup: seq<int>, log2base: nat)
      requires IsTable(lookup, log2base)
      ensures Valid() && input == [] && output == before == []
      ensures this.lookup == lookup && bitsPerChar == log2base
      ensures fresh(outBuf)
    {
      var size := ByteBlockSize(log2base);
      this.lookup, this.bitsPerChar := lookup, log2base;
      this.outputBlockSize := size;
      this.outBuf := new byte[size];
      bytePos, bitPos := 0, 0;
      output, before := [], [];
      input, sent, block := [], [], [];
      new;
      DivUnique(0, log2base, 0, 0);
    }

    // memset of the buffer at the beginning of a block.
    method ClearBuffer()
      requires Shaped() && block == [] && bytePos == bitPos == 0
      modifies outBuf
      ensures Holds()
    {
      CopyInto(outBuf, 0, seq(outputBlockSize, i => 0));
      FilledNothing(outBuf[..], 8);
    }

    // outBuf[bytePos] |= x, where x holds the bits d next to those already there
    method OrBits(x: nat, ghost d: seq<bit>)
      requires Holds() && 0 < |d| <= 8 - bitPos && |block| + |d| <= 8 * outputBlockSize
      requires x == ShiftLeft(Number(d), 8 - bitPos - |d|) < Pow2(8 - bitPos)
      modifies outBuf
      ensures bytePos < outputBlockSize && Filled(outBuf[..], 8, block + d)
    {
      hide Whole, Number, ShiftLeft, Or, IsTable;
      InBuffer(|block|, 8, outputBlockSize);
      ghost var p := block[WholeLength(|block|, 8)..];
      OrIntoClear(Number(p), x, 8 - bitPos);
      AddBits(outBuf[..], 8, block, d);
      DigitGrows(p, d, 8);
      DigitFits(p + d, 8);
      ghost var was := outBuf[..];
      outBuf[bytePos] := Or(outBuf[bytePos], x);
      assert outBuf[..] == was[bytePos := outBuf[bytePos]];
    }

    // The bits of one character.
    method PutValue(value: nat)
      requires Holds() && value < Pow2(bitsPerChar) && |block| + bitsPerChar <= 8 * outputBlockSize
      modifies this`bytePos, this`bitPos, this`block, outBuf
      ensures Holds() && block == old(block) + ToBits(value, bitsPerChar)
    {
      hide Filled, Number, ShiftLeft, ShiftRight, ToBits, Pow2, IsTable;
      var w := bitsPerChar;
      ghost var d := ToBits(value, w);
      assert 1 <= w <= 7 by { TableWidth(lookup, w); }
      var newBitPos := bitPos + w;
      assert |block| == 8 * bytePos + bitPos;
      if newBitPos <= 8 {
        OneByte(value, w, bitPos);
        OrBits(ShiftLeft(value, 8 - newBitPos), d);
        block := block + d;
      } else {
        TwoBytes(value, w, bitPos);
        ghost var m := 8 - bitPos;
        DigitComplete(d[..m]);
        OrBits(ShiftRight(value, newBitPos - 8), d[..m]);
        PutSecond(ShiftLeft(value, 16 - newBitPos) % 256, d[..m], d[m..]);
        assert d[..m] + d[m..] == d;
      }
      bitPos := newBitPos;
      while bitPos >= 8
        invariant 8 * bytePos + bitPos == |block| && Filled(outBuf[..], 8, block)
        modifies this`bytePos, this`bitPos
      {
        bitPos := bitPos - 8;
        bytePos := bytePos + 1;
      }
    }

    // outBuf[bytePos+1] |= y, for the bits that did not fit in outBuf[bytePos]
    method PutSecond(y: nat, ghost d: seq<bit>, ghost e: seq<bit>)
      requires Shaped() && bytePos == |block| / 8 && bitPos == |block| % 8 && |d| == 8 - bitPos
      requires Filled(outBuf[..], 8, block + d) && 0 < |e| < 8 && |block| + |d| + |e| <= 8 * outputBlockSize
      requires y == ShiftLeft(Number(e), 8 - |e|) < 256
      modifies this`block, outBuf
      ensures Filled(outBuf[..], 8, block) && block == old(block) + (d + e)
    {
      hide Filled, Number, ShiftLeft, IsTable;
      ghost var s := block + d;
      Advance(|block|, |d|, 8);
      InBuffer(|s|, 8, outputBlockSize);
      NextIsClear(outBuf[..], s);
      AddBits(outBuf[..], 8, s, e);
      ghost var was := outBuf[..];
      outBuf[bytePos + 1] := Or(outBuf[bytePos + 1], y);
      assert outBuf[..] == was[bytePos + 1 := outBuf[bytePos + 1]];
      assert s + e == block + (d + e);
      block := s + e;
    }

    // Put2 without a message end: characters without a value are skipped.
    method Put(text: seq<byte>)
      requires Valid()
      modifies this, outBuf
      ensures Valid() && input == old(input) + text && before == old(before)
    {
      hide Valid, Holds;
      var i := 0;
      assert input + text[..0] == input;
      while i < |text|
        invariant i <= |text| && Valid() && input == old(input) + text[..i] && before == old(before)
      {
        assert old(input) + text[..i + 1] == input + [text[i]];
        PutCharacter(text[i]);
        i := i + 1;
      }
      assert text[..|text|] == text;
    }

    method PutCharacter(c: byte)
      requires Valid()
      modifies this, outBuf
      ensures Valid() && input == old(input) + [c] && before == old(before)
    {
      hide Filled, ToBits, IsTable, BytesOf, Values, DigitBits, Pow2;
      TableEntry(lookup, bitsPerChar, c);
      ValuesNext(lookup, input, c);
      var value := lookup[c];
      if value < 0 || value >= 256 {
        assert Values(lookup, input) + [] == Values(lookup, input);
        input := input + [c];
        return;
      }
      DigitBitsNext(Values(lookup, input), value, bitsPerChar);
      AddValue(value);
      assert sent + old(block) + ToBits(value, bitsPerChar) == sent + block;
      input := input + [c];
      InBuffer(|block|, 8, outputBlockSize);
      if bytePos == outputBlockSize {
        FlushBlock();
        assert sent + block == sent;
      }
    }

    // A value's bits into the buffer, which is cleared first at the beginning of a block.
    method AddValue(value: nat)
      requires Valid() && value < Pow2(bitsPerChar)
      modifies this`bytePos, this`bitPos, this`block, outBuf
      ensures Holds() && block == old(block) + ToBits(value, bitsPerChar) && |block| % bitsPerChar == 0
    {
      hide Filled, ToBits, BytesOf, Values, DigitBits, Pow2;
      if bytePos == 0 && bitPos == 0 {
        EmptyBlock();
        ClearBuffer();
      }
      RoomFor(|block|, bitsPerChar, 8 * outputBlockSize);
      PutValue(value);
    }

    lemma EmptyBlock()
      requires Valid() && bytePos == bitPos == 0
      ensures block == []
    {
    }

    // A full block goes out.
    method FlushBlock()
      requires Holds() && |sent| % 8 == 0 && |block| == 8 * outputBlockSize && output == before + BytesOf(sent)
      modifies this
      ensures Shaped() && block == [] && bytePos == bitPos == 0
      ensures sent == old(sent + block) && |sent| % 8 == 0 && output == before + BytesOf(sent)
      ensures input == old(input) && before == old(before) && |block| % bitsPerChar == 0
    {
      hide IsTable, Filled, BytesOf;
      BytesInBuffer(outBuf[..], block);
      output := output + outBuf[..];
      BytesOfAppend(sent, block, |sent| / 8);
      sent, block := sent + block, [];
      bytePos, bitPos := 0, 0;
      TableWidth(lookup, bitsPerChar);
      DivUnique(0, bitsPerChar, 0, 0);
    }

    // Whole bytes go out, the bits after them are dropped.
    method MessageEnd()
      requires Valid()
      modifies this, outBuf
      ensures Valid() && input == [] && before == output
      ensures output == old(before) + Decoded(lookup, bitsPerChar, old(input))
    {
      hide IsTable, Filled, BytesOf, Values, DigitBits;
      BytesOfAppend(sent, block, |sent| / 8);
      TableEntry(lookup, bitsPerChar, 0);
      if block != [] {
        BytesInBuffer(outBuf[..], block);
      } else {
        NoBytes();
      }
      output := output + outBuf[..bytePos];
      bytePos, bitPos := 0, 0;
      input, sent, block, before := [], [], [], output;
      NoBytes();
      TableWidth(lookup, bitsPerChar);
      DivUnique(0, bitsPerChar, 0, 0);
    }

    lemma NoBytes()
      requires |lookup| == 256
      ensures BytesOf([]) == [] && Values(lookup, []) == [] && DigitBits([], bitsPerChar) == []
    {
    }
  }

  lemma BytesInBuffer(buf: seq<byte>, s: seq<bit>)
    requires Filled(buf, 8, s)
    ensures |s| / 8 <= |buf| && buf[..|s| / 8] == BytesOf(s)
    ensures |s| == 8 * |buf| ==> buf == BytesOf(s)
  {
  }

  lemma BytesOfAppend(a: seq<bit>, b: seq<bit>, k: nat)
    requires |a| == 8 * k
    ensures BytesOf(a + b) == BytesOf(a) + BytesOf(b)
  {
    hide Whole, Pow2;
    WholeLengthAppend(|a|, |b|, 8);
    var h := WholeLength(|b|, 8);
    assert (a + b)[..|a| + h] == a + b[..h] && a[..|a|] == a;
    WholeAppend(a, b[..h], 8);
  }

  lemma ValuesNext(lookup: seq<int>, text: seq<byte>, c: byte)
    requires |lookup| == 256
    ensures Values(lookup, text + [c]) == Values(lookup, text) + if 0 <= lookup[c] < 256 then [lookup[c]] else []
  {
    assert (text + [c])[..|text|] == text;
  }

  lemma TableEntry(lookup: seq<int>, w: nat, c: byte)
    requires IsTable(lookup, w)
    ensures |lookup| == 256 && (lookup[c] == -1 || 0 <= lookup[c] < Pow2(w))
    ensures 1 <= w <= 7
  {
  }

  lemma NextIsClear(buf: seq<nat>, s: seq<bit>)
    requires Filled(buf, 8, s) && |s| % 8 == 0 && |s| / 8 < |buf|
    ensures buf[|s| / 8] == 0
  {
    assert s[WholeLength(|s|, 8)..] == [];
    ZeroDigit(8);
  }

  lemma TableWidth(lookup: seq<int>, w: nat)
    requires IsTable(lookup, w)
    ensures 1 <= w <= 7
  {
  }

  lemma StepsOf(i: nat, w: nat)
    requires 1 <= w <= 7 && w <= i <= 8 * w && i % w == 0 && i % 8 != 0
    ensures i + w <= 8 * w && (i + w) % w == 0
    ensures forall j :: i < j < i + w ==> j % w != 0
  {
    DivMod(i, w);
    MulDistributes(w, i / w, 1);
    DivUnique(i + w, w, i / w + 1, 0);
    DivUnique(8 * w, w, 8, 0);
    RoomFor(i, w, 8 * w);
    forall j | i < j < i + w
      ensures j % w != 0
    {
      DivUnique(j, w, i / w, j - i);
    }
  }

  // ----- The decoding table -----

  predicate IsAlpha(c: byte) {
    'A' as int <= c <= 'Z' as int || 'a' as int <= c <= 'z' as int
  }

  function Upper(c: byte): byte {
    if 'a' as int <= c <= 'z' as int then c - 32 else c
  }

  function Lower(c: byte): byte {
    if 'A' as int <= c <= 'Z' as int then c + 32 else c
  }

  // c stands for the alphabet's character a.
  predicate Stands(c: byte, a: byte, caseInsensitive: bool) {
    c == a || (caseInsensitive && IsAlpha(a) && (c == Upper(a) || c == Lower(a)))
  }

  /** No two characters of the alphabet may be stood for by the same one: the source asserts it. */
  method InitializeDecodingLookupArray(lookup: array<int>, alphabet: seq<byte>, base: nat, caseInsensitive: bool)
    requires lookup.Length == 256 && base <= |alphabet|
    requires forall i, j, c: byte :: 0 <= i < j < base ==>
      !(Stands(c, alphabet[i], caseInsensitive) && Stands(c, alphabet[j], caseInsensitive))
    modifies lookup
    ensures forall i, c: byte :: 0 <= i < base && Stands(c, alphabet[i], caseInsensitive) ==> lookup[c] == i
    ensures forall c: byte :: lookup[c] == -1 || (0 <= lookup[c] < base && Stands(c, alphabet[lookup[c]], caseInsensitive))
  {
    var k := 0;
    while k < 256
      invariant 0 <= k <= 256 && forall c :: 0 <= c < k ==> lookup[c] == -1
    {
      lookup[k] := -1;
      k := k + 1;
    }
    hide Stands;
    var i := 0;
    while i < base
      invariant 0 <= i <= base
      invariant forall j, c: byte :: 0 <= j < i && Stands(c, alphabet[j], caseInsensitive) ==> lookup[c] == j
      invariant forall c: byte :: lookup[c] == -1 || (0 <= lookup[c] < i && Stands(c, alphabet[lookup[c]], caseInsensitive))
    {
      SetEntry(lookup, alphabet[i], i, caseInsensitive);
      i := i + 1;
    }
  }

  method SetEntry(lookup: array<int>, a: byte, i: nat, caseInsensitive: bool)
    requires lookup.Length == 256
    modifies lookup
    ensures forall c: byte :: lookup[c] == if Stands(c, a, caseInsensitive) then i else old(lookup[c])
  {
    if caseInsensitive && IsAlpha(a) {
      lookup[Upper(a)] := i;
      lookup[Lower(a)] := i;
    } else {
      lookup[a] := i;
    }
  }

  // ----- The grouper -----

  // The data in groups of n, a separator between any two groups.
  function Grouped(data: seq<byte>, n: nat, separator: seq<byte>): (s: seq<byte>)
    requires n > 0
    decreases |data|
  {
    if data == [] then [] else
      var j := (|data| - 1) / n * n;
      GroupStart(|data|, n);
      (if j == 0 then [] else Grouped(data[..j], n, separator) + separator) + data[j..]
  }

  lemma GroupStart(k: nat, n: nat)
    requires n > 0 && k > 0
    ensures 0 <= (k - 1) / n * n < k <= (k - 1) / n * n + n
    ensures (k - 1) / n * n == k - 1 - (k - 1) % n
  {
    DivMod(k - 1, n);
  }

  lemma GroupedStep(data: seq<byte>, n: nat, separator: seq<byte>)
    requires n > 0
    ensures data == [] ==> Grouped(data, n, separator) == []
    ensures data != [] ==>
      var j := (|data| - 1) / n * n;
      0 <= j < |data| && Grouped(data, n, separator)
        == (if j == 0 then [] else Grouped(data[..j], n, separator) + separator) + data[j..]
  {
    if data != [] { GroupStart(|data|, n); }
  }

  // Data that stay within the last group.
  lemma SameGroup(data: seq<byte>, more: seq<byte>, n: nat, separator: seq<byte>)
    requires n > 0 && (data == [] ==> |more| <= n)
    requires data != [] ==> (|data| - 1) % n + 1 + |more| <= n
    ensures Grouped(data + more, n, separator) == Grouped(data, n, separator) + more
    ensures |data + more| > 0 ==>
      (|data + more| - 1) % n + 1 == (if data == [] then 0 else (|data| - 1) % n + 1) + |more|
  {
    hide Grouped;
    GroupedStep(data + more, n, separator);
    GroupedStep(data, n, separator);
    if data == [] {
      assert data + more == more;
      if more != [] { DivUnique(|more| - 1, n, 0, |more| - 1); }
    } else {
      var k := |data| - 1;
      DivMod(k, n);
      DivUnique(k + |more|, n, k / n, k % n + |more|);
      GroupStart(|data|, n);
      var j := k / n * n;
      assert (data + more)[..j] == data[..j] && (data + more)[j..] == data[j..] + more;
    }
  }

  // Data that begin a new group.
  lemma NewGroup(data: seq<byte>, more: seq<byte>, n: nat, separator: seq<byte>)
    requires n > 0 && data != [] && 0 < |more| <= n && (|data| - 1) % n + 1 == n
    ensures Grouped(data + more, n, separator) == Grouped(data, n, separator) + separator + more
    ensures (|data + more| - 1) % n + 1 == |more|
  {
    var k := |data| - 1;
    DivMod(k, n);
    MulDistributes(n, k / n, 1);
    DivUnique(|data| + |more| - 1, n, k / n + 1, |more| - 1);
    assert (data + more)[..|data|] == data && (data + more)[|data|..] == more;
  }

  class Grouper {
    const groupSize: nat
    const separator: seq<byte>
    const terminator: seq<byte>
    var counter: nat
    // what has been put to the attached transformation
    var output: seq<byte>
    ghost var input: seq<byte>
    ghost var before: seq<byte>

    ghost predicate Valid()
      reads this
    {
      && output == before + (if groupSize == 0 then input else Grouped(input, groupSize, separator))
      && (groupSize > 0 ==> counter == if input == [] then 0 else (|input| - 1) % groupSize + 1)
      && (groupSize > 0 ==> counter <= groupSize)
    }

    constructor (groupSize: nat, separator: seq<byte>, terminator: seq<byte>)
      ensures Valid() && input == [] && output == before == []
      ensures this.groupSize == groupSize && this.separator == separator && this.terminator == terminator
    {
      this.groupSize, this.separator, this.terminator := groupSize, separator, terminator;
      counter := 0;
      output, input, before := [], [], [];
    }

    // Put2 without a message end.
    method Put(bytes: seq<byte>)
      requires Valid()
      modifies this
      ensures Valid() && input == old(input) + bytes && before == old(before)
    {
      if groupSize == 0 {
        output := output + bytes;
        input := input + bytes;
        return;
      }
      PutGroups(bytes);
    }

    method PutGroups(bytes: seq<byte>)
      requires Valid() && groupSize > 0
      modifies this
      ensures Valid() && input == old(input) + bytes && before == old(before)
    {
      hide Valid;
      var i := 0;
      assert input + bytes[..0] == input;
      while i < |bytes|
        invariant i <= |bytes| && Valid() && input == old(input) + bytes[..i] && before == old(before)
      {
        var n := PutGroup(bytes[i..]);
        assert bytes[..i] + bytes[i..][..n] == bytes[..i + n];
        i := i + n;
      }
      assert bytes[..|bytes|] == bytes;
    }

    // As much as the current group takes, or the next one if it is full.
    method PutGroup(bytes: seq<byte>) returns (len: nat)
      requires Valid() && groupSize > 0 && |bytes| > 0
      modifies this
      ensures Valid() && 0 < len <= |bytes| && input == old(input) + bytes[..len] && before == old(before)
    {
      hide Grouped;
      ghost var data, was := input, output;
      if counter == groupSize {
        output := output + separator;
        counter := 0;
      }
      len := if |bytes| < groupSize - counter then |bytes| else groupSize - counter;
      if old(counter) == groupSize {
        NewGroup(data, bytes[..len], groupSize, separator);
        assert was + separator + bytes[..len] == before + (Grouped(data, groupSize, separator) + separator + bytes[..len]);
      } else {
        SameGroup(data, bytes[..len], groupSize, separator);
        assert was + bytes[..len] == before + (Grouped(data, groupSize, separator) + bytes[..len]);
      }
      output := output + bytes[..len];
      counter := counter + len;
      input := input + bytes[..len];
    }

    method MessageEnd()
      requires Valid()
      modifies this
      ensures Valid() && input == [] && before == output
      ensures output == old(before)
        + (if groupSize == 0 then old(input) else Grouped(old(input), groupSize, separator)) + terminator
    {
      output := output + terminator;
      counter := 0;
      input, before := [], output;
    }
  }

  // Separators outside the alphabet do not change what is read.
  lemma {:induction false} GroupingKeepsValues(lookup: seq<int>, data: seq<byte>, n: nat, separator: seq<byte>)
    requires |lookup| == 256 && n > 0 && Outside(lookup, separator)
    ensures Values(lookup, Grouped(data, n, separator)) == Values(lookup, data)
    decreases |data|
  {
    if data != [] {
      GroupStart(|data|, n);
      var j := (|data| - 1) / n * n;
      assert data == data[..j] + data[j..];
      ValuesAppend(lookup, data[..j], data[j..]);
      if j > 0 {
        GroupingKeepsValues(lookup, data[..j], n, separator);
        OutsideHasNoValues(lookup, separator);
        var g := Grouped(data[..j], n, separator);
        ValuesAppend(lookup, g, separator);
        ValuesAppend(lookup, g + separator, data[j..]);
        assert Values(lookup, g) + [] == Values(lookup, g);
      } else {
        assert [] + data[j..] == data;
      }
    }
  }

  // ----- Together -----

  /** Any text whose alphabet characters are those of the encoding, in order, decodes to the message: whatever else
      stands between, before or after them. */
  lemma DecodingUndoesEncoding(alphabet: seq<byte>, w: nat, lookup: seq<int>, message: seq<byte>, text: seq<byte>)
    requires IsAlphabet(alphabet, w) && IsLookup(lookup, alphabet)
    requires Values(lookup, text) == Values(lookup, Encoded(alphabet, w, None, message))
    ensures Decoded(lookup, w, text) == message
  {
    hide Digits, BitsOf, DigitBits, Whole, Characters;
    var s := BitsOf(message);
    DigitsBelow(s, w);
    SmallAlphabet(alphabet, w);
    ValuesOfCharacters(lookup, alphabet, Digits(s, w));
    DigitsHoldBits(s, w);
    BytesBack(message, DigitBits(Digits(s, w), w));
  }

  lemma SmallAlphabet(alphabet: seq<byte>, w: nat)
    requires IsAlphabet(alphabet, w)
    ensures |alphabet| <= 256 && |alphabet| == Pow2(w)
  {
    Pow2Monotone(w, 8);
    assert Pow2(8) == 256;
  }

  // Padding with a byte outside the alphabet is not read.
  lemma PaddingNotRead(alphabet: seq<byte>, w: nat, lookup: seq<int>, padding: Option<byte>, message: seq<byte>)
    requires IsAlphabet(alphabet, w) && |lookup| == 256
    requires padding.Some? ==> lookup[padding.value] == -1
    ensures Values(lookup, Encoded(alphabet, w, padding, message))
         == Values(lookup, Encoded(alphabet, w, None, message))
  {
    hide IsAlphabet, EncodeBits, BitsOf;
    if padding.Some? {
      var t := EncodeBits(alphabet, w, BitsOf(message));
      var p := Repeated(padding.value, (0 - |t|) % CharsPerBlock(w));
      OutsideHasNoValues(lookup, p);
      ValuesAppend(lookup, t, p);
      assert Values(lookup, t) + [] == Values(lookup, t);
    }
  }

  // A message through the encoder, in any pieces.
  method Encode(alphabet: seq<byte>, w: nat, padding: Option<byte>, chunks: seq<seq<byte>>) returns (text: seq<byte>)
    requires IsAlphabet(alphabet, w)
    ensures text == Encoded(alphabet, w, padding, Flatten(chunks))
  {
    hide BaseNEncoder.Valid, Encoded, Flatten;
    var e := new BaseNEncoder(alphabet, w, padding);
    var i := 0;
    assert chunks[..0] == [];
    EmptyFlatten();
    while i < |chunks|
      invariant i <= |chunks| && e.Valid() && e.input == Flatten(chunks[..i]) && e.before == []
    {
      FlattenNext(chunks, i);
      e.Put(chunks[i]);
      i := i + 1;
    }
    assert chunks[..|chunks|] == chunks;
    e.MessageEnd();
    text := e.output;
  }

  // A text through the grouper, in any pieces: its values stay.
  method Group(lookup: seq<int>, groupSize: nat, separator: seq<byte>, terminator: seq<byte>, chunks: seq<seq<byte>>)
    returns (text: seq<byte>)
    requires |lookup| == 256 && Outside(lookup, separator) && Outside(lookup, terminator)
    ensures Values(lookup, text) == Values(lookup, Flatten(chunks))
    ensures text == (if groupSize == 0 then Flatten(chunks) else Grouped(Flatten(chunks), groupSize, separator)) + terminator
  {
    hide Grouper.Valid, Grouped, Values, Outside, Flatten;
    var g := new Grouper(groupSize, separator, terminator);
    var i := 0;
    assert chunks[..0] == [];
    EmptyFlatten();
    while i < |chunks|
      invariant i <= |chunks| && g.Valid() && g.input == Flatten(chunks[..i]) && g.before == []
    {
      FlattenNext(chunks, i);
      g.Put(chunks[i]);
      i := i + 1;
    }
    assert chunks[..|chunks|] == chunks;
    g.MessageEnd();
    text := g.output;
    ghost var data := Flatten(chunks);
    ghost var grouped := if groupSize == 0 then data else Grouped(data, groupSize, separator);
    assert text == grouped + terminator;
    if groupSize > 0 { GroupingKeepsValues(lookup, data, groupSize, separator); }
    OutsideHasNoValues(lookup, terminator);
    ValuesAppend(lookup, grouped, terminator);
    assert Values(lookup, grouped) + [] == Values(lookup, grouped);
  }

  // A text through the decoder, in any pieces.
  method Decode(lookup: seq<int>, w: nat, chunks: seq<seq<byte>>) returns (message: seq<byte>)
    requires IsTable(lookup, w)
    ensures message == Decoded(lookup, w, Flatten(chunks))
  {
    hide BaseNDecoder.Valid, Decoded, Flatten;
    TableWidth(lookup, w);
    var d := new BaseNDecoder(lookup, w);
    var i := 0;
    assert chunks[..0] == [];
    EmptyFlatten();
    while i < |chunks|
      invariant i <= |chunks| && d.Valid() && d.input == Flatten(chunks[..i]) && d.before == []
    {
      FlattenNext(chunks, i);
      d.Put(chunks[i]);
      i := i + 1;
    }
    assert chunks[..|chunks|] == chunks;
    d.MessageEnd();
    message := d.output;
  }

  // The table for an alphabet whose characters stand for themselves alone.
  method MakeTable(alphabet: seq<byte>, w: nat) returns (lookup: seq<int>)
    requires IsAlphabet(alphabet, w)
    ensures IsLookup(lookup, alphabet) && IsTable(lookup, w)
    ensures forall c: byte :: c !in alphabet ==> lookup[c] == -1
  {
    SmallAlphabet(alphabet, w);
    var table := new int[256];
    InitializeDecodingLookupArray(table, alphabet, |alphabet|, false);
    forall i | 0 <= i < |alphabet|
      ensures table[alphabet[i]] == i
    {
      assert Stands(alphabet[i], alphabet[i], false);
    }
    lookup := table[..];
  }

  /** Encoding, grouping and decoding return the message, for every width, alphabet and message, however the data are
      cut into pieces on the way, when padding, separators and terminator are outside the alphabet. */
  method RoundTrip(alphabet: seq<byte>, w: nat, padding: Option<byte>, chunks: seq<seq<byte>>,
                   groupSize: nat, separator: seq<byte>, terminator: seq<byte>,
                   cut: seq<byte> -> seq<seq<byte>>, cut': seq<byte> -> seq<seq<byte>>)
    returns (message: seq<byte>)
    requires IsAlphabet(alphabet, w) && forall text :: Flatten(cut(text)) == text == Flatten(cut'(text))
    requires padding.Some? ==> padding.value !in alphabet
    requires (forall c :: c in separator ==> c !in alphabet) && (forall c :: c in terminator ==> c !in alphabet)
    ensures message == Flatten(chunks)
  {
    hide IsAlphabet, IsLookup, IsTable, Encoded, Decoded, Flatten, Values, EncodeBits, BitsOf;
    var lookup := MakeTable(alphabet, w);
    TableEntry(lookup, w, 0);
    var text := Encode(alphabet, w, padding, chunks);
    var grouped := Group(lookup, groupSize, separator, terminator, cut(text));
    message := Decode(lookup, w, cut'(grouped));
    PaddingNotRead(alphabet, w, lookup, padding, Flatten(chunks));
    DecodingUndoesEncoding(alphabet, w, lookup, Flatten(chunks), grouped);
  }
}
