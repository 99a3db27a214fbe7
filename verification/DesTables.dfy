/** The permutations, the round function and the cipher of des.cpp bit by bit, as FIPS 46-3 has them. Between the
    permutations the code keeps both halves rotated to the left by one. */
module DesTables {
  import opened FeistelRounds
  import opened Des

  // ----- The permutations -----

  // The bits of the mask are exchanged between the words.
  predicate Exchanged(l: word32, r: word32, mask: word32, left: word32, right: word32) {
    var work := (l ^ r) & mask;
    left == l ^ work && right == r ^ work
  }

  // Rotated to the left by n.
  predicate Turned(x: word32, n: nat, y: word32)
    requires n < 32
  {
    y == x.RotateLeft(n)
  }

  lemma XorInWords(x: word32, y: word32)
    ensures Xor(x, y) == x ^ y
  {
  }

  lemma MaskedInWords(l: word32, r: word32, mask: word32)
    ensures Masked(l, r, mask) == (l ^ r) & mask
  {
  }

  lemma WordsExchanged(l: word32, r: word32, mask: word32, work: word32, left: word32, right: word32)
    requires work == (l ^ r) & mask && left == l ^ work && right == r ^ work
    ensures Exchanged(l, r, mask, left, right)
  {
  }

  lemma BlockExchanged(p: Block, mask: word32)
    ensures Exchanged(p.0, p.1, mask, Exchange(p, mask).0, Exchange(p, mask).1)
  {
    hide Xor, Masked, Exchanged;
    var work, q := Masked(p.0, p.1, mask), Exchange(p, mask);
    MaskedInWords(p.0, p.1, mask);
    XorInWords(p.0, work);
    XorInWords(p.1, work);
    WordsExchanged(p.0, p.1, mask, work, q.0, q.1);
  }

  lemma LeftTurns(x: word32)
    ensures Turned(x, 4, Left(x, 4)) && Turned(x, 9, Left(x, 9)) && Turned(x, 1, Left(x, 1))
  {
    assert Left(x, 4) == x.RotateLeft(4);
    assert Left(x, 9) == x.RotateLeft(9);
    assert Left(x, 1) == x.RotateLeft(1);
  }

  lemma RightTurns(x: word32)
    ensures Turned(x, 12, Right(x, 20)) && Turned(x, 14, Right(x, 18)) && Turned(x, 26, Right(x, 6))
    ensures Turned(x, 31, Right(x, 1))
  {
    assert Right(x, 20) == x.RotateRight(20) == x.RotateLeft(12);
    assert Right(x, 18) == x.RotateRight(18) == x.RotateLeft(14);
    assert Right(x, 6) == x.RotateRight(6) == x.RotateLeft(26);
    assert Right(x, 1) == x.RotateRight(1) == x.RotateLeft(31);
  }

  // Bit n of a block of two halves, counted from 1 at the high end as in the standard's tables.
  function BitNumber(left: word32, right: word32, n: word32): word32 {
    if n <= 32 then BitOf(left, 32 - n) else BitOf(right, 64 - n)
  }

  // Row r, column c of the table of the initial permutation, in its upper and in its lower half.
  predicate StandardBits(l0: word32, r0: word32, left: word32, right: word32, r: word32, c: word32) {
    && BitNumber(left, right, 8 * r + c + 1) == BitNumber(l0, r0, 58 + 2 * r - 8 * c)
    && BitNumber(left, right, 8 * r + c + 33) == BitNumber(l0, r0, 57 + 2 * r - 8 * c)
  }

  // The source's steps, word by word.
  lemma StepBits(
    l0: word32, r0: word32, r1: word32, l2: word32, s2: word32, r2: word32, l3: word32, s3: word32, r3: word32,
    l4: word32, s4: word32, r4: word32, l5: word32, s5: word32, r5: word32, s6: word32, l6: word32, r6: word32,
    left: word32, right: word32, r: word32, c: word32)
    requires r < 4 && c < 8
    requires Turned(r0, 4, r1) && Exchanged(l0, r1, 0xf0f0f0f0, l2, s2)
    requires Turned(s2, 12, r2) && Exchanged(l2, r2, 0xffff0000, l3, s3)
    requires Turned(s3, 14, r3) && Exchanged(l3, r3, 0x33333333, l4, s4)
    requires Turned(s4, 26, r4) && Exchanged(l4, r4, 0x00ff00ff, l5, s5)
    requires Turned(s5, 9, r5) && Exchanged(l5, r5, 0xaaaaaaaa, s6, r6)
    requires Turned(s6, 1, l6) && Turned(l6, 31, left) && Turned(r6, 31, right)
    ensures StandardBits(l0, r0, left, right, r, c)
  {
  }

  /** Every entry of the initial permutation's table: row r of the upper half has bits 2r + 2 of the bytes, the last byte's
      first, and row r of the lower half bits 2r + 1. */
  lemma InitialIsStandard(p: Block, r: word32, c: word32)
    requires r < 4 && c < 8
    ensures StandardBits(p.0, p.1, Right(Initial(p).0, 1), Right(Initial(p).1, 1), r, c)
  {
    hide *;
    var a0 := (p.0, Left(p.1, 4));
    var a := Exchange(a0, 0xf0f0f0f0);
    var b0 := (a.0, Right(a.1, 20));
    var b := Exchange(b0, 0xffff0000);
    var c0 := (b.0, Right(b.1, 18));
    var c1 := Exchange(c0, 0x33333333);
    var d0 := (c1.0, Right(c1.1, 6));
    var d := Exchange(d0, 0x00ff00ff);
    var e0 := (d.0, Left(d.1, 9));
    var e := Exchange(e0, 0xaaaaaaaa);
    InitialSteps(p, a0, a, b0, b, c0, c1, d0, d, e0, e);
    BlockExchanged(a0, 0xf0f0f0f0);
    BlockExchanged(b0, 0xffff0000);
    BlockExchanged(c0, 0x33333333);
    BlockExchanged(d0, 0x00ff00ff);
    BlockExchanged(e0, 0xaaaaaaaa);
    LeftTurns(p.1);
    RightTurns(a.1);
    RightTurns(b.1);
    RightTurns(c1.1);
    LeftTurns(d.1);
    LeftTurns(e.0);
    RightTurns(Left(e.0, 1));
    RightTurns(e.1);
    StepBits(p.0, p.1, a0.1, a.0, a.1, b0.1, b.0, b.1, c0.1, c1.0, c1.1, d0.1, d.0, d.1, e0.1, e.0, Left(e.0, 1), e.1,
             Right(Left(e.0, 1), 1), Right(e.1, 1), r, c);
  }

  lemma InitialSteps(p: Block, a0: Block, a: Block, b0: Block, b: Block, c0: Block, c: Block, d0: Block, d: Block, e0: Block, e: Block)
    requires a0 == (p.0, Left(p.1, 4)) && a == Exchange(a0, 0xf0f0f0f0)
    requires b0 == (a.0, Right(a.1, 20)) && b == Exchange(b0, 0xffff0000)
    requires c0 == (b.0, Right(b.1, 18)) && c == Exchange(c0, 0x33333333)
    requires d0 == (c.0, Right(c.1, 6)) && d == Exchange(d0, 0x00ff00ff)
    requires e0 == (d.0, Left(d.1, 9)) && e == Exchange(e0, 0xaaaaaaaa)
    ensures Initial(p) == (Left(e.0, 1), e.1)
  {
    hide Exchange, Left, Right;
  }

  // ----- The round function -----

  // e is the six bits of x from place s on, around its end if need be.
  predicate SixBits(e: word32, x: word32, s: word32) {
    && e < 64
    && BitOf(e, 0) == BitOf(x, s) && BitOf(e, 1) == BitOf(x, s + 1) && BitOf(e, 2) == BitOf(x, s + 2)
    && BitOf(e, 3) == BitOf(x, s + 3) && BitOf(e, 4) == BitOf(x, s + 4) && BitOf(e, 5) == BitOf(x, s + 5)
  }

  lemma SixAreShifted(e: word32, x: word32, s: word32)
    requires s <= 24 && SixBits(e, x, s)
    ensures e == (x >> s) & 0x3f
  {
  }

  lemma TurnedSixAreShifted(e: word32, x: word32, y: word32, s: word32)
    requires s <= 24 && SixBits(e, x, s + 4) && Turned(x, 28, y)
    ensures e == (y >> s) & 0x3f
  {
  }

  lemma XorOfShifted(x: word32, y: word32, s: word32)
    requires s <= 24
    ensures ((x ^ y) >> s) & 0x3f == ((x >> s) & 0x3f) ^ ((y >> s) & 0x3f)
  {
  }

  lemma SixInWords(x: word32, s: word32)
    requires s <= 24
    ensures Six(x, s) == (x >> s) & 0x3f
  {
  }

  lemma TurnedByFour(x: word32)
    ensures Turned(x, 28, Right(x, 4))
  {
    assert Right(x, 4) == x.RotateRight(4) == x.RotateLeft(28);
  }

  lemma SixOfXor(x: word32, y: word32, s: word32)
    requires s <= 24
    ensures Six(Xor(x, y), s) == Xor(Six(x, s), Six(y, s))
  {
    hide Six, Xor;
    SixInWords(x, s);
    SixInWords(y, s);
    XorInWords(x, y);
    SixInWords(Xor(x, y), s);
    XorInWords(Six(x, s), Six(y, s));
    XorOfShifted(x, y, s);
  }

  lemma SixAre(e: word32, x: word32, s: word32)
    requires s <= 24 && SixBits(e, x, s)
    ensures e == Six(x, s)
  {
    hide *;
    SixAreShifted(e, x, s);
    SixInWords(x, s);
  }

  // The even boxes' bits, from a half rotated by four.
  lemma TurnedSixAre(e: word32, x: word32, y: word32, s: word32)
    requires s <= 24 && SixBits(e, x, s + 4) && Turned(x, 28, y)
    ensures e == Six(y, s)
  {
    hide SixBits, Turned, Six;
    TurnedSixAreShifted(e, x, y, s);
    SixInWords(y, s);
  }

  lemma EvenBox(x: word32, key: word32, e: word32, k: word32, s: word32)
    requires s <= 24 && SixBits(e, x, s + 4) && SixBits(k, key, s)
    ensures Six(Xor(Right(x, 4), key), s) == Xor(e, k)
  {
    hide *;
    TurnedByFour(x);
    TurnedSixAre(e, x, Right(x, 4), s);
    SixAre(k, key, s);
    SixOfXor(Right(x, 4), key, s);
  }

  lemma OddBox(x: word32, key: word32, e: word32, k: word32, s: word32)
    requires s <= 24 && SixBits(e, x, s) && SixBits(k, key, s)
    ensures Six(Xor(x, key), s) == Xor(e, k)
  {
    hide *;
    SixAre(e, x, s);
    SixAre(k, key, s);
    SixOfXor(x, key, s);
  }

  lemma XorAssociates(a: word32, b: word32, c: word32)
    ensures Xor(Xor(a, b), c) == Xor(a, Xor(b, c))
  {
  }

  lemma XorCommutes(a: word32, b: word32)
    ensures Xor(a, b) == Xor(b, a)
  {
  }

  lemma XorOfPairs(a: word32, b: word32, c: word32, d: word32)
    ensures Xor(Xor(a, b), Xor(c, d)) == Xor(Xor(a, c), Xor(b, d))
  {
    hide Xor;
    XorAssociates(a, b, Xor(c, d));
    XorAssociates(b, c, d);
    XorCommutes(b, c);
    XorAssociates(c, b, d);
    XorAssociates(a, c, Xor(b, d));
  }

  // What box n is given, from the half that does not change and the round's two key words.
  predicate BoxInput(n: nat, e: word32, k: word32, x: word32, k0: word32, k1: word32) {
    match n
    case 0 => SixBits(e, x, 28) && SixBits(k, k0, 24)
    case 1 => SixBits(e, x, 24) && SixBits(k, k1, 24)
    case 2 => SixBits(e, x, 20) && SixBits(k, k0, 16)
    case 3 => SixBits(e, x, 16) && SixBits(k, k1, 16)
    case 4 => SixBits(e, x, 12) && SixBits(k, k0, 8)
    case 5 => SixBits(e, x, 8) && SixBits(k, k1, 8)
    case 6 => SixBits(e, x, 4) && SixBits(k, k0, 0)
    case 7 => SixBits(e, x, 0) && SixBits(k, k1, 0)
    case _ => true
  }

  // What box n gives.
  function Box(boxes: Boxes, e: seq<word32>, k: seq<word32>, n: nat): word32
    requires |e| == |k| && n < |e|
  {
    boxes(n, Xor(e[n], k[n]))
  }

  /** Box n, from 0, has the bits (28 - 4n) to (33 - 4n) of the other half, round its end, mixed with six bits of the
      key: for the even boxes of the first key word and for the odd ones of the second, the first boxes' highest. */
  lemma RoundByBoxes(boxes: Boxes, x: word32, k0: word32, k1: word32, e: seq<word32>, k: seq<word32>)
    requires |e| == |k| == 8 && forall n :: 0 <= n < 8 ==> BoxInput(n, e[n], k[n], x, k0, k1)
    ensures RoundChange(boxes, x, k0, k1)
         == Xor(Xor(Xor(Xor(Box(boxes, e, k, 6), Box(boxes, e, k, 7)), Xor(Box(boxes, e, k, 4), Box(boxes, e, k, 5))),
                    Xor(Box(boxes, e, k, 2), Box(boxes, e, k, 3))),
                Xor(Box(boxes, e, k, 0), Box(boxes, e, k, 1)))
  {
    hide SixBits, BitOf, Six, Xor, Right;
    EvenBox(x, k0, e[0], k[0], 24);
    EvenBox(x, k0, e[2], k[2], 16);
    EvenBox(x, k0, e[4], k[4], 8);
    EvenBox(x, k0, e[6], k[6], 0);
    OddBox(x, k1, e[1], k[1], 24);
    OddBox(x, k1, e[3], k[3], 16);
    OddBox(x, k1, e[5], k[5], 8);
    OddBox(x, k1, e[7], k[7], 0);
    var u, v := Xor(Box(boxes, e, k, 6), Box(boxes, e, k, 4)), Xor(Box(boxes, e, k, 7), Box(boxes, e, k, 5));
    XorOfPairs(Xor(u, Box(boxes, e, k, 2)), Box(boxes, e, k, 0), Xor(v, Box(boxes, e, k, 3)), Box(boxes, e, k, 1));
    XorOfPairs(u, Box(boxes, e, k, 2), v, Box(boxes, e, k, 3));
    XorOfPairs(Box(boxes, e, k, 6), Box(boxes, e, k, 4), Box(boxes, e, k, 7), Box(boxes, e, k, 5));
  }

  // ----- The cipher -----

  /** The cipher of the section "Enciphering" of FIPS 46-3: from the initial permutation's halves h[0] and h[1], sixteen
      rounds each make a new half, and the initial permutation of the output has the last before the one before it. */
  lemma CipherByHalves(boxes: Boxes, k: seq<word32>, p: Block, h: seq<word32>)
    requires |k| == 32 && |h| == 18 && Initial(p) == (h[0], h[1])
    requires forall j :: 0 <= j < 16 ==> h[j + 2] == Xor(h[j], RoundChange(boxes, h[j + 1], k[2 * j], k[2 * j + 1]))
    ensures Initial(Cipher(boxes, k, p)) == (h[17], h[16])
  {
    hide Initial, Final, Xor, RoundChange, Rounds;
    RoundsByHalves(KeyedRound(boxes, k), 16, h);
    InitialAfterFinal(Raw(boxes, k, Initial(p)));
  }
}
