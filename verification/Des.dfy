/** DES and its compositions in des.cpp: decryption undoes encryption whatever the key schedule and the S-boxes. */
module Des {
  import opened FeistelRounds

  // ----- The initial and final permutations -----

  function Masked(l: word32, r: word32, mask: word32): word32 {
    (l ^ r) & mask
  }

  lemma MaskedAgain(l: word32, r: word32, mask: word32)
    ensures Masked(Xor(l, Masked(l, r, mask)), Xor(r, Masked(l, r, mask)), mask) == Masked(l, r, mask)
  {
  }

  lemma MaskedCommutes(l: word32, r: word32, mask: word32)
    ensures Masked(r, l, mask) == Masked(l, r, mask)
  {
  }

  // The bits of the mask are exchanged between the words.
  function Exchange(p: Block, mask: word32): Block {
    var work := Masked(p.0, p.1, mask);
    (Xor(p.0, work), Xor(p.1, work))
  }

  lemma ExchangeBack(p: Block, mask: word32)
    ensures Exchange(Swap(Exchange(p, mask)), mask) == Swap(p)
  {
    hide Xor, Masked;
    var work := Masked(p.0, p.1, mask);
    MaskedAgain(p.0, p.1, mask);
    MaskedCommutes(Xor(p.0, work), Xor(p.1, work), mask);
    XorTwice(p.0, work);
    XorTwice(p.1, work);
  }

  function Left(x: word32, n: nat): word32
    requires n < 32
  {
    x.RotateLeft(n)
  }

  function Right(x: word32, n: nat): word32
    requires n < 32
  {
    x.RotateRight(n)
  }

  // Rotations to the left and to the right by as much undo each other.
  lemma Turn1(x: word32)
    ensures Left(Right(x, 1), 1) == x && Right(Left(x, 1), 1) == x
  {
    assert x.RotateRight(1).RotateLeft(1) == x;
    assert x.RotateLeft(1).RotateRight(1) == x;
  }

  lemma Turn4(x: word32)
    ensures Left(Right(x, 4), 4) == x && Right(Left(x, 4), 4) == x
  {
    assert x.RotateRight(4).RotateLeft(4) == x;
    assert x.RotateLeft(4).RotateRight(4) == x;
  }

  lemma Turn6(x: word32)
    ensures Left(Right(x, 6), 6) == x && Right(Left(x, 6), 6) == x
  {
    assert x.RotateRight(6).RotateLeft(6) == x;
    assert x.RotateLeft(6).RotateRight(6) == x;
  }

  lemma Turn9(x: word32)
    ensures Left(Right(x, 9), 9) == x && Right(Left(x, 9), 9) == x
  {
    assert x.RotateRight(9).RotateLeft(9) == x;
    assert x.RotateLeft(9).RotateRight(9) == x;
  }

  lemma Turn18(x: word32)
    ensures Left(Right(x, 18), 18) == x && Right(Left(x, 18), 18) == x
  {
    assert x.RotateRight(18).RotateLeft(18) == x;
    assert x.RotateLeft(18).RotateRight(18) == x;
  }

  lemma Turn20(x: word32)
    ensures Left(Right(x, 20), 20) == x && Right(Left(x, 20), 20) == x
  {
    assert x.RotateRight(20).RotateLeft(20) == x;
    assert x.RotateLeft(20).RotateRight(20) == x;
  }

  function Initial(p: Block): Block {
    var a := Exchange((p.0, Left(p.1, 4)), 0xf0f0f0f0);
    var b := Exchange((a.0, Right(a.1, 20)), 0xffff0000);
    var c := Exchange((b.0, Right(b.1, 18)), 0x33333333);
    var d := Exchange((c.0, Right(c.1, 6)), 0x00ff00ff);
    var e := Exchange((d.0, Left(d.1, 9)), 0xaaaaaaaa);
    (Left(e.0, 1), e.1)
  }

  function Final(p: Block): Block {
    var e := Exchange((p.0, Right(p.1, 1)), 0xaaaaaaaa);
    var d := Exchange((Right(e.0, 9), e.1), 0x00ff00ff);
    var c := Exchange((Left(d.0, 6), d.1), 0x33333333);
    var b := Exchange((Left(c.0, 18), c.1), 0xffff0000);
    var a := Exchange((Left(b.0, 20), b.1), 0xf0f0f0f0);
    (Right(a.0, 4), a.1)
  }

  /** The final permutation, with the halves exchanged before and after, undoes the initial one and is undone by it. */
  lemma FinalUndoesInitial(p: Block)
    ensures Swap(Final(Swap(Initial(p)))) == p
    ensures Initial(Swap(Final(p))) == Swap(p)
  {
    FinalAfterInitial(p);
    InitialAfterFinal(p);
  }

  lemma FinalAfterInitial(p: Block)
    ensures Swap(Final(Swap(Initial(p)))) == p
  {
    hide Exchange, Left, Right;
    var a0 := (p.0, Left(p.1, 4));
    var a := Exchange(a0, 0xf0f0f0f0);
    var b0 := (a.0, Right(a.1, 20));
    var b := Exchange(b0, 0xffff0000);
    var c0 := (b.0, Right(b.1, 18));
    var c := Exchange(c0, 0x33333333);
    var d0 := (c.0, Right(c.1, 6));
    var d := Exchange(d0, 0x00ff00ff);
    var e0 := (d.0, Left(d.1, 9));
    var e := Exchange(e0, 0xaaaaaaaa);
    ExchangeBack(a0, 0xf0f0f0f0);
    ExchangeBack(b0, 0xffff0000);
    ExchangeBack(c0, 0x33333333);
    ExchangeBack(d0, 0x00ff00ff);
    ExchangeBack(e0, 0xaaaaaaaa);
    Turn4(p.1);
    Turn20(a.1);
    Turn18(b.1);
    Turn6(c.1);
    Turn9(d.1);
    Turn1(e.0);
  }

  lemma InitialAfterFinal(p: Block)
    ensures Initial(Swap(Final(p))) == Swap(p)
  {
    hide Exchange, Left, Right;
    var e0 := (p.0, Right(p.1, 1));
    var e := Exchange(e0, 0xaaaaaaaa);
    var d0 := (Right(e.0, 9), e.1);
    var d := Exchange(d0, 0x00ff00ff);
    var c0 := (Left(d.0, 6), d.1);
    var c := Exchange(c0, 0x33333333);
    var b0 := (Left(c.0, 18), c.1);
    var b := Exchange(b0, 0xffff0000);
    var a0 := (Left(b.0, 20), b.1);
    var a := Exchange(a0, 0xf0f0f0f0);
    ExchangeBack(a0, 0xf0f0f0f0);
    ExchangeBack(b0, 0xffff0000);
    ExchangeBack(c0, 0x33333333);
    ExchangeBack(d0, 0x00ff00ff);
    ExchangeBack(e0, 0xaaaaaaaa);
    Turn4(a.0);
    Turn20(b.0);
    Turn18(c.0);
    Turn6(d.0);
    Turn9(e.0);
    Turn1(p.1);
  }

  method IPERM(left0: word32, right0: word32) returns (left: word32, right: word32)
    ensures (left, right) == Initial((left0, right0))
  {
    hide Masked, Xor, Left, Right;
    left, right := left0, right0;
    right := Left(right, 4);
    var work := Masked(left, right, 0xf0f0f0f0);
    left := Xor(left, work);
    right := Right(Xor(right, work), 20);
    work := Masked(left, right, 0xffff0000);
    left := Xor(left, work);
    right := Right(Xor(right, work), 18);
    work := Masked(left, right, 0x33333333);
    left := Xor(left, work);
    right := Right(Xor(right, work), 6);
    work := Masked(left, right, 0x00ff00ff);
    left := Xor(left, work);
    right := Left(Xor(right, work), 9);
    work := Masked(left, right, 0xaaaaaaaa);
    left := Left(Xor(left, work), 1);
    right := Xor(right, work);
  }

  method FPERM(left0: word32, right0: word32) returns (left: word32, right: word32)
    ensures (left, right) == Final((left0, right0))
  {
    hide Masked, Xor, Left, Right;
    left, right := left0, right0;
    right := Right(right, 1);
    var work := Masked(left, right, 0xaaaaaaaa);
    right := Xor(right, work);
    left := Right(Xor(left, work), 9);
    work := Masked(left, right, 0x00ff00ff);
    right := Xor(right, work);
    left := Left(Xor(left, work), 6);
    work := Masked(left, right, 0x33333333);
    right := Xor(right, work);
    left := Left(Xor(left, work), 18);
    work := Masked(left, right, 0xffff0000);
    right := Xor(right, work);
    left := Left(Xor(left, work), 20);
    work := Masked(left, right, 0xf0f0f0f0);
    right := Xor(right, work);
    left := Right(Xor(left, work), 4);
  }

  // ----- The rounds -----

  // The six bits at a place.
  function Six(x: word32, s: word32): word32
    requires s <= 24
  {
    (x >> s) & 0x3f
  }

  // What the tables with these numbers give for the bytes of a word.
  function Substituted(boxes: Boxes, a: nat, b: nat, c: nat, d: nat, work: word32): word32 {
    Xor(Xor(Xor(boxes(a, Six(work, 0)), boxes(b, Six(work, 8))), boxes(c, Six(work, 16))), boxes(d, Six(work, 24)))
  }

  // One round's change of a half, from the other half and the round's two key words.
  function RoundChange(boxes: Boxes, x: word32, k0: word32, k1: word32): word32 {
    Xor(Substituted(boxes, 6, 4, 2, 0, Xor(Right(x, 4), k0)), Substituted(boxes, 7, 5, 3, 1, Xor(x, k1)))
  }

  function KeyedRound(boxes: Boxes, k: seq<word32>): (word32, nat) -> word32 {
    (x: word32, j: nat) => if 2 * j + 1 < |k| then RoundChange(boxes, x, k[2 * j], k[2 * j + 1]) else 0
  }

  function Raw(boxes: Boxes, k: seq<word32>, p: Block): Block {
    Rounds(KeyedRound(boxes, k), 16, p)
  }

  // The pairs of key words in the opposite order.
  function ReversedSchedule(k: seq<word32>): (r: seq<word32>)
    requires |k| == 32
    ensures |r| == 32
  {
    seq(32, i requires 0 <= i < 32 => if i % 2 == 0 then k[30 - i] else k[32 - i])
  }

  lemma ReversedPairs(k: seq<word32>, i: nat)
    requires |k| == 32 && i < 32 && i % 2 == 0
    ensures ReversedSchedule(k)[i] == k[30 - i] && ReversedSchedule(k)[i + 1] == k[31 - i]
    ensures ReversedSchedule(k)[30 - i] == k[i] && ReversedSchedule(k)[31 - i] == k[i + 1]
  {
  }

  lemma ReversedScheduleTwice(k: seq<word32>)
    requires |k| == 32
    ensures ReversedSchedule(ReversedSchedule(k)) == k
  {
  }

  /** Whatever the tables and the schedule, the rounds with the reversed schedule on exchanged halves undo the rounds. */
  lemma RawUndone(boxes: Boxes, k: seq<word32>, p: Block)
    requires |k| == 32
    ensures Raw(boxes, ReversedSchedule(k), Swap(Raw(boxes, k, p))) == Swap(p)
    ensures Raw(boxes, k, Swap(Raw(boxes, ReversedSchedule(k), p))) == Swap(p)
  {
    ReversedScheduleTwice(k);
    UndoneOnce(boxes, k, p);
    UndoneOnce(boxes, ReversedSchedule(k), p);
  }

  lemma UndoneOnce(boxes: Boxes, k: seq<word32>, p: Block)
    requires |k| == 32
    ensures Raw(boxes, ReversedSchedule(k), Swap(Raw(boxes, k, p))) == Swap(p)
  {
    hide Rounds, RoundChange;
    var f, g := KeyedRound(boxes, k), KeyedRound(boxes, ReversedSchedule(k));
    forall x: word32, j: nat
      ensures SameKey(f, g, 16, x, j)
    {
      if j < 16 {
        assert ReversedSchedule(k)[2 * j] == k[2 * (15 - j)];
        assert ReversedSchedule(k)[2 * j + 1] == k[2 * (15 - j) + 1];
      }
    }
    ReversedKeysDecrypt(f, g, 16, p);
    assert Swap(Swap(Raw(boxes, ReversedSchedule(k), Swap(Raw(boxes, k, p))))) == Swap(p);
  }

  class RawDES {
    const boxes: Boxes
    const k: array<word32>

    constructor (boxes: Boxes)
      ensures this.boxes == boxes && k.Length == 32 && fresh(k)
    {
      this.boxes := boxes;
      this.k := new word32[32](i => 0);
    }

    // The schedule is what the user's key makes; how it is made is not part of this model.
    method RawSetKey(forward: bool, schedule: seq<word32>)
      requires k.Length == 32 && |schedule| == 32
      modifies k
      ensures k[..] == if forward then schedule else ReversedSchedule(schedule)
    {
      forall i | 0 <= i < 32 {
        k[i] := schedule[i];
      }
      assert k[..] == schedule;
      if !forward {
        ReverseOrder(schedule);
      }
    }

    // The key words change places by pairs.
    method ReverseOrder(ghost schedule: seq<word32>)
      requires k.Length == 32 && k[..] == schedule
      modifies k
      ensures k[..] == ReversedSchedule(schedule)
    {
      hide ReversedSchedule;
      ghost var r := ReversedSchedule(schedule);
      var i := 0;
      while i < 16
        invariant 0 <= i <= 16 && i % 2 == 0
        invariant forall j :: 0 <= j < i ==> k[j] == r[j]
        invariant forall j :: 32 - i <= j < 32 ==> k[j] == r[j]
        invariant forall j :: i <= j < 32 - i ==> k[j] == schedule[j]
      {
        ReversedPairs(schedule, i);
        SwapPair(i);
        i := i + 2;
      }
    }

    method SwapPair(i: nat)
      requires k.Length == 32 && i < 15
      modifies k
      ensures k[..] == old(k[..])[i := old(k[30 - i])][30 - i := old(k[i])][i + 1 := old(k[31 - i])][31 - i := old(k[i + 1])]
    {
      k[i], k[32 - 2 - i] := k[32 - 2 - i], k[i];
      k[i + 1], k[32 - 1 - i] := k[32 - 1 - i], k[i + 1];
    }

    // One half round: l ^= ..., twice.
    method HalfRound(l0: word32, r: word32, k0: word32, k1: word32) returns (l: word32)
      ensures l == Xor(l0, RoundChange(boxes, r, k0, k1))
    {
      hide Xor, Right, Substituted;
      var work := Xor(Right(r, 4), k0);
      var first := Substituted(boxes, 6, 4, 2, 0, work);
      l := Xor(l0, first);
      work := Xor(r, k1);
      l := Xor(l, Substituted(boxes, 7, 5, 3, 1, work));
      BothXors(l0, first, Substituted(boxes, 7, 5, 3, 1, work));
    }

    method RawProcessBlock(l0: word32, r0: word32) returns (l: word32, r: word32)
      requires k.Length == 32
      ensures (l, r) == Raw(boxes, k[..], (l0, r0))
    {
      hide Xor, RoundChange, Rounds;
      l, r := l0, r0;
      ghost var f := KeyedRound(boxes, k[..]);
      NoRounds(f, (l0, r0));
      var i := 0;
      while i < 8
        invariant 0 <= i <= 8 && (l, r) == Rounds(f, 2 * i, (l0, r0))
      {
        ghost var p := (l, r);
        l := HalfRound(l, r, k[4 * i], k[4 * i + 1]);
        r := HalfRound(r, l, k[4 * i + 2], k[4 * i + 3]);
        TwoRounds(f, i, (l0, r0), p, (l, p.1), (l, r));
        i := i + 1;
      }
    }
  }

  lemma NoRounds(f: (word32, nat) -> word32, p: Block)
    ensures Rounds(f, 0, p) == p
  {
  }

  lemma BothXors(a: word32, b: word32, c: word32)
    ensures Xor(Xor(a, b), c) == Xor(a, Xor(b, c))
  {
  }

  lemma TwoRounds(f: (word32, nat) -> word32, i: nat, start: Block, p: Block, q: Block, r: Block)
    requires p == Rounds(f, 2 * i, start) && q == Toggle(f, 2 * i, p) && r == Toggle(f, 2 * i + 1, q)
    ensures r == Rounds(f, 2 * (i + 1), start)
  {
    hide Toggle;
    assert Rounds(f, 2 * i + 1, start) == q;
  }

  // ----- The ciphers -----

  function XorBlocks(p: Block, q: Block): Block {
    (Xor(p.0, q.0), Xor(p.1, q.1))
  }

  lemma XorBlocksTwice(p: Block, q: Block)
    ensures XorBlocks(XorBlocks(p, q), q) == p
  {
    hide Xor;
    XorTwice(p.0, q.0);
    XorTwice(p.1, q.1);
  }

  function Cipher(boxes: Boxes, k: seq<word32>, p: Block): Block {
    Swap(Final(Raw(boxes, k, Initial(p))))
  }

  function EdeRounds(boxes: Boxes, k1: seq<word32>, k2: seq<word32>, k3: seq<word32>, p: Block): Block {
    Raw(boxes, k3, Swap(Raw(boxes, k2, Swap(Raw(boxes, k1, p)))))
  }

  function EdeCipher(boxes: Boxes, k1: seq<word32>, k2: seq<word32>, k3: seq<word32>, p: Block): Block {
    Swap(Final(EdeRounds(boxes, k1, k2, k3, Initial(p))))
  }

  // Between the permutations, what undoes the rounds on exchanged halves undoes the cipher.
  lemma PermutationsUndone(p: Block, x: Block, y: Block)
    requires y == Swap(Initial(p))
    ensures Initial(Swap(Final(x))) == Swap(x) && Swap(Final(y)) == p
  {
    hide Initial, Final;
    FinalUndoesInitial(p);
    InitialAfterFinal(x);
  }

  /** DES with the reversed schedule decrypts. */
  lemma DesDecrypts(boxes: Boxes, k: seq<word32>, p: Block)
    requires |k| == 32
    ensures Cipher(boxes, ReversedSchedule(k), Cipher(boxes, k, p)) == p
  {
    hide Initial, Final, Raw;
    RawUndone(boxes, k, Initial(p));
    PermutationsUndone(p, Raw(boxes, k, Initial(p)), Swap(Initial(p)));
  }

  /** Encrypt-decrypt-encrypt with three schedules is undone by decrypt-encrypt-decrypt in the opposite order. With the
      first and the last the same it is two-key triple DES. */
  lemma EdeDecrypts(boxes: Boxes, k1: seq<word32>, k2: seq<word32>, k3: seq<word32>, p: Block)
    requires |k1| == |k2| == |k3| == 32
    ensures EdeCipher(boxes, ReversedSchedule(k3), k2, ReversedSchedule(k1),
              EdeCipher(boxes, k1, ReversedSchedule(k2), k3, p)) == p
  {
    hide Initial, Final, Raw;
    var q := Initial(p);
    var x := Raw(boxes, k1, q);
    var y := Raw(boxes, ReversedSchedule(k2), Swap(x));
    var z := Raw(boxes, k3, Swap(y));
    RawUndone(boxes, k3, Swap(y));
    RawUndone(boxes, k2, Swap(x));
    RawUndone(boxes, k1, q);
    assert Swap(Swap(x)) == x && Swap(Swap(y)) == y;
    PermutationsUndone(p, z, Swap(q));
  }

  /** The rounds of three ciphers between one pair of permutations are the three ciphers in a row. */
  lemma EdeIsThreeCiphers(boxes: Boxes, k1: seq<word32>, k2: seq<word32>, k3: seq<word32>, p: Block)
    ensures EdeCipher(boxes, k1, k2, k3, p) == Cipher(boxes, k3, Cipher(boxes, k2, Cipher(boxes, k1, p)))
  {
    hide Initial, Final, Raw;
    var x := Raw(boxes, k1, Initial(p));
    InitialAfterFinal(x);
    InitialAfterFinal(Raw(boxes, k2, Swap(x)));
  }

  /** The whitened cipher is undone with the whitening blocks exchanged. */
  lemma XexDecrypts(boxes: Boxes, x1: Block, k: seq<word32>, x3: Block, p: Block)
    requires |k| == 32
    ensures XorBlocks(Cipher(boxes, ReversedSchedule(k), XorBlocks(XorBlocks(Cipher(boxes, k, XorBlocks(p, x1)), x3), x3)), x1)
         == p
  {
    hide Cipher, XorBlocks;
    XorBlocksTwice(Cipher(boxes, k, XorBlocks(p, x1)), x3);
    DesDecrypts(boxes, k, XorBlocks(p, x1));
    XorBlocksTwice(p, x1);
  }

  // DES::Base; a null xorBlock is a block of zeros.
  method ProcessBlockWith(des: RawDES, inBlock: Block, xorBlock: Block) returns (outBlock: Block)
    requires des.k.Length == 32
    ensures outBlock == XorBlocks(Cipher(des.boxes, des.k[..], inBlock), xorBlock)
  {
    hide Initial, Final, Raw, Xor;
    var l, r := IPERM(inBlock.0, inBlock.1);
    l, r := des.RawProcessBlock(l, r);
    l, r := FPERM(l, r);
    outBlock := XorBlocks((r, l), xorBlock);
  }

  // Three ciphers in a row: for two keys the first is also the last.
  class DesEde3 {
    const des1: RawDES
    const des2: RawDES
    const des3: RawDES

    ghost predicate Valid()
      reads des1, des2, des3
    {
      && des1.k.Length == des2.k.Length == des3.k.Length == 32
      && des1.boxes == des2.boxes == des3.boxes
    }

    constructor (boxes: Boxes, forward: bool, k1: seq<word32>, k2: seq<word32>, k3: seq<word32>)
      requires |k1| == |k2| == |k3| == 32
      ensures Valid() && des1.boxes == boxes
      ensures forward ==> des1.k[..] == k1 && des2.k[..] == ReversedSchedule(k2) && des3.k[..] == k3
      ensures !forward ==>
        des1.k[..] == ReversedSchedule(k3) && des2.k[..] == k2 && des3.k[..] == ReversedSchedule(k1)
    {
      var a := new RawDES(boxes);
      var b := new RawDES(boxes);
      var c := new RawDES(boxes);
      a.RawSetKey(forward, if forward then k1 else k3);
      b.RawSetKey(!forward, k2);
      c.RawSetKey(forward, if forward then k3 else k1);
      des1, des2, des3 := a, b, c;
    }

    method ProcessAndXorBlock(inBlock: Block, xorBlock: Block) returns (outBlock: Block)
      requires Valid()
      ensures outBlock == XorBlocks(EdeCipher(des1.boxes, des1.k[..], des2.k[..], des3.k[..], inBlock), xorBlock)
    {
      hide Initial, Final, Raw, Xor;
      var l, r := IPERM(inBlock.0, inBlock.1);
      l, r := des1.RawProcessBlock(l, r);
      r, l := des2.RawProcessBlock(r, l);
      l, r := des3.RawProcessBlock(l, r);
      l, r := FPERM(l, r);
      outBlock := XorBlocks((r, l), xorBlock);
    }
  }

  class DesXex3 {
    const x1: Block
    const des: RawDES
    const x3: Block

    constructor (boxes: Boxes, forward: bool, key1: Block, k: seq<word32>, key3: Block)
      requires |k| == 32
      ensures des.boxes == boxes && des.k.Length == 32
      ensures forward ==> x1 == key1 && des.k[..] == k && x3 == key3
      ensures !forward ==> x1 == key3 && des.k[..] == ReversedSchedule(k) && x3 == key1
    {
      x1 := if forward then key1 else key3;
      var d := new RawDES(boxes);
      d.RawSetKey(forward, k);
      des := d;
      x3 := if forward then key3 else key1;
    }

    method ProcessAndXorBlock(inBlock: Block, xorBlock: Block) returns (outBlock: Block)
      requires des.k.Length == 32
      ensures outBlock == XorBlocks(XorBlocks(Cipher(des.boxes, des.k[..], XorBlocks(inBlock, x1)), xorBlock), x3)
    {
      hide Cipher, XorBlocks;
      outBlock := XorBlocks(inBlock, x1);
      outBlock := ProcessBlockWith(des, outBlock, xorBlock);
      outBlock := XorBlocks(outBlock, x3);
    }
  }
}
