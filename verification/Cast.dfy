/** CAST-128 and CAST-256 in cast.cpp: decryption undoes encryption for every key schedule and all S-boxes. */
module Cast {
  import opened FeistelRounds

  function RotlVariable(x: word32, y: word32): word32 {
    (x << (y & 0x1f)) | (x >> ((32 - (y & 0x1f)) & 0x1f))
  }

  // Bit i goes y places up, around the end.
  lemma RotatedBits(x: word32, y: word32, i: word32)
    ensures BitOf(RotlVariable(x, y), i + y) == BitOf(x, i)
  {
    hide BitOf;
    ShiftedBits(RotlVariable(x, y), x, y, i);
  }

  lemma ShiftedBits(t: word32, x: word32, y: word32, i: word32)
    requires t == (x << (y & 0x1f)) | (x >> ((32 - (y & 0x1f)) & 0x1f))
    ensures BitOf(t, i + y) == BitOf(x, i)
  {
  }

  function F1(s: Boxes, r: word32, km: word32, kr: word32): word32 {
    var t := RotlVariable(Plus(km, r), kr);
    Plus(Minus(Xor(s(0, GetByte(t, 3)), s(1, GetByte(t, 2))), s(2, GetByte(t, 1))), s(3, GetByte(t, 0)))
  }

  function F2(s: Boxes, r: word32, km: word32, kr: word32): word32 {
    var t := RotlVariable(Xor(km, r), kr);
    Xor(Plus(Minus(s(0, GetByte(t, 3)), s(1, GetByte(t, 2))), s(2, GetByte(t, 1))), s(3, GetByte(t, 0)))
  }

  function F3(s: Boxes, r: word32, km: word32, kr: word32): word32 {
    var t := RotlVariable(Minus(km, r), kr);
    Minus(Xor(Plus(s(0, GetByte(t, 3)), s(1, GetByte(t, 2))), s(2, GetByte(t, 1))), s(3, GetByte(t, 0)))
  }

  /** The three functions of section 2.2 of RFC 2144, from the bytes of the rotated word, the highest first. */
  lemma RoundFunctions(
    s: Boxes, r: word32, km: word32, kr: word32, t: word32, a: word32, b: word32, c: word32, d: word32)
    requires FourBytes(t, a, b, c, d)
    ensures t == RotlVariable(Plus(km, r), kr) ==>
      F1(s, r, km, kr) == Plus(Minus(Xor(s(0, a), s(1, b)), s(2, c)), s(3, d))
    ensures t == RotlVariable(Xor(km, r), kr) ==>
      F2(s, r, km, kr) == Xor(Plus(Minus(s(0, a), s(1, b)), s(2, c)), s(3, d))
    ensures t == RotlVariable(Minus(km, r), kr) ==>
      F3(s, r, km, kr) == Minus(Xor(Plus(s(0, a), s(1, b)), s(2, c)), s(3, d))
  {
    hide GetByte, RotlVariable, FourBytes, Xor, Plus, Minus;
    BytesOfWord(t, a, b, c, d);
  }

  // ----- CAST-128 -----

  // The rounds use the three functions in turn; round j has the masking key K[j] and the rotation K[j + 16].
  function Round(s: Boxes, k: seq<word32>): (word32, nat) -> word32 {
    (x: word32, j: nat) =>
      if j + 16 >= |k| then 0
      else if j % 3 == 0 then F1(s, x, k[j], k[j + 16])
      else if j % 3 == 1 then F2(s, x, k[j], k[j + 16])
      else F3(s, x, k[j], k[j + 16])
  }

  function RoundCount(reduced: bool): nat {
    if reduced then 12 else 16
  }

  function Encrypt128(s: Boxes, k: seq<word32>, reduced: bool, p: Block): Block {
    Swap(Rounds(Round(s, k), RoundCount(reduced), p))
  }

  function Decrypt128(s: Boxes, k: seq<word32>, reduced: bool, p: Block): Block {
    Backward(Round(s, k), RoundCount(reduced), Swap(p))
  }

  /** With twelve rounds or sixteen, decryption undoes encryption. */
  lemma Decrypts128(s: Boxes, k: seq<word32>, reduced: bool, p: Block)
    ensures Decrypt128(s, k, reduced, Encrypt128(s, k, reduced, p)) == p
  {
    BackwardUndoes(Round(s, k), RoundCount(reduced), p);
  }

  /** Each round's new half is h[j] changed by the next half: the rounds take the functions in turn, and the output has
      the last half first. */
  lemma Encrypt128ByHalves(s: Boxes, k: seq<word32>, reduced: bool, h: seq<word32>)
    requires |k| == 32 && |h| == 18
    requires forall i :: 0 <= i < 16 && i % 3 == 0 ==> h[i + 2] == Xor(h[i], F1(s, h[i + 1], k[i], k[i + 16]))
    requires forall i :: 0 <= i < 16 && i % 3 == 1 ==> h[i + 2] == Xor(h[i], F2(s, h[i + 1], k[i], k[i + 16]))
    requires forall i :: 0 <= i < 16 && i % 3 == 2 ==> h[i + 2] == Xor(h[i], F3(s, h[i + 1], k[i], k[i + 16]))
    ensures Encrypt128(s, k, reduced, (h[0], h[1])) == if reduced then (h[13], h[12]) else (h[17], h[16])
  {
    hide Xor, Rounds, F1, F2, F3;
    RoundsByHalves(Round(s, k), RoundCount(reduced), h);
  }

  lemma Forth(f: (word32, nat) -> word32, j: nat, b: Block, p: Block, q: Block)
    requires p == Rounds(f, j, b) && q == Toggle(f, j, p)
    ensures q == Rounds(f, j + 1, b)
  {
    hide Toggle;
  }

  lemma Start(f: (word32, nat) -> word32, b: Block)
    ensures Rounds(f, 0, b) == b && Backward(f, 0, b) == b
  {
  }

  class Cast128 {
    const s: Boxes
    const k: seq<word32>
    const reduced: bool

    constructor (s: Boxes, k: seq<word32>, reduced: bool)
      requires |k| == 32
      ensures this.s == s && this.k == k && this.reduced == reduced
    {
      this.s, this.k, this.reduced := s, k, reduced;
    }

    // Three rounds, beginning on the left.
    method ThreeLeft(l0: word32, r0: word32, j: nat, ghost b: Block) returns (l: word32, r: word32)
      requires |k| == 32 && j + 2 < 16 && j % 6 == 0 && (l0, r0) == Rounds(Round(s, k), j, b)
      ensures (l, r) == Rounds(Round(s, k), j + 3, b)
    {
      hide Xor, Rounds, F1, F2, F3;
      ghost var f := Round(s, k);
      l := Xor(l0, F1(s, r0, k[j], k[j + 16]));
      Forth(f, j, b, (l0, r0), (l, r0));
      r := Xor(r0, F2(s, l, k[j + 1], k[j + 17]));
      Forth(f, j + 1, b, (l, r0), (l, r));
      ghost var p := (l, r);
      l := Xor(l, F3(s, r, k[j + 2], k[j + 18]));
      Forth(f, j + 2, b, p, (l, r));
    }

    // Three rounds, beginning on the right.
    method ThreeRight(l0: word32, r0: word32, j: nat, ghost b: Block) returns (l: word32, r: word32)
      requires |k| == 32 && j + 2 < 16 && j % 6 == 3 && (l0, r0) == Rounds(Round(s, k), j, b)
      ensures (l, r) == Rounds(Round(s, k), j + 3, b)
    {
      hide Xor, Rounds, F1, F2, F3;
      ghost var f := Round(s, k);
      r := Xor(r0, F1(s, l0, k[j], k[j + 16]));
      Forth(f, j, b, (l0, r0), (l0, r));
      l := Xor(l0, F2(s, r, k[j + 1], k[j + 17]));
      Forth(f, j + 1, b, (l0, r), (l, r));
      ghost var p := (l, r);
      r := Xor(r, F3(s, l, k[j + 2], k[j + 18]));
      Forth(f, j + 2, b, p, (l, r));
    }

    method ProcessEncrypt(inBlock: Block, xorBlock: Block) returns (outBlock: Block)
      requires |k| == 32
      ensures outBlock == (Xor(Encrypt128(s, k, reduced, inBlock).0, xorBlock.0),
                           Xor(Encrypt128(s, k, reduced, inBlock).1, xorBlock.1))
    {
      hide Xor, Rounds, F1, F2, F3;
      ghost var f := Round(s, k);
      Start(f, inBlock);
      var l, r := ThreeLeft(inBlock.0, inBlock.1, 0, inBlock);
      l, r := ThreeRight(l, r, 3, inBlock);
      l, r := ThreeLeft(l, r, 6, inBlock);
      l, r := ThreeRight(l, r, 9, inBlock);
      if !reduced {
        l, r := ThreeLeft(l, r, 12, inBlock);
        ghost var p := (l, r);
        r := Xor(r, F1(s, l, k[15], k[31]));
        Forth(f, 15, inBlock, p, (l, r));
      }
      outBlock := (Xor(r, xorBlock.0), Xor(l, xorBlock.1));
    }

    // Three rounds backward, ending on the left.
    method BackLeft(l0: word32, r0: word32, j: nat) returns (l: word32, r: word32)
      requires |k| == 32 && j + 2 < 16 && j % 6 == 0
      ensures Backward(Round(s, k), j, (l, r)) == Backward(Round(s, k), j + 3, (l0, r0))
    {
      hide Xor, Backward, F1, F2, F3;
      ghost var f := Round(s, k);
      l := Xor(l0, F3(s, r0, k[j + 2], k[j + 18]));
      Back(f, j + 2, (l0, r0), (l, r0));
      r := Xor(r0, F2(s, l, k[j + 1], k[j + 17]));
      Back(f, j + 1, (l, r0), (l, r));
      ghost var p := (l, r);
      l := Xor(l, F1(s, r, k[j], k[j + 16]));
      Back(f, j, p, (l, r));
    }

    // Three rounds backward, ending on the right.
    method BackRight(l0: word32, r0: word32, j: nat) returns (l: word32, r: word32)
      requires |k| == 32 && j + 2 < 16 && j % 6 == 3
      ensures Backward(Round(s, k), j, (l, r)) == Backward(Round(s, k), j + 3, (l0, r0))
    {
      hide Xor, Backward, F1, F2, F3;
      ghost var f := Round(s, k);
      r := Xor(r0, F3(s, l0, k[j + 2], k[j + 18]));
      Back(f, j + 2, (l0, r0), (l0, r));
      l := Xor(l0, F2(s, r, k[j + 1], k[j + 17]));
      Back(f, j + 1, (l0, r), (l, r));
      ghost var p := (l, r);
      r := Xor(r, F1(s, l, k[j], k[j + 16]));
      Back(f, j, p, (l, r));
    }

    method ProcessDecrypt(inBlock: Block, xorBlock: Block) returns (outBlock: Block)
      requires |k| == 32
      ensures outBlock == (Xor(Decrypt128(s, k, reduced, inBlock).0, xorBlock.0),
                           Xor(Decrypt128(s, k, reduced, inBlock).1, xorBlock.1))
    {
      hide Xor, Backward, F1, F2, F3;
      ghost var f := Round(s, k);
      var r, l := inBlock.0, inBlock.1;
      if !reduced {
        ghost var p := (l, r);
        r := Xor(r, F1(s, l, k[15], k[31]));
        Back(f, 15, p, (l, r));
        l, r := BackLeft(l, r, 12);
      }
      l, r := BackRight(l, r, 9);
      l, r := BackLeft(l, r, 6);
      l, r := BackRight(l, r, 3);
      l, r := BackLeft(l, r, 0);
      Start(f, (l, r));
      outBlock := (Xor(l, xorBlock.0), Xor(r, xorBlock.1));
    }
  }

  lemma Back(f: (word32, nat) -> word32, j: nat, p: Block, q: Block)
    requires q == Toggle(f, j, p)
    ensures Backward(f, j, q) == Backward(f, j + 1, p)
  {
    hide Toggle;
  }

  // ----- CAST-256 -----

  type Quad = (word32, word32, word32, word32)

  // A forward quad round with eight key words: four rotations, then four masks.
  function Q(s: Boxes, k: seq<word32>, b: Quad): Quad
    requires |k| == 8
  {
    var b2 := Xor(b.2, F1(s, b.3, k[4], k[0]));
    var b1 := Xor(b.1, F2(s, b2, k[5], k[1]));
    var b0 := Xor(b.0, F3(s, b1, k[6], k[2]));
    var b3 := Xor(b.3, F1(s, b0, k[7], k[3]));
    (b0, b1, b2, b3)
  }

  // A reverse quad round.
  function QBar(s: Boxes, k: seq<word32>, b: Quad): Quad
    requires |k| == 8
  {
    var b3 := Xor(b.3, F1(s, b.0, k[7], k[3]));
    var b0 := Xor(b.0, F3(s, b.1, k[6], k[2]));
    var b1 := Xor(b.1, F2(s, b.2, k[5], k[1]));
    var b2 := Xor(b.2, F1(s, b3, k[4], k[0]));
    (b0, b1, b2, b3)
  }

  // The words a quad round makes, each from the one before it and the one four before it.
  ghost predicate QuadWords(s: Boxes, k: seq<word32>, h: seq<word32>, j: nat)
    requires |k| == 8 && j + 7 < |h|
  {
    && h[j + 4] == Xor(h[j], F1(s, h[j + 3], k[4], k[0]))
    && h[j + 5] == Xor(h[j + 1], F2(s, h[j + 4], k[5], k[1]))
    && h[j + 6] == Xor(h[j + 2], F3(s, h[j + 5], k[6], k[2]))
    && h[j + 7] == Xor(h[j + 3], F1(s, h[j + 6], k[7], k[3]))
  }

  lemma QuadRoundsCancel(s: Boxes, k: seq<word32>, b: Quad)
    requires |k| == 8
    ensures QBar(s, k, Q(s, k, b)) == b && Q(s, k, QBar(s, k, b)) == b
  {
    QBarAfterQ(s, k, b);
    QAfterQBar(s, k, b);
  }

  lemma QBarAfterQ(s: Boxes, k: seq<word32>, b: Quad)
    requires |k| == 8
    ensures QBar(s, k, Q(s, k, b)) == b
  {
    hide Xor, F1, F2, F3;
    var c := Q(s, k, b);
    XorTwice(b.3, F1(s, c.0, k[7], k[3]));
    XorTwice(b.0, F3(s, c.1, k[6], k[2]));
    XorTwice(b.1, F2(s, c.2, k[5], k[1]));
    XorTwice(b.2, F1(s, b.3, k[4], k[0]));
  }

  lemma QAfterQBar(s: Boxes, k: seq<word32>, b: Quad)
    requires |k| == 8
    ensures Q(s, k, QBar(s, k, b)) == b
  {
    hide Xor, F1, F2, F3;
    var c := QBar(s, k, b);
    XorTwice(b.2, F1(s, c.3, k[4], k[0]));
    XorTwice(b.1, F2(s, b.2, k[5], k[1]));
    XorTwice(b.0, F3(s, b.1, k[6], k[2]));
    XorTwice(b.3, F1(s, b.0, k[7], k[3]));
  }

  ghost predicate QuadKeys(keys: seq<seq<word32>>) {
    forall i :: 0 <= i < |keys| ==> |keys[i]| == 8
  }

  ghost function ForwardQuads(s: Boxes, keys: seq<seq<word32>>, b: Quad): Quad
    requires QuadKeys(keys)
  {
    if keys == [] then b else Q(s, keys[|keys| - 1], ForwardQuads(s, keys[..|keys| - 1], b))
  }

  ghost function ReverseQuads(s: Boxes, keys: seq<seq<word32>>, b: Quad): Quad
    requires QuadKeys(keys)
  {
    if keys == [] then b else QBar(s, keys[|keys| - 1], ReverseQuads(s, keys[..|keys| - 1], b))
  }

  /** The forward quad rounds are one chain of words, with the block's third, second, first and fourth words before it. */
  lemma {:induction false} ForwardByWords(s: Boxes, keys: seq<seq<word32>>, h: seq<word32>)
    requires QuadKeys(keys) && |h| == 4 * |keys| + 4
    requires forall i :: 0 <= i < |keys| ==> QuadWords(s, keys[i], h, 4 * i)
    ensures ForwardQuads(s, keys, (h[2], h[1], h[0], h[3])) == var e := 4 * |keys|; (h[e + 2], h[e + 1], h[e], h[e + 3])
  {
    hide Xor, F1, F2, F3, QuadWords;
    if keys != [] {
      var init, last := keys[..|keys| - 1], keys[|keys| - 1];
      var e := 4 * |init|;
      forall i | 0 <= i < |init|
        ensures QuadWords(s, init[i], h[..e + 4], 4 * i)
      {
        SameQuadWords(s, keys[i], h, e + 4, 4 * i);
      }
      ForwardByWords(s, init, h[..e + 4]);
      LastQuad(s, last, h, e);
    }
  }

  lemma SameQuadWords(s: Boxes, k: seq<word32>, h: seq<word32>, n: nat, j: nat)
    requires |k| == 8 && j + 7 < n <= |h| && QuadWords(s, k, h, j)
    ensures QuadWords(s, k, h[..n], j)
  {
    hide Xor, F1, F2, F3;
  }

  lemma LastQuad(s: Boxes, k: seq<word32>, h: seq<word32>, e: nat)
    requires |k| == 8 && e + 7 < |h| && QuadWords(s, k, h, e)
    ensures Q(s, k, (h[e + 2], h[e + 1], h[e], h[e + 3])) == (h[e + 6], h[e + 5], h[e + 4], h[e + 7])
  {
    hide Xor, F1, F2, F3;
  }

  // The first of the keys first.
  lemma {:induction false} ReverseFirst(s: Boxes, k: seq<word32>, keys: seq<seq<word32>>, b: Quad)
    requires |k| == 8 && QuadKeys(keys)
    ensures QuadKeys([k] + keys)
    ensures ReverseQuads(s, [k] + keys, b) == ReverseQuads(s, keys, QBar(s, k, b))
    ensures ForwardQuads(s, [k] + keys, b) == ForwardQuads(s, keys, Q(s, k, b))
  {
    hide Q, QBar;
    assert QuadKeys([k]) && [k][..0] == [];
    if keys == [] {
      assert [k] + keys == [k];
    } else {
      var init := keys[..|keys| - 1];
      assert ([k] + keys)[..|keys|] == [k] + init;
      ReverseFirst(s, k, init, b);
    }
  }

  lemma {:induction false} QuadsCancel(s: Boxes, keys: seq<seq<word32>>, b: Quad)
    requires QuadKeys(keys)
    ensures QuadKeys(Reverse(keys))
    ensures ReverseQuads(s, Reverse(keys), ForwardQuads(s, keys, b)) == b
    ensures ForwardQuads(s, Reverse(keys), ReverseQuads(s, keys, b)) == b
  {
    hide Q, QBar;
    if keys != [] {
      var init, last := keys[..|keys| - 1], keys[|keys| - 1];
      QuadsCancel(s, init, b);
      assert Reverse(keys) == [last] + Reverse(init);
      ReverseFirst(s, last, Reverse(init), ForwardQuads(s, keys, b));
      ReverseFirst(s, last, Reverse(init), ReverseQuads(s, keys, b));
      QuadRoundsCancel(s, last, ForwardQuads(s, init, b));
      QuadRoundsCancel(s, last, ReverseQuads(s, init, b));
    }
  }

  ghost function Crypt256(s: Boxes, keys: seq<seq<word32>>, b: Quad): Quad
    requires |keys| == 12 && QuadKeys(keys)
  {
    ReverseQuads(s, keys[6..], ForwardQuads(s, keys[..6], b))
  }

  /** The same rounds with the quad rounds' keys in the opposite order decrypt. */
  lemma ReversedKeysDecrypt256(s: Boxes, keys: seq<seq<word32>>, b: Quad)
    requires |keys| == 12 && QuadKeys(keys)
    ensures QuadKeys(Reverse(keys)) && Crypt256(s, Reverse(keys), Crypt256(s, keys, b)) == b
  {
    hide Q, QBar, ForwardQuads, ReverseQuads;
    assert Reverse(keys)[..6] == Reverse(keys[6..]) && Reverse(keys)[6..] == Reverse(keys[..6]);
    QuadsCancel(s, keys[..6], b);
    QuadsCancel(s, keys[6..], ForwardQuads(s, keys[..6], b));
  }

  // The key words of each quad round.
  ghost function QuadsOf(k: seq<word32>): (keys: seq<seq<word32>>)
    requires |k| == 96
    ensures |keys| == 12 && QuadKeys(keys)
  {
    seq(12, i requires 0 <= i < 12 => k[8 * i..8 * i + 8])
  }

  class Cast256 {
    const s: Boxes
    const k: array<word32>

    constructor (s: Boxes)
      ensures this.s == s && k.Length == 96 && fresh(k)
    {
      this.s := s;
      this.k := new word32[96](i => 0);
    }

    // The end of UncheckedSetKey: to decrypt, the quad rounds' keys change places.
    method ReverseKeys()
      requires k.Length == 96
      modifies k
      ensures QuadsOf(k[..]) == Reverse(QuadsOf(old(k[..])))
    {
      hide Done, Opposite, QuadsOf;
      ghost var was := k[..];
      var j := 0;
      NothingDone();
      while j < 6
        invariant 0 <= j <= 6
        invariant forall m :: 0 <= m < 96 ==> k[m] == was[Moved(m, j, 0)]
      {
        var i := 0;
        while i < 4
          invariant 0 <= i <= 4
          invariant forall m :: 0 <= m < 96 ==> k[m] == was[Moved(m, j, i)]
        {
          SwapWords(8 * j + i, 8 * (11 - j) + i, was, j, i);
          i := i + 1;
        }
        NextQuad(j);
        j := j + 1;
      }
      AllMoved(k[..], was);
    }

    // A rotation with a rotation, a mask with a mask.
    method SwapWords(i1: nat, i2: nat, ghost was: seq<word32>, ghost j: nat, ghost i: nat)
      requires k.Length == |was| == 96 && j < 6 && i < 4 && i1 == 8 * j + i && i2 == 8 * (11 - j) + i
      requires forall m :: 0 <= m < 96 ==> k[m] == was[Moved(m, j, i)]
      modifies k
      ensures forall m :: 0 <= m < 96 ==> k[m] == was[Moved(m, j, i + 1)]
    {
      hide Done, Opposite;
      FourPlaces(j, i);
      k[i1], k[i2] := k[i2], k[i1];
      k[i1 + 4], k[i2 + 4] := k[i2 + 4], k[i1 + 4];
    }

    // A null xorBlock is zeros.
    method ProcessAndXorBlock(inBlock: Quad, xorBlock: Quad) returns (outBlock: Quad)
      requires k.Length == 96
      ensures var c := Crypt256(s, QuadsOf(k[..]), inBlock);
              outBlock == (Xor(c.0, xorBlock.0), Xor(c.1, xorBlock.1), Xor(c.2, xorBlock.2), Xor(c.3, xorBlock.3))
    {
      hide Xor, F1, F2, F3, Q, QBar;
      ghost var keys := QuadsOf(k[..]);
      var block := inBlock;
      var i := 0;
      while i < 6
        invariant 0 <= i <= 6 && block == ForwardQuads(s, keys[..i], inBlock)
      {
        assert keys[..i + 1][..i] == keys[..i] && keys[i] == k[8 * i..8 * i + 8];
        block := Q(s, k[8 * i..8 * i + 8], block);
        i := i + 1;
      }
      ghost var half := block;
      assert keys[6..6] == [];
      while i < 12
        invariant 6 <= i <= 12 && block == ReverseQuads(s, keys[6..i], half)
      {
        assert keys[6..i + 1][..i - 6] == keys[6..i] && keys[i] == k[8 * i..8 * i + 8];
        block := QBar(s, k[8 * i..8 * i + 8], block);
        i := i + 1;
      }
      assert keys[6..12] == keys[6..];
      outBlock := (Xor(block.0, xorBlock.0), Xor(block.1, xorBlock.1),
                   Xor(block.2, xorBlock.2), Xor(block.3, xorBlock.3));
    }
  }

  // Where the word in place m of one quad round's key lies in the opposite one's.
  function Opposite(m: nat): (o: nat)
    requires m < 96
    ensures o < 96
  {
    8 * (11 - m / 8) + m % 8
  }

  // Whether place m has been dealt with before swap i of quad round j.
  predicate Done(m: nat, j: nat, i: nat)
    requires m < 96 && j <= 6
  {
    m / 8 < j || 11 - j < m / 8 || ((m / 8 == j || m / 8 == 11 - j) && m % 4 < i)
  }

  function Moved(m: nat, j: nat, i: nat): (o: nat)
    requires m < 96 && j <= 6
    ensures o < 96
  {
    if Done(m, j, i) then Opposite(m) else m
  }

  lemma NothingDone()
    ensures forall m: nat :: m < 96 ==> Moved(m, 0, 0) == m
  {
  }

  lemma NextQuad(j: nat)
    requires j < 6
    ensures forall m: nat :: m < 96 ==> Moved(m, j, 4) == Moved(m, j + 1, 0)
  {
  }

  lemma Place(q: nat, r: nat)
    requires q < 12 && r < 8
    ensures (8 * q + r) / 8 == q && (8 * q + r) % 8 == r && (8 * q + r) % 4 == r % 4
    ensures Opposite(8 * q + r) == 8 * (11 - q) + r
  {
  }

  // The places that one turn of the loop deals with, and no others.
  lemma FourPlaces(j: nat, i: nat)
    requires j < 6 && i < 4
    ensures var i1, i2 := 8 * j + i, 8 * (11 - j) + i;
            && Opposite(i1) == i2 && Opposite(i2) == i1 && Opposite(i1 + 4) == i2 + 4 && Opposite(i2 + 4) == i1 + 4
            && !Done(i1, j, i) && !Done(i2, j, i) && !Done(i1 + 4, j, i) && !Done(i2 + 4, j, i)
            && forall m: nat :: m < 96 ==>
                 (Done(m, j, i + 1) <==> Done(m, j, i) || m == i1 || m == i2 || m == i1 + 4 || m == i2 + 4)
  {
    hide Opposite;
    Place(j, i);
    Place(11 - j, i);
    Place(j, i + 4);
    Place(11 - j, i + 4);
    forall m: nat | m < 96
      ensures Done(m, j, i + 1) <==> Done(m, j, i) || m == 8 * j + i || m == 8 * (11 - j) + i
                                     || m == 8 * j + i + 4 || m == 8 * (11 - j) + i + 4
    {
      OnePlace(m, j, i);
    }
  }

  lemma OnePlace(m: nat, j: nat, i: nat)
    requires m < 96 && j < 6 && i < 4
    ensures Done(m, j, i + 1) <==> Done(m, j, i) || m == 8 * j + i || m == 8 * (11 - j) + i
                                   || m == 8 * j + i + 4 || m == 8 * (11 - j) + i + 4
  {
    var q, r := m / 8, m % 8;
    assert m == 8 * q + r && m % 4 == r % 4;
    assert r % 4 == i <==> r == i || r == i + 4;
  }

  lemma AllMoved(k: seq<word32>, was: seq<word32>)
    requires |k| == |was| == 96 && forall m :: 0 <= m < 96 ==> k[m] == was[Moved(m, 6, 0)]
    ensures QuadsOf(k) == Reverse(QuadsOf(was))
  {
    forall q | 0 <= q < 12
      ensures QuadsOf(k)[q] == Reverse(QuadsOf(was))[q]
    {
      QuadMoved(k, was, q);
    }
  }

  lemma QuadMoved(k: seq<word32>, was: seq<word32>, q: nat)
    requires |k| == |was| == 96 && q < 12 && forall m :: 0 <= m < 96 ==> k[m] == was[Moved(m, 6, 0)]
    ensures k[8 * q..8 * q + 8] == was[8 * (11 - q)..8 * (11 - q) + 8]
  {
    var x, y := k[8 * q..8 * q + 8], was[8 * (11 - q)..8 * (11 - q) + 8];
    forall r | 0 <= r < 8
      ensures x[r] == y[r]
    {
      Place(q, r);
      assert k[8 * q + r] == was[Moved(8 * q + r, 6, 0)];
    }
  }
}
