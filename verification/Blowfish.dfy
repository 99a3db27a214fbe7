/** Blowfish's rounds in blowfish.cpp: the reversed P-array decrypts, whatever the arrays hold. */
module Blowfish {
  import opened FeistelRounds

  const ROUNDS := 16

  // Box i is the i-th quarter of sbox.
  function Mixed(boxes: Boxes, x: word32): word32 {
    Plus(Xor(Plus(boxes(0, GetByte(x, 3)), boxes(1, GetByte(x, 2))), boxes(2, GetByte(x, 1))), boxes(3, GetByte(x, 0)))
  }

  // The first quarter's entry is of the highest byte.
  lemma MixedByBytes(boxes: Boxes, x: word32, a: word32, b: word32, c: word32, d: word32)
    requires FourBytes(x, a, b, c, d)
    ensures Mixed(boxes, x) == Plus(Xor(Plus(boxes(0, a), boxes(1, b)), boxes(2, c)), boxes(3, d))
  {
    hide GetByte, FourBytes, Xor, Plus;
    BytesOfWord(x, a, b, c, d);
  }

  // As a round: the first and the last change a half by a word of the P-array alone.
  function Round(boxes: Boxes, p: seq<word32>): (word32, nat) -> word32 {
    (x: word32, j: nat) =>
      if j >= |p| then 0 else if j == 0 || j == ROUNDS + 1 then p[j] else Xor(Mixed(boxes, x), p[j])
  }

  function Crypt(boxes: Boxes, p: seq<word32>, b: Block): Block {
    Swap(Rounds(Round(boxes, p), ROUNDS + 2, b))
  }

  /** Sixteen new halves, each from the two before it and one word of the P-array; its first word goes on the left half
      before them and its last on the right one after them. */
  lemma CryptByHalves(boxes: Boxes, p: seq<word32>, b: Block, h: seq<word32>)
    requires |p| == 18 && |h| == 18 && h[0] == b.1 && h[1] == Xor(b.0, p[0])
    requires forall i :: 0 <= i < 16 ==> h[i + 2] == Xor(h[i], Xor(Mixed(boxes, h[i + 1]), p[i + 1]))
    ensures Crypt(boxes, p, b) == (Xor(h[16], p[17]), h[17])
  {
    hide Xor, Rounds, Mixed;
    var f := Round(boxes, p);
    var g := [b.0] + h + [Xor(h[16], p[17])];
    forall j | 0 <= j < 18
      ensures g[j + 2] == Xor(g[j], f(g[j + 1], j))
    {
      if 0 < j < 17 {
        assert g[j + 2] == h[j - 1 + 2];
      }
    }
    RoundsByHalves(f, 18, g);
  }

  /** Whatever the S-boxes and the P-array, the reversed P-array decrypts. */
  lemma ReversedArrayDecrypts(boxes: Boxes, p: seq<word32>, b: Block)
    requires |p| == ROUNDS + 2
    ensures Crypt(boxes, Reverse(p), Crypt(boxes, p, b)) == b
  {
    hide Rounds, Mixed, Xor;
    var f, g, n := Round(boxes, p), Round(boxes, Reverse(p)), ROUNDS + 2;
    forall x: word32, j: nat
      ensures SameKey(f, g, n, x, j)
    {
      SameWord(boxes, p, x, j);
    }
    ReversedKeysDecrypt(f, g, ROUNDS + 2, b);
  }

  lemma SameWord(boxes: Boxes, p: seq<word32>, x: word32, j: nat)
    requires |p| == ROUNDS + 2
    ensures SameKey(Round(boxes, p), Round(boxes, Reverse(p)), ROUNDS + 2, x, j)
  {
  }

  class Base {
    const boxes: Boxes
    const pbox: array<word32>

    constructor (boxes: Boxes)
      ensures this.boxes == boxes && pbox.Length == ROUNDS + 2 && fresh(pbox)
    {
      this.boxes := boxes;
      this.pbox := new word32[ROUNDS + 2](i => 0);
    }

    // The arrays are what the user's key makes; how they are made is not part of this model.
    method SetKey(forward: bool, schedule: seq<word32>)
      requires pbox.Length == |schedule| == ROUNDS + 2
      modifies pbox
      ensures pbox[..] == if forward then schedule else Reverse(schedule)
    {
      forall i | 0 <= i < |schedule| {
        pbox[i] := schedule[i];
      }
      assert pbox[..] == schedule;
      if !forward {
        var i := 0;
        while i < (ROUNDS + 2) / 2
          invariant 0 <= i <= (ROUNDS + 2) / 2
          invariant forall j :: 0 <= j < i ==> pbox[j] == schedule[ROUNDS + 1 - j]
          invariant forall j :: ROUNDS + 1 - i < j < ROUNDS + 2 ==> pbox[j] == schedule[ROUNDS + 1 - j]
          invariant forall j :: i <= j <= ROUNDS + 1 - i ==> pbox[j] == schedule[j]
        {
          pbox[i], pbox[ROUNDS + 1 - i] := pbox[ROUNDS + 1 - i], pbox[i];
          i := i + 1;
        }
      }
    }

    // A null xorBlock is a block of zeros.
    method ProcessAndXorBlock(inBlock: Block, xorBlock: Block) returns (outBlock: Block)
      requires pbox.Length == ROUNDS + 2
      ensures outBlock == (Xor(Crypt(boxes, pbox[..], inBlock).0, xorBlock.0),
                           Xor(Crypt(boxes, pbox[..], inBlock).1, xorBlock.1))
    {
      hide Xor, Mixed, Rounds;
      ghost var f := Round(boxes, pbox[..]);
      var left, right := inBlock.0, inBlock.1;
      left := Xor(left, pbox[0]);
      FirstRound(f, inBlock);
      var i := 0;
      while i < ROUNDS / 2
        invariant 0 <= i <= ROUNDS / 2 && (left, right) == Rounds(f, 2 * i + 1, inBlock)
      {
        ghost var p := (left, right);
        right := Xor(right, Xor(Mixed(boxes, left), pbox[2 * i + 1]));
        ghost var q := (left, right);
        left := Xor(left, Xor(Mixed(boxes, right), pbox[2 * i + 2]));
        NextRound(f, 2 * i + 1, inBlock, p, q);
        NextRound(f, 2 * i + 2, inBlock, q, (left, right));
        i := i + 1;
      }
      NextRound(f, ROUNDS + 1, inBlock, (left, right), (left, Xor(right, pbox[ROUNDS + 1])));
      right := Xor(right, pbox[ROUNDS + 1]);
      outBlock := (Xor(right, xorBlock.0), Xor(left, xorBlock.1));
    }
  }

  lemma FirstRound(f: (word32, nat) -> word32, b: Block)
    ensures Rounds(f, 1, b) == Toggle(f, 0, b)
  {
    assert Rounds(f, 0, b) == b;
  }

  lemma NextRound(f: (word32, nat) -> word32, j: nat, b: Block, p: Block, q: Block)
    requires p == Rounds(f, j, b) && q == Toggle(f, j, p)
    ensures q == Rounds(f, j + 1, b)
  {
    hide Toggle;
  }
}
