/** Rounds that change one half of a block by a function of the other, left and right in turn, and their undoing. */
module FeistelRounds {
  type word32 = bv32
  type Block = (word32, word32)

  // An S-box's entry, by the number of the box and the index in it. Nothing is assumed of the tables.
  type Boxes = (nat, word32) -> word32

  function Xor(a: word32, b: word32): word32 {
    a ^ b
  }

  // Addition and subtraction modulo 2^32.
  function Plus(a: word32, b: word32): word32 {
    a + b
  }

  function Minus(a: word32, b: word32): word32 {
    a - b
  }

  // GETBYTE
  function GetByte(x: word32, y: nat): word32
    requires y < 4
  {
    match y
    case 0 => x & 0xff
    case 1 => (x >> 8) & 0xff
    case 2 => (x >> 16) & 0xff
    case _ => (x >> 24) & 0xff
  }

  // The word that the bytes a, b, c and d make, the first of them highest.
  predicate FourBytes(x: word32, a: word32, b: word32, c: word32, d: word32) {
    a < 256 && b < 256 && c < 256 && d < 256 && x == 0x1000000 * a + 0x10000 * b + 0x100 * c + d
  }

  lemma BytesOfWord(x: word32, a: word32, b: word32, c: word32, d: word32)
    requires FourBytes(x, a, b, c, d)
    ensures GetByte(x, 3) == a && GetByte(x, 2) == b && GetByte(x, 1) == c && GetByte(x, 0) == d
  {
  }

  // Bit i, counted from the low end and around it.
  function BitOf(x: word32, i: word32): word32 {
    (x >> (i & 31)) & 1
  }

  function Reverse<T>(s: seq<T>): (r: seq<T>)
    ensures |r| == |s|
  {
    seq(|s|, i requires 0 <= i < |s| => s[|s| - 1 - i])
  }

  // One round: the even ones change the left half, the odd ones the right.
  function Toggle(f: (word32, nat) -> word32, j: nat, p: Block): Block {
    if j % 2 == 0 then (Xor(p.0, f(p.1, j)), p.1) else (p.0, Xor(p.1, f(p.0, j)))
  }

  // Rounds 0, 1, ..., n - 1.
  function Rounds(f: (word32, nat) -> word32, n: nat, p: Block): Block {
    if n == 0 then p else Toggle(f, n - 1, Rounds(f, n - 1, p))
  }

  // Rounds n - 1, ..., 1, 0.
  function Backward(f: (word32, nat) -> word32, n: nat, p: Block): Block {
    if n == 0 then p else Backward(f, n - 1, Toggle(f, n - 1, p))
  }

  /** Where each of the words h follows from the two before it, the first two are turned into the last two. */
  lemma {:induction false} RoundsByHalves(f: (word32, nat) -> word32, n: nat, h: seq<word32>)
    requires |h| >= n + 2
    requires forall j :: 0 <= j < n ==> h[j + 2] == Xor(h[j], f(h[j + 1], j))
    ensures Rounds(f, n, (h[0], h[1])) == if n % 2 == 0 then (h[n], h[n + 1]) else (h[n + 1], h[n])
  {
    hide Xor;
    if n > 0 {
      RoundsByHalves(f, n - 1, h);
      assert h[n - 1 + 2] == Xor(h[n - 1], f(h[n - 1 + 1], n - 1));
    }
  }

  lemma XorTwice(a: word32, b: word32)
    ensures Xor(Xor(a, b), b) == a
  {
  }

  lemma ToggleTwice(f: (word32, nat) -> word32, j: nat, p: Block)
    ensures Toggle(f, j, Toggle(f, j, p)) == p
  {
    hide Xor;
    XorTwice(p.0, f(p.1, j));
    XorTwice(p.1, f(p.0, j));
  }

  // Whatever the round function, the same rounds in the opposite order undo it.
  lemma {:induction false} BackwardUndoes(f: (word32, nat) -> word32, n: nat, p: Block)
    ensures Backward(f, n, Rounds(f, n, p)) == p
  {
    if n > 0 {
      ToggleTwice(f, n - 1, Rounds(f, n - 1, p));
      BackwardUndoes(f, n - 1, p);
    }
  }

  function Swap(p: Block): Block {
    (p.1, p.0)
  }

  // g is f with the n rounds' keys in the opposite order.
  ghost predicate Reversed(f: (word32, nat) -> word32, g: (word32, nat) -> word32, n: nat) {
    forall x, j :: SameKey(f, g, n, x, j)
  }

  ghost predicate SameKey(f: (word32, nat) -> word32, g: (word32, nat) -> word32, n: nat, x: word32, j: nat) {
    j < n ==> g(x, j) == f(x, n - 1 - j)
  }

  // A round on exchanged halves is one of the other parity.
  lemma ToggleSwapped(f: (word32, nat) -> word32, g: (word32, nat) -> word32, i: nat, j: nat, q: Block)
    requires i % 2 != j % 2 && g(q.0, j) == f(q.0, i) && g(q.1, j) == f(q.1, i)
    ensures Swap(Toggle(g, j, q)) == Toggle(f, i, Swap(q))
  {
    hide Xor;
  }

  // An even number of rounds with the keys reversed, on exchanged halves, are the rounds backward.
  lemma {:induction false} ReversedSteps(
    f: (word32, nat) -> word32, g: (word32, nat) -> word32, n: nat, k: nat, p: Block)
    requires n % 2 == 0 && k <= n && Reversed(f, g, n)
    ensures Backward(f, n - k, Swap(Rounds(g, k, Swap(p)))) == Backward(f, n, p)
  {
    hide Toggle;
    if k > 0 {
      var q := Rounds(g, k - 1, Swap(p));
      ReversedSteps(f, g, n, k - 1, p);
      assert n - 1 - (k - 1) == n - k;
      assert SameKey(f, g, n, q.0, k - 1) && SameKey(f, g, n, q.1, k - 1);
      ToggleSwapped(f, g, n - k, k - 1, q);
      assert Backward(f, n - k + 1, Swap(q)) == Backward(f, n - k, Toggle(f, n - k, Swap(q)));
    }
  }

  /** A cipher of an even number of such rounds that exchanges the halves at the end decrypts with its keys reversed,
      whatever the round function. */
  lemma ReversedKeysDecrypt(f: (word32, nat) -> word32, g: (word32, nat) -> word32, n: nat, p: Block)
    requires n % 2 == 0 && Reversed(f, g, n)
    ensures Swap(Rounds(g, n, Swap(Rounds(f, n, p)))) == p
  {
    ReversedSteps(f, g, n, n, Rounds(f, n, p));
    BackwardUndoes(f, n, p);
  }
}
