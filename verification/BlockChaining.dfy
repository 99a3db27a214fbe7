/** Chaining blocks through a block cipher, as CCM and CMAC do: AdvancedProcessBlocks of cryptlib.cpp with
    BT_XorInput and BT_DontIncrementInOutPointers. */
module BlockChaining {
  import opened Arithmetic
  import opened Bits
  import opened Bytes
  import BinaryPolynomial

  // ProcessBlock: what the cipher under its key makes of a block. Nothing is assumed of it but the length.
  type BlockFunction = seq<byte> -> seq<byte>

  ghost predicate IsBlockFunction(f: BlockFunction, n: nat) {
    n > 0 && forall b: seq<byte> :: |b| == n ==> |f(b)| == n
  }

  function XorByte(a: byte, b: byte): (c: byte) {
    assert Pow2(8) == 256;
    BinaryPolynomial.XorBelow(a, b, 8);
    BinaryPolynomial.Xor(a, b)
  }

  lemma XorByteTwice(a: byte, k: byte)
    ensures XorByte(XorByte(a, k), k) == a
    ensures XorByte(a, 0) == a
  {
    BinaryPolynomial.XorCancel(k, a);
    BinaryPolynomial.XorZero(a);
  }

  function XorBytes(a: seq<byte>, b: seq<byte>): (c: seq<byte>)
    requires |a| == |b|
    ensures |c| == |a|
  {
    seq(|a|, i requires 0 <= i < |a| => XorByte(a[i], b[i]))
  }

  // xorbuf over the first bytes only.
  function XorPrefix(x: seq<byte>, d: seq<byte>): (c: seq<byte>)
    requires |d| <= |x|
    ensures |c| == |x|
  {
    XorBytes(x[..|d|], d) + x[|d|..]
  }

  lemma XorPrefixPads(x: seq<byte>, d: seq<byte>)
    requires |d| <= |x|
    ensures XorPrefix(x, d) == XorBytes(x, d + Zeros(|x| - |d|))
  {
    forall i | 0 <= i < |x|
      ensures XorPrefix(x, d)[i] == XorBytes(x, d + Zeros(|x| - |d|))[i]
    {
      XorByteTwice(x[i], 0);
    }
  }

  lemma XorPrefixAppend(x: seq<byte>, a: seq<byte>, b: seq<byte>)
    requires |a| + |b| <= |x|
    ensures XorPrefix(x, a + b) == XorPrefix(x, a)[..|a|] + XorPrefix(XorPrefix(x, a)[|a|..], b)
  {
  }

  // The chaining value after the whole blocks of the data.
  function Chain(f: BlockFunction, n: nat, x: seq<byte>, data: seq<byte>): (y: seq<byte>)
    requires IsBlockFunction(f, n) && |x| == n
    ensures |y| == n
    decreases |data|
  {
    if |data| < n then x else Chain(f, n, f(XorBytes(x, data[..n])), data[n..])
  }

  lemma {:induction false} ChainAppend(f: BlockFunction, n: nat, x: seq<byte>, a: seq<byte>, b: seq<byte>)
    requires IsBlockFunction(f, n) && |x| == n && |a| % n == 0
    ensures Chain(f, n, x, a + b) == Chain(f, n, Chain(f, n, x, a), b)
    decreases |a|
  {
    if |a| < n {
      DivUnique(|a|, n, 0, |a|);
      assert a + b == b;
    } else {
      SubtractModulus(|a|, n);
      assert (a + b)[..n] == a[..n] && (a + b)[n..] == a[n..] + b;
      ChainAppend(f, n, f(XorBytes(x, a[..n])), a[n..], b);
    }
  }

  lemma ChainNone(f: BlockFunction, n: nat, x: seq<byte>)
    requires IsBlockFunction(f, n) && |x| == n
    ensures Chain(f, n, x, []) == x
  {
  }

  lemma ChainOne(f: BlockFunction, n: nat, x: seq<byte>, block: seq<byte>)
    requires IsBlockFunction(f, n) && |x| == n && |block| == n
    ensures Chain(f, n, x, block) == f(XorBytes(x, block))
  {
    assert block[..n] == block;
  }

  // c[i + 1] is the cipher's value at c[i] mixed with block i.
  ghost predicate ChainedBlocks(f: BlockFunction, n: nat, c: seq<seq<byte>>, blocks: seq<seq<byte>>) {
    && |c| == |blocks| + 1
    && (forall i :: 0 <= i < |blocks| ==> |blocks[i]| == n)
    && (forall i :: 0 <= i < |c| ==> |c[i]| == n)
    && (forall i :: 0 <= i < |blocks| ==> c[i + 1] == f(XorBytes(c[i], blocks[i])))
  }

  // The chaining value block by block.
  lemma {:induction false} ChainByBlocks(f: BlockFunction, n: nat, c: seq<seq<byte>>, blocks: seq<seq<byte>>)
    requires IsBlockFunction(f, n) && ChainedBlocks(f, n, c, blocks)
    ensures |Flatten(blocks)| % n == 0 && Chain(f, n, c[0], Flatten(blocks)) == c[|blocks|]
  {
    hide Chain, XorBytes;
    var m := |blocks| - 1;
    if blocks == [] {
      ChainNone(f, n, c[0]);
    } else {
      ChainByBlocks(f, n, c[..m + 1], blocks[..m]);
      ChainNext(f, n, c[0], Flatten(blocks[..m]), blocks[m]);
      assert c[m + 1] == f(XorBytes(c[m], blocks[m]));
    }
  }

  lemma ChainNext(f: BlockFunction, n: nat, x: seq<byte>, front: seq<byte>, block: seq<byte>)
    requires IsBlockFunction(f, n) && |x| == n && |front| % n == 0 && |block| == n
    ensures |front + block| % n == 0
    ensures Chain(f, n, x, front + block) == f(XorBytes(Chain(f, n, x, front), block))
  {
    hide Chain;
    ChainAppend(f, n, x, front, block);
    ChainOne(f, n, Chain(f, n, x, front), block);
    SubtractModulus(|front| + n, n);
  }

  // Zero padding to a whole number of blocks, of none if the data are whole blocks.
  function PadZeros(data: seq<byte>, n: nat): (p: seq<byte>)
    requires n > 0
  {
    data + Zeros((0 - |data|) % n)
  }

  lemma PadZerosLength(data: seq<byte>, n: nat)
    requires n > 0
    ensures (|data| % n == 0 ==> PadZeros(data, n) == data)
    ensures |data| % n != 0 ==> PadZeros(data, n) == data + Zeros(n - |data| % n)
    ensures |PadZeros(data, n)| % n == 0
  {
    var k, r := |data| / n, |data| % n;
    DivMod(|data|, n);
    if r == 0 {
      DivUnique(0 - |data|, n, 0 - k, 0);
    } else {
      DivUnique(0 - |data|, n, 0 - k - 1, n - r);
      DivUnique(|data| + (n - r), n, k + 1, 0);
    }
  }

  /** The loop of AdvancedProcessBlocks: the chaining value is read and written in place, the input moves on; the
      length of what did not fill a block comes back. */
  method AdvancedProcessBlocks(f: BlockFunction, n: nat, x: seq<byte>, data: seq<byte>)
    returns (y: seq<byte>, length: nat)
    requires IsBlockFunction(f, n) && |x| == n
    ensures length == |data| % n && length <= |data|
    ensures y == Chain(f, n, x, data[..|data| - length])
  {
    y, length := x, |data|;
    var done := 0;
    DivUnique(0, n, 0, 0);
    assert data[..0] == [];
    while length >= n
      invariant done + length == |data| && done % n == 0 && |y| == n
      invariant length % n == |data| % n
      invariant y == Chain(f, n, x, data[..done])
    {
      var block := data[done..done + n];
      ChainAppend(f, n, x, data[..done], block);
      ChainOne(f, n, y, block);
      assert data[..done] + block == data[..done + n];
      SubtractModulus(length, n);
      SubtractModulus(done + n, n);
      y := f(XorBytes(y, block));
      done := done + n;
      length := length - n;
    }
    DivUnique(length, n, 0, length);
  }

  // ----- Data that arrive in pieces and are chained block by block -----

  // The data so far: whole blocks in the chaining value, the rest of them waiting.
  ghost predicate Absorbed(f: BlockFunction, n: nat, x: seq<byte>, data: seq<byte>, y: seq<byte>, waiting: seq<byte>)
    requires IsBlockFunction(f, n) && |x| == n
  {
    && |waiting| < n && |waiting| <= |data|
    && (|data| - |waiting|) % n == 0
    && waiting == data[|data| - |waiting|..]
    && y == Chain(f, n, x, data[..|data| - |waiting|])
  }

  lemma AbsorbBlocks(
    f: BlockFunction, n: nat, x: seq<byte>, data: seq<byte>, y: seq<byte>, waiting: seq<byte>, more: seq<byte>,
    whole: seq<byte>, rest: seq<byte>)
    requires IsBlockFunction(f, n) && |x| == n && Absorbed(f, n, x, data, y, waiting)
    requires waiting + more == whole + rest && |whole| % n == 0 && |rest| < n
    ensures Absorbed(f, n, x, data + more, Chain(f, n, y, whole), rest)
  {
    hide Chain, IsBlockFunction;
    var k := |data| - |waiting|;
    Resplit(data, k, more, whole, rest);
    SumOfMultiples(k, |whole|, n);
    ChainAppend(f, n, x, data[..k], whole);
  }

  lemma Resplit(data: seq<byte>, k: nat, more: seq<byte>, whole: seq<byte>, rest: seq<byte>)
    requires k <= |data| && data[k..] + more == whole + rest
    ensures |data + more| - |rest| == k + |whole|
    ensures (data + more)[..k + |whole|] == data[..k] + whole
    ensures (data + more)[k + |whole|..] == rest
  {
    assert data + more == data[..k] + (data[k..] + more);
    assert data[..k] + (whole + rest) == (data[..k] + whole) + rest;
  }

  // What is waiting, padded with zeros, completes the data's last block.
  lemma AbsorbPadding(f: BlockFunction, n: nat, x: seq<byte>, data: seq<byte>, y: seq<byte>, waiting: seq<byte>)
    requires IsBlockFunction(f, n) && |x| == n && Absorbed(f, n, x, data, y, waiting)
    ensures Absorbed(f, n, x, PadZeros(data, n), if waiting == [] then y else f(XorPrefix(y, waiting)), [])
  {
    var k := |data| - |waiting|;
    DivMod(k, n);
    DivUnique(|data|, n, k / n, |waiting|);
    PadZerosLength(data, n);
    if waiting == [] {
      assert data[..|data|] == data;
    } else {
      var block := waiting + Zeros(n - |waiting|);
      assert data + Zeros(n - |waiting|) == data[..k] + block;
      ChainAppend(f, n, x, data[..k], block);
      ChainOne(f, n, y, block);
      XorPrefixPads(y, waiting);
      var p := PadZeros(data, n);
      assert p[..|p|] == p;
    }
  }
}
