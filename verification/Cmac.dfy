/** CMAC of cmac.cpp against sections 6.1 and 6.2 of NIST SP 800-38B, with the polynomials that the code has. */
module Cmac {
  import opened Arithmetic
  import opened Bits
  import opened Bytes
  import opened Words
  import opened BlockChaining
  import BinaryPolynomial

  // ----- Doubling -----

  // The block sizes in bytes for which the code knows a polynomial. The standard has the first two.
  predicate HasModulus(n: nat) {
    n == 8 || n == 16 || n == 32
  }

  // The polynomial less its leading term, in two bytes: x^64 + x^4 + x^3 + x + 1, x^128 + x^7 + x^2 + x + 1 and
  // x^256 + x^10 + x^5 + x + 1.
  function ReductionHigh(n: nat): (r: byte) {
    if n == 32 then 0x04 else 0
  }

  function ReductionLow(n: nat): (r: byte) {
    if n == 8 then 0x1b else if n == 16 then 0x87 else 0x23
  }

  function Reduction(n: nat): nat {
    256 * ReductionHigh(n) + ReductionLow(n)
  }

  ghost function Modulus(n: nat): nat {
    Pow2(8 * n) + Reduction(n)
  }

  // The terms of the three polynomials.
  lemma ModulusTerms()
    ensures Modulus(8) == Pow2(64) + Pow2(4) + Pow2(3) + Pow2(1) + Pow2(0)
    ensures Modulus(16) == Pow2(128) + Pow2(7) + Pow2(2) + Pow2(1) + Pow2(0)
    ensures Modulus(32) == Pow2(256) + Pow2(10) + Pow2(5) + Pow2(1) + Pow2(0)
  {
    hide Pow2;
    FirstPowers();
    Pow2Sum(5, 5);
    Pow2Sum(5, 2);
  }

  lemma FirstPowers()
    ensures Pow2(0) == 1 && Pow2(1) == 2 && Pow2(2) == 4 && Pow2(3) == 8 && Pow2(4) == 16 && Pow2(5) == 32
  {
    assert Pow2(1) == 2;
    assert Pow2(2) == 4;
    assert Pow2(3) == 8;
    assert Pow2(4) == 16;
  }

  // The product by x of a polynomial given by its bytes.
  ghost predicate IsDouble(n: nat, s: seq<byte>, d: seq<byte>) {
    && |s| == |d| == n
    && BinaryPolynomial.Congruent(Modulus(n), BinaryPolynomial.Times(2, Value(s)), Value(d))
  }

  lemma {:induction false} Pow256IsPow2(n: nat)
    ensures Pow256(n) == Pow2(8 * n)
  {
    if n > 0 {
      Pow256IsPow2(n - 1);
      Pow2Sum(8, 8 * n - 8);
      assert Pow2(8) == 256;
    }
  }

  // No two byte strings are the double of one: the product is reduced below the modulus' degree.
  lemma DoubleIsUnique(n: nat, s: seq<byte>, d: seq<byte>, d': seq<byte>)
    requires HasModulus(n)
    requires IsDouble(n, s, d) && IsDouble(n, s, d')
    ensures d == d'
  {
    hide Value, BinaryPolynomial.Congruent, BinaryPolynomial.Times, Pow2;
    var m, p := Modulus(n), BinaryPolynomial.Times(2, Value(s));
    BigEndianOfValue(d);
    BigEndianOfValue(d');
    Pow256IsPow2(n);
    Pow2Monotone(16, 8 * n);
    SmallPowers(n);
    BinaryPolynomial.CongruentSymmetric(m, p, Value(d));
    BinaryPolynomial.CongruentTransitive(m, Value(d), p, Value(d'));
    BinaryPolynomial.CongruentUnique(m, 8 * n, Value(d), Value(d'));
  }

  lemma SmallPowers(n: nat)
    ensures Pow2(16) == 0x10000 && Pow2(8 * n + 1) == 2 * Pow2(8 * n)
  {
    assert Pow2(8) == 256;
    Pow2Sum(8, 8);
  }

  lemma {:induction false} ShiftBytesSum(a: nat, b: nat, n: nat)
    ensures ShiftBytes(a + b, n) == ShiftBytes(a, n) + ShiftBytes(b, n)
  {
    if n > 0 { ShiftBytesSum(a, b, n - 1); }
  }

  lemma {:induction false} ShiftBytesOnce(a: nat, n: nat)
    ensures ShiftBytes(a, n + 1) == ShiftBytes(256 * a, n)
  {
    if n > 0 { ShiftBytesOnce(a, n - 1); }
  }

  lemma {:induction false} ValueOfFront(a: byte, t: seq<byte>)
    ensures Value([a] + t) == ShiftBytes(a, |t|) + Value(t)
  {
    if t == [] {
      assert ([a] + t)[..0] == [];
    } else {
      var t' := t[..|t| - 1];
      ValueOfFront(a, t');
      assert ([a] + t)[..|t|] == [a] + t';
    }
  }

  // One byte doubled, with the carry of the bytes after it.
  lemma DoubleByte(a: byte, carry: nat, t: seq<byte>, done: seq<byte>, a': byte, carry': nat)
    requires carry <= 1 && |done| == |t| && Value(done) + ShiftBytes(carry, |t|) == 2 * Value(t)
    requires carry' == a / 128 && a' == (a + (a + carry)) % 256
    ensures carry' <= 1
    ensures Value([a'] + done) + ShiftBytes(carry', |t| + 1) == 2 * Value([a] + t)
  {
    hide Value, ShiftBytes;
    var k := |t|;
    assert 2 * a + carry == a' + 256 * carry';
    ValueOfFront(a, t);
    ValueOfFront(a', done);
    ShiftBytesOnce(carry', k);
    ShiftBytesSum(a', 256 * carry', k);
    ShiftBytesSum(2 * a, carry, k);
    ShiftBytesSum(a, a, k);
  }

  // Exclusive or works on high and low bits apart.
  lemma {:induction false} XorParts(h: nat, b: nat, g: nat, r: nat, n: nat)
    requires b < Pow2(n) && r < Pow2(n)
    ensures BinaryPolynomial.Xor(ShiftLeft(h, n) + b, ShiftLeft(g, n) + r)
         == ShiftLeft(BinaryPolynomial.Xor(h, g), n) + BinaryPolynomial.Xor(b, r)
  {
    hide BinaryPolynomial.Xor;
    if n == 0 {
      BinaryPolynomial.XorZero(0);
    } else {
      XorParts(h, b / 2, g, r / 2, n - 1);
      var p, q, t := ShiftLeft(h, n - 1), ShiftLeft(g, n - 1), ShiftLeft(BinaryPolynomial.Xor(h, g), n - 1);
      hide ShiftLeft, Pow2;
      XorLowestBit(p, b, q, r, t);
    }
  }

  lemma XorLowestBit(p: nat, b: nat, q: nat, r: nat, t: nat)
    requires BinaryPolynomial.Xor(p + b / 2, q + r / 2) == t + BinaryPolynomial.Xor(b / 2, r / 2)
    ensures BinaryPolynomial.Xor(2 * p + b, 2 * q + r) == 2 * t + BinaryPolynomial.Xor(b, r)
  {
    hide BinaryPolynomial.Xor;
    BinaryPolynomial.XorStep(2 * p + b, 2 * q + r);
    BinaryPolynomial.XorStep(b, r);
    assert (2 * p + b) / 2 == p + b / 2 && (2 * q + r) / 2 == q + r / 2;
    assert (2 * p + b + (2 * q + r)) % 2 == (b + r) % 2 by { assert 2 * p + b + (2 * q + r) == 2 * (p + q) + (b + r); }
  }

  lemma XorLastByte(s: seq<byte>, r: byte)
    requires s != []
    ensures Value(s[|s| - 1 := XorByte(s[|s| - 1], r)]) == BinaryPolynomial.Xor(Value(s), r)
  {
    hide BinaryPolynomial.Xor;
    var k, h := |s| - 1, Value(s[..|s| - 1]);
    var x := s[k := XorByte(s[k], r)];
    assert x[..k] == s[..k];
    BinaryPolynomial.XorZero(h);
    XorOfBytes(h, s[k], 0, r);
  }

  lemma XorOfBytes(h: nat, b: byte, g: nat, r: byte)
    ensures BinaryPolynomial.Xor(256 * h + b, 256 * g + r) == 256 * BinaryPolynomial.Xor(h, g) + BinaryPolynomial.Xor(b, r)
  {
    hide BinaryPolynomial.Xor;
    assert Pow2(8) == 256;
    hide Pow2, ShiftLeft;
    ShiftLeftIsProduct(h, 8);
    ShiftLeftIsProduct(g, 8);
    ShiftLeftIsProduct(BinaryPolynomial.Xor(h, g), 8);
    XorParts(h, b, g, r, 8);
  }

  lemma XorLastBytes(s: seq<byte>, high: byte, low: byte)
    requires |s| >= 2
    ensures var k := |s| - 1;
            Value(s[k - 1 := XorByte(s[k - 1], high)][k := XorByte(s[k], low)])
              == BinaryPolynomial.Xor(Value(s), 256 * high + low)
  {
    hide BinaryPolynomial.Xor;
    var k := |s| - 1;
    var x := s[k - 1 := XorByte(s[k - 1], high)][k := XorByte(s[k], low)];
    assert x[..k] == s[..k][k - 1 := XorByte(s[k - 1], high)];
    XorLastByte(s[..k], high);
    XorOfBytes(Value(s[..k]), s[k], high, low);
  }

  // What the shift leaves out is a multiple of the modulus.
  lemma Reduced(n: nat, v: nat, w: nat, carry: nat)
    requires HasModulus(n) && carry <= 1 && w < Pow2(8 * n) && 2 * v == w + (if carry == 1 then Pow2(8 * n) else 0)
    ensures BinaryPolynomial.Congruent(Modulus(n), BinaryPolynomial.Times(2, v),
              if carry == 1 then BinaryPolynomial.Xor(w, Reduction(n)) else w)
  {
    hide BinaryPolynomial.Xor, BinaryPolynomial.Congruent, Pow2;
    var p, r := Pow2(8 * n), Reduction(n);
    BinaryPolynomial.TimesDoubleLeft(1, v);
    BinaryPolynomial.TimesOne(v);
    if carry == 0 {
      BinaryPolynomial.CongruentSelf(Modulus(n), 2 * v);
    } else {
      Pow2Monotone(16, 8 * n);
      SmallPowers(n);
      BinaryPolynomial.XorTopBit(8 * n, w);
      BinaryPolynomial.XorTopBit(8 * n, r);
      BinaryPolynomial.XorFour(p, w, p, r);
      BinaryPolynomial.XorSelf(p);
      BinaryPolynomial.XorZero(BinaryPolynomial.Xor(w, r));
      BinaryPolynomial.CongruentModulus(Modulus(n), 2 * v);
    }
  }

  lemma {:induction false} ShiftOne(n: nat)
    ensures ShiftBytes(1, n) == Pow256(n) && ShiftBytes(0, n) == 0
  {
    if n > 0 { ShiftOne(n - 1); }
  }

  // The bytes of k in [from, end) are twice those of s from the same place on, but for the carry.
  ghost predicate Doubled(k: seq<byte>, was: seq<byte>, from: nat, end: nat, carry: nat) {
    && from <= end <= |k| == |was| && carry <= 1
    && k[..from] == was[..from] && k[end..] == was[end..]
    && Value(k[from..end]) + ShiftBytes(carry, end - from) == 2 * Value(was[from..end])
  }

  /** The bytes of k from offset on, doubled in place; false for the exception, where there is a carry and no polynomial
      to reduce it by. An odd number of bytes leaves the first one as it is. */
  method MulU(k: array<byte>, offset: nat, length: nat) returns (ok: bool)
    requires offset + length <= k.Length
    modifies k
    ensures k[..offset] == old(k[..offset]) && k[offset + length..] == old(k[offset + length..])
    ensures ok <==> HasModulus(length) || length < 2 || old(k[offset + length % 2]) < 128
    ensures HasModulus(length) ==> IsDouble(length, old(k[offset..offset + length]), k[offset..offset + length])
    ensures ok && !HasModulus(length) ==>
              Value(k[offset + length % 2..offset + length]) == 2 * Value(old(k[offset + length % 2..offset + length]))
    ensures !HasModulus(length) ==> k[..offset + length % 2] == old(k[..offset + length % 2])
  {
    hide Doubled, IsDouble, Value;
    ghost var was := k[..];
    ghost var end := offset + length;
    var carry: nat := 0;
    var i := length;
    NothingDoubled(was, end);
    while i >= 2
      invariant 0 <= i <= length && i % 2 == length % 2
      invariant Doubled(k[..], was, offset + i, end, carry)
      decreases i
    {
      var carry2 := DoubleInPlace(k, offset + i - 1, carry, was, end);
      carry := DoubleInPlace(k, offset + i - 2, carry2, was, end);
      i := i - 2;
    }
    var from := offset + i;
    TopBitCarries(k[..], was, from, end, carry);
    assert was[from..end] == old(k[from..end]) && k[..][from..end] == k[from..end];
    assert k[..][..from] == k[..from] && was[..from] == old(k[..from]);
    assert k[..][end..] == k[end..] && was[end..] == old(k[end..]);
    assert k[..from][..offset] == k[..offset] && old(k[..from])[..offset] == old(k[..offset]);
    assert was[..offset] == old(k[..offset]);
    ok := true;
    if carry != 0 {
      if HasModulus(length) {
        Reduce(k, offset, length, was);
      } else {
        ok := false;
      }
    } else if HasModulus(length) {
      NoReduction(k[..], was, offset, length);
    }
  }

  // What the bytes hold, and that the carry is the first one's highest bit.
  lemma TopBitCarries(k: seq<byte>, was: seq<byte>, from: nat, end: nat, carry: nat)
    requires Doubled(k, was, from, end, carry)
    ensures carry == if from < end && was[from] >= 128 then 1 else 0
    ensures k[..from] == was[..from] && k[end..] == was[end..]
    ensures carry == 0 ==> Value(k[from..end]) == 2 * Value(was[from..end])
  {
    hide Value, ShiftBytes, Pow256;
    var s, d, n := was[from..end], k[from..end], end - from;
    BigEndianOfValue(s);
    BigEndianOfValue(d);
    ShiftOne(n);
    if n > 0 {
      ValueOfFront(s[0], s[1..]);
      assert s == [s[0]] + s[1..];
      BigEndianOfValue(s[1..]);
      HalfOfRange(s[0], Value(s[1..]), n - 1);
    }
  }

  lemma HalfOfRange(a: byte, rest: nat, n: nat)
    requires rest < Pow256(n)
    ensures a >= 128 ==> 2 * (ShiftBytes(a, n) + rest) >= Pow256(n + 1)
    ensures a < 128 ==> 2 * (ShiftBytes(a, n) + rest) < Pow256(n + 1)
  {
    var unit := Pow256(n);
    assert Pow256(n + 1) == 256 * unit;
    ShiftBytesIsProduct(a, n);
    hide Pow256, ShiftBytes;
    if a >= 128 {
      MulMonotone(128, a, unit);
    } else {
      MulMonotone(a + 1, 128, unit);
      MulDistributes(unit, a, 1);
    }
  }

  lemma {:induction false} ShiftBytesIsProduct(a: nat, n: nat)
    ensures ShiftBytes(a, n) == a * Pow256(n)
  {
    if n > 0 {
      ShiftBytesIsProduct(a, n - 1);
      MulAssociates(256, a, Pow256(n - 1));
      MulAssociates(a, 256, Pow256(n - 1));
    }
  }

  lemma NothingDoubled(k: seq<byte>, end: nat)
    requires end <= |k|
    ensures Doubled(k, k, end, end, 0)
  {
    assert k[end..end] == [];
  }

  // k[i] += k[i] + carry, with the bit shifted out.
  method DoubleInPlace(k: array<byte>, i: nat, carry: nat, ghost was: seq<byte>, ghost end: nat) returns (carry': nat)
    requires i < end <= k.Length && Doubled(k[..], was, i + 1, end, carry)
    modifies k
    ensures Doubled(k[..], was, i, end, carry')
  {
    hide Value, ShiftBytes;
    ghost var ks := k[..];
    assert k[i] == was[i] by { assert ks[..i + 1][i] == was[..i + 1][i]; }
    var a := k[i];
    carry' := a / 128;
    DoubleByte(a, carry, was[i + 1..end], ks[i + 1..end], (a + (a + carry)) % 256, carry');
    k[i] := (a + (a + carry)) % 256;
    assert k[..] == ks[i := k[i]];
    assert k[..][i..end] == [k[i]] + ks[i + 1..end];
    assert was[i..end] == [a] + was[i + 1..end];
    assert k[..][..i] == was[..i] by { assert ks[..i + 1][..i] == was[..i + 1][..i]; }
    assert k[..][end..] == ks[end..];
  }

  // The carry out of the first byte is reduced into the last ones.
  method Reduce(k: array<byte>, offset: nat, length: nat, ghost was: seq<byte>)
    requires HasModulus(length) && offset + length <= k.Length
    requires Doubled(k[..], was, offset, offset + length, 1)
    modifies k
    ensures k[..offset] == was[..offset] && k[offset + length..] == was[offset + length..]
    ensures IsDouble(length, was[offset..offset + length], k[offset..offset + length])
  {
    hide Value, ShiftBytes, BinaryPolynomial.Congruent, Pow2, Pow256;
    ghost var w := k[..][offset..offset + length];
    BigEndianOfValue(w);
    Pow256IsPow2(length);
    ShiftOne(length);
    Reduced(length, Value(was[offset..offset + length]), Value(w), 1);
    XorLastBytes(w, ReductionHigh(length), ReductionLow(length));
    assert k[offset..offset + length] == w && k[..][..offset] == k[..offset];
    var last := offset + length - 1;
    if length == 32 {
      k[last - 1] := XorByte(k[last - 1], 0x04);
    } else {
      BinaryPolynomial.XorZero(k[last - 1]);
    }
    k[last] := XorByte(k[last], ReductionLow(length));
    assert k[offset..offset + length]
        == w[length - 2 := XorByte(w[length - 2], ReductionHigh(length))]
            [length - 1 := XorByte(w[length - 1], ReductionLow(length))];
  }

  // Without a carry the doubled value is below the modulus' degree.
  lemma NoReduction(k: seq<byte>, was: seq<byte>, offset: nat, length: nat)
    requires HasModulus(length) && Doubled(k, was, offset, offset + length, 0)
    ensures IsDouble(length, was[offset..offset + length], k[offset..offset + length])
  {
    hide Value, ShiftBytes, BinaryPolynomial.Congruent, Pow2, Pow256;
    var w := k[offset..offset + length];
    BigEndianOfValue(w);
    Pow256IsPow2(length);
    ShiftOne(length);
    Reduced(length, Value(was[offset..offset + length]), Value(w), 0);
  }

  // ----- The definition -----

  // Where the last block of the data begins: they are cut into blocks, none of them empty but that of no data.
  function LastStart(k: nat, n: nat): (j: nat)
    requires n > 0
    ensures j <= k
  {
    if k == 0 then 0 else k - 1 - (k - 1) % n
  }

  lemma LastBlockSize(k: nat, n: nat)
    requires n > 0
    ensures LastStart(k, n) % n == 0 && k - LastStart(k, n) <= n
    ensures k > 0 ==> k > LastStart(k, n)
  {
    if k == 0 {
      DivUnique(0, n, 0, 0);
    } else {
      DivMod(k - 1, n);
      DivUnique(LastStart(k, n), n, (k - 1) / n, 0);
    }
  }

  // The only cut into whole blocks and a last one.
  lemma LastStartUnique(k: nat, j: nat, n: nat)
    requires n > 0 && j % n == 0 && j < k <= j + n
    ensures LastStart(k, n) == j
  {
    DivMod(j, n);
    DivUnique(k - 1, n, j / n, k - 1 - j);
  }

  // The last block as it enters the cipher: masked with the first subkey if it is complete, else padded with a one
  // and zeros and masked with the second.
  function LastBlock(n: nat, k1: seq<byte>, k2: seq<byte>, last: seq<byte>): (b: seq<byte>)
    requires |k1| == |k2| == n && |last| <= n
    ensures |b| == n
  {
    if |last| == n then XorBytes(last, k1) else XorBytes(last + [0x80] + Zeros(n - |last| - 1), k2)
  }

  // Section 6.2, for the subkeys of section 6.1.
  function Mac(f: BlockFunction, n: nat, k1: seq<byte>, k2: seq<byte>, data: seq<byte>): (t: seq<byte>)
    requires IsBlockFunction(f, n) && |k1| == |k2| == n
    ensures |t| == n
  {
    LastBlockSize(|data|, n);
    var j := LastStart(|data|, n);
    f(XorBytes(Chain(f, n, Zeros(n), data[..j]), LastBlock(n, k1, k2, data[j..])))
  }

  // How the last block enters the cipher: complete it is masked with the first subkey; else a one bit and zeros
  // follow it and it is masked with the second.
  ghost predicate MaskedLast(n: nat, k1: seq<byte>, k2: seq<byte>, last: seq<byte>, y: seq<byte>) {
    && |last| <= n && |y| == |k1| == |k2| == n
    && (|last| == n ==> forall i :: 0 <= i < n ==> y[i] == XorByte(last[i], k1[i]))
    && (|last| < n ==> y[|last|] == XorByte(0x80, k2[|last|]))
    && (|last| < n ==> forall i :: 0 <= i < |last| ==> y[i] == XorByte(last[i], k2[i]))
    && (forall i :: |last| < i < n ==> y[i] == XorByte(0, k2[i]))
  }

  /** The MAC of blocks and a last one, which is empty only if there is no data. */
  lemma MacByBlocks(f: BlockFunction, n: nat, k1: seq<byte>, k2: seq<byte>, c: seq<seq<byte>>, blocks: seq<seq<byte>>,
                    last: seq<byte>, y: seq<byte>)
    requires IsBlockFunction(f, n) && ChainedBlocks(f, n, c, blocks) && c[0] == Zeros(n)
    requires MaskedLast(n, k1, k2, last, y) && (last == [] ==> blocks == [])
    ensures Mac(f, n, k1, k2, Flatten(blocks) + last) == f(XorBytes(c[|blocks|], y))
  {
    ChainByBlocks(f, n, c, blocks);
    hide Chain, ChainedBlocks, LastBlock, MaskedLast;
    var front := Flatten(blocks);
    if last != [] {
      LastStartUnique(|front + last|, |front|, n);
    }
    assert (front + last)[..|front|] == front && (front + last)[|front|..] == last;
    MaskedIsLastBlock(n, k1, k2, last, y);
  }

  lemma MaskedIsLastBlock(n: nat, k1: seq<byte>, k2: seq<byte>, last: seq<byte>, y: seq<byte>)
    requires MaskedLast(n, k1, k2, last, y)
    ensures LastBlock(n, k1, k2, last) == y
  {
    hide XorByte;
  }

  // The subkeys are the double and the double's double of the cipher's value at the zero block.
  ghost predicate Subkeys(f: BlockFunction, n: nat, k1: seq<byte>, k2: seq<byte>)
    requires HasModulus(n)
  {
    IsDouble(n, f(Zeros(n)), k1) && IsDouble(n, k1, k2)
  }

  // ----- The register -----

  // The data so far: all but the last block chained, the last one, whole or not, mixed in but not yet processed.
  ghost predicate Holds(f: BlockFunction, n: nat, data: seq<byte>, reg: seq<byte>, counter: nat)
    requires IsBlockFunction(f, n)
  {
    LastBlockSize(|data|, n);
    var j := LastStart(|data|, n);
    && counter == |data| - j
    && reg == XorPrefix(Chain(f, n, Zeros(n), data[..j]), data[j..])
  }

  lemma HoldsNothing(f: BlockFunction, n: nat)
    requires IsBlockFunction(f, n)
    ensures Holds(f, n, [], Zeros(n), 0)
  {
    assert XorPrefix(Zeros(n), []) == Zeros(n);
  }

  // More bytes of the same block.
  lemma HoldsMore(f: BlockFunction, n: nat, data: seq<byte>, reg: seq<byte>, counter: nat, more: seq<byte>)
    requires IsBlockFunction(f, n) && Holds(f, n, data, reg, counter)
    requires counter + |more| <= n && (counter > 0 || data == [])
    ensures Holds(f, n, data + more, reg[..counter] + XorPrefix(reg[counter..], more), counter + |more|)
  {
    hide Chain;
    var j := LastStart(|data|, n);
    LastBlockSize(|data|, n);
    if more == [] {
      assert data + more == data && reg[..counter] + XorPrefix(reg[counter..], more) == reg;
    } else {
      LastStartUnique(|data + more|, j, n);
      assert (data + more)[..j] == data[..j] && (data + more)[j..] == data[j..] + more;
      var y := Chain(f, n, Zeros(n), data[..j]);
      XorPrefixAppend(y, data[j..], more);
      assert reg[..counter] == XorPrefix(y, data[j..])[..counter];
    }
  }

  // The chaining value once the last block, being whole, is processed.
  lemma ProcessHeld(f: BlockFunction, n: nat, data: seq<byte>, reg: seq<byte>)
    requires IsBlockFunction(f, n) && Holds(f, n, data, reg, n)
    ensures |data| % n == 0 && f(reg) == Chain(f, n, Zeros(n), data)
  {
    var j := LastStart(|data|, n);
    LastBlockSize(|data|, n);
    DivUnique(n, n, 1, 0);
    SumOfMultiples(j, n, n);
    assert data == data[..j] + data[j..];
    ChainAppend(f, n, Zeros(n), data[..j], data[j..]);
    var y := Chain(f, n, Zeros(n), data[..j]);
    ChainOne(f, n, y, data[j..]);
    assert XorPrefix(y, data[j..]) == XorBytes(y, data[j..]);
  }

  // A new last block on top of whole ones.
  lemma HoldsNext(f: BlockFunction, n: nat, data: seq<byte>, reg: seq<byte>, rest: seq<byte>)
    requires IsBlockFunction(f, n) && |data| % n == 0 && reg == Chain(f, n, Zeros(n), data) && 0 < |rest| <= n
    ensures Holds(f, n, data + rest, XorPrefix(reg, rest), |rest|)
  {
    LastStartUnique(|data + rest|, |data|, n);
    assert (data + rest)[..|data|] == data && (data + rest)[|data|..] == rest;
  }

  // Masking and processing what is held gives the MAC.
  lemma FinalBlock(f: BlockFunction, n: nat, k1: seq<byte>, k2: seq<byte>, data: seq<byte>, reg: seq<byte>, counter: nat)
    requires IsBlockFunction(f, n) && |k1| == |k2| == n && |reg| == n && Holds(f, n, data, reg, counter)
    ensures counter == n ==> f(XorBytes(reg, k1)) == Mac(f, n, k1, k2, data)
    ensures counter < n ==> f(XorBytes(reg[counter := XorByte(reg[counter], 0x80)], k2)) == Mac(f, n, k1, k2, data)
  {
    hide Chain, XorByte;
    LastBlockSize(|data|, n);
    var j := LastStart(|data|, n);
    var y, last := Chain(f, n, Zeros(n), data[..j]), data[j..];
    if counter == n {
      assert reg == XorBytes(y, last);
      XorBytesAssociate(y, last, k1);
    } else {
      var padded := last + [0x80] + Zeros(n - |last| - 1);
      PadInPlace(y, last);
      XorBytesAssociate(y, padded, k2);
    }
  }

  lemma XorBytesAssociate(a: seq<byte>, b: seq<byte>, c: seq<byte>)
    requires |a| == |b| == |c|
    ensures XorBytes(XorBytes(a, b), c) == XorBytes(a, XorBytes(b, c))
  {
    forall i | 0 <= i < |a|
      ensures XorBytes(XorBytes(a, b), c)[i] == XorBytes(a, XorBytes(b, c))[i]
    {
      BinaryPolynomial.XorAssociates(a[i], b[i], c[i]);
    }
  }

  lemma PadInPlace(y: seq<byte>, last: seq<byte>)
    requires |last| < |y|
    ensures var reg := XorPrefix(y, last);
            reg[|last| := XorByte(reg[|last|], 0x80)] == XorBytes(y, last + [0x80] + Zeros(|y| - |last| - 1))
  {
    forall i | |last| < i < |y|
      ensures XorByte(y[i], 0) == y[i]
    {
      XorByteTwice(y[i], 0);
    }
  }

  class CmacBase {
    const cipher: BlockFunction
    const blockSize: nat
    // m_reg: the register and the two subkeys
    const reg: array<byte>
    var counter: nat
    // what has come since the last MAC
    ghost var data: seq<byte>

    ghost predicate Shaped()
      reads this
    {
      IsBlockFunction(cipher, blockSize) && HasModulus(blockSize) && reg.Length == 3 * blockSize
    }

    function K1(): (k: seq<byte>)
      requires reg.Length == 3 * blockSize
      reads reg
    {
      reg[blockSize..2 * blockSize]
    }

    function K2(): (k: seq<byte>)
      requires reg.Length == 3 * blockSize
      reads reg
    {
      reg[2 * blockSize..]
    }

    ghost predicate Valid()
      reads this, reg
    {
      Shaped() && Subkeys(cipher, blockSize, K1(), K2()) && Holds(cipher, blockSize, data, reg[..blockSize], counter)
    }

    // UncheckedSetKey, for a cipher that has its key.
    constructor (cipher: BlockFunction, blockSize: nat)
      requires IsBlockFunction(cipher, blockSize) && HasModulus(blockSize)
      ensures Valid() && data == [] && fresh(reg)
      ensures this.cipher == cipher && this.blockSize == blockSize
    {
      hide IsDouble, Chain;
      this.cipher, this.blockSize := cipher, blockSize;
      reg := new byte[3 * blockSize](i => 0);
      counter := 0;
      data := [];
      new;
      var n := blockSize;
      assert reg[..n] == Zeros(n);
      CopyInto(reg, n, cipher(reg[..n]));
      assert reg[n..2 * n] == cipher(Zeros(n)) && reg[..n] == Zeros(n);
      var ok := MulU(reg, n, n);
      ghost var k1 := reg[n..2 * n];
      CopyInto(reg, 2 * n, reg[n..2 * n]);
      assert reg[2 * n..3 * n] == k1;
      assert reg[..2 * n][n..] == k1;
      assert reg[..2 * n][..n] == Zeros(n);
      ok := MulU(reg, 2 * n, n);
      assert reg[n..2 * n] == reg[..2 * n][n..] && reg[..n] == reg[..2 * n][..n] && reg[2 * n..3 * n] == reg[2 * n..];
      HoldsNothing(cipher, n);
    }

    // The register alone is written.
    method SetRegister(x: seq<byte>)
      requires Shaped() && |x| == blockSize
      modifies reg
      ensures reg[..blockSize] == x && K1() == old(K1()) && K2() == old(K2())
    {
      CopyInto(reg, 0, x);
      assert reg[..blockSize] == x;
      assert K1() == old(reg[blockSize..])[..blockSize] && K2() == old(reg[blockSize..])[blockSize..];
    }

    // Whole blocks alone are in the register, processed.
    ghost predicate Chained()
      reads this, reg
    {
      && Shaped() && Subkeys(cipher, blockSize, K1(), K2())
      && counter == 0 && |data| % blockSize == 0
      && reg[..blockSize] == Chain(cipher, blockSize, Zeros(blockSize), data)
    }

    lemma EmptyRegister()
      requires Valid() && counter == 0
      ensures Chained() && data == []
    {
      LastBlockSize(|data|, blockSize);
      DivUnique(0, blockSize, 0, 0);
      assert data[..0] == [] && XorPrefix(Zeros(blockSize), []) == Zeros(blockSize);
    }

    // xorbuf into the register behind what is there.
    method MixIn(input: seq<byte>)
      requires Valid() && counter > 0 && counter + |input| <= blockSize
      modifies this`counter, this`data, reg
      ensures Valid() && data == old(data) + input && counter == old(counter) + |input|
    {
      hide Subkeys, Chain, Holds, XorPrefix;
      var x := reg[..counter] + XorPrefix(reg[counter..blockSize], input);
      HoldsMore(cipher, blockSize, data, reg[..blockSize], counter, input);
      assert reg[..blockSize][..counter] == reg[..counter] && reg[..blockSize][counter..] == reg[counter..blockSize];
      SetRegister(x);
      counter := counter + |input|;
      data := data + input;
    }

    // The block that is held, once it is full and more has come.
    method ProcessRegister()
      requires Valid() && counter == blockSize
      modifies this`counter, reg
      ensures Chained()
    {
      hide Subkeys, Chain, Holds;
      ProcessHeld(cipher, blockSize, data, reg[..blockSize]);
      SetRegister(cipher(reg[..blockSize]));
      counter := 0;
    }

    // Update's first part: the held block is filled, and processed if there is yet more.
    method FillRegister(input: seq<byte>) returns (rest: seq<byte>)
      requires Valid() && counter > 0
      modifies this`counter, this`data, reg
      ensures |rest| <= |input| && rest == input[|input| - |rest|..]
      ensures data == old(data) + input[..|input| - |rest|]
      ensures if rest == [] then Valid() && counter > 0 else Chained()
    {
      hide Subkeys, Chain, Holds, IsBlockFunction, Valid, Chained;
      HeldFits();
      var len := if blockSize - counter < |input| then blockSize - counter else |input|;
      MixIn(input[..len]);
      rest := input[len..];
      if counter == blockSize && |rest| > 0 {
        ProcessRegister();
      }
    }

    lemma HeldFits()
      requires Valid()
      ensures counter <= blockSize
    {
      LastBlockSize(|data|, blockSize);
    }

    // Update's second part: all blocks but the last are processed, the last is held.
    method AddBlocks(input: seq<byte>)
      requires Chained() && input != []
      modifies this`counter, this`data, reg
      ensures Valid() && counter > 0 && data == old(data) + input
    {
      hide Subkeys, Chain, Holds;
      var n := blockSize;
      var x, leftOver := reg[..n], |input|;
      if |input| > n {
        x, leftOver := AdvancedProcessBlocks(cipher, n, x, input[..|input| - 1]);
        leftOver := 1 + leftOver;
        DivMod(|input| - 1, n);
        ghost var whole := input[..|input| - leftOver];
        assert input[..|input| - 1][..|input| - leftOver] == whole;
        DivUnique(|whole|, n, (|input| - 1) / n, 0);
        ChainAppend(cipher, n, Zeros(n), data, whole);
        SumOfMultiples(|data|, |whole|, n);
      } else {
        assert data + input[..0] == data;
      }
      var rest := input[|input| - leftOver..];
      ghost var sofar := data + input[..|input| - leftOver];
      HoldsNext(cipher, n, sofar, x, rest);
      assert sofar + rest == data + input;
      SetRegister(XorPrefix(x, rest));
      counter := leftOver;
      data := data + input;
    }

    method Update(input: seq<byte>)
      requires Valid()
      modifies this`counter, this`data, reg
      ensures Valid() && data == old(data) + input
      ensures input != [] ==> counter > 0
    {
      hide Valid, Chained;
      if |input| == 0 {
        assert data + input == data;
        return;
      }
      var rest := input;
      if counter > 0 {
        rest := FillRegister(input);
        if rest == [] {
          assert input[..|input|] == input;
          return;
        }
      } else {
        EmptyRegister();
        assert data == data + input[..0];
      }
      ghost var sofar := input[..|input| - |rest|];
      assert old(data) + sofar + rest == old(data) + input;
      AddBlocks(rest);
    }

    // TruncatedFinal; the caller has checked the size.
    method TruncatedFinal(size: nat) returns (mac: seq<byte>)
      requires Valid() && size <= blockSize
      modifies this`counter, this`data, reg
      ensures Valid() && data == []
      ensures K1() == old(K1()) && K2() == old(K2()) && Shaped()
      ensures mac == Mac(cipher, blockSize, old(K1()), old(K2()), old(data))[..size]
    {
      hide Subkeys, Chain, Holds, XorByte;
      var n := blockSize;
      HeldFits();
      FinalBlock(cipher, n, K1(), K2(), data, reg[..n], counter);
      var x := reg[..n];
      if counter < n {
        x := x[counter := XorByte(x[counter], 0x80)];
        x := cipher(XorBytes(x, K2()));
      } else {
        x := cipher(XorBytes(x, K1()));
      }
      mac := x[..size];
      counter := 0;
      SetRegister(Zeros(n));
      data := [];
      HoldsNothing(cipher, n);
    }
  }

  /** The MAC of a message in any pieces is the MAC of the message. The subkeys are not a choice: only one pair of byte
      strings are the doubles that section 6.1 asks for. */
  method Authenticate(f: BlockFunction, n: nat, chunks: seq<seq<byte>>, size: nat,
                      ghost k1: seq<byte>, ghost k2: seq<byte>)
    returns (mac: seq<byte>)
    requires IsBlockFunction(f, n) && HasModulus(n) && size <= n
    requires Subkeys(f, n, k1, k2)
    ensures |k1| == |k2| == n && mac == Mac(f, n, k1, k2, Flatten(chunks))[..size]
  {
    hide Holds, IsDouble, Mac, Flatten, IsBlockFunction;
    var c := new CmacBase(f, n);
    var i := 0;
    assert chunks[..0] == [] && Flatten([]) == [] by { EmptyFlatten(); }
    while i < |chunks|
      invariant i <= |chunks| && c.Valid() && c.data == Flatten(chunks[..i])
    {
      FlattenNext(chunks, i);
      c.Update(chunks[i]);
      i := i + 1;
    }
    assert chunks[..|chunks|] == chunks;
    SubkeysUnique(f, n, k1, k2, c.K1(), c.K2());
    mac := c.TruncatedFinal(size);
  }

  lemma SubkeysUnique(f: BlockFunction, n: nat, k1: seq<byte>, k2: seq<byte>, l1: seq<byte>, l2: seq<byte>)
    requires HasModulus(n)
    requires Subkeys(f, n, k1, k2) && Subkeys(f, n, l1, l2)
    ensures k1 == l1 && k2 == l2 && |k1| == |k2| == n
  {
    DoubleIsUnique(n, f(Zeros(n)), k1, l1);
    DoubleIsUnique(n, k1, k2, l2);
  }
}
