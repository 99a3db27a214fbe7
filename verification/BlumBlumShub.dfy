/** The Blum-Blum-Shub generator of blumshub.cpp, in sequence and by random access. */
module BlumBlumShub {
  import opened Arithmetic
  import opened Bits
  import opened Bytes
  import opened Congruence

  // The state after k squarings of x0.
  function State(x0: nat, n: nat, k: nat): (s: nat)
    requires n > 0
    ensures s < n
  {
    DivMod(Pow(x0, Pow2(k)), n);
    Pow(x0, Pow2(k)) % n
  }

  // Each state gives its maxBits low bits, highest first; the first state is the once squared one.
  function StreamBit(x0: nat, n: nat, maxBits: nat, i: nat): (b: nat)
    requires n > 0 && maxBits > 0
    ensures b <= 1
  {
    DivMod(i, maxBits);
    Bit(State(x0, n, i / maxBits + 1), maxBits - 1 - i % maxBits)
  }

  function StreamBits(x0: nat, n: nat, maxBits: nat, from: nat, count: nat): (v: nat)
    requires n > 0 && maxBits > 0
    ensures v < Pow2(count)
  {
    if count == 0 then 0
    else 2 * StreamBits(x0, n, maxBits, from, count - 1) + StreamBit(x0, n, maxBits, from + count - 1)
  }

  function StreamByte(x0: nat, n: nat, maxBits: nat, j: nat): (b: byte)
    requires n > 0 && maxBits > 0
  {
    assert Pow2(8) == 256;
    StreamBits(x0, n, maxBits, 8 * j, 8)
  }

  // The size bytes of the stream that begin with byte from.
  function Stream(x0: nat, n: nat, maxBits: nat, from: nat, size: nat): (s: seq<byte>)
    requires n > 0 && maxBits > 0
    ensures |s| == size
  {
    if size == 0 then [] else
      Stream(x0, n, maxBits, from, size - 1) + [StreamByte(x0, n, maxBits, from + size - 1)]
  }

  // The end of the stream is the stream from there on.
  lemma {:induction false} StreamSuffix(x0: nat, n: nat, maxBits: nat, from: nat, drop: nat, size: nat)
    requires n > 0 && maxBits > 0
    ensures Stream(x0, n, maxBits, from, drop + size)[drop..] == Stream(x0, n, maxBits, from + drop, size)
  {
    if size > 0 {
      StreamSuffix(x0, n, maxBits, from, drop, size - 1);
    }
  }

  // Squaring once more.
  lemma NextState(x0: nat, n: nat, k: nat)
    requires n > 0
    ensures State(x0, n, k) * State(x0, n, k) % n == State(x0, n, k + 1)
  {
    hide Cong;
    var y := Pow(x0, Pow2(k));
    CongRemainder(y, n);
    CongMul(y % n, y, y % n, y, n);
    SameRemainder((y % n) * (y % n), y * y, n);
    PowSum(x0, Pow2(k), Pow2(k));
  }

  // An exponent may be reduced modulo any at which the power is one.
  lemma ReducedExponent(x0: nat, n: nat, e: nat, phi: nat)
    requires n > 0 && phi > 0 && Cong(Pow(x0, phi), 1, n)
    ensures e % phi >= 0 && Pow(x0, e % phi) % n == Pow(x0, e) % n
  {
    hide Cong, Pow;
    DivMod(e, phi);
    var t, r := e / phi, e % phi;
    MulNonNegative(phi, t);
    PowSum(x0, phi * t, r);
    PowOfPow(x0, phi, t);
    CongPow(Pow(x0, phi), 1, t, n);
    PowOfOne(t);
    CongTimes(Pow(x0, r), Pow(x0, phi * t), 1, n);
    assert Pow(x0, e) == Pow(x0, r) * Pow(x0, phi * t);
    SameRemainder(Pow(x0, e), Pow(x0, r), n);
  }

  lemma {:induction false} PowerOfTwo(k: nat)
    ensures Pow(2, k) == Pow2(k)
  {
    if k > 0 { PowerOfTwo(k - 1); }
  }

  // floor(log2), as BitPrecision less one
  function Log2(k: nat): nat {
    if k < 2 then 0 else 1 + Log2(k / 2)
  }

  // The power of two in it is the largest that is not above k.
  lemma {:induction false} Log2Bounds(k: nat)
    requires k > 0
    ensures Pow2(Log2(k)) <= k < Pow2(Log2(k) + 1)
  {
    if k > 1 {
      Log2Bounds(k / 2);
    }
  }

  /** From where state k + 1 begins, the stream has its maxBits low bits, the highest of them first: the first count of
      them are those above the other maxBits - count. */
  lemma {:induction false} StateBits(x0: nat, n: nat, maxBits: nat, k: nat, count: nat)
    requires n > 0 && 0 < count <= maxBits
    ensures 0 <= maxBits * k
    ensures StreamBits(x0, n, maxBits, maxBits * k, count)
         == State(x0, n, k + 1) / Pow2(maxBits - count) % Pow2(count)
  {
    hide State;
    MulNonNegative(maxBits, k);
    var s := State(x0, n, k + 1);
    var y, half := ShiftRight(s, maxBits - count), Pow2(count - 1);
    ShiftIsDivision(s, maxBits - count);
    DivUnique(maxBits * k + count - 1, maxBits, k, count - 1);
    assert StreamBit(x0, n, maxBits, maxBits * k + count - 1) == y % 2;
    if count > 1 {
      StateBits(x0, n, maxBits, k, count - 1);
      ShiftIsDivision(s, maxBits - (count - 1));
      assert ShiftRight(s, maxBits - (count - 1)) == y / 2;
    }
    assert StreamBits(x0, n, maxBits, maxBits * k, count - 1) == y / 2 % half;
    DoubleRemainder(y, half);
  }

  lemma DoubleRemainder(y: nat, m: nat)
    requires m > 0
    ensures y % (2 * m) == 2 * (y / 2 % m) + y % 2
  {
    DivMod(y / 2, m);
    MulAssociates(2, m, y / 2 / m);
    DivUnique(y, 2 * m, y / 2 / m, 2 * (y / 2 % m) + y % 2);
  }

  // The number of residues coprime to p q, for distinct primes p and q.
  function Totient(p: nat, q: nat): (phi: nat)
    requires p >= 2 && q >= 2
    ensures phi > 0
  {
    MulAtLeast(p - 1, q - 1);
    (p - 1) * (q - 1)
  }

  class Generator {
    const p: nat
    const q: nat
    const n: nat
    const x0: nat
    const maxBits: nat
    var current: nat
    var bitsLeft: nat
    // how many states the generator has gone through
    ghost var states: nat

    ghost predicate Valid()
      reads this
    {
      && p >= 2 && q >= 2 && n == p * q > 0
      && maxBits == Log2(BitCount(n)) > 0
      && bitsLeft <= maxBits && states > 0
      && current == State(x0, n, states)
    }

    // The number of bits that come before the next one. A state that is used up and the next one, not begun, are at
    // the same place.
    ghost function Position(): nat
      requires Valid()
      reads this
    {
      Offset(maxBits, states, bitsLeft)
    }

    constructor (p: nat, q: nat, seed: nat)
      requires p >= 2 && q >= 2
      ensures Valid() && Position() == 0
      ensures this.p == p && this.q == q && x0 == seed * seed % (p * q)
    {
      MulAtLeast(p, q);
      var m := p * q;
      this.p, this.q, this.n := p, q, m;
      DivMod(seed * seed, m);
      var x := seed * seed % m;
      this.x0 := x;
      DivMod(x * x, m);
      this.current := x * x % m;
      SmallModulus(m);
      this.maxBits := Log2(BitCount(m));
      this.bitsLeft := Log2(BitCount(m));
      this.states := 1;
      assert Pow(x, 1) == x * Pow(x, 0);
      assert Pow2(1) == 2 && Pow(x, 2) == x * Pow(x, 1);
    }

    // A state gives as many bits as the logarithm of the modulus's length.
    lemma BitsPerState()
      requires Valid()
      ensures Pow2(maxBits) <= BitCount(n) < Pow2(maxBits + 1)
      ensures Pow2(BitCount(n) - 1) <= n < Pow2(BitCount(n))
    {
      BitCountBounds(n);
      Log2Bounds(BitCount(n));
    }

    method GenerateBit() returns (bit: nat)
      requires Valid()
      modifies this
      ensures Valid() && Position() == old(Position()) + 1
      ensures bit == StreamBit(x0, n, maxBits, old(Position())) <= 1
    {
      hide State, Log2;
      BitAt(maxBits, states, bitsLeft);
      if bitsLeft == 0 {
        NextState(x0, n, states);
        DivMod(current * current, n);
        current := current * current % n;
        bitsLeft := maxBits;
        states := states + 1;
        BitAt(maxBits, states, bitsLeft);
      }
      bitsLeft := bitsLeft - 1;
      bit := Bit(current, bitsLeft);
    }

    method GenerateByte() returns (b: byte)
      requires Valid()
      modifies this
      ensures Valid() && Position() == old(Position()) + 8
      ensures old(Position()) % 8 == 0 ==> b == StreamByte(x0, n, maxBits, old(Position()) / 8)
      ensures b == StreamBits(x0, n, maxBits, old(Position()), 8)
    {
      hide StreamBit, State, Log2, Offset;
      var v := 0;
      for i := 0 to 8
        invariant Valid() && Position() == old(Position()) + i
        invariant v == StreamBits(x0, n, maxBits, old(Position()), i)
      {
        var bit := GenerateBit();
        v := 2 * v + bit;
      }
      assert Pow2(8) == 256;
      b := v;
    }

    method GenerateBlock(size: nat) returns (output: seq<byte>)
      requires Valid() && Position() % 8 == 0
      modifies this
      ensures Valid() && Position() == old(Position()) + 8 * size
      ensures output == Stream(x0, n, maxBits, old(Position()) / 8, size)
    {
      hide StreamByte, StreamBits, State, Log2, Offset;
      output := [];
      for i := 0 to size
        invariant Valid() && Position() == old(Position()) + 8 * i
        invariant output == Stream(x0, n, maxBits, old(Position()) / 8, i)
      {
        var b := GenerateByte();
        output := output + [b];
      }
    }

    /** To byte index, by one exponentiation: its exponent is reduced modulo (p-1)(q-1), which is right when x0 to that
        power is one. */
    method Seek(index: nat)
      requires Valid() && Cong(Pow(x0, Totient(p, q)), 1, n)
      modifies this
      ensures Valid() && Position() == 8 * index
    {
      hide Cong, Pow, Log2, Pow2, Totient;
      var i := index * 8;
      var k := i / maxBits + 1;
      DivMod(i, maxBits);
      var phi := Totient(p, q);
      PowerOfTwo(k);
      DivMod(Pow(2, k), phi);
      var e := Pow(2, k) % phi;
      ReducedExponent(x0, n, Pow2(k), phi);
      DivMod(Pow(x0, e), n);
      current := Pow(x0, e) % n;
      bitsLeft := maxBits - i % maxBits;
      states := k;
    }
  }

  // Of the bits of the states before, and those of this one that are out.
  ghost function Offset(maxBits: nat, states: nat, bitsLeft: nat): nat
    requires bitsLeft <= maxBits && states > 0
  {
    MulNonNegative(maxBits, states - 1);
    maxBits * (states - 1) + (maxBits - bitsLeft)
  }

  // Which bit comes next.
  lemma BitAt(maxBits: nat, states: nat, bitsLeft: nat)
    requires 0 < maxBits && bitsLeft <= maxBits && states > 0
    ensures bitsLeft > 0 ==> var i := Offset(maxBits, states, bitsLeft);
      i / maxBits + 1 == states && maxBits - 1 - i % maxBits == bitsLeft - 1
    ensures bitsLeft == 0 ==> Offset(maxBits, states, 0) == Offset(maxBits, states + 1, maxBits)
    ensures bitsLeft > 0 ==> Offset(maxBits, states, bitsLeft - 1) == Offset(maxBits, states, bitsLeft) + 1
  {
    MulDistributes(maxBits, states - 1, 1);
    if bitsLeft > 0 {
      DivUnique(Offset(maxBits, states, bitsLeft), maxBits, states - 1, maxBits - bitsLeft);
    }
  }

  lemma SmallModulus(n: nat)
    requires n >= 4
    ensures Log2(BitCount(n)) > 0
  {
    assert BitCount(n) >= 2;
  }

  /** Seeking and generating gives what generating from the start and dropping the first bytes gives. */
  method SeekAgrees(p: nat, q: nat, seed: nat, index: nat, size: nat) returns (direct: seq<byte>, all: seq<byte>)
    requires p >= 2 && q >= 2
    requires p * q > 0 && Cong(Pow(seed * seed % (p * q), Totient(p, q)), 1, p * q)
    ensures |all| == index + size && direct == all[index..]
  {
    hide StreamByte, Cong, Pow, State, Log2, Totient, Generator.Position;
    var g := new Generator(p, q, seed);
    g.Seek(index);
    direct := g.GenerateBlock(size);
    var h := new Generator(p, q, seed);
    all := h.GenerateBlock(index + size);
    StreamSuffix(h.x0, h.n, h.maxBits, 0, index, size);
  }
}
