/** The Adler-32 checksum of adler32.cpp, with its deferred reductions, against section 2.2 of RFC 1950. */
module Adler32Checksum {
  import opened Arithmetic
  import opened Bytes
  import opened Words

  const BASE := 65521
  // unsigned long has at least this many values
  const WORD := 0x1_0000_0000

  // One byte more.
  function NextSum(t: (int, int), d: byte): (r: (int, int))
    ensures 0 <= r.0 < BASE && 0 <= r.1 < BASE
  {
    var s1 := (t.0 + d) % BASE;
    (s1, (t.1 + s1) % BASE)
  }

  // Byte by byte: the sum of the bytes, and the sum of those sums.
  function Sum(s: (int, int), data: seq<byte>): (r: (int, int))
    ensures data == [] ==> r == s
    ensures data != [] ==> 0 <= r.0 < BASE && 0 <= r.1 < BASE
  {
    if data == [] then s else NextSum(Sum(s, data[..|data| - 1]), data[|data| - 1])
  }

  lemma {:induction false} SumAppend(s: (int, int), a: seq<byte>, b: seq<byte>)
    ensures Sum(s, a + b) == Sum(Sum(s, a), b)
  {
    if b == [] {
      assert a + b == a;
    } else {
      SumAppend(s, a, b[..|b| - 1]);
      assert (a + b)[..|a + b| - 1] == a + b[..|b| - 1];
    }
  }

  // The sum of the bytes, and the sum in which each counts as often as there are bytes from it on.
  function Total(data: seq<byte>): nat {
    if data == [] then 0 else data[0] + Total(data[1..])
  }

  function Weighted(data: seq<byte>): nat {
    if data == [] then 0 else |data| * data[0] + Weighted(data[1..])
  }

  lemma {:induction false} TotalAppend(data: seq<byte>, d: byte)
    ensures Total(data + [d]) == Total(data) + d
    ensures Weighted(data + [d]) == Weighted(data) + Total(data) + d
  {
    if data != [] {
      TotalAppend(data[1..], d);
      assert (data + [d])[1..] == data[1..] + [d];
      MulDistributes(data[0], |data|, 1);
    }
  }

  /** Both sums in closed form, modulo the largest prime below 2^16. */
  lemma {:induction false} ClosedForm(data: seq<byte>)
    ensures Sum((1, 0), data) == ((1 + Total(data)) % 65521, (|data| + Weighted(data)) % 65521)
  {
    if data != [] {
      var init, d := data[..|data| - 1], data[|data| - 1];
      hide Sum, NextSum, Total, Weighted;
      ClosedForm(init);
      assert init + [d] == data;
      SumNext((1, 0), init, d);
      TotalAppend(init, d);
      NextSums(1 + Total(init), |init| + Weighted(init), d);
    }
  }

  lemma SumNext(s: (int, int), data: seq<byte>, d: byte)
    ensures Sum(s, data + [d]) == NextSum(Sum(s, data), d)
  {
    hide NextSum;
    assert (data + [d])[..|data|] == data;
  }

  lemma NextSums(a: nat, b: nat, d: byte)
    ensures NextSum((a % BASE, b % BASE), d) == ((a + d) % BASE, (b + (a + d)) % BASE)
  {
    Twice(a);
    Twice(b);
    Twice(a + d);
    AddRemainders(a % BASE, a, d, d);
    AddRemainders(b % BASE, b, (a + d) % BASE, a + d);
  }

  // s1 and s2 may be ahead of their reduced values by multiples of the base.
  ghost predicate Ahead(s: (int, int), data: seq<byte>, s1: int, s2: int) {
    s1 % BASE == Sum(s, data).0 % BASE && s2 % BASE == Sum(s, data).1 % BASE
  }

  lemma AddByte(s: (int, int), data: seq<byte>, d: byte, s1: nat, s2: nat)
    requires Ahead(s, data, s1, s2)
    ensures Ahead(s, data + [d], s1 + d, s2 + (s1 + d))
  {
    var t := Sum(s, data);
    var u := (t.0 + d) % BASE;
    SumNext(s, data, d);
    hide Sum;
    AddRemainders(s1, t.0, d, d);
    Twice(t.0 + d);
    AddRemainders(s2, t.1, s1 + d, u);
    Twice(t.1 + u);
  }

  lemma AddRemainders(x: int, y: int, u: int, v: int)
    requires x % BASE == y % BASE && u % BASE == v % BASE
    ensures (x + u) % BASE == (y + v) % BASE
  {
    DivMod(x, BASE);
    DivMod(u, BASE);
    var r := (x % BASE + u % BASE) % BASE;
    var c := (x % BASE + u % BASE) / BASE;
    DivUnique(x + u, BASE, x / BASE + u / BASE + c, r);
    DivMod(y, BASE);
    DivMod(v, BASE);
    DivUnique(y + v, BASE, y / BASE + v / BASE + c, r);
  }

  lemma Twice(x: int)
    ensures x % BASE % BASE == x % BASE
  {
  }

  class Adler32 {
    var s1: int
    var s2: int
    // what has come since the last reset
    ghost var data: seq<byte>

    ghost predicate Valid()
      reads this
    {
      0 <= s1 < BASE && 0 <= s2 < BASE && (s1, s2) == Sum((1, 0), data)
    }

    constructor ()
      ensures Valid() && data == []
    {
      s1, s2, data := 1, 0, [];
    }

    // s1 += byte; s2 += s1, in machine words: they do not wrap.
    static method Step(s1: nat, s2: nat, d: byte, ghost s: (int, int), ghost sofar: seq<byte>) returns (t1: nat, t2: nat)
      requires Ahead(s, sofar, s1, s2) && s2 + s1 + 255 < WORD
      ensures t1 == s1 + d && t2 == s2 + s1 + d
      ensures Ahead(s, sofar + [d], t1, t2)
    {
      hide Sum, Ahead;
      AddByte(s, sofar, d, s1, s2);
      t1 := (s1 + d) % WORD;
      t2 := (s2 + t1) % WORD;
    }

    // The bytes before the groups of eight, one by one.
    static method UpdateShort(s: (int, int), input: seq<byte>) returns (t1: nat, t2: nat, i: nat)
      requires 0 <= s.0 < BASE && 0 <= s.1 < BASE
      ensures i == |input| % 8 <= |input| && t1 < BASE && t2 < BASE
      ensures Ahead(s, input[..i], t1, t2)
    {
      hide Sum, Ahead;
      t1, t2, i := s.0, s.1, 0;
      Begun(s);
      assert input[..0] == [];
      if |input| % 8 != 0 {
        var first := true;
        while first || (|input| - i) % 8 != 0
          invariant i <= |input| % 8 && (first ==> i == 0)
          invariant t1 < BASE + 255 * i + 1 && t2 < BASE + i * (BASE + 255 * 7)
          invariant Ahead(s, input[..i], t1, t2)
          decreases |input| - i
        {
          assert input[..i + 1] == input[..i] + [input[i]];
          t1, t2 := Step(t1, t2, input[i], s, input[..i]);
          i := i + 1;
          first := false;
        }
        Reduced(s, input[..i], t1, t2);
        if t1 >= BASE {
          t1 := t1 - BASE;
        }
        t2 := t2 % BASE;
      }
    }

    // Eight bytes, and the one subtraction that s1 needs after them.
    static method EightBytes(t1: nat, t2: nat, input: seq<byte>, i: nat, ghost s: (int, int)) returns (u1: nat, u2: nat)
      requires i + 8 <= |input| && t1 < BASE && t2 + 8 * (BASE + 255 * 8) < WORD
      requires Ahead(s, input[..i], t1, t2)
      ensures u1 < BASE && u2 <= t2 + 8 * (BASE + 255 * 8)
      ensures Ahead(s, input[..i + 8], u1, u2)
    {
      hide Sum, Ahead;
      u1, u2 := t1, t2;
      for j := 0 to 8
        invariant u1 <= t1 + 255 * j && u2 <= t2 + j * (BASE + 255 * 8)
        invariant Ahead(s, input[..i + j], u1, u2)
      {
        assert input[..i + j + 1] == input[..i + j] + [input[i + j]];
        u1, u2 := Step(u1, u2, input[i + j], s, input[..i + j]);
      }
      Reduced(s, input[..i + 8], u1, u2);
      if u1 >= BASE {
        u1 := u1 - BASE;
      }
    }

    // s2 is reduced only where the length left is a multiple of 0x8000: it stays below 2^32 until then.
    static method UpdateLong(s: (int, int), input: seq<byte>) returns (t1: nat, t2: nat)
      requires 0 <= s.0 < BASE && 0 <= s.1 < BASE
      ensures t1 < BASE && t2 < BASE && Ahead(s, input, t1, t2)
    {
      hide Sum, Ahead;
      var i: nat;
      t1, t2, i := UpdateShort(s, input);
      ghost var pending := 0;
      while i < |input|
        invariant i <= |input| && (|input| - i) % 8 == 0 && t1 < BASE
        invariant t2 < BASE + pending * (BASE + 255 * 8)
        invariant 0 <= pending && pending + (|input| - i) % 0x8000 <= 0x8000
        invariant (|input| - i) % 0x8000 == 0 ==> pending == 0
        invariant Ahead(s, input[..i], t1, t2)
      {
        StillSmall(pending, |input| - i);
        t1, t2 := EightBytes(t1, t2, input, i, s);
        i := i + 8;
        pending := pending + 8;
        if (|input| - i) % 0x8000 == 0 {
          Reduced(s, input[..i], t1, t2);
          t2 := t2 % BASE;
          pending := 0;
        }
      }
      assert input[..|input|] == input;
    }

    method Update(input: seq<byte>)
      requires Valid()
      modifies this
      ensures Valid() && data == old(data) + input
    {
      hide Sum, Ahead;
      var start: (int, int) := (s1, s2);
      assert start == Sum((1, 0), data);
      s1, s2 := UpdateLong(start, input);
      Settled(start, input, s1, s2);
      SumAppend((1, 0), data, input);
      data := data + input;
    }

    // Most significant byte first; the caller has checked the size.
    method TruncatedFinal(size: nat) returns (hash: seq<byte>)
      requires Valid() && size <= 4
      modifies this
      ensures Valid() && data == []
      ensures hash == BigEndian(0x10000 * Sum((1, 0), old(data)).1 + Sum((1, 0), old(data)).0, 4)[..size]
    {
      hide Sum, BigEndian;
      hash := [];
      if size >= 1 { hash := hash + [s2 / 256]; }
      if size >= 2 { hash := hash + [s2 % 256]; }
      if size >= 3 { hash := hash + [s1 / 256]; }
      if size >= 4 { hash := hash + [s1 % 256]; }
      FourBytes(s1, s2);
      assert hash == [s2 / 256, s2 % 256, s1 / 256, s1 % 256][..size];
      s1, s2, data := 1, 0, [];
      NoData();
    }

    lemma NoData()
      ensures Sum((1, 0), []) == (1, 0)
    {
    }
  }

  lemma FourBytes(s1: nat, s2: nat)
    requires s1 < BASE && s2 < BASE
    ensures BigEndian(0x10000 * s2 + s1, 4) == [s2 / 256, s2 % 256, s1 / 256, s1 % 256]
  {
    var v := 0x10000 * s2 + s1;
    assert BigEndian(v, 1 + 0) == [v % 256] by { assert BigEndian(v / 256, 0) == []; }
    assert BigEndian(v, 4) == BigEndian(v / 256, 3) + [v % 256];
    assert BigEndian(v / 256, 3) == BigEndian(v / 256 / 256, 2) + [v / 256 % 256];
    assert BigEndian(v / 65536, 2) == BigEndian(v / 65536 / 256, 1) + [v / 65536 % 256];
    assert BigEndian(v / 65536 / 256, 1) == BigEndian(v / 65536 / 256 / 256, 0) + [v / 65536 / 256 % 256];
    assert v / 256 / 256 == v / 65536 == s2 && v / 65536 / 256 == s2 / 256 && s2 / 256 < 256;
    assert v % 256 == s1 % 256 && v / 256 % 256 == s1 / 256;
  }

  // Sums below the base are the reduced ones.
  lemma Settled(s: (int, int), data: seq<byte>, s1: nat, s2: nat)
    requires 0 <= s.0 < BASE && 0 <= s.1 < BASE && s1 < BASE && s2 < BASE && Ahead(s, data, s1, s2)
    ensures Sum(s, data) == (s1, s2)
  {
    hide Sum;
    var t := Sum(s, data);
    assert 0 <= t.0 < BASE && 0 <= t.1 < BASE;
  }

  /** Any split of the data into calls gives the checksum of the whole. */
  method Checksum(chunks: seq<seq<byte>>, size: nat) returns (hash: seq<byte>)
    requires size <= 4
    ensures hash == BigEndian(0x10000 * Sum((1, 0), Flatten(chunks)).1 + Sum((1, 0), Flatten(chunks)).0, 4)[..size]
  {
    hide Sum, Flatten;
    var c := new Adler32();
    var i := 0;
    EmptyFlatten();
    assert chunks[..0] == [];
    while i < |chunks|
      invariant i <= |chunks| && c.Valid() && c.data == Flatten(chunks[..i])
    {
      FlattenNext(chunks, i);
      c.Update(chunks[i]);
      i := i + 1;
    }
    assert chunks[..|chunks|] == chunks;
    hash := c.TruncatedFinal(size);
  }

  // How far s2 can be from its last reduction when there are left more bytes to come.
  lemma StillSmall(pending: int, left: nat)
    requires 0 <= pending && left > 0 && left % 8 == 0 && pending + left % 0x8000 <= 0x8000
    requires left % 0x8000 == 0 ==> pending == 0
    ensures left >= 8 && BASE + (pending + 8) * (BASE + 255 * 8) < WORD
    ensures pending + 8 + (left - 8) % 0x8000 <= 0x8000
  {
  }

  lemma Begun(s: (int, int))
    ensures Ahead(s, [], s.0, s.1)
  {
  }

  // Reducing either sum, fully or by one base, leaves it ahead.
  lemma Reduced(s: (int, int), data: seq<byte>, s1: int, s2: int)
    requires Ahead(s, data, s1, s2)
    ensures Ahead(s, data, s1 - BASE, s2) && Ahead(s, data, s1, s2 % BASE) && Ahead(s, data, s1 - BASE, s2 % BASE)
  {
  }
}
