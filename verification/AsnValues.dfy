/** Object identifiers and unsigned integers of asn.cpp and asn.h, by sections 8.3 and 8.19 of X.690. */
module AsnValues {
  import opened Bits
  import opened Bytes
  import opened Options
  import opened Words
  import opened Asn

  // word32
  const WORD32 := 0x1_0000_0000
  const OBJECT_IDENTIFIER := 6
  const BOOLEAN := 1

  // ----- Subidentifiers -----

  // Seven bits an octet, most significant first, each with the top bit set.
  function Front(v: nat): (s: seq<byte>) {
    if v == 0 then [] else Front(v / 128) + [0x80 + v % 128]
  }

  // The last octet has the top bit clear.
  function Base128(v: nat): (s: seq<byte>)
    ensures s != []
  {
    Front(v / 128) + [v % 128]
  }

  // What the octets say, after those that said acc.
  function ReadValue(s: seq<byte>, acc: nat): (r: Option<(nat, nat)>)
    ensures r.Some? ==> 0 < r.value.1 <= |s|
    decreases |s|
  {
    if s == [] || acc >= 0x200_0000 then None
    else if s[0] < 0x80 then Some((acc * 128 + s[0], 1))
    else match ReadValue(s[1..], acc * 128 + (s[0] - 0x80))
      case None => None
      case Some((v, k)) => Some((v, k + 1))
  }

  function Later(r: Option<(nat, nat)>, k: nat): Option<(nat, nat)> {
    match r case None => None case Some((v, n)) => Some((v, n + k))
  }

  lemma ReadFront(x: nat, tail: seq<byte>)
    requires x < 0x200_0000
    ensures ReadValue(Front(x) + tail, 0) == Later(ReadValue(tail, x), |Front(x)|)
  {
    hide Front, ReadValue, Septets, Later;
    FrontOctets(x);
    if x > 0 { SeptetsGrow(Front(x)); }
    ReadsFront(Front(x), tail);
  }

  lemma ReadNext(d: byte, tail: seq<byte>, acc: nat)
    requires d >= 0x80 && acc < 0x200_0000
    ensures ReadValue([d] + tail, acc) == Later(ReadValue(tail, acc * 128 + (d - 0x80)), 1)
  {
    assert ([d] + tail)[1..] == tail;
  }

  lemma ReadBase128(v: nat, rest: seq<byte>)
    requires v < WORD32
    ensures ReadValue(Base128(v) + rest, 0) == Some((v, |Base128(v)|))
  {
    ReadFront(v / 128, [v % 128] + rest);
    assert Base128(v) + rest == Front(v / 128) + ([v % 128] + rest);
  }

  lemma ShiftSeven(v: nat, i: nat)
    ensures ShiftRight(v, i + 7) == ShiftRight(v, i) / 128
  {
    ShiftShift(v, i, 7);
    assert Pow2(7) == 128;
    ShiftIsDivision(ShiftRight(v, i), 7);
  }

  // The number that the low seven bits of the octets make, the first octet's highest.
  function Septets(s: seq<byte>): nat {
    if s == [] then 0 else 128 * Septets(s[..|s| - 1]) + s[|s| - 1] % 128
  }

  // Section 8.19.2: octets with the top bit set but the last one, the first not 80.
  lemma Base128Octets(v: nat)
    ensures var s := Base128(v);
            && Septets(s) == v && s[|s| - 1] < 0x80 && (|s| > 1 ==> s[0] > 0x80)
            && forall i :: 0 <= i < |s| - 1 ==> s[i] >= 0x80
  {
    hide Front, Septets;
    var s := Base128(v);
    FrontOctets(v / 128);
    SeptetsGrow(s);
    assert s[..|s| - 1] == Front(v / 128);
  }

  lemma {:induction false} FrontOctets(x: nat)
    ensures var s := Front(x);
            && Septets(s) == x && (s == [] <==> x == 0) && (s != [] ==> s[0] > 0x80)
            && forall i :: 0 <= i < |s| ==> s[i] >= 0x80
  {
    if x > 0 {
      FrontOctets(x / 128);
      FrontStep(x);
      LowSeptet(x);
      hide Front, Septets;
      var f := Front(x / 128);
      SeptetsGrow(Front(x));
      assert Front(x)[..|f|] == f;
    }
  }

  lemma LowSeptet(x: nat)
    ensures (0x80 + x % 128) % 128 == x % 128 && x == 128 * (x / 128) + x % 128
    ensures x > 0 && x / 128 == 0 ==> x % 128 > 0
  {
  }

  // Not more than 25 bits of number come before the last of these octets.
  predicate FrontFits(front: seq<byte>) {
    front == [] || Septets(front[..|front| - 1]) < 0x200_0000
  }

  lemma FrontFitsStep(init: seq<byte>, d: byte)
    ensures FrontFits(init + [d]) <==> Septets(init) < 0x200_0000
    ensures Septets(init) < 0x200_0000 ==> FrontFits(init)
    ensures d >= 0x80 ==> Septets(init + [d]) == Septets(init) * 128 + (d - 0x80)
  {
    assert (init + [d])[..|init|] == init;
    if init != [] { SeptetsGrow(init); }
  }

  // Reading goes past octets with the top bit set if they fit.
  lemma {:induction false} ReadsFront(front: seq<byte>, tail: seq<byte>)
    requires forall i :: 0 <= i < |front| ==> front[i] >= 0x80
    ensures ReadValue(front + tail, 0)
         == if FrontFits(front) then Later(ReadValue(tail, Septets(front)), |front|) else None
  {
    if front == [] {
      assert [] + tail == tail;
    } else {
      hide ReadValue, Septets, Later, FrontFits;
      var init, d := front[..|front| - 1], front[|front| - 1];
      assert init + [d] == front && front + tail == init + ([d] + tail);
      ReadsFront(init, [d] + tail);
      FrontFitsStep(init, d);
      if Septets(init) < 0x200_0000 {
        ReadNext(d, tail, Septets(init));
        LaterTwice(ReadValue(tail, Septets(front)), |init|);
      } else {
        ReadsNoMore([d] + tail, Septets(init));
        LaterTwice(None, |init|);
      }
    }
  }

  lemma LaterTwice(r: Option<(nat, nat)>, k: nat)
    ensures Later(Later(r, 1), k) == Later(r, k + 1) && Later(None, k) == None
  {
  }

  lemma SeptetsGrow(s: seq<byte>)
    requires s != []
    ensures Septets(s) == 128 * Septets(s[..|s| - 1]) + s[|s| - 1] % 128
  {
  }

  lemma ReadsNoMore(s: seq<byte>, acc: nat)
    requires acc >= 0x200_0000
    ensures ReadValue(s, acc) == None
  {
  }

  /** What any octets up to the first with the top bit clear say, in the shortest form or not: a number if fewer than 26
      bits of it come before the last octet. */
  lemma ReadsSeptets(s: seq<byte>, rest: seq<byte>)
    requires s != [] && s[|s| - 1] < 0x80 && forall i :: 0 <= i < |s| - 1 ==> s[i] >= 0x80
    ensures ReadValue(s + rest, 0)
         == if Septets(s[..|s| - 1]) < 0x200_0000 then Some((Septets(s), |s|)) else None
  {
    var front, last := s[..|s| - 1], s[|s| - 1];
    ReadsFront(front, [last] + rest);
    assert s + rest == front + ([last] + rest);
    assert ReadValue([last] + rest, Septets(front))
        == if Septets(front) < 0x200_0000 then Some((128 * Septets(front) + last, 1)) else None;
    if front != [] { SeptetsGrow(front); }
  }

  method EncodeValue(bt: ByteQueue, v: nat)
    requires v < WORD32
    modifies bt
    ensures bt.bytes == old(bt.bytes) + Base128(v)
  {
    hide ShiftRight, BitCount, Front;
    var bits := if BitCount(v) > 7 then BitCount(v) else 7;
    var i := (bits + 6) / 7 * 7 - 7;
    RoundedUp(bits);
    BitsPastTheEnd(v, i + 7);
    if i > 0 { HighPartNonzero(v, i); }
    FrontOfZero();
    while i != 0
      invariant 0 <= i && i % 7 == 0
      invariant bt.bytes == old(bt.bytes) + Front(ShiftRight(v, i + 7))
      invariant i > 0 ==> ShiftRight(v, i) > 0
    {
      ShiftSeven(v, i);
      ShiftSeven(v, i - 7);
      FrontStep(ShiftRight(v, i));
      bt.Put([0x80 + ShiftRight(v, i) % 128]);
      i := i - 7;
    }
    ShiftSeven(v, 0);
    ShiftByZero(v);
    bt.Put([v % 128]);
  }

  // The highest multiple of seven below a positive number of bits.
  lemma RoundedUp(bits: nat)
    requires bits >= 7
    ensures var i := (bits + 6) / 7 * 7 - 7; 0 <= i < bits <= i + 7 && i % 7 == 0
  {
  }

  lemma FrontOfZero()
    ensures Front(0) == []
  {
  }

  lemma FrontStep(x: nat)
    requires x > 0
    ensures Front(x) == Front(x / 128) + [0x80 + x % 128]
  {
  }

  method DecodeValue(bt: ByteQueue) returns (v: nat, i: nat, ok: bool)
    modifies bt
    ensures ok <==> ReadValue(old(bt.bytes), 0).Some?
    ensures ok ==> (v, i) == ReadValue(old(bt.bytes), 0).value && bt.bytes == old(bt.bytes)[i..]
  {
    ghost var s := bt.bytes;
    i, v, ok := 0, 0, false;
    while true
      invariant i <= |s| && bt.bytes == s[i..] && !ok
      invariant ReadValue(s, 0) == Later(ReadValue(s[i..], v), i)
      decreases |bt.bytes|
    {
      var b := bt.Get();
      if b.None? { return; }
      i := i + 1;
      if v / 0x200_0000 != 0 { return; }
      v := v * 128 + b.value % 128;
      if b.value < 0x80 {
        ok := true;
        return;
      }
    }
  }

  // ----- Object identifiers -----

  function Arcs(values: seq<nat>): seq<byte> {
    if values == [] then [] else Base128(values[0]) + Arcs(values[1..])
  }

  function OidContents(values: seq<nat>): seq<byte>
    requires |values| >= 2
  {
    [(values[0] * 40 + values[1]) % 256] + Arcs(values[2..])
  }

  function EncodedOid(values: seq<nat>): seq<byte>
    requires |values| >= 2
  {
    [OBJECT_IDENTIFIER] + LengthOctets(|OidContents(values)| % LWORD) + OidContents(values)
  }

  // RSA Data Security's identifier, { 1 2 840 113549 }.
  lemma KnownIdentifier()
    ensures EncodedOid([1, 2, 840, 113549]) == [0x06, 0x06, 0x2a, 0x86, 0x48, 0x86, 0xf7, 0x0d]
  {
    var v: seq<nat> := [1, 2, 840, 113549];
    FrontOfZero();
    FrontStep(6);
    FrontStep(887);
    hide Front;
    assert Base128(840) == [0x86, 0x48] && Base128(113549) == [0x86, 0xf7, 0x0d];
    hide Base128;
    assert v[2..] == [840, 113549];
    TwoArcs(840, 113549);
    hide Arcs;
    assert OidContents(v) == [0x2a, 0x86, 0x48, 0x86, 0xf7, 0x0d];
    hide OidContents;
    assert LengthOctets(6) == [6];
  }

  lemma TwoArcs(a: nat, b: nat)
    ensures Arcs([a, b]) == Base128(a) + Base128(b)
  {
    hide Base128;
    assert [a, b][1..] == [b] && [b][1..] == [];
    assert Arcs([b]) == Base128(b) + [];
  }

  // Subidentifiers that take exactly length octets.
  function ReadArcs(s: seq<byte>, length: nat): (r: Option<seq<nat>>)
    decreases length
  {
    if length == 0 then Some([])
    else match ReadValue(s, 0)
      case None => None
      case Some((v, k)) =>
        if k > length then None
        else match ReadArcs(s[k..], length - k)
          case None => None
          case Some(more) => Some([v] + more)
  }

  // An identifier and how many octets it takes.
  function ReadOid(s: seq<byte>): (r: Option<(seq<nat>, nat)>)
  {
    if s == [] || s[0] != OBJECT_IDENTIFIER then None
    else match ReadLength(s[1..])
      case None => None
      case Some((IndefiniteLength, _)) => None
      case Some((Definite(n), k)) =>
        if n < 1 || |s| <= 1 + k then None
        else match ReadArcs(s[2 + k..], n - 1)
          case None => None
          case Some(values) => Some(([s[1 + k] / 40, s[1 + k] % 40] + values, 1 + k + n))
  }

  lemma {:induction false} ReadArcsBack(values: seq<nat>, rest: seq<byte>)
    requires forall i :: 0 <= i < |values| ==> values[i] < WORD32
    ensures ReadArcs(Arcs(values) + rest, |Arcs(values)|) == Some(values)
  {
    if values != [] {
      var more := Arcs(values[1..]);
      ReadBase128(values[0], more + rest);
      assert Arcs(values) + rest == Base128(values[0]) + (more + rest);
      ReadArcsBack(values[1..], rest);
      assert [values[0]] + values[1..] == values;
    }
  }

  // Decoding an encoded identifier gives its arcs back, but for the first two, which share an octet.
  lemma OidReadBack(values: seq<nat>, rest: seq<byte>)
    requires |values| >= 2 && (forall i :: 0 <= i < |values| ==> values[i] < WORD32)
    requires |OidContents(values)| < LWORD
    ensures var b := (values[0] * 40 + values[1]) % 256;
            ReadOid(EncodedOid(values) + rest) == Some(([b / 40, b % 40] + values[2..], |EncodedOid(values)|))
  {
    hide LengthOctets, ReadLength, Arcs, ReadArcs;
    var contents := OidContents(values);
    var octets := LengthOctets(|contents|);
    var s := EncodedOid(values) + rest;
    var k := |octets|;
    assert s[1..] == octets + (contents + rest);
    ReadWritten(|contents|, contents + rest);
    assert s[1 + k..] == contents + rest;
    assert s[2 + k..] == Arcs(values[2..]) + rest by { assert s[2 + k..] == s[1 + k..][1..]; }
    ReadArcsBack(values[2..], rest);
  }

  /** The identifier comes back exactly when its first two arcs fit in one octet, the second below 40. */
  lemma OidRoundTrip(values: seq<nat>, rest: seq<byte>)
    requires |values| >= 2 && (forall i :: 0 <= i < |values| ==> values[i] < WORD32)
    requires |OidContents(values)| < LWORD
    ensures ReadOid(EncodedOid(values) + rest) == Some((values, |EncodedOid(values)|))
       <==> values[1] < 40 && values[0] * 40 + values[1] < 256
  {
    hide ReadOid, EncodedOid;
    OidReadBack(values, rest);
    var b := (values[0] * 40 + values[1]) % 256;
    var back := [b / 40, b % 40] + values[2..];
    assert values == [values[0], values[1]] + values[2..];
    assert back[0] == b / 40 && back[1] == b % 40;
  }

  method OidDEREncode(values: seq<nat>, bt: ByteQueue)
    requires |values| >= 2 && forall i :: 0 <= i < |values| ==> values[i] < WORD32
    modifies bt
    ensures bt.bytes == old(bt.bytes) + EncodedOid(values)
  {
    hide LengthOctets, Arcs;
    var temp := new ByteQueue();
    ByteOfWord(values[0] * 40 + values[1]);
    temp.Put([(values[0] * 40 + values[1]) % WORD32 % 256]);
    EncodeArcs(temp, values[2..]);
    bt.Put([OBJECT_IDENTIFIER]);
    var n := DERLengthEncode(bt, |temp.bytes| % LWORD);
    bt.Put(temp.bytes);
  }

  lemma ByteOfWord(x: nat)
    ensures 0 <= x % WORD32 && x % WORD32 % 256 == x % 256
  {
  }

  method EncodeArcs(temp: ByteQueue, values: seq<nat>)
    requires forall i :: 0 <= i < |values| ==> values[i] < WORD32
    modifies temp
    ensures temp.bytes == old(temp.bytes) + Arcs(values)
  {
    hide Base128, Arcs;
    var i := 0;
    assert values[0..] == values;
    while i < |values|
      invariant 0 <= i <= |values|
      invariant temp.bytes + Arcs(values[i..]) == old(temp.bytes) + Arcs(values)
    {
      NextArc(values, i);
      assert temp.bytes + (Base128(values[i]) + Arcs(values[i + 1..]))
          == (temp.bytes + Base128(values[i])) + Arcs(values[i + 1..]);
      EncodeValue(temp, values[i]);
      i := i + 1;
    }
    NoArcs();
    assert values[i..] == [] && temp.bytes + [] == temp.bytes;
  }

  lemma NextArc(values: seq<nat>, i: nat)
    requires i < |values|
    ensures Arcs(values[i..]) == Base128(values[i]) + Arcs(values[i + 1..])
  {
    assert values[i..][1..] == values[i + 1..];
  }

  lemma NoArcs()
    ensures Arcs([]) == []
  {
  }

  method OidBERDecode(bt: ByteQueue) returns (values: Option<seq<nat>>)
    modifies bt
    ensures values.Some? <==> ReadOid(old(bt.bytes)).Some?
    ensures values.Some? ==> values.value == ReadOid(old(bt.bytes)).value.0
    ensures values.Some? ==> ReadOid(old(bt.bytes)).value.1 <= |old(bt.bytes)|
    ensures values.Some? ==> bt.bytes == old(bt.bytes)[ReadOid(old(bt.bytes)).value.1..]
  {
    hide ReadLength, ReadArcs;
    ghost var s := bt.bytes;
    var b := bt.Get();
    if b.None? || b.value != OBJECT_IDENTIFIER { return None; }
    var n := BERLengthDecode(bt);
    if n.None? || n.value.IndefiniteLength? || n.value.length < 1 { return None; }
    b := bt.Get();
    if b.None? { return None; }
    ghost var k := ReadLength(s[1..]).value.1;
    assert bt.bytes == s[2 + k..];
    var more := DecodeArcs(bt, n.value.length - 1);
    if more.None? { return None; }
    values := Some([b.value / 40, b.value % 40] + more.value);
  }

  // The loop over the remaining length.
  method DecodeArcs(bt: ByteQueue, total: nat) returns (values: Option<seq<nat>>)
    modifies bt
    ensures values == ReadArcs(old(bt.bytes), total)
    ensures values.Some? ==> total <= |old(bt.bytes)| && bt.bytes == old(bt.bytes)[total..]
  {
    hide ReadValue;
    ghost var s := bt.bytes;
    var length, sofar := total, [];
    assert forall r: Option<seq<nat>> :: Joined([], r) == r by { JoinNothing(); }
    while length > 0
      invariant 0 <= length <= total && total - length <= |s| && bt.bytes == s[total - length..]
      invariant ReadArcs(s, total) == Joined(sofar, ReadArcs(bt.bytes, length))
    {
      ghost var here := bt.bytes;
      var v, k, ok := DecodeValue(bt);
      if !ok || k > length { return None; }
      JoinMore(sofar, v, ReadArcs(here[k..], length - k));
      sofar := sofar + [v];
      length := length - k;
    }
    assert sofar + [] == sofar;
    values := Some(sofar);
  }

  function Joined(a: seq<nat>, r: Option<seq<nat>>): Option<seq<nat>> {
    match r case None => None case Some(b) => Some(a + b)
  }

  lemma JoinNothing()
    ensures forall r: Option<seq<nat>> :: Joined([], r) == r
  {
    forall r: Option<seq<nat>>
      ensures Joined([], r) == r
    {
      if r.Some? { assert [] + r.value == r.value; }
    }
  }

  lemma JoinMore(a: seq<nat>, v: nat, r: Option<seq<nat>>)
    ensures Joined(a, Joined([v], r)) == Joined(a + [v], r)
  {
    if r.Some? { assert a + ([v] + r.value) == (a + [v]) + r.value; }
  }

  // ----- Unsigned integers -----

  // The shortest two's complement form of a number that is not negative.
  function UnsignedOctets(w: nat): (s: seq<byte>) {
    var p := if w == 0 then 1 else BytePrecision(w);
    (if w >= 0x80 * Pow256(p - 1) then [0] else []) + BigEndian(w, p)
  }

  lemma {:induction false} LeadingOctet(w: nat, n: nat)
    requires n > 0 && w < Pow256(n)
    ensures BigEndian(w, n)[0] == 0 <==> w < Pow256(n - 1)
    ensures BigEndian(w, n)[0] >= 0x80 <==> w >= 0x80 * Pow256(n - 1)
  {
    if n > 1 {
      LeadingOctet(w / 256, n - 1);
      assert 0x80 * Pow256(n - 1) == 256 * (0x80 * Pow256(n - 2));
    }
  }

  // Section 8.3: the octets' value, the sign bit clear, and not the first nine bits all zero.
  lemma UnsignedIsShortest(w: nat)
    ensures var s := UnsignedOctets(w);
            s != [] && Value(s) == w && s[0] < 0x80 && (|s| > 1 && s[0] == 0 ==> s[1] >= 0x80)
  {
    hide BigEndian, Value, BytePrecision, Pow256;
    var p := if w == 0 then 1 else BytePrecision(w);
    BytePrecisionBounds(w);
    OnePower();
    ValueOfBigEndian(w, p);
    LeadingOctet(w, p);
    if w >= 0x80 * Pow256(p - 1) {
      LeadingZero([0] + BigEndian(w, p));
      assert ([0] + BigEndian(w, p))[1..] == BigEndian(w, p);
    } else {
      assert [] + BigEndian(w, p) == BigEndian(w, p);
    }
  }

  lemma OnePower()
    ensures Pow256(0) == 1 && Pow256(1) == 256
  {
    assert Pow256(1) == 256 * Pow256(0);
  }

  function UnsignedContents(w: nat, tag: byte): seq<byte> {
    if tag == BOOLEAN then [if w != 0 then 0xff else 0] else UnsignedOctets(w)
  }

  function EncodedUnsigned(w: nat, size: nat, tag: byte): seq<byte>
    requires size <= 8 && w < Pow256(size)
  {
    [tag] + LengthOctets(|UnsignedContents(w, tag)| % LWORD) + UnsignedContents(w, tag)
  }

  lemma ShortestIsSize(w: nat, bc: nat)
    requires bc > 0 && w < Pow256(bc) && (bc > 1 ==> w >= Pow256(bc - 1))
    ensures bc == if w == 0 then 1 else BytePrecision(w)
  {
    BytePrecisionAtMost(w, bc);
    BytePrecisionBounds(w);
    if w > 0 && BytePrecision(w) < bc {
      Pow256Monotone(BytePrecision(w), bc - 1);
    }
  }

  lemma {:induction false} Pow256Monotone(a: nat, b: nat)
    requires a <= b
    ensures Pow256(a) <= Pow256(b)
  {
    if a < b { Pow256Monotone(a, b - 1); }
  }

  // How many octets at the end of the buffer the number takes, a zero included where the first one looks negative.
  method CountOctets(buf: seq<byte>, w: nat, size: nat) returns (bc: nat)
    requires 1 <= size && w < Pow256(size) && buf == [0] + BigEndian(w, size)
    ensures 1 <= bc <= size + 1 && buf[size + 1 - bc..] == UnsignedOctets(w)
  {
    hide BigEndian, BytePrecision, Pow256;
    bc := SkipZeros(buf, w, size);
    LeadingOctet(w, bc);
    ShortestIsSize(w, bc);
    assert [] + BigEndian(w, bc) == BigEndian(w, bc);
    if buf[size + 1 - bc] >= 0x80 {
      bc := bc + 1;
      PrecedingZero(buf, w, size, bc - 1);
    }
  }

  // The loop past the leading zeros.
  method SkipZeros(buf: seq<byte>, w: nat, size: nat) returns (bc: nat)
    requires 1 <= size && w < Pow256(size) && buf == [0] + BigEndian(w, size)
    ensures 1 <= bc <= size && w < Pow256(bc) && buf[size + 1 - bc..] == BigEndian(w, bc)
    ensures bc > 1 ==> buf[size + 1 - bc] != 0
  {
    hide BigEndian, Pow256;
    bc := size;
    BigEndianSuffix(w, bc, size);
    while bc > 1 && buf[size + 1 - bc] == 0
      invariant 1 <= bc <= size && w < Pow256(bc)
      invariant buf[size + 1 - bc..] == BigEndian(w, bc)
    {
      LeadingOctet(w, bc);
      bc := bc - 1;
      BigEndianSuffix(w, bc, size);
      assert buf[size + 1 - bc..] == BigEndian(w, size)[size - bc..];
    }
  }

  // size is sizeof(T)
  method DEREncodeUnsigned(out: ByteQueue, w: nat, size: nat, tag: byte) returns (total: nat)
    requires 1 <= size <= 8 && w < Pow256(size)
    modifies out
    ensures out.bytes == old(out.bytes) + EncodedUnsigned(w, size, tag)
    ensures total == |EncodedUnsigned(w, size, tag)|
  {
    hide LengthOctets, BigEndian, UnsignedOctets, Pow256;
    var buf: seq<byte>;
    var bc: nat;
    if tag == BOOLEAN {
      buf := Zeros(size) + [if w != 0 then 0xff else 0];
      bc := 1;
    } else {
      buf := [0] + BigEndian(w, size);
      bc := CountOctets(buf, w, size);
    }
    ghost var was, contents := out.bytes, buf[size + 1 - bc..];
    assert contents == UnsignedContents(w, tag) && |contents| == bc;
    out.Put([tag]);
    var lengthBytes := DERLengthEncode(out, bc);
    out.Put(buf[size + 1 - bc..]);
    assert was + [tag] + LengthOctets(bc) + contents == was + ([tag] + LengthOctets(bc) + contents);
    total := 1 + lengthBytes + bc;
  }

  // The octet before the significant ones is zero.
  lemma PrecedingZero(buf: seq<byte>, w: nat, size: nat, bc: nat)
    requires 1 <= bc <= size && buf == [0] + BigEndian(w, size) && w < Pow256(bc)
    ensures buf[size - bc..] == [0] + BigEndian(w, bc)
  {
    BigEndianSuffix(w, bc, size);
    if bc < size {
      BigEndianSuffix(w, bc + 1, size);
      Pow256Monotone(bc, bc + 1);
      LeadingOctet(w, bc + 1);
      BigEndianSuffix(w, bc, bc + 1);
      assert BigEndian(w, bc + 1) == [BigEndian(w, bc + 1)[0]] + BigEndian(w, bc + 1)[1..];
      assert buf[size - bc..] == BigEndian(w, size)[size - bc - 1..];
    }
  }

  // The value in range that the octets say, and how many they are. An indefinite length sets no length: what the
  // variable holds then, `unset`, is taken for it.
  function ReadUnsigned(s: seq<byte>, size: nat, tag: byte, min: nat, max: nat, unset: nat): (r: Option<(nat, nat)>) {
    if s == [] || s[0] != tag then None
    else match ReadLength(s[1..])
      case None => None
      case Some((length, k)) =>
        var n := if length.Definite? then length.length else unset;
        if |s| < 1 + k + n then None
        else
          var v := Value(s[1 + k..1 + k + n]);
          if v < Pow256(size) && min <= v <= max then Some((v, 1 + k + n)) else None
  }

  lemma {:induction false} LeadingZero(s: seq<byte>)
    requires s != [] && s[0] == 0
    ensures Value(s) == Value(s[1..])
  {
    if |s| > 1 {
      var t := s[..|s| - 1];
      LeadingZero(t);
      assert s[1..][..|s| - 2] == t[1..];
    }
  }

  lemma {:induction false} LeadingNonzero(s: seq<byte>)
    requires s != [] && s[0] != 0
    ensures Value(s) >= Pow256(|s| - 1)
  {
    if |s| > 1 { LeadingNonzero(s[..|s| - 1]); }
  }

  // Whether the length is definite is not looked at.
  method BERDecodeUnsigned(bt: ByteQueue, size: nat, tag: byte, min: nat, max: nat, unset: nat) returns (w: Option<nat>)
    requires 1 <= size <= 8
    modifies bt
    ensures w.Some? <==> ReadUnsigned(old(bt.bytes), size, tag, min, max, unset).Some?
    ensures w.Some? ==> w.value == ReadUnsigned(old(bt.bytes), size, tag, min, max, unset).value.0
    ensures w.Some? ==> bt.bytes == old(bt.bytes)[ReadUnsigned(old(bt.bytes), size, tag, min, max, unset).value.1..]
  {
    hide ReadLength, Pow256, Value;
    ghost var s := bt.bytes;
    var b := bt.Get();
    if b.None? || b.value != tag { return None; }
    var length := BERLengthDecode(bt);
    if length.None? { return None; }
    var bc := if length.value.Definite? then length.value.length else unset;
    var buf := bt.Take(bc);
    if |buf| != bc { return None; }
    ghost var k := ReadLength(s[1..]).value.1;
    assert s[1..][k..] == s[1 + k..];
    assert buf == s[1 + k..1 + k + |buf|] && bt.bytes == s[1 + k + |buf|..];
    var v := ReadBytes(buf, size);
    if v.None? || v.value < min || v.value > max { return None; }
    w := v;
  }

  // Leading zeros beyond the type's size are skipped, then the octets are gathered.
  method ReadBytes(buf: seq<byte>, size: nat) returns (w: Option<nat>)
    requires size > 0
    ensures w == if Value(buf) < Pow256(size) then Some(Value(buf)) else None
  {
    hide Pow256;
    var start := 0;
    assert buf[0..] == buf;
    while |buf| - start > size && buf[start] == 0
      invariant start <= |buf| && Value(buf[start..]) == Value(buf)
    {
      LeadingZero(buf[start..]);
      assert buf[start..][1..] == buf[start + 1..];
      start := start + 1;
    }
    var ptr := buf[start..];
    BigEndianOfValue(ptr);
    if |ptr| > size {
      LeadingNonzero(ptr);
      Pow256Monotone(size, |ptr| - 1);
      return None;
    }
    Pow256Monotone(|ptr|, size);
    var v: nat := 0;
    assert ptr[..0] == [];
    for i := 0 to |ptr|
      invariant v == Value(ptr[..i])
    {
      assert ptr[..i + 1][..i] == ptr[..i];
      v := v * 256 + ptr[i];
    }
    assert ptr[..|ptr|] == ptr;
    w := Some(v);
  }

  lemma ValueOfUnsigned(w: nat)
    ensures Value(UnsignedOctets(w)) == w
  {
    hide Value, BigEndian, Pow256, BytePrecision;
    var p := if w == 0 then 1 else BytePrecision(w);
    BytePrecisionBounds(w);
    ValueOfBigEndian(w, p);
    if w >= 0x80 * Pow256(p - 1) {
      LeadingZero([0] + BigEndian(w, p));
      assert ([0] + BigEndian(w, p))[1..] == BigEndian(w, p);
    } else {
      assert [] + BigEndian(w, p) == BigEndian(w, p);
    }
  }

  lemma UnsignedSize(w: nat, size: nat)
    requires size <= 8 && w < Pow256(size)
    ensures |UnsignedOctets(w)| <= 9
  {
    BytePrecisionAtMost(w, size);
  }

  /** A number in range comes back, but that a boolean comes back as 0 or 255. */
  lemma UnsignedRoundTrip(w: nat, size: nat, tag: byte, min: nat, max: nat, unset: nat, rest: seq<byte>)
    requires 1 <= size <= 8 && w < Pow256(size)
    ensures var v := if tag != BOOLEAN then w else if w != 0 then 0xff else 0;
            ReadUnsigned(EncodedUnsigned(w, size, tag) + rest, size, tag, min, max, unset)
              == if min <= v <= max then Some((v, |EncodedUnsigned(w, size, tag)|)) else None
  {
    hide ReadUnsigned, UnsignedOctets, Value, Pow256;
    var contents := UnsignedContents(w, tag);
    UnsignedSize(w, size);
    ValueOfUnsigned(w);
    SmallValue(contents, size);
    ReadContents(contents, size, tag, min, max, unset, rest);
  }

  lemma ReadContents(contents: seq<byte>, size: nat, tag: byte, min: nat, max: nat, unset: nat, rest: seq<byte>)
    requires |contents| < LWORD
    ensures var v, s := Value(contents), [tag] + LengthOctets(|contents|) + contents;
            ReadUnsigned(s + rest, size, tag, min, max, unset)
              == if v < Pow256(size) && min <= v <= max then Some((v, |s|)) else None
  {
    hide LengthOctets, ReadLength, Value, Pow256;
    var s, k := [tag] + LengthOctets(|contents|) + contents + rest, |LengthOctets(|contents|)|;
    assert s[1..] == LengthOctets(|contents|) + (contents + rest);
    ReadWritten(|contents|, contents + rest);
    assert s[1 + k..1 + k + |contents|] == contents;
  }

  lemma SmallValue(contents: seq<byte>, size: nat)
    requires size >= 1
    ensures |contents| == 1 ==> Value(contents) == contents[0] < Pow256(size)
  {
    if |contents| == 1 {
      assert Value(contents[..0]) == 0;
      Pow256Monotone(1, size);
    }
  }
}
