/** BER decoding and DER encoding of asn.cpp and asn.h: lengths, values, object identifiers and unsigned integers, by
    X.690, sections 8.1.3, 8.3, 8.19 and 10.1. */
module Asn {
  import opened Bytes
  import opened Options
  import opened Words

  // lword and size_t
  const LWORD := 0x1_0000_0000_0000_0000

  // ----- Lengths -----

  function BytePrecision(v: nat): nat {
    if v == 0 then 0 else 1 + BytePrecision(v / 256)
  }

  lemma {:induction false} BytePrecisionBounds(v: nat)
    ensures v < Pow256(BytePrecision(v))
    ensures v > 0 ==> BytePrecision(v) > 0 && Pow256(BytePrecision(v) - 1) <= v
  {
    if v > 0 { BytePrecisionBounds(v / 256); }
  }

  lemma {:induction false} BytePrecisionAtMost(v: nat, n: nat)
    requires v < Pow256(n)
    ensures BytePrecision(v) <= n
  {
    if v > 0 { BytePrecisionAtMost(v / 256, n - 1); }
  }

  lemma LwordBytes()
    ensures Pow256(8) == LWORD
  {
    assert Pow256(4) == 0x1_0000_0000;
    assert Pow256(8) == 256 * (256 * (256 * (256 * Pow256(4))));
  }

  // The shortest form of a length.
  function LengthOctets(n: nat): (s: seq<byte>)
    requires n < LWORD
    ensures 1 <= |s| <= 9
  {
    LwordBytes();
    BytePrecisionAtMost(n, 8);
    if n <= 0x7f then [n] else [0x80 + BytePrecision(n)] + BigEndian(n, BytePrecision(n))
  }

  datatype Length = Definite(length: nat) | IndefiniteLength

  // What length octets say and how many there are, by the sequence of octets; none where they end too soon or where
  // the length does not fit.
  function ReadLength(s: seq<byte>): (r: Option<(Length, nat)>)
    ensures r.Some? ==> 1 <= r.value.1 <= |s|
    ensures r.Some? && r.value.0.Definite? ==> r.value.0.length < LWORD
  {
    if s == [] then None
    else if s[0] < 0x80 then Some((Definite(s[0]), 1))
    else if s[0] == 0x80 then Some((IndefiniteLength, 1))
    else if |s| < 1 + (s[0] - 0x80) then None
    else
      var v := Value(s[1..1 + (s[0] - 0x80)]);
      if v < LWORD then Some((Definite(v), 1 + (s[0] - 0x80))) else None
  }

  lemma {:induction false} ReadWritten(n: nat, rest: seq<byte>)
    requires n < LWORD
    ensures ReadLength(LengthOctets(n) + rest) == Some((Definite(n), |LengthOctets(n)|))
  {
    LwordBytes();
    BytePrecisionAtMost(n, 8);
    if n > 0x7f {
      var p := BytePrecision(n);
      var s := LengthOctets(n) + rest;
      BytePrecisionBounds(n);
      ValueOfBigEndian(n, p);
      assert s[1..1 + p] == BigEndian(n, p);
    }
  }

  // No octets that say the same length are fewer.
  lemma ShortestLength(n: nat, s: seq<byte>)
    requires n < LWORD && ReadLength(s) == Some((Definite(n), |s|))
    ensures |LengthOctets(n)| <= |s|
  {
    if s[0] >= 0x80 {
      BigEndianOfValue(s[1..]);
      assert s[1..1 + (s[0] - 0x80)] == s[1..];
      BytePrecisionAtMost(n, |s| - 1);
      if n <= 0x7f { assert |LengthOctets(n)| == 1; }
    }
  }

  // ----- Queues of bytes -----

  class ByteQueue {
    var bytes: seq<byte>

    constructor ()
      ensures bytes == []
    {
      bytes := [];
    }

    method Put(s: seq<byte>)
      modifies this
      ensures bytes == old(bytes) + s
    {
      bytes := bytes + s;
    }

    method Get() returns (b: Option<byte>)
      modifies this
      ensures old(bytes) == [] ==> b == None && bytes == []
      ensures old(bytes) != [] ==> b == Some(old(bytes)[0]) && bytes == old(bytes)[1..]
    {
      if bytes == [] { return None; }
      b := Some(bytes[0]);
      bytes := bytes[1..];
    }

    // As many of the wanted bytes as there are.
    method Take(wanted: nat) returns (s: seq<byte>)
      modifies this
      ensures |s| == (if wanted < |old(bytes)| then wanted else |old(bytes)|)
      ensures s == old(bytes)[..|s|] && bytes == old(bytes)[|s|..]
    {
      var n := if wanted < |bytes| then wanted else |bytes|;
      s := bytes[..n];
      bytes := bytes[n..];
    }
  }

  method DERLengthEncode(bt: ByteQueue, length: nat) returns (i: nat)
    requires length < LWORD
    modifies bt
    ensures bt.bytes == old(bt.bytes) + LengthOctets(length)
    ensures i == |LengthOctets(length)|
  {
    if length <= 0x7f {
      bt.Put([length]);
      i := 1;
    } else {
      LwordBytes();
      BytePrecisionAtMost(length, 8);
      var p := BytePrecision(length);
      bt.Put([0x80 + p]);
      i := 1;
      var j := p;
      while j > 0
        invariant 0 <= j <= p && i == 1 + (p - j)
        invariant bt.bytes == old(bt.bytes) + [0x80 + p] + BigEndian(ShiftedDown(length, j), p - j)
      {
        ShiftedStep(length, j);
        ghost var before := bt.bytes;
        bt.Put([ShiftedDown(length, j - 1) % 256]);
        assert bt.bytes == old(bt.bytes) + [0x80 + p] + BigEndian(ShiftedDown(length, j - 1), p - j + 1);
        j := j - 1;
        i := i + 1;
      }
      assert old(bt.bytes) + [0x80 + p] + BigEndian(length, p) == old(bt.bytes) + ([0x80 + p] + BigEndian(length, p));
    }
  }

  // length >> 8*j
  function ShiftedDown(v: nat, j: nat): nat {
    if j == 0 then v else ShiftedDown(v, j - 1) / 256
  }

  lemma ShiftedStep(v: nat, j: nat)
    requires j > 0
    ensures ShiftedDown(v, j) == ShiftedDown(v, j - 1) / 256
  {
  }

  // None where the source returns false or throws, both of which its caller turns into an error.
  method BERLengthDecode(bt: ByteQueue) returns (r: Option<Length>)
    modifies bt
    ensures r.Some? <==> ReadLength(old(bt.bytes)).Some?
    ensures r.Some? ==> r.value == ReadLength(old(bt.bytes)).value.0
    ensures r.Some? ==> bt.bytes == old(bt.bytes)[ReadLength(old(bt.bytes)).value.1..]
  {
    ghost var s := bt.bytes;
    var b := bt.Get();
    if b.None? { return None; }
    if b.value < 0x80 { return Some(Definite(b.value)); }
    var lengthBytes := b.value - 0x80;
    if lengthBytes == 0 { return Some(IndefiniteLength); }
    var length: nat := 0;
    ghost var n := 0;
    assert s[1..1] == [];
    while lengthBytes > 0
      invariant 0 <= lengthBytes && n + lengthBytes == s[0] - 0x80 && s != [] && 1 + n <= |s|
      invariant bt.bytes == s[1 + n..] && length == Value(s[1..1 + n]) < LWORD
    {
      lengthBytes := lengthBytes - 1;
      if length / 0x100_0000_0000_0000 != 0 {
        TooLong(s, n);
        return None;
      }
      b := bt.Get();
      if b.None? { return None; }
      assert s[1..1 + n + 1][..n] == s[1..1 + n];
      length := length * 256 + b.value;
      n := n + 1;
    }
    r := Some(Definite(length));
  }

  // A number that overflows stays too large whatever octets follow.
  lemma TooLong(s: seq<byte>, n: nat)
    requires s != [] && 0x80 + n < s[0] && 1 + n <= |s| && Value(s[1..1 + n]) >= 0x100_0000_0000_0000
    ensures ReadLength(s) == None
  {
    var m := s[0] - 0x80;
    if 1 + m <= |s| {
      var t := s[1..1 + m];
      assert t[..n] == s[1..1 + n];
      ValueGrows(t, n);
    }
  }

  lemma {:induction false} ValueGrows(t: seq<byte>, n: nat)
    requires n < |t|
    ensures Value(t) >= 256 * Value(t[..n])
    decreases |t|
  {
    var u := t[..|t| - 1];
    if n < |u| {
      ValueGrows(u, n);
      assert u[..n] == t[..n];
    }
  }

  // ----- Values -----

  // A value as it was sent: bodies of definite length are not looked into.
  datatype Tree = Leaf(tag: byte, body: seq<byte>) | Node(tag: byte, kids: seq<Tree>)

  predicate Constructed(tag: byte) {
    tag / 0x20 % 2 == 1
  }

  // The value at the beginning of s and how many octets it takes.
  function Parse(s: seq<byte>): (r: Option<(Tree, nat)>)
    ensures r.Some? ==> 2 <= r.value.1 <= |s|
    decreases |s|, 0
  {
    if s == [] then None
    else match ReadLength(s[1..])
      case None => None
      case Some((Definite(n), k)) =>
        if 1 + k + n <= |s| then Some((Leaf(s[0], s[1 + k..1 + k + n]), 1 + k + n)) else None
      case Some((IndefiniteLength, k)) =>
        if !Constructed(s[0]) then None
        else match ParseKids(s[1 + k..])
          case None => None
          case Some((kids, m)) => Some((Node(s[0], kids), 1 + k + m))
  }

  // Values up to the two zero octets that end them.
  function ParseKids(s: seq<byte>): (r: Option<(seq<Tree>, nat)>)
    ensures r.Some? ==> 2 <= r.value.1 <= |s|
    decreases |s|, 1
  {
    if |s| >= 2 && s[0] == 0 && s[1] == 0 then Some(([], 2))
    else match Parse(s)
      case None => None
      case Some((t, k)) =>
        match ParseKids(s[k..])
        case None => None
        case Some((kids, m)) => Some(([t] + kids, k + m))
  }

  // The distinguished encoding: every length definite and shortest.
  function Der(t: Tree): (s: seq<byte>)
    ensures s != [] && s[0] == t.tag
  {
    var content := match t case Leaf(_, body) => body case Node(_, kids) => DerAll(kids);
    [t.tag] + LengthOctets(|content| % LWORD) + content
  }

  function DerAll(kids: seq<Tree>): seq<byte> {
    if kids == [] then [] else Der(kids[0]) + DerAll(kids[1..])
  }

  // Any encoding of t that the basic rules allow, its constructed values of definite or indefinite length.
  ghost predicate Encodes(s: seq<byte>, t: Tree)
    decreases |s|, 0
  {
    && s != [] && s[0] == t.tag
    && var r := ReadLength(s[1..]);
       r.Some? &&
       var k := 1 + r.value.1;
       match t
       case Leaf(_, body) => r.value.0 == Definite(|body|) && s[k..] == body
       case Node(_, kids) =>
         && Constructed(t.tag)
         && match r.value.0
            case Definite(n) => n == |s| - k && EncodeAll(s[k..], kids)
            case IndefiniteLength => |s| >= k + 2 && s[|s| - 2..] == [0, 0] && EncodeAll(s[k..|s| - 2], kids)
  }

  // s is encodings of the values, one after the other.
  ghost predicate EncodeAll(s: seq<byte>, kids: seq<Tree>)
    decreases |s|, 1
  {
    if kids == [] then s == []
    else exists k :: 0 < k <= |s| && Encodes(s[..k], kids[0]) && EncodeAll(s[k..], kids[1..])
  }

  lemma ReadLengthTake(s: seq<byte>, n: nat)
    requires ReadLength(s).Some? && ReadLength(s).value.1 <= n <= |s|
    ensures ReadLength(s[..n]) == ReadLength(s)
  {
    if s[0] > 0x80 {
      assert s[..n][1..1 + (s[0] - 0x80)] == s[1..1 + (s[0] - 0x80)];
    }
  }

  lemma LeafEncoded(u: seq<byte>, tag: byte, body: seq<byte>, k: nat)
    requires u != [] && u[0] == tag && ReadLength(u[1..]) == Some((Definite(|body|), k)) && u[1 + k..] == body
    ensures Encodes(u, Leaf(tag, body))
  {
    hide ReadLength;
  }

  lemma NodeEncoded(u: seq<byte>, tag: byte, kids: seq<Tree>, k: nat)
    requires u != [] && u[0] == tag && Constructed(tag) && ReadLength(u[1..]) == Some((IndefiniteLength, k))
    requires |u| >= k + 3 && u[|u| - 2..] == [0, 0] && EncodeAll(u[1 + k..|u| - 2], kids)
    ensures Encodes(u, Node(tag, kids))
  {
    hide ReadLength, EncodeAll;
  }

  lemma Slices(s: seq<byte>, n: nat, k: nat)
    requires k + 2 <= n <= |s|
    ensures s[..n][n - 2..] == s[k..][n - k - 2..n - k] && s[..n][k..n - 2] == s[k..][..n - k - 2]
  {
  }

  // What is parsed is encoded by the octets that were read.
  lemma {:induction false} ParsedIsEncoded(s: seq<byte>)
    requires Parse(s).Some?
    ensures Encodes(s[..Parse(s).value.1], Parse(s).value.0)
    decreases |s|, 0
  {
    hide ReadLength, ParseKids, EncodeAll, Encodes;
    var (t, n) := Parse(s).value;
    var u, k := s[..n], ReadLength(s[1..]).value.1;
    assert u[1..] == s[1..][..n - 1];
    ReadLengthTake(s[1..], n - 1);
    if t.Node? {
      KidsAreEncoded(s[1 + k..]);
      Slices(s, n, 1 + k);
      NodeEncoded(u, t.tag, t.kids, k);
    } else {
      LeafEncoded(u, t.tag, t.body, k);
    }
  }

  lemma {:induction false} KidsAreEncoded(s: seq<byte>)
    requires ParseKids(s).Some?
    ensures var (kids, m) := ParseKids(s).value; s[m - 2..m] == [0, 0] && EncodeAll(s[..m - 2], kids)
    decreases |s|, 1
  {
    hide Parse, ParseKids, Encodes, EncodeAll;
    if |s| >= 2 && s[0] == 0 && s[1] == 0 {
      KidsEnd(s);
      NoKids(s[..0]);
    } else {
      KidsStep(s);
      var (t, k) := Parse(s).value;
      var (more, n) := ParseKids(s[k..]).value;
      ParsedIsEncoded(s);
      KidsAreEncoded(s[k..]);
      SlicesBehind(s, k, n);
      OneMoreKid(s[..k + n - 2], k, t, more);
    }
  }

  lemma KidsEnd(s: seq<byte>)
    requires |s| >= 2 && s[0] == 0 && s[1] == 0
    ensures ParseKids(s) == Some(([], 2))
  {
  }

  lemma KidsStep(s: seq<byte>)
    requires ParseKids(s).Some? && !(|s| >= 2 && s[0] == 0 && s[1] == 0)
    ensures Parse(s).Some? && ParseKids(s[Parse(s).value.1..]).Some?
    ensures var (t, k) := Parse(s).value;
            var (more, n) := ParseKids(s[k..]).value;
            ParseKids(s).value == ([t] + more, k + n)
  {
    hide Parse;
    var (t, k) := Parse(s).value;
    var (more, n) := ParseKids(s[k..]).value;
  }

  lemma SlicesBehind(s: seq<byte>, k: nat, n: nat)
    requires 2 <= n && k + n <= |s|
    ensures s[..k + n - 2][..k] == s[..k] && s[..k + n - 2][k..] == s[k..][..n - 2]
    ensures s[k + n - 2..k + n] == s[k..][n - 2..n]
  {
  }

  lemma NoKids(s: seq<byte>)
    requires s == []
    ensures EncodeAll(s, [])
  {
  }

  lemma OneMoreKid(s: seq<byte>, k: nat, t: Tree, kids: seq<Tree>)
    requires 0 < k <= |s| && Encodes(s[..k], t) && EncodeAll(s[k..], kids)
    ensures EncodeAll(s, [t] + kids)
  {
    hide Encodes;
    assert ([t] + kids)[1..] == kids;
  }

  // ----- The basic encoding rules, octet by octet -----

  // Section 8.1.3: these octets say the definite length n, in short form or in any long form that fits.
  ghost predicate SaysLength(s: seq<byte>, n: nat) {
    || (|s| == 1 && s[0] == n <= 127)
    || (2 <= |s| <= 128 && s[0] == 128 + (|s| - 1) && n == Value(s[1..]) < LWORD)
  }

  lemma LengthIsRead(s: seq<byte>, n: nat, k: nat)
    ensures ReadLength(s) == Some((Definite(n), k)) <==> k <= |s| && SaysLength(s[..k], n)
    ensures ReadLength(s) == Some((IndefiniteLength, k)) <==> s != [] && s[0] == 128 && k == 1
  {
    if k <= |s| && k > 0 { assert s[..k][1..] == s[1..k]; }
  }

  // A long form may begin with zero octets.
  lemma LongFormsAreRead(t: seq<byte>, rest: seq<byte>)
    requires 1 <= |t| <= 127 && Value(t) < LWORD
    ensures ReadLength([128 + |t|] + t + rest) == Some((Definite(Value(t)), 1 + |t|))
  {
    var s := [128 + |t|] + t;
    assert (s + rest)[..1 + |t|] == s && s[1..] == t;
    LengthIsRead(s + rest, Value(t), 1 + |t|);
  }

  // Section 8.1.2: class, primitive or constructed, number.
  ghost predicate ConstructedTag(tag: nat) {
    exists class_: nat, number: nat :: class_ < 4 && number < 32 && tag == TagOctet(class_, true, number)
  }

  function TagOctet(class_: nat, constructed: bool, number: nat): nat {
    64 * class_ + (if constructed then 32 else 0) + number
  }

  lemma ConstructedBit(tag: byte)
    ensures Constructed(tag) <==> ConstructedTag(tag)
  {
    if Constructed(tag) {
      assert tag == TagOctet(tag / 64, true, tag % 32);
    }
  }

  // s is what was sent for t: one value, its body as it is if its length is definite, else its parts and two zero octets.
  ghost predicate Sent(s: seq<byte>, t: Tree)
    decreases |s|, 0
  {
    |s| >= 2 && s[0] == t.tag &&
    match t
    case Leaf(_, body) => |body| < |s| && SaysLength(s[1..|s| - |body|], |body|) && s[|s| - |body|..] == body
    case Node(_, kids) =>
      |s| >= 4 && ConstructedTag(t.tag) && s[1] == 128 && s[|s| - 2..] == [0, 0] && SentAll(s[2..|s| - 2], kids)
  }

  // The values one after the other, none of which looks like the two octets that end them.
  ghost predicate SentAll(s: seq<byte>, kids: seq<Tree>)
    decreases |s|, 1
  {
    if kids == [] then s == []
    else exists k :: 2 <= k <= |s| && s[..2] != [0, 0] && Sent(s[..k], kids[0]) && SentAll(s[k..], kids[1..])
  }

  lemma {:induction false} SentIsParsed(s: seq<byte>, t: Tree, rest: seq<byte>)
    requires Sent(s, t)
    ensures Parse(s + rest) == Some((t, |s|))
    decreases |s|, 0
  {
    hide ReadLength, ParseKids, SentAll, SaysLength, ConstructedTag, Constructed;
    var u := s + rest;
    ConstructedBit(t.tag);
    match t
    case Leaf(_, body) =>
      var k := |s| - |body| - 1;
      assert u[1..][..k] == s[1..1 + k];
      LengthIsRead(u[1..], |body|, k);
      assert u[1 + k..1 + k + |body|] == body;
    case Node(_, kids) =>
      LengthIsRead(u[1..], 0, 1);
      AllSentAreParsed(s[2..|s| - 2], kids, rest);
      assert u[2..] == s[2..|s| - 2] + [0, 0] + rest;
  }

  lemma {:induction false} AllSentAreParsed(s: seq<byte>, kids: seq<Tree>, rest: seq<byte>)
    requires SentAll(s, kids)
    ensures ParseKids(s + [0, 0] + rest) == Some((kids, |s| + 2))
    decreases |s|, 1
  {
    hide Parse, Sent, ParseKids;
    var u := s + [0, 0] + rest;
    if kids == [] {
      EndIsRead(u);
    } else {
      var k :| 2 <= k <= |s| && s[..2] != [0, 0] && Sent(s[..k], kids[0]) && SentAll(s[k..], kids[1..]);
      assert u == s[..k] + (s[k..] + [0, 0] + rest) && u[k..] == s[k..] + [0, 0] + rest;
      SentIsParsed(s[..k], kids[0], s[k..] + [0, 0] + rest);
      AllSentAreParsed(s[k..], kids[1..], rest);
      assert u[..2] == s[..2];
      NextIsRead(u, k, kids[0], kids[1..], |s| - k + 2);
      assert kids == [kids[0]] + kids[1..];
    }
  }

  lemma EndIsRead(u: seq<byte>)
    requires |u| >= 2 && u[0] == 0 && u[1] == 0
    ensures ParseKids(u) == Some(([], 2))
  {
  }

  lemma NextIsRead(u: seq<byte>, k: nat, t: Tree, kids: seq<Tree>, m: nat)
    requires 2 <= k <= |u| && u[..2] != [0, 0] && Parse(u) == Some((t, k)) && ParseKids(u[k..]) == Some((kids, m))
    ensures ParseKids(u) == Some(([t] + kids, k + m))
  {
    hide Parse;
    assert u[..2] == [u[0], u[1]];
  }

  lemma {:induction false} ParsedWasSent(s: seq<byte>)
    requires Parse(s).Some?
    ensures Sent(s[..Parse(s).value.1], Parse(s).value.0)
    decreases |s|, 0
  {
    hide ReadLength, ParseKids, SentAll, SaysLength, ConstructedTag, Constructed;
    var (t, n) := Parse(s).value;
    var u, k := s[..n], ReadLength(s[1..]).value.1;
    ConstructedBit(t.tag);
    match t
    case Leaf(_, body) =>
      LengthIsRead(s[1..], |body|, k);
      assert s[1..][..k] == u[1..1 + k];
    case Node(_, kids) =>
      LengthIsRead(s[1..], 0, k);
      assert s[1..][1..] == s[2..];
      KidsWereSent(s[2..]);
      Slices(s, n, 2);
  }

  lemma {:induction false} KidsWereSent(s: seq<byte>)
    requires ParseKids(s).Some?
    ensures var (kids, m) := ParseKids(s).value; s[m - 2..m] == [0, 0] && SentAll(s[..m - 2], kids)
    decreases |s|, 1
  {
    hide Parse, ParseKids, Sent, SentAll;
    if |s| >= 2 && s[0] == 0 && s[1] == 0 {
      KidsEnd(s);
      NothingSent(s[..0]);
    } else {
      KidsStep(s);
      var (t, k) := Parse(s).value;
      var (more, n) := ParseKids(s[k..]).value;
      ParsedWasSent(s);
      KidsWereSent(s[k..]);
      SentJoined(s, k, n, t, more);
    }
  }

  lemma SentJoined(s: seq<byte>, k: nat, n: nat, t: Tree, kids: seq<Tree>)
    requires 2 <= k && 2 <= n && k + n <= |s| && !(s[0] == 0 && s[1] == 0)
    requires Sent(s[..k], t) && s[k..][n - 2..n] == [0, 0] && SentAll(s[k..][..n - 2], kids)
    ensures s[k + n - 2..k + n] == [0, 0] && SentAll(s[..k + n - 2], [t] + kids)
  {
    hide Sent, SentAll;
    SlicesBehind(s, k, n);
    FirstTwo(s, k + n - 2);
    OneMoreSent(s[..k + n - 2], k, t, kids);
  }

  lemma FirstTwo(s: seq<byte>, n: nat)
    requires 2 <= n <= |s| && !(s[0] == 0 && s[1] == 0)
    ensures s[..n][..2] != [0, 0]
  {
    assert s[..n][..2][0] == s[0] && s[..n][..2][1] == s[1];
  }

  lemma NothingSent(s: seq<byte>)
    requires s == []
    ensures SentAll(s, [])
  {
  }

  lemma OneMoreSent(s: seq<byte>, k: nat, t: Tree, kids: seq<Tree>)
    requires 2 <= k <= |s| && s[..2] != [0, 0] && Sent(s[..k], t) && SentAll(s[k..], kids)
    ensures SentAll(s, [t] + kids)
  {
    hide Sent;
    assert ([t] + kids)[1..] == kids;
  }

  /** A value is read, and these octets of it, if and only if they are what was sent for it. */
  lemma ParseIffSent(s: seq<byte>, t: Tree, n: nat)
    ensures Parse(s) == Some((t, n)) <==> n <= |s| && Sent(s[..n], t)
  {
    hide Parse, Sent;
    if n <= |s| && Sent(s[..n], t) {
      SentIsParsed(s[..n], t, s[n..]);
      assert s[..n] + s[n..] == s;
    }
    if Parse(s).Some? { ParsedWasSent(s); }
  }

  /** A value of indefinite length with any parts is read whenever its parts are. */
  lemma IndefiniteIsRead(class_: nat, number: nat, parts: seq<byte>, kids: seq<Tree>, rest: seq<byte>)
    requires class_ < 4 && number < 32 && SentAll(parts, kids)
    ensures var tag: byte := 64 * class_ + 32 + number;
            Parse([tag, 128] + parts + [0, 0] + rest) == Some((Node(tag, kids), |parts| + 4))
  {
    hide Parse, SentAll;
    var tag: byte := 64 * class_ + 32 + number;
    assert tag == TagOctet(class_, true, number);
    var s := [tag, 128] + parts + [0, 0];
    assert s[2..|s| - 2] == parts && s[|s| - 2..] == [0, 0];
    SentIsParsed(s, Node(tag, kids), rest);
  }

  // Only constructed values have parts.
  ghost predicate WellTagged(t: Tree) {
    t.Node? ==> Constructed(t.tag) && forall i :: 0 <= i < |t.kids| ==> WellTagged(t.kids[i])
  }

  // The distinguished encoding encodes the same value, if its length can be written.
  lemma {:induction false} DerEncodes(t: Tree)
    requires WellTagged(t) && |Der(t)| < LWORD
    ensures Encodes(Der(t), t)
    decreases t
  {
    hide LengthOctets, ReadLength, EncodeAll;
    var content := match t case Leaf(_, body) => body case Node(_, kids) => DerAll(kids);
    DerParts(t, content, []);
    assert Der(t) + [] == Der(t);
    if t.Node? { DerAllEncode(t.kids); }
  }

  // Length and contents of a distinguished encoding, whatever follows it.
  lemma DerParts(t: Tree, content: seq<byte>, rest: seq<byte>)
    requires content == match t case Leaf(_, body) => body case Node(_, kids) => DerAll(kids)
    requires |Der(t)| < LWORD
    ensures var s, k := Der(t) + rest, |LengthOctets(|content|)|;
            && |Der(t)| == 1 + k + |content| && s[0] == t.tag
            && ReadLength(s[1..]) == Some((Definite(|content|), k))
            && s[1 + k..] == content + rest
  {
    hide LengthOctets, ReadLength, DerAll;
    var octets := LengthOctets(|content|);
    var s := Der(t) + rest;
    assert |content| % LWORD == |content|;
    assert s == [t.tag] + (octets + (content + rest));
    assert s[1..] == octets + (content + rest);
    ReadWritten(|content|, content + rest);
    assert s[1 + |octets|..] == content + rest;
  }

  lemma {:induction false} DerAllEncode(kids: seq<Tree>)
    requires (forall i :: 0 <= i < |kids| ==> WellTagged(kids[i])) && |DerAll(kids)| < LWORD
    ensures EncodeAll(DerAll(kids), kids)
    decreases kids
  {
    if kids != [] {
      DerEncodes(kids[0]);
      DerAllEncode(kids[1..]);
      var s, k := DerAll(kids), |Der(kids[0])|;
      assert s[..k] == Der(kids[0]) && s[k..] == DerAll(kids[1..]);
    }
  }

  lemma {:induction false} ParsedIsTagged(s: seq<byte>)
    requires Parse(s).Some?
    ensures WellTagged(Parse(s).value.0) && |Der(Parse(s).value.0)| <= 5 * Parse(s).value.1
    decreases |s|, 0
  {
    var (t, n) := Parse(s).value;
    var k := 1 + ReadLength(s[1..]).value.1;
    if t.Node? { KidsAreTagged(s[k..]); }
  }

  lemma {:induction false} KidsAreTagged(s: seq<byte>)
    requires ParseKids(s).Some?
    ensures forall i :: 0 <= i < |ParseKids(s).value.0| ==> WellTagged(ParseKids(s).value.0[i])
    ensures |DerAll(ParseKids(s).value.0)| <= 5 * (ParseKids(s).value.1 - 2)
    decreases |s|, 1
  {
    if !(|s| >= 2 && s[0] == 0 && s[1] == 0) {
      var (t, k) := Parse(s).value;
      ParsedIsTagged(s);
      KidsAreTagged(s[k..]);
      var kids := ParseKids(s).value.0;
      assert kids[0] == t && kids[1..] == ParseKids(s[k..]).value.0;
      assert forall i :: 0 < i < |kids| ==> kids[i] == kids[1..][i - 1];
    }
  }

  /** Whatever forms the lengths of the source take, the distinguished encoding encodes the same value. No memory holds
      a source too long for it. */
  lemma ReencodingPreservesMeaning(s: seq<byte>)
    requires Parse(s).Some? && |s| < LWORD / 5
    ensures var (t, n) := Parse(s).value;
            Encodes(s[..n], t) && Encodes(Der(t), t)
  {
    ParsedIsEncoded(s);
    ParsedIsTagged(s);
    DerEncodes(Parse(s).value.0);
  }

  /** Re-encoding what is distinguished already changes nothing. */
  lemma ReencodingTwice(t: Tree, rest: seq<byte>)
    requires |Der(t)| < LWORD
    ensures Parse(Der(t) + rest).Some?
    ensures Parse(Der(t) + rest).value.1 == |Der(t)| && Der(Parse(Der(t) + rest).value.0) == Der(t)
  {
    hide LengthOctets, ReadLength, DerAll, ParseKids;
    var content := match t case Leaf(_, body) => body case Node(_, kids) => DerAll(kids);
    DerParts(t, content, rest);
    var s, k := Der(t) + rest, 1 + |LengthOctets(|content|)|;
    assert s[k..k + |content|] == s[k..][..|content|] == content;
  }

  // DERGeneralEncoder::MessageEnd
  method EncoderMessageEnd(dest: ByteQueue, tag: byte, encoder: ByteQueue)
    requires dest != encoder
    modifies dest
    ensures dest.bytes == old(dest.bytes) + ([tag] + LengthOctets(|encoder.bytes| % LWORD) + encoder.bytes)
  {
    dest.Put([tag]);
    var n := DERLengthEncode(dest, |encoder.bytes| % LWORD);
    dest.Put(encoder.bytes);
  }

  /** False stands for BERDecodeErr: exactly when there is no value at the beginning of the source. A decoder of
      indefinite length reads from its source as if it were not there, so the same queue stands for both. */
  method DERReencode(source: ByteQueue, dest: ByteQueue) returns (ok: bool)
    requires source != dest
    modifies source, dest
    ensures ok <==> Parse(old(source.bytes)).Some?
    ensures ok ==> source.bytes == old(source.bytes)[Parse(old(source.bytes)).value.1..]
    ensures ok ==> dest.bytes == old(dest.bytes) + Der(Parse(old(source.bytes)).value.0)
    ensures |source.bytes| < |old(source.bytes)| || !ok
    decreases |source.bytes|, 0
  {
    hide ParseKids, ReadLength, LengthOctets, DerAll;
    ghost var s := source.bytes;
    var tag := source.Get();
    if tag.None? { return false; }
    var length := BERLengthDecode(source);
    if length.None? || (length.value.IndefiniteLength? && !Constructed(tag.value)) { return false; }
    var encoder := new ByteQueue();
    if length.value.Definite? {
      ok := TransferBody(source, encoder, length.value.length);
    } else {
      ok := ReencodeKids(source, encoder);
    }
    if ok {
      EncoderMessageEnd(dest, tag.value, encoder);
    }
  }

  // decoder.TransferTo(encoder, decoder.RemainingLength()): MessageEnd turns down a body that is too short.
  method TransferBody(source: ByteQueue, encoder: ByteQueue, length: nat) returns (ok: bool)
    requires source != encoder && encoder.bytes == []
    modifies source, encoder
    ensures ok <==> length <= |old(source.bytes)|
    ensures ok ==> source.bytes == old(source.bytes)[length..] && encoder.bytes == old(source.bytes)[..length]
  {
    var body := source.Take(length);
    encoder.Put(body);
    ok := |body| == length;
  }

  // The loop over the values inside one of indefinite length, and the end-of-contents octets after it.
  method ReencodeKids(source: ByteQueue, encoder: ByteQueue) returns (ok: bool)
    requires source != encoder
    modifies source, encoder
    ensures ok <==> ParseKids(old(source.bytes)).Some?
    ensures ok ==> source.bytes == old(source.bytes)[ParseKids(old(source.bytes)).value.1..]
    ensures ok ==> encoder.bytes == old(encoder.bytes) + DerAll(ParseKids(old(source.bytes)).value.0)
    decreases |source.bytes|, 1
  {
    hide Parse, ParseKids, Der, DerAll, Prepended;
    ghost var s, e := source.bytes, encoder.bytes;
    ghost var n := 0;
    ghost var kids: seq<Tree> := [];
    PrependNothing(ParseKids(s));
    NoDer();
    while !(|source.bytes| >= 2 && source.bytes[0] == 0 && source.bytes[1] == 0)
      invariant n <= |s| && source.bytes == s[n..]
      invariant ParseKids(s) == Prepended(kids, n, ParseKids(source.bytes))
      invariant encoder.bytes == e + DerAll(kids)
      decreases |source.bytes|
    {
      ghost var here := source.bytes;
      NextKid(here, kids, n);
      ok := DERReencode(source, encoder);
      if !ok { return; }
      ghost var (t, k) := Parse(here).value;
      DerAllAppend(kids, t);
      PrependMore(kids, n, t, k, ParseKids(here[k..]));
      n, kids := n + k, kids + [t];
    }
    NoMoreKids(source.bytes, kids, n);
    var eoc := source.Take(2);
    ok := true;
  }

  lemma NoDer()
    ensures DerAll([]) == []
  {
  }

  // One value more, or a failure that is the whole's.
  lemma NextKid(s: seq<byte>, kids: seq<Tree>, n: nat)
    requires !(|s| >= 2 && s[0] == 0 && s[1] == 0)
    ensures Parse(s).None? ==> Prepended(kids, n, ParseKids(s)).None?
    ensures Parse(s).Some? ==> var (t, k) := Parse(s).value; ParseKids(s) == Prepended([t], k, ParseKids(s[k..]))
  {
    hide Parse;
  }

  lemma NoMoreKids(s: seq<byte>, kids: seq<Tree>, n: nat)
    requires |s| >= 2 && s[0] == 0 && s[1] == 0
    ensures Prepended(kids, n, ParseKids(s)) == Some((kids, n + 2))
  {
    assert kids + [] == kids;
  }

  lemma PrependNothing(r: Option<(seq<Tree>, nat)>)
    ensures Prepended([], 0, r) == r
  {
    if r.Some? { assert [] + r.value.0 == r.value.0; }
  }

  lemma PrependMore(kids: seq<Tree>, n: nat, t: Tree, k: nat, r: Option<(seq<Tree>, nat)>)
    ensures Prepended(kids, n, Prepended([t], k, r)) == Prepended(kids + [t], n + k, r)
  {
    if r.Some? { assert kids + ([t] + r.value.0) == (kids + [t]) + r.value.0; }
  }

  ghost function Prepended(kids: seq<Tree>, n: nat, r: Option<(seq<Tree>, nat)>): Option<(seq<Tree>, nat)> {
    match r case None => None case Some((more, m)) => Some((kids + more, n + m))
  }

  lemma {:induction false} DerAllAppend(kids: seq<Tree>, t: Tree)
    ensures DerAll(kids + [t]) == DerAll(kids) + Der(t)
  {
    hide Der;
    if kids == [] {
      assert [t][1..] == [];
    } else {
      DerAllAppend(kids[1..], t);
      assert (kids + [t])[1..] == kids[1..] + [t];
    }
  }
}
