/** What the blocks that CCM authenticates and masks with say, field by field, by sections 2.2 and 2.3 of RFC 3610. */
module CcmBlocks {
  import opened Arithmetic
  import opened Bytes
  import opened Options
  import opened Words
  import opened BlockChaining
  import opened Ccm

  // ----- The first block -----

  // Flags, nonce, message length. The flags: whether there is a header, the size of the tag, the size of the length.
  lemma FirstBlockFields(digestSize: nat, nonce: seq<byte>, headerLength: nat, messageLength: nat)
    requires 7 <= |nonce| <= 13 && digestSize % 2 == 0 && 4 <= digestSize <= 16
    requires messageLength < Pow256(15 - |nonce|)
    ensures var b := FirstBlock(digestSize, nonce, headerLength, messageLength);
            && b[0] / 128 == 0 && (b[0] / 64 % 2 == 1 <==> headerLength > 0)
            && 2 * (b[0] / 8 % 8) + 2 == digestSize
            && b[0] % 8 + 1 == 15 - |nonce|
            && b[1..1 + |nonce|] == nonce
            && Value(b[1 + |nonce|..]) == messageLength
  {
    hide BigEndian, Value, Pow256;
    var b := FirstBlock(digestSize, nonce, headerLength, messageLength);
    ValueOfBigEndian(messageLength, 15 - |nonce|);
    assert b[1..1 + |nonce|] == nonce && b[1 + |nonce|..] == BigEndian(messageLength, 15 - |nonce|);
    FlagFields(if headerLength > 0 then 1 else 0, (digestSize - 2) / 2, 14 - |nonce|);
  }

  lemma FlagFields(a: nat, m: nat, l: nat)
    requires a <= 1 && m < 8 && l < 8
    ensures var flags := 64 * a + 8 * m + l;
            flags / 128 == 0 && flags / 64 % 2 == a && flags / 8 % 8 == m && flags % 8 == l
  {
  }

  // ----- The length of the header -----

  function Two(a: nat, b: nat): nat {
    0x100 * a + b
  }

  function Four(a: nat, b: nat, c: nat, d: nat): nat {
    0x100_0000 * a + 0x1_0000 * b + 0x100 * c + d
  }

  // Section 2.2: what the first octets of the additional data say, and how many they are.
  function HeaderLength(s: seq<byte>): (r: Option<(nat, nat)>) {
    if |s| < 2 then None
    else if 0x0001 <= Two(s[0], s[1]) <= 0xfeff then Some((Two(s[0], s[1]), 2))
    else if Two(s[0], s[1]) == 0xfffe && |s| >= 6 then Some((Four(s[2], s[3], s[4], s[5]), 6))
    else if Two(s[0], s[1]) == 0xffff && |s| >= 10 then
      Some((0x1_0000_0000 * Four(s[2], s[3], s[4], s[5]) + Four(s[6], s[7], s[8], s[9]), 10))
    else None
  }

  lemma ValueOfTwo(s: seq<byte>)
    requires |s| == 2
    ensures Value(s) == Two(s[0], s[1])
  {
    assert s[..1][..0] == [] && Value([]) == 0;
    assert Value(s[..1]) == s[0];
  }

  lemma ValueOfFour(s: seq<byte>)
    requires |s| == 4
    ensures Value(s) == Four(s[0], s[1], s[2], s[3])
  {
    assert s[..3][..2] == s[..2];
    ValueOfTwo(s[..2]);
  }

  lemma ValueOfEight(s: seq<byte>)
    requires |s| == 8
    ensures Value(s) == 0x1_0000_0000 * Four(s[0], s[1], s[2], s[3]) + Four(s[4], s[5], s[6], s[7])
  {
    assert s[..7][..6] == s[..6] && s[..6][..5] == s[..5] && s[..5][..4] == s[..4];
    ValueOfFour(s[..4]);
    assert Value(s[..5]) == 256 * Value(s[..4]) + s[4];
    assert Value(s[..6]) == 256 * Value(s[..5]) + s[5];
    assert Value(s[..7]) == 256 * Value(s[..6]) + s[6];
  }

  lemma SmallPowers()
    ensures Pow256(2) == 0x1_0000 && Pow256(4) == 0x1_0000_0000 && Pow256(8) == 0x1_0000_0000_0000_0000
  {
    assert Pow256(4) == 0x1_0000_0000;
    assert Pow256(8) == 256 * (256 * (256 * (256 * Pow256(4))));
  }

  /** The prefix says the header's length, whatever follows it; there is none for no header. */
  lemma HeaderLengthIsRead(n: nat, rest: seq<byte>)
    requires n <= 0xffff_ffff_ffff_ffff
    ensures n == 0 ==> LengthPrefix(n) == []
    ensures n > 0 ==> HeaderLength(LengthPrefix(n) + rest) == Some((n, |LengthPrefix(n)|))
  {
    SmallPowers();
    hide BigEndian, Value, Pow256;
    var s := LengthPrefix(n) + rest;
    if 0 < n < 0xff00 {
      ValueOfBigEndian(n, 2);
      ValueOfTwo(BigEndian(n, 2));
    } else if n >= 0xff00 {
      var w := if n < 0x1_0000_0000 then 4 else 8;
      ValueOfBigEndian(n, w);
      assert s[2..2 + w] == BigEndian(n, w);
      if w == 4 { ValueOfFour(BigEndian(n, 4)); } else { ValueOfEight(BigEndian(n, 8)); }
    }
  }

  // ----- All the authenticated blocks -----

  // B_0, the header behind its length, and the message, each filled up to whole blocks.
  function Blocks(digestSize: nat, nonce: seq<byte>, header: seq<byte>, message: seq<byte>): seq<byte>
    requires 7 <= |nonce| <= 13 && 4 <= digestSize <= 16
  {
    FirstBlock(digestSize, nonce, |header|, |message|)
      + (PadZeros(LengthPrefix(|header|) + header, BLOCK) + PadZeros(message, BLOCK))
  }

  lemma TagIsOfBlocks(f: BlockFunction, digestSize: nat, nonce: seq<byte>, header: seq<byte>, message: seq<byte>)
    requires 7 <= |nonce| <= 13 && 4 <= digestSize <= 16 && IsBlockFunction(f, BLOCK)
    ensures Tag(f, digestSize, nonce, header, message)
         == Masked(f, nonce, Chain(f, BLOCK, Zeros(BLOCK), Blocks(digestSize, nonce, header, message)), 0)
  {
  }

  datatype Input = Input(digestSize: nat, nonce: seq<byte>, header: seq<byte>, message: seq<byte>)

  function RoundUp(n: nat): (k: nat)
    ensures k >= n
  {
    n + (0 - n) % BLOCK
  }

  // The header by the length before it, and how many bytes its blocks take.
  function ReadHeader(s: seq<byte>, present: bool): (r: Option<(seq<byte>, nat)>)
    ensures r.Some? ==> r.value.1 <= |s|
  {
    if !present then Some(([], 0))
    else match HeaderLength(s)
      case None => None
      case Some((n, k)) => if RoundUp(k + n) <= |s| then Some((s[k..k + n], RoundUp(k + n))) else None
  }

  function ReadBlocks(s: seq<byte>): Option<Input> {
    if |s| < BLOCK then None
    else
      var flags: nat := s[0];
      var L := flags % 8 + 1;
      match ReadHeader(s[BLOCK..], flags / 64 % 2 == 1)
      case None => None
      case Some((header, k)) =>
        var n := Value(s[BLOCK - L..BLOCK]);
        if BLOCK + k + n > |s| then None
        else Some(Input(2 * (flags / 8 % 8) + 2, s[1..BLOCK - L], header, s[BLOCK + k..BLOCK + k + n]))
  }

  lemma HeaderIsRead(header: seq<byte>, rest: seq<byte>)
    requires |header| <= 0xffff_ffff_ffff_ffff
    ensures var h := PadZeros(LengthPrefix(|header|) + header, BLOCK);
            ReadHeader(h + rest, |header| > 0) == Some((header, |h|))
  {
    hide LengthPrefix, HeaderLength;
    var prefix := LengthPrefix(|header|);
    var zeros := Zeros((0 - |prefix + header|) % BLOCK);
    HeaderLengthIsRead(|header|, header + zeros + rest);
    var s := prefix + header + zeros + rest;
    if header == [] {
      assert prefix + header == [];
    } else {
      assert s == prefix + (header + zeros + rest);
      assert s[|prefix|..|prefix| + |header|] == header;
    }
  }

  /** A reader finds in the blocks the size of the tag, nonce, header and message. */
  lemma BlocksAreRead(digestSize: nat, nonce: seq<byte>, header: seq<byte>, message: seq<byte>)
    requires 7 <= |nonce| <= 13 && digestSize % 2 == 0 && 4 <= digestSize <= 16
    requires |header| <= 0xffff_ffff_ffff_ffff && |message| < Pow256(15 - |nonce|)
    ensures ReadBlocks(Blocks(digestSize, nonce, header, message)) == Some(Input(digestSize, nonce, header, message))
  {
    hide FirstBlock, LengthPrefix, ReadHeader, Value, Pow256, PadZeros, ReadBlocks;
    var first := FirstBlock(digestSize, nonce, |header|, |message|);
    var h, m := PadZeros(LengthPrefix(|header|) + header, BLOCK), PadZeros(message, BLOCK);
    FirstBlockFields(digestSize, nonce, |header|, |message|);
    HeaderIsRead(header, m);
    PaddedFront(message);
    Pieces(first, h, m, 15 - |nonce|, |message|);
    ReadPieces(first + (h + m), 15 - |nonce|, header, |h|, |message|);
  }

  lemma ReadPieces(s: seq<byte>, L: nat, header: seq<byte>, k: nat, n: nat)
    requires |s| >= BLOCK + k + n && L == s[0] % 8 + 1
    requires ReadHeader(s[BLOCK..], s[0] / 64 % 2 == 1) == Some((header, k)) && Value(s[BLOCK - L..BLOCK]) == n
    ensures ReadBlocks(s)
         == Some(Input(2 * (s[0] / 8 % 8) + 2, s[1..BLOCK - L], header, s[BLOCK + k..BLOCK + k + n]))
  {
    hide ReadHeader, Value;
  }

  lemma PaddedFront(data: seq<byte>)
    ensures |PadZeros(data, BLOCK)| >= |data| && PadZeros(data, BLOCK)[..|data|] == data
  {
  }

  lemma Pieces(first: seq<byte>, h: seq<byte>, m: seq<byte>, L: nat, n: nat)
    requires |first| == BLOCK && 1 <= L < BLOCK && n <= |m|
    ensures var s := first + (h + m);
            && s[0] == first[0] && s[BLOCK..] == h + m
            && s[BLOCK - L..BLOCK] == first[BLOCK - L..] && s[1..BLOCK - L] == first[1..BLOCK - L]
            && s[BLOCK + |h|..BLOCK + |h| + n] == m[..n]
  {
  }

  /** Different inputs have different blocks. */
  lemma BlocksDetermineInput(digestSize: nat, nonce: seq<byte>, header: seq<byte>, message: seq<byte>,
                             digestSize': nat, nonce': seq<byte>, header': seq<byte>, message': seq<byte>)
    requires 7 <= |nonce| <= 13 && digestSize % 2 == 0 && 4 <= digestSize <= 16
    requires 7 <= |nonce'| <= 13 && digestSize' % 2 == 0 && 4 <= digestSize' <= 16
    requires |header| <= 0xffff_ffff_ffff_ffff && |message| < Pow256(15 - |nonce|)
    requires |header'| <= 0xffff_ffff_ffff_ffff && |message'| < Pow256(15 - |nonce'|)
    requires Blocks(digestSize, nonce, header, message) == Blocks(digestSize', nonce', header', message')
    ensures digestSize == digestSize' && nonce == nonce' && header == header' && message == message'
  {
    hide Blocks, ReadBlocks, Pow256;
    BlocksAreRead(digestSize, nonce, header, message);
    BlocksAreRead(digestSize', nonce', header', message');
  }

  // ----- The counter blocks -----

  // Flags with the size of the counter alone, nonce, counter.
  lemma CounterBlockFields(nonce: seq<byte>, j: nat)
    requires 7 <= |nonce| <= 13 && j < Pow256(15 - |nonce|)
    ensures var a := CounterBlock(nonce, j);
            a[0] + 1 == 15 - |nonce| && a[1..1 + |nonce|] == nonce && Value(a[1 + |nonce|..]) == j
  {
    hide BigEndian, Value, Pow256;
    var a := CounterBlock(nonce, j);
    ValueOfBigEndian(j, 15 - |nonce|);
    assert a[1..1 + |nonce|] == nonce && a[1 + |nonce|..] == BigEndian(j, 15 - |nonce|);
  }

  // The tag is the chaining value masked with S_0.
  lemma TagOctets(f: BlockFunction, digestSize: nat, nonce: seq<byte>, header: seq<byte>, message: seq<byte>)
    requires 7 <= |nonce| <= 13 && 4 <= digestSize <= 16 && IsBlockFunction(f, BLOCK)
    ensures Tag(f, digestSize, nonce, header, message)
         == XorBytes(Authenticator(f, digestSize, nonce, header, message), f(CounterBlock(nonce, 0)))
  {
    hide Authenticator, CounterBlock;
    var t, u := Authenticator(f, digestSize, nonce, header, message), Tag(f, digestSize, nonce, header, message);
    forall i | 0 <= i < BLOCK
      ensures u[i] == XorBytes(t, f(CounterBlock(nonce, 0)))[i]
    {
      DivUnique(i, BLOCK, 0, i);
    }
  }

  // Block i of the message, whole or not, is masked with S_(i+1).
  lemma MaskedByBlocks(f: BlockFunction, nonce: seq<byte>, message: seq<byte>, i: nat, end: nat)
    requires 7 <= |nonce| <= 13 && IsBlockFunction(f, BLOCK)
    requires 16 * i <= end <= |message| && end <= 16 * i + 16
    ensures Masked(f, nonce, message, BLOCK)[16 * i..end]
         == XorBytes(message[16 * i..end], f(CounterBlock(nonce, i + 1))[..end - 16 * i])
  {
    hide CounterBlock;
    var s := Masked(f, nonce, message, BLOCK)[16 * i..end];
    forall j | 0 <= j < end - 16 * i
      ensures s[j] == XorBytes(message[16 * i..end], f(CounterBlock(nonce, i + 1))[..end - 16 * i])[j]
    {
      DivUnique(BLOCK + 16 * i + j, BLOCK, i + 1, j);
    }
  }

  /** Counter blocks of different nonces or places differ, and none is a first block. */
  lemma CounterBlocksDiffer(nonce: seq<byte>, j: nat, nonce': seq<byte>, j': nat, digestSize: nat, h: nat, m: nat)
    requires 7 <= |nonce| <= 13 && 7 <= |nonce'| <= 13 && digestSize % 2 == 0 && 4 <= digestSize <= 16
    requires j < Pow256(15 - |nonce|) && j' < Pow256(15 - |nonce'|) && m < Pow256(15 - |nonce'|)
    ensures CounterBlock(nonce, j) == CounterBlock(nonce', j') ==> nonce == nonce' && j == j'
    ensures CounterBlock(nonce, j) != FirstBlock(digestSize, nonce', h, m)
  {
    hide CounterBlock, FirstBlock, Value, Pow256;
    CounterBlockFields(nonce, j);
    CounterBlockFields(nonce', j');
    FirstBlockFields(digestSize, nonce', h, m);
  }
}
