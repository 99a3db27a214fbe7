/** The CCM mode: the call-order state machine and buffering of authenc.cpp with the blocks and the tag of ccm.cpp,
    against sections 2.2 and 2.3 of RFC 3610. */
module Ccm {
  import opened Arithmetic
  import opened Bytes
  import opened Words
  import opened BlockChaining
  import BinaryPolynomial

  const BLOCK := 16

  // ----- The definition -----

  // The first block: flags, nonce and message length.
  function FirstBlock(digestSize: nat, nonce: seq<byte>, headerLength: nat, messageLength: nat): (b: seq<byte>)
    requires 7 <= |nonce| <= 13 && 4 <= digestSize <= 16
    ensures |b| == BLOCK
  {
    [(if headerLength > 0 then 64 else 0) + 8 * ((digestSize - 2) / 2) + (15 - |nonce| - 1)]
      + nonce + BigEndian(messageLength, 15 - |nonce|)
  }

  // The encoding of the length of the additional data that goes before them.
  function LengthPrefix(length: nat): (p: seq<byte>)
    ensures |p| <= 10
  {
    if length == 0 then []
    else if length < 0x10000 - 0x100 then BigEndian(length, 2)
    else if length < 0x1_0000_0000 then [0xff, 0xfe] + BigEndian(length, 4)
    else [0xff, 0xff] + BigEndian(length, 8)
  }

  // The CBC-MAC value T of section 2.2.
  function Authenticator(
    f: BlockFunction, digestSize: nat, nonce: seq<byte>, header: seq<byte>, message: seq<byte>): (t: seq<byte>)
    requires 7 <= |nonce| <= 13 && 4 <= digestSize <= 16 && IsBlockFunction(f, BLOCK)
    ensures |t| == BLOCK
  {
    Chain(f, BLOCK, Zeros(BLOCK), FirstBlock(digestSize, nonce, |header|, |message|)
      + (PadZeros(LengthPrefix(|header|) + header, BLOCK) + PadZeros(message, BLOCK)))
  }

  // The block A_j of section 2.3.
  function CounterBlock(nonce: seq<byte>, j: nat): (a: seq<byte>)
    requires 7 <= |nonce| <= 13
    ensures |a| == BLOCK
  {
    [15 - |nonce| - 1] + nonce + BigEndian(j, 15 - |nonce|)
  }

  // Byte i of the concatenation of S_0, S_1, ...
  function KeyStream(f: BlockFunction, nonce: seq<byte>, i: nat): byte
    requires 7 <= |nonce| <= 13 && IsBlockFunction(f, BLOCK)
  {
    DivMod(i, BLOCK);
    f(CounterBlock(nonce, i / BLOCK))[i % BLOCK]
  }

  function Masked(f: BlockFunction, nonce: seq<byte>, data: seq<byte>, from: nat): (s: seq<byte>)
    requires 7 <= |nonce| <= 13 && IsBlockFunction(f, BLOCK)
    ensures |s| == |data|
  {
    seq(|data|, i requires 0 <= i < |data| => XorByte(data[i], KeyStream(f, nonce, from + i)))
  }

  function Tag(f: BlockFunction, digestSize: nat, nonce: seq<byte>, header: seq<byte>, message: seq<byte>): (u: seq<byte>)
    requires 7 <= |nonce| <= 13 && 4 <= digestSize <= 16 && IsBlockFunction(f, BLOCK)
    ensures |u| == BLOCK
  {
    Masked(f, nonce, Authenticator(f, digestSize, nonce, header, message), 0)
  }

  // ----- The counter mode underneath -----

  // CTR counts in the whole block: block j is the initial one plus j. Not part of this model beyond this.
  function Counter(iv: seq<byte>, j: nat): (a: seq<byte>)
    requires |iv| == BLOCK
    ensures |a| == BLOCK
  {
    BigEndian(Value(iv) + j, BLOCK)
  }

  function CtrByte(f: BlockFunction, iv: seq<byte>, i: nat): byte
    requires |iv| == BLOCK && IsBlockFunction(f, BLOCK)
  {
    DivMod(i, BLOCK);
    f(Counter(iv, i / BLOCK))[i % BLOCK]
  }

  function CtrMasked(f: BlockFunction, iv: seq<byte>, data: seq<byte>, from: nat): (s: seq<byte>)
    requires |iv| == BLOCK && IsBlockFunction(f, BLOCK)
    ensures |s| == |data|
  {
    seq(|data|, i requires 0 <= i < |data| => XorByte(data[i], CtrByte(f, iv, from + i)))
  }

  // The initial counter block that Resync sets.
  function InitialCounter(nonce: seq<byte>): (iv: seq<byte>)
    requires 7 <= |nonce| <= 13
    ensures |iv| == BLOCK
  {
    [15 - |nonce| - 1] + nonce + Zeros(15 - |nonce|)
  }

  // As long as the counter fits in the bytes left by the nonce, counting gives the blocks A_j.
  lemma CountingGivesCounterBlocks(nonce: seq<byte>, j: nat)
    requires 7 <= |nonce| <= 13 && j < Pow256(15 - |nonce|)
    ensures Counter(InitialCounter(nonce), j) == CounterBlock(nonce, j)
  {
    hide BigEndian, Value, ShiftBytes, Pow256;
    var s: seq<byte> := [15 - |nonce| - 1] + nonce;
    ValueOfZeros(s, Zeros(15 - |nonce|));
    CountInLowBytes(s, j, 15 - |nonce|);
  }

  lemma MaskingAgrees(f: BlockFunction, nonce: seq<byte>, data: seq<byte>, from: nat)
    requires 7 <= |nonce| <= 13 && IsBlockFunction(f, BLOCK)
    requires from + |data| <= BLOCK * Pow256(15 - |nonce|)
    ensures CtrMasked(f, InitialCounter(nonce), data, from) == Masked(f, nonce, data, from)
  {
    hide Counter, CounterBlock, InitialCounter, Pow256, XorByte;
    forall i | 0 <= i < |data|
      ensures CtrMasked(f, InitialCounter(nonce), data, from)[i] == Masked(f, nonce, data, from)[i]
    {
      CountingGivesCounterBlocks(nonce, (from + i) / BLOCK);
    }
  }

  lemma PadAfterWhole(a: seq<byte>, b: seq<byte>)
    requires |a| % BLOCK == 0
    ensures PadZeros(a + b, BLOCK) == a + PadZeros(b, BLOCK)
  {
    var k := |a| / BLOCK;
    assert (0 - |a + b|) % BLOCK == (0 - |b|) % BLOCK by {
      DivMod(0 - |b|, BLOCK);
      DivUnique(0 - |a + b|, BLOCK, (0 - |b|) / BLOCK - k, (0 - |b|) % BLOCK);
    }
    assert (a + b) + Zeros((0 - |b|) % BLOCK) == a + (b + Zeros((0 - |b|) % BLOCK));
  }

  // The chain started with the first block is the authenticator.
  lemma ChainIsAuthenticator(f: BlockFunction, digestSize: nat, nonce: seq<byte>, header: seq<byte>, message: seq<byte>)
    requires 7 <= |nonce| <= 13 && 4 <= digestSize <= 16 && IsBlockFunction(f, BLOCK)
    ensures Authenticator(f, digestSize, nonce, header, message)
         == Chain(f, BLOCK, f(FirstBlock(digestSize, nonce, |header|, |message|)),
              PadZeros(LengthPrefix(|header|) + header, BLOCK) + PadZeros(message, BLOCK))
  {
    hide PadZeros, LengthPrefix, XorByte;
    var first := FirstBlock(digestSize, nonce, |header|, |message|);
    var rest := PadZeros(LengthPrefix(|header|) + header, BLOCK) + PadZeros(message, BLOCK);
    ChainAppend(f, BLOCK, Zeros(BLOCK), first, rest);
    ChainOne(f, BLOCK, Zeros(BLOCK), first);
    XorWithZeros(first);
  }

  lemma XorWithZeros(b: seq<byte>)
    ensures XorBytes(Zeros(|b|), b) == b
  {
    forall i | 0 <= i < |b|
      ensures XorBytes(Zeros(|b|), b)[i] == b[i]
    {
      BinaryPolynomial.XorZero(b[i]);
    }
  }

  lemma MaskAppend(f: BlockFunction, iv: seq<byte>, a: seq<byte>, b: seq<byte>, from: nat)
    requires |iv| == BLOCK && IsBlockFunction(f, BLOCK)
    ensures CtrMasked(f, iv, a + b, from) == CtrMasked(f, iv, a, from) + CtrMasked(f, iv, b, from + |a|)
  {
    hide CtrByte, XorByte;
    forall i | 0 <= i < |a + b|
      ensures CtrMasked(f, iv, a + b, from)[i]
           == (CtrMasked(f, iv, a, from) + CtrMasked(f, iv, b, from + |a|))[i]
    {
    }
  }

  lemma BlockSize(f: BlockFunction, block: seq<byte>)
    requires IsBlockFunction(f, BLOCK) && |block| == BLOCK
    ensures |f(block)| == BLOCK
  {
  }

  // ----- The mode -----

  datatype State = KeySet | IVSet | AuthUntransformed | AuthTransformed | AuthFooter

  class CcmBase {
    const cipher: BlockFunction
    const forward: bool
    const digestSize: nat
    var state: State
    // m_buffer: the bytes that wait for a whole block, and the chaining value behind them
    const buffer: array<byte>
    var bufferedDataLength: nat
    var L: nat
    var messageLength: nat
    var aadLength: nat
    var totalHeaderLength: nat
    var totalMessageLength: nat
    var totalFooterLength: nat
    // m_ctr: its initial counter block and its position
    var counter: seq<byte>
    var position: nat
    // what has been given since Resynchronize, the message as plaintext
    ghost var nonce: seq<byte>
    // neither lengths nor data so far
    ghost var untouched: bool
    // the lengths have been given once, before any data: what comes is what the tag is of
    ghost var specified: bool
    ghost var header: seq<byte>
    ghost var message: seq<byte>
    ghost var footer: seq<byte>

    ghost predicate Fixed()
      reads this`bufferedDataLength
    {
      && IsBlockFunction(cipher, BLOCK)
      && digestSize % 2 == 0 && 4 <= digestSize <= 16
      && buffer.Length == 2 * BLOCK && bufferedDataLength < BLOCK
    }

    ghost predicate Synchronized()
      reads this`nonce, this`L, this`counter
    {
      && 7 <= |nonce| <= 13 && L == 15 - |nonce|
      && counter == InitialCounter(nonce)
    }

    // The chaining value and the waiting bytes account for the first block and these data. When the lengths were not
    // given, or at the wrong time, the chaining value stands for nothing.
    ghost predicate Fed(data: seq<byte>)
      requires Fixed() && Synchronized()
      reads this, buffer
    {
      specified ==> Absorbed(cipher, BLOCK, cipher(FirstBlock(digestSize, nonce, aadLength, messageLength)), data,
        buffer[BLOCK..], buffer[..bufferedDataLength])
    }

    ghost function HeaderBlocks(): seq<byte>
      reads this
    {
      PadZeros(LengthPrefix(aadLength) + header, BLOCK)
    }

    // While the header comes in.
    ghost predicate InHeader()
      requires Fixed() && Synchronized()
      reads this, buffer
    {
      && totalHeaderLength == |header| && message == [] && position == BLOCK
      && totalMessageLength == totalFooterLength == 0
      && (untouched ==> header == [] && bufferedDataLength == 0 && buffer[..BLOCK] == counter)
      && Fed(LengthPrefix(aadLength) + header)
    }

    // While the message comes in.
    ghost predicate InMessage()
      requires Fixed() && Synchronized()
      reads this, buffer
    {
      && aadLength == totalHeaderLength == |header|
      && totalMessageLength == |message| && position == BLOCK + |message| && totalFooterLength == 0
      && Fed(HeaderBlocks() + message)
    }

    // Once footer data have come, which CCM turns down at the end.
    ghost predicate InFooter()
      requires Fixed() && Synchronized()
      reads this, buffer
    {
      && totalFooterLength == |footer| > 0
      && Fed(HeaderBlocks() + PadZeros(message, BLOCK) + footer)
    }

    ghost predicate Valid()
      reads this, buffer
    {
      && Fixed()
      && (state != KeySet ==> Synchronized())
      && (state == IVSet ==> InHeader())
      && (state == AuthUntransformed ==> forward && InMessage())
      && (state == AuthTransformed ==> !forward && InMessage())
      && (state == AuthFooter ==> InFooter())
    }

    function MaxMessageLength(): nat
      reads this
    {
      if L < 8 then Pow256(L) - 1 else 0xffff_ffff_ffff_ffff
    }

    constructor (cipher: BlockFunction, forward: bool, digestSize: nat)
      requires IsBlockFunction(cipher, BLOCK) && digestSize % 2 == 0 && 4 <= digestSize <= 16
      ensures Valid() && state == KeySet && fresh(buffer)
      ensures this.cipher == cipher && this.forward == forward && this.digestSize == digestSize
    {
      this.cipher, this.forward, this.digestSize := cipher, forward, digestSize;
      state := KeySet;
      buffer := new byte[2 * BLOCK](i => 0);
      bufferedDataLength := 0;
      L := 8;
      counter := [];
    }

    // Resync: the initial counter block, left in the buffer for SpecifyDataLengths to take the nonce from.
    method Resync(iv: seq<byte>)
      requires Fixed() && 7 <= |iv| <= 13
      modifies this`L, this`counter, this`position, this`aadLength, this`messageLength, buffer
      ensures L == 15 - |iv| && counter == InitialCounter(iv) && position == BLOCK
      ensures buffer[..BLOCK] == counter && aadLength == messageLength == 0
    {
      // at most 8, since the nonce has at least 7 bytes
      L := BLOCK - 1 - |iv|;
      counter := [L - 1] + iv + Zeros(BLOCK - 1 - |iv|);
      CopyInto(buffer, 0, counter);
      assert buffer[..BLOCK] == counter;
      position := BLOCK;
      aadLength, messageLength := 0, 0;
    }

    // The base class has checked the nonce's length.
    method Resynchronize(iv: seq<byte>)
      requires Valid() && 7 <= |iv| <= 13
      modifies this, buffer
      ensures Valid() && state == IVSet && untouched && !specified && nonce == iv && header == [] && message == []
      ensures aadLength == messageLength == 0
    {
      hide Valid, InitialCounter, IsBlockFunction;
      StillFixed();
      ClearTotals(iv);
      Resync(iv);
      state := IVSet;
      HeaderBegins();
    }

    method ClearTotals(iv: seq<byte>)
      requires Fixed()
      modifies this`bufferedDataLength, this`totalHeaderLength, this`totalMessageLength, this`totalFooterLength, this`state
      modifies this`nonce, this`untouched, this`specified, this`header, this`message
      ensures Fixed() && bufferedDataLength == 0
      ensures totalHeaderLength == totalMessageLength == totalFooterLength == 0
      ensures nonce == iv && untouched && !specified && header == [] && message == []
    {
      bufferedDataLength := 0;
      totalHeaderLength, totalMessageLength, totalFooterLength := 0, 0, 0;
      state := KeySet;
      nonce, untouched, specified, header, message := iv, true, false, [], [];
    }

    lemma StillFixed()
      requires Valid()
      ensures Fixed()
    {
    }

    lemma HeaderBegins()
      requires Fixed() && Synchronized() && state == IVSet && !specified && header == [] && message == []
      requires totalHeaderLength == totalMessageLength == totalFooterLength == bufferedDataLength == 0
      requires position == BLOCK && buffer[..BLOCK] == counter
      ensures Valid()
    {
      hide IsBlockFunction, InitialCounter, Absorbed, FirstBlock;
    }

    // ----- Feeding the chain -----

    // AuthenticateBlocks: the whole blocks of the data go into the chaining value.
    method AuthenticateBlocks(data: seq<byte>) returns (leftOver: nat)
      requires Fixed()
      modifies buffer
      ensures leftOver == |data| % BLOCK && leftOver <= |data|
      ensures buffer[BLOCK..] == Chain(cipher, BLOCK, old(buffer[BLOCK..]), data[..|data| - leftOver])
      ensures buffer[..BLOCK] == old(buffer[..BLOCK])
    {
      hide IsBlockFunction;
      var y;
      y, leftOver := AdvancedProcessBlocks(cipher, BLOCK, buffer[BLOCK..], data);
      CopyInto(buffer, BLOCK, y);
      assert buffer[BLOCK..] == y;
    }

    // AuthenticateData of authenc.cpp.
    method AuthenticateData(input: seq<byte>, ghost data: seq<byte>)
      requires Fixed() && Synchronized() && Fed(data)
      modifies this`bufferedDataLength, buffer
      ensures Fixed() && Fed(data + input)
    {
      hide IsBlockFunction, Absorbed, Chain, FirstBlock, InitialCounter;
      var rest := input;
      ghost var waiting := buffer[..bufferedDataLength];
      if bufferedDataLength != 0 {
        if bufferedDataLength + |input| < BLOCK {
          Wait(input, data);
          return;
        }
        rest := FillBlock(input, data);
      } else {
        assert input[..0] == [] && data + [] == data;
      }
      ghost var sofar := data + input[..|input| - |rest|];
      assert sofar + rest == data + input;
      PutRest(rest, sofar);
    }

    method Wait(input: seq<byte>, ghost data: seq<byte>)
      requires Fixed() && Synchronized() && Fed(data) && bufferedDataLength + |input| < BLOCK
      modifies this`bufferedDataLength, buffer
      ensures Fixed() && Fed(data + input)
    {
      hide IsBlockFunction, Absorbed, Chain, FirstBlock, InitialCounter;
      ghost var y, waiting := buffer[BLOCK..], buffer[..bufferedDataLength];
      CopyInto(buffer, bufferedDataLength, input);
      bufferedDataLength := bufferedDataLength + |input|;
      assert buffer[..bufferedDataLength] == waiting + input && buffer[BLOCK..] == y;
      AbsorbMore(data, y, waiting, input, [], waiting + input);
    }

    // Completes the block that has begun.
    method FillBlock(input: seq<byte>, ghost data: seq<byte>) returns (rest: seq<byte>)
      requires Fixed() && Synchronized() && Fed(data)
      requires 0 < bufferedDataLength && bufferedDataLength + |input| >= BLOCK
      modifies this`bufferedDataLength, buffer
      ensures Fixed() && bufferedDataLength == 0
      ensures |rest| <= |input| && rest == input[|input| - |rest|..]
      ensures Fed(data + input[..|input| - |rest|])
    {
      hide IsBlockFunction, Absorbed, Chain, FirstBlock, InitialCounter;
      ghost var y, waiting := buffer[BLOCK..], buffer[..bufferedDataLength];
      var len := BLOCK - bufferedDataLength;
      CopyInto(buffer, bufferedDataLength, input[..len]);
      assert buffer[..BLOCK] == waiting + input[..len] && buffer[BLOCK..] == y;
      var leftOver := AuthenticateBlocks(buffer[..BLOCK]);
      assert (waiting + input[..len])[..BLOCK] == waiting + input[..len];
      bufferedDataLength := 0;
      rest := input[len..];
      assert waiting + input[..len] + [] == waiting + input[..len];
      AbsorbMore(data, y, waiting, input[..len], waiting + input[..len], []);
    }

    // The rest in whole blocks, and what is left over into the buffer.
    method PutRest(input: seq<byte>, ghost data: seq<byte>)
      requires Fixed() && Synchronized() && Fed(data) && bufferedDataLength == 0
      modifies this`bufferedDataLength, buffer
      ensures Fixed() && Fed(data + input)
    {
      hide IsBlockFunction, Absorbed, Chain, FirstBlock, InitialCounter;
      ghost var y := buffer[BLOCK..];
      var leftOver := |input|;
      if |input| >= BLOCK {
        leftOver := AuthenticateBlocks(input);
      }
      var whole, rest := input[..|input| - leftOver], input[|input| - leftOver..];
      ghost var y' := buffer[BLOCK..];
      CopyInto(buffer, 0, rest);
      bufferedDataLength := leftOver;
      assert buffer[..leftOver] == rest && buffer[BLOCK..] == y';
      assert [] + input == whole + rest;
      AbsorbMore(data, y, [], input, whole, rest);
    }

    lemma AbsorbMore(data: seq<byte>, y: seq<byte>, waiting: seq<byte>, more: seq<byte>, whole: seq<byte>, rest: seq<byte>)
      requires Fixed() && Synchronized() && |y| == BLOCK
      requires specified ==>
        Absorbed(cipher, BLOCK, cipher(FirstBlock(digestSize, nonce, aadLength, messageLength)), data, y, waiting)
      requires waiting + more == whole + rest && |whole| % BLOCK == 0 && |rest| < BLOCK && |rest| <= |waiting + more|
      ensures specified ==> Absorbed(cipher, BLOCK, cipher(FirstBlock(digestSize, nonce, aadLength, messageLength)), data + more,
        Chain(cipher, BLOCK, y, whole), rest)
      ensures whole == [] ==> Chain(cipher, BLOCK, y, whole) == y
    {
      if specified {
        AbsorbBlocks(cipher, BLOCK, cipher(FirstBlock(digestSize, nonce, aadLength, messageLength)), data, y, waiting,
          more, whole, rest);
      }
    }

    // The block that AuthenticateLastHeaderBlock and AuthenticateLastConfidentialBlock process when bytes are waiting.
    method ProcessWaiting(ghost data: seq<byte>)
      requires Fixed() && Synchronized() && Fed(data)
      modifies this`bufferedDataLength, buffer
      ensures Fixed() && bufferedDataLength == 0 && Fed(PadZeros(data, BLOCK))
    {
      hide Chain, FirstBlock, InitialCounter, PadZeros, XorPrefix;
      ghost var y, waiting := buffer[BLOCK..], buffer[..bufferedDataLength];
      if specified {
        AbsorbPadding(cipher, BLOCK, cipher(FirstBlock(digestSize, nonce, aadLength, messageLength)), data, y, waiting);
      }
      if bufferedDataLength > 0 {
        var block := cipher(XorPrefix(buffer[BLOCK..], buffer[..bufferedDataLength]));
        CopyInto(buffer, BLOCK, block);
        assert buffer[BLOCK..] == block;
        bufferedDataLength := 0;
      }
      assert buffer[..0] == [];
    }

    // ----- The first block and the header's length -----

    // Flags, message length, and the nonce from the counter block over the length's leading bytes.
    method FormatFirstBlock()
      requires Fixed() && Synchronized()
      modifies buffer
      ensures old(buffer[..BLOCK]) == counter ==> buffer[BLOCK..] == cipher(FirstBlock(digestSize, nonce, aadLength, messageLength))
      ensures buffer[..BLOCK] == old(buffer[..BLOCK])
    {
      hide BigEndian;
      var flags: byte := (if aadLength > 0 then 64 else 0) + 8 * ((digestSize - 2) / 2) + (L - 1);
      var block := [flags] + buffer[BLOCK + 1..];
      BigEndianSuffix(messageLength, L, 8);
      block := block[..BLOCK - 8] + BigEndian(messageLength, 8);
      var front := buffer[..BLOCK];
      block := block[..1] + front[1..BLOCK - L] + block[BLOCK - L..];
      assert |block| == BLOCK;
      assert block[BLOCK - L..] == BigEndian(messageLength, 8)[8 - L..];
      if front == counter {
        assert front[1..BLOCK - L] == nonce;
        assert block == FirstBlock(digestSize, nonce, aadLength, messageLength);
      }
      BlockSize(cipher, block);
      block := cipher(block);
      CopyInto(buffer, BLOCK, block);
      assert buffer[BLOCK..] == block;
    }

    // The length of the header goes into the buffer as the first data.
    method PutHeaderLength()
      requires Fixed() && Synchronized()
      requires specified ==> buffer[BLOCK..] == cipher(FirstBlock(digestSize, nonce, aadLength, messageLength))
      requires specified ==> bufferedDataLength == 0
      modifies this`bufferedDataLength, buffer
      ensures Fixed() && Fed(LengthPrefix(aadLength))
    {
      hide BigEndian, FirstBlock, InitialCounter;
      ghost var y := buffer[BLOCK..];
      var prefix: seq<byte> := [];
      if aadLength > 0 {
        if aadLength < 0x10000 - 0x100 {
          prefix := BigEndian(aadLength, 2);
        } else if aadLength < 0x1_0000_0000 {
          prefix := [0xff, 0xfe] + BigEndian(aadLength, 4);
        } else {
          prefix := [0xff, 0xff] + BigEndian(aadLength, 8);
        }
      }
      if prefix != [] {
        CopyInto(buffer, 0, prefix);
        bufferedDataLength := |prefix|;
      }
      assert buffer[BLOCK..] == y && buffer[..|prefix|] == prefix;
      assert prefix[..0] == [];
      ChainNone(cipher, BLOCK, y);
    }

    // No header has come when the lengths are given where they should be.
    lemma FedNothing(prefix: seq<byte>)
      requires Fixed() && Synchronized() && Fed(prefix) && (specified ==> header == [])
      ensures Fed(prefix + header)
    {
      if specified {
        assert prefix + header == prefix;
      }
    }

    lemma HeaderFacts()
      requires Valid() && state == IVSet
      ensures Fixed() && Synchronized()
      ensures totalHeaderLength == |header| && message == [] && position == BLOCK
      ensures totalMessageLength == totalFooterLength == 0
      ensures untouched ==> header == [] && bufferedDataLength == 0 && buffer[..BLOCK] == counter
    {
    }

    lemma HeaderStays()
      requires Fixed() && Synchronized() && state == IVSet && !untouched
      requires totalHeaderLength == |header| && message == [] && position == BLOCK
      requires totalMessageLength == totalFooterLength == 0 && Fed(LengthPrefix(aadLength) + header)
      ensures Valid()
    {
    }

    // SpecifyDataLengths; false for its exceptions.
    method SpecifyDataLengths(headerLength: nat, newMessageLength: nat) returns (ok: bool)
      requires Valid()
      modifies this, buffer
      ensures ok <==>
        old(state) == IVSet && headerLength <= 0xffff_ffff_ffff_ffff && newMessageLength <= old(MaxMessageLength())
      ensures ok ==> Valid() && state == IVSet && specified == old(untouched) && !untouched
      ensures ok ==> nonce == old(nonce) && header == old(header) && message == []
      ensures ok ==> aadLength == headerLength && messageLength == newMessageLength
    {
      hide IsBlockFunction, FirstBlock, InitialCounter, LengthPrefix, Pow256, Fed, Valid, InHeader;
      if headerLength > 0xffff_ffff_ffff_ffff || newMessageLength > MaxMessageLength() || state != IVSet {
        return false;
      }
      HeaderFacts();
      aadLength, messageLength, specified, untouched := headerLength, newMessageLength, untouched, false;
      FormatFirstBlock();
      PutHeaderLength();
      FedNothing(LengthPrefix(aadLength));
      HeaderStays();
      ok := true;
    }

    // ----- Header, message, tag -----

    method AuthenticateLastHeaderBlock() returns (ok: bool)
      requires Fixed() && Synchronized() && totalHeaderLength == |header| && Fed(LengthPrefix(aadLength) + header)
      modifies this`bufferedDataLength, buffer
      ensures Fixed() && (ok <==> aadLength == |header|)
      ensures ok ==> Fed(HeaderBlocks())
    {
      if aadLength != totalHeaderLength {
        return false;
      }
      ProcessWaiting(LengthPrefix(aadLength) + header);
      ok := true;
    }

    method AuthenticateLastConfidentialBlock() returns (ok: bool)
      requires Fixed() && Synchronized() && totalMessageLength == |message| && Fed(HeaderBlocks() + message)
      modifies this`bufferedDataLength, buffer
      ensures Fixed() && (ok <==> messageLength == |message|)
      ensures ok ==> Fed(HeaderBlocks() + PadZeros(message, BLOCK))
    {
      hide IsBlockFunction, FirstBlock, InitialCounter, Absorbed, LengthPrefix, PadZeros;
      if messageLength != totalMessageLength {
        return false;
      }
      PadZerosLength(LengthPrefix(aadLength) + header, BLOCK);
      PadAfterWhole(HeaderBlocks(), message);
      ProcessWaiting(HeaderBlocks() + message);
      ok := true;
    }

    // Header data, or, after the message has begun, footer data; false for the exceptions.
    method Update(input: seq<byte>) returns (ok: bool)
      requires Valid()
      modifies this, buffer
      ensures ok <==> |input| == 0 || old(state) in {IVSet, AuthFooter}
                      || (old(state) in {AuthUntransformed, AuthTransformed} && old(messageLength) == old(|message|))
      ensures ok ==> Valid()
      ensures ok ==> nonce == old(nonce) && specified == old(specified) && message == old(message)
      ensures ok ==> aadLength == old(aadLength) && messageLength == old(messageLength)
      ensures ok ==> state == if |input| > 0 && old(state) != IVSet then AuthFooter else old(state)
      ensures ok ==> header == if old(state) == IVSet then old(header) + input else old(header)
    {
      hide Fixed, Synchronized, Fed, InMessage, HeaderBlocks;
      if |input| == 0 {
        assert header + input == header;
        return true;
      }
      if state == KeySet {
        return false;
      }
      if state == IVSet {
        UpdateHeader(input);
        return true;
      }
      if state != AuthFooter {
        ok := BeginFooter();
        if !ok {
          return;
        }
      }
      UpdateFooter(input);
      ok := true;
    }

    method UpdateHeader(input: seq<byte>)
      requires Fixed() && Synchronized() && InHeader()
      modifies this`bufferedDataLength, this`totalHeaderLength, this`header, this`untouched, buffer
      ensures Fixed() && Synchronized() && InHeader() && header == old(header) + input
    {
      hide IsBlockFunction, FirstBlock, InitialCounter, Absorbed, LengthPrefix;
      ghost var data := LengthPrefix(aadLength) + header;
      AuthenticateData(input, data);
      totalHeaderLength := totalHeaderLength + |input|;
      header := header + input;
      untouched := false;
      assert data + input == LengthPrefix(aadLength) + header;
    }

    // The footer follows the last block of the message.
    method BeginFooter() returns (ok: bool)
      requires Fixed() && Synchronized() && InMessage()
      modifies this`bufferedDataLength, this`state, this`footer, buffer
      ensures ok <==> messageLength == |message|
      ensures ok ==> Fixed() && Synchronized() && footer == [] && totalFooterLength == 0 && state == AuthFooter
      ensures ok ==> Fed(HeaderBlocks() + PadZeros(message, BLOCK) + footer)
    {
      hide IsBlockFunction, FirstBlock, InitialCounter, Absorbed, LengthPrefix, PadZeros;
      ok := AuthenticateLastConfidentialBlock();
      if ok {
        footer := [];
        state := AuthFooter;
        assert HeaderBlocks() + PadZeros(message, BLOCK) + footer == HeaderBlocks() + PadZeros(message, BLOCK);
      }
    }

    method UpdateFooter(input: seq<byte>)
      requires Fixed() && Synchronized() && totalFooterLength == |footer| && |input| > 0
      requires Fed(HeaderBlocks() + PadZeros(message, BLOCK) + footer)
      modifies this`bufferedDataLength, this`totalFooterLength, this`footer, buffer
      ensures Fixed() && Synchronized() && InFooter()
    {
      hide IsBlockFunction, FirstBlock, InitialCounter, Absorbed, LengthPrefix, PadZeros;
      ghost var data := HeaderBlocks() + PadZeros(message, BLOCK) + footer;
      AuthenticateData(input, data);
      totalFooterLength := totalFooterLength + |input|;
      footer := footer + input;
      assert data + input == HeaderBlocks() + PadZeros(message, BLOCK) + footer;
    }

    // A part of the message in, the same part transformed out.
    method ProcessData(inString: seq<byte>) returns (outString: seq<byte>, ok: bool)
      requires Valid()
      modifies this, buffer
      ensures ok <==> old(|message|) + |inString| <= old(MaxMessageLength())
                      && (old(state) in {AuthUntransformed, AuthTransformed}
                          || (old(state) == IVSet && old(aadLength) == old(|header|)))
      ensures ok ==> Valid() && state == if forward then AuthUntransformed else AuthTransformed
      ensures ok ==> nonce == old(nonce) && header == old(header) && counter == old(counter) && L == old(L)
      ensures ok ==> specified == old(specified)
      ensures ok ==> aadLength == old(aadLength) && messageLength == old(messageLength)
      ensures ok ==> 7 <= |nonce| <= 13 && counter == InitialCounter(nonce)
      ensures ok ==> message == old(message) + if forward then inString else outString
      ensures ok ==> outString == CtrMasked(cipher, counter, inString, BLOCK + old(|message|))
    {
      hide Fed, HeaderBlocks, CtrMasked, Pow256, InitialCounter, LengthPrefix;
      outString, ok := [], false;
      var total := totalMessageLength + |inString|;
      if state != KeySet && total > MaxMessageLength() {
        totalMessageLength := total;
        return;
      }
      if state == KeySet || state == AuthFooter {
        totalMessageLength := total;
        return;
      }
      if state == IVSet {
        ok := BeginMessage();
        if !ok {
          totalMessageLength := total;
          return;
        }
      }
      outString := Transform(inString);
      ok := true;
    }

    // The message follows the last block of the header.
    method BeginMessage() returns (ok: bool)
      requires Fixed() && Synchronized() && InHeader()
      modifies this`bufferedDataLength, this`state, buffer
      ensures ok <==> aadLength == |header|
      ensures ok ==> Fixed() && Synchronized() && InMessage()
      ensures ok ==> state == if forward then AuthUntransformed else AuthTransformed
    {
      hide IsBlockFunction, FirstBlock, InitialCounter, Absorbed, LengthPrefix, PadZeros;
      ok := AuthenticateLastHeaderBlock();
      if ok {
        state := if forward then AuthUntransformed else AuthTransformed;
        assert HeaderBlocks() + message == HeaderBlocks();
      }
    }

    // Authentication is on the plaintext: before encryption, after decryption.
    method Transform(inString: seq<byte>) returns (outString: seq<byte>)
      requires Fixed() && Synchronized() && InMessage()
      requires state == if forward then AuthUntransformed else AuthTransformed
      modifies this`bufferedDataLength, this`position, this`totalMessageLength, this`message, buffer
      ensures Fixed() && Synchronized() && InMessage()
      ensures message == old(message) + if forward then inString else outString
      ensures outString == CtrMasked(cipher, counter, inString, BLOCK + old(|message|))
    {
      hide FirstBlock, InitialCounter, Absorbed, LengthPrefix, PadZeros, CtrByte;
      ghost var data := HeaderBlocks() + message;
      if state == AuthUntransformed {
        AuthenticateData(inString, data);
        outString := CtrMasked(cipher, counter, inString, position);
        message := message + inString;
      } else {
        outString := CtrMasked(cipher, counter, inString, position);
        AuthenticateData(outString, data);
        message := message + outString;
      }
      position := position + |inString|;
      totalMessageLength := totalMessageLength + |inString|;
      assert HeaderBlocks() + message == data + if forward then inString else outString;
    }

    // The tag's first bytes; false for the exceptions. A footer is always one. They are the tag of nonce, header and
    // message if the lengths were given when they should be.
    method TruncatedFinal(macSize: nat) returns (mac: seq<byte>, ok: bool)
      requires Valid() && macSize <= BLOCK
      modifies this, buffer
      ensures ok <==> old(state) in {IVSet, AuthUntransformed, AuthTransformed}
                      && old(aadLength) == old(|header|) <= 0xffff_ffff_ffff_ffff
                      && old(messageLength) == old(|message|)
      ensures ok ==> Valid() && state == KeySet
      ensures ok ==> 7 <= |old(nonce)| <= 13
      ensures ok ==> |mac| == macSize
      ensures ok && old(specified) ==> mac == Tag(cipher, digestSize, old(nonce), old(header), old(message))[..macSize]
    {
      hide Fed, HeaderBlocks, Tag, InitialCounter, IsBlockFunction, LengthPrefix;
      mac, ok := [], false;
      if totalHeaderLength > 0xffff_ffff_ffff_ffff || totalFooterLength > 0 || state == KeySet {
        return;
      }
      if state == IVSet {
        ok := AuthenticateLastHeaderBlock();
        if !ok {
          return;
        }
        assert HeaderBlocks() + message == HeaderBlocks();
      }
      ok := AuthenticateLastConfidentialBlock();
      if ok {
        mac := AuthenticateLastFooterBlock(macSize);
        bufferedDataLength := 0;
        state := KeySet;
      }
    }

    // The chaining value under the mask's first block.
    method AuthenticateLastFooterBlock(macSize: nat) returns (mac: seq<byte>)
      requires Fixed() && Synchronized() && macSize <= BLOCK
      requires aadLength == |header| && messageLength == |message|
      requires Fed(HeaderBlocks() + PadZeros(message, BLOCK))
      modifies this`position
      ensures |mac| == macSize
      ensures specified ==> mac == Tag(cipher, digestSize, nonce, header, message)[..macSize]
    {
      hide Absorbed, Chain, FirstBlock, PadZeros, LengthPrefix, InitialCounter, CtrMasked, Tag;
      if specified {
        TagOfChain(cipher, digestSize, nonce, header, message, buffer[BLOCK..], buffer[..bufferedDataLength], macSize);
      }
      assert buffer[BLOCK..BLOCK + macSize] == buffer[BLOCK..][..macSize];
      mac := CtrMasked(cipher, counter, buffer[BLOCK..BLOCK + macSize], 0);
      position := macSize;
    }
  }

  lemma TagOfChain(f: BlockFunction, digestSize: nat, nonce: seq<byte>, header: seq<byte>, message: seq<byte>,
                   y: seq<byte>, waiting: seq<byte>, macSize: nat)
    requires 7 <= |nonce| <= 13 && 4 <= digestSize <= 16 && IsBlockFunction(f, BLOCK) && |y| == BLOCK
    requires macSize <= BLOCK
    requires Absorbed(f, BLOCK, f(FirstBlock(digestSize, nonce, |header|, |message|)),
      PadZeros(LengthPrefix(|header|) + header, BLOCK) + PadZeros(message, BLOCK), y, waiting)
    ensures CtrMasked(f, InitialCounter(nonce), y[..macSize], 0)
         == Tag(f, digestSize, nonce, header, message)[..macSize]
  {
    hide Chain, FirstBlock, PadZeros, LengthPrefix, InitialCounter, Pow256, CtrMasked, KeyStream, Authenticator;
    var a, b := PadZeros(LengthPrefix(|header|) + header, BLOCK), PadZeros(message, BLOCK);
    PadZerosLength(LengthPrefix(|header|) + header, BLOCK);
    PadZerosLength(message, BLOCK);
    assert waiting == [];
    assert (a + b)[..|a + b|] == a + b;
    ChainIsAuthenticator(f, digestSize, nonce, header, message);
    MaskingAgrees(f, nonce, y[..macSize], 0);
    assert Masked(f, nonce, y[..macSize], 0) == Masked(f, nonce, y, 0)[..macSize];
  }

  // ----- Whole messages -----

  // The header, in any pieces.
  method UpdateAll(c: CcmBase, headers: seq<seq<byte>>)
    requires c.Valid() && c.state == IVSet && c.specified && c.header == []
    modifies c, c.buffer
    ensures c.Valid() && c.state == IVSet && c.specified && c.header == Flatten(headers)
    ensures c.nonce == old(c.nonce) && c.message == old(c.message)
    ensures c.aadLength == old(c.aadLength) && c.messageLength == old(c.messageLength)
  {
    hide *;
    var i := 0;
    assert headers[..0] == [];
    EmptyFlatten();
    while i < |headers|
      invariant i <= |headers| && c.Valid() && c.state == IVSet && c.specified && c.header == Flatten(headers[..i])
      invariant c.nonce == old(c.nonce) && c.message == old(c.message)
      invariant c.aadLength == old(c.aadLength) && c.messageLength == old(c.messageLength)
    {
      FlattenNext(headers, i);
      var ok := c.Update(headers[i]);
      i := i + 1;
    }
    assert headers[..|headers|] == headers;
  }

  // The message in the given direction, in any pieces.
  method ProcessAll(c: CcmBase, texts: seq<seq<byte>>) returns (out: seq<byte>)
    requires c.Valid() && c.state == IVSet && c.specified && c.message == [] && c.aadLength == |c.header|
    requires |Flatten(texts)| <= c.MaxMessageLength()
    modifies c, c.buffer
    ensures c.Valid() && c.specified
    ensures c.state in {IVSet, AuthUntransformed, AuthTransformed}
    ensures c.nonce == old(c.nonce) && c.header == old(c.header) && 7 <= |c.nonce| <= 13
    ensures c.aadLength == old(c.aadLength) && c.messageLength == old(c.messageLength)
    ensures out == Masked(c.cipher, c.nonce, Flatten(texts), BLOCK)
    ensures c.message == if c.forward then Flatten(texts) else out
  {
    hide *;
    out := [];
    var i := 0;
    assert texts[..0] == [];
    EmptyFlatten();
    ReadyToProcess(c);
    MaskNothing(c.cipher, c.counter);
    ghost var most := c.MaxMessageLength();
    while i < |texts|
      invariant i <= |texts| && c.Valid() && c.state in {IVSet, AuthUntransformed, AuthTransformed}
      invariant c.specified && (c.state == IVSet ==> c.aadLength == |c.header|)
      invariant c.nonce == old(c.nonce) && c.header == old(c.header) && c.MaxMessageLength() == most
      invariant c.aadLength == old(c.aadLength) && c.messageLength == old(c.messageLength)
      invariant 7 <= |c.nonce| <= 13 && c.counter == InitialCounter(c.nonce) && IsBlockFunction(c.cipher, BLOCK)
      invariant out == CtrMasked(c.cipher, c.counter, Flatten(texts[..i]), BLOCK)
      invariant c.message == if c.forward then Flatten(texts[..i]) else out
    {
      FlattenNext(texts, i);
      FlattenGrows(texts, i + 1);
      MaskAppend(c.cipher, c.counter, Flatten(texts[..i]), texts[i], BLOCK);
      var part, ok := c.ProcessData(texts[i]);
      out := out + part;
      i := i + 1;
      ReadyToProcess(c);
    }
    assert texts[..|texts|] == texts;
    MaskMessage(c.cipher, c.nonce, Flatten(texts));
  }

  lemma MaskMessage(f: BlockFunction, nonce: seq<byte>, data: seq<byte>)
    requires 7 <= |nonce| <= 13 && IsBlockFunction(f, BLOCK) && |data| <= Pow256(15 - |nonce|) - 1
    ensures CtrMasked(f, InitialCounter(nonce), data, BLOCK) == Masked(f, nonce, data, BLOCK)
  {
    MaskingAgrees(f, nonce, data, BLOCK);
  }

  lemma ReadyToProcess(c: CcmBase)
    requires c.Valid() && c.state in {IVSet, AuthUntransformed, AuthTransformed}
    ensures IsBlockFunction(c.cipher, BLOCK) && 7 <= |c.nonce| <= 13 && c.counter == InitialCounter(c.nonce)
    ensures c.MaxMessageLength() == Pow256(15 - |c.nonce|) - 1
  {
    hide IsBlockFunction, Absorbed, InitialCounter;
    LongestMessage(c.L);
  }

  lemma MaskNothing(f: BlockFunction, iv: seq<byte>)
    requires |iv| == BLOCK && IsBlockFunction(f, BLOCK)
    ensures CtrMasked(f, iv, [], BLOCK) == []
  {
  }

  lemma LongestMessage(L: nat)
    requires 2 <= L <= 8
    ensures (if L < 8 then Pow256(L) - 1 else 0xffff_ffff_ffff_ffff) == Pow256(L) - 1
  {
    assert Pow256(4) == 0x1_0000_0000;
    assert Pow256(8) == 256 * (256 * (256 * (256 * Pow256(4))));
  }

  predicate LengthsFit(iv: seq<byte>, header: seq<byte>, message: seq<byte>)
    requires 7 <= |iv| <= 13
  {
    |header| <= 0xffff_ffff_ffff_ffff && |message| <= Pow256(15 - |iv|) - 1
  }

  // Resynchronize, SpecifyDataLengths, Update and ProcessString: what both directions do before the tag.
  method Run(c: CcmBase, iv: seq<byte>, headers: seq<seq<byte>>, texts: seq<seq<byte>>)
    returns (out: seq<byte>, ok: bool)
    requires c.Valid() && 7 <= |iv| <= 13
    modifies c, c.buffer
    ensures ok <==> LengthsFit(iv, Flatten(headers), Flatten(texts))
    ensures ok ==> c.Valid() && c.nonce == iv && c.specified && IsBlockFunction(c.cipher, BLOCK)
    ensures ok ==> c.state in {IVSet, AuthUntransformed, AuthTransformed}
    ensures ok ==> c.header == Flatten(headers) && c.aadLength == |c.header|
    ensures ok ==> c.messageLength == |Flatten(texts)| == |c.message|
    ensures ok ==> out == Masked(c.cipher, iv, Flatten(texts), BLOCK)
    ensures ok ==> c.message == if c.forward then Flatten(texts) else out
  {
    hide CcmBase.Valid, CcmBase.MaxMessageLength, Masked, Pow256, Flatten, IsBlockFunction;
    c.Resynchronize(iv);
    ReadyToProcess(c);
    out, ok := [], false;
    ok := c.SpecifyDataLengths(|Flatten(headers)|, |Flatten(texts)|);
    if ok {
      ReadyToProcess(c);
      UpdateAll(c, headers);
      ReadyToProcess(c);
      out := ProcessAll(c, texts);
    }
  }

  method EncryptAndAuthenticate(c: CcmBase, macSize: nat, iv: seq<byte>, headers: seq<seq<byte>>, texts: seq<seq<byte>>)
    returns (ciphertext: seq<byte>, mac: seq<byte>, ok: bool)
    requires c.Valid() && c.forward && macSize <= BLOCK && 7 <= |iv| <= 13
    modifies c, c.buffer
    ensures ok <==> LengthsFit(iv, Flatten(headers), Flatten(texts))
    ensures ok ==> c.Valid() && IsBlockFunction(c.cipher, BLOCK) && 4 <= c.digestSize <= 16
    ensures ok ==> ciphertext == Masked(c.cipher, iv, Flatten(texts), BLOCK)
    ensures ok ==> mac == Tag(c.cipher, c.digestSize, iv, Flatten(headers), Flatten(texts))[..macSize]
  {
    hide Masked, Tag, Pow256, Flatten, IsBlockFunction, CcmBase.Synchronized;
    mac := [];
    ciphertext, ok := Run(c, iv, headers, texts);
    if ok {
      mac, ok := c.TruncatedFinal(macSize);
    }
  }

  // TruncatedVerify turns down a longer tag than the mode makes.
  method DecryptAndVerify(c: CcmBase, mac: seq<byte>, iv: seq<byte>, headers: seq<seq<byte>>, texts: seq<seq<byte>>)
    returns (message: seq<byte>, verified: bool, ok: bool)
    requires c.Valid() && !c.forward && 7 <= |iv| <= 13
    modifies c, c.buffer
    ensures ok <==> LengthsFit(iv, Flatten(headers), Flatten(texts)) && |mac| <= c.digestSize
    ensures ok ==> c.Valid() && IsBlockFunction(c.cipher, BLOCK) && 4 <= c.digestSize <= 16
    ensures ok ==> message == Masked(c.cipher, iv, Flatten(texts), BLOCK)
    ensures ok ==> (verified <==> mac == Tag(c.cipher, c.digestSize, iv, Flatten(headers), message)[..|mac|])
  {
    hide Masked, Tag, Pow256, Flatten, IsBlockFunction, CcmBase.Synchronized;
    verified := false;
    message, ok := Run(c, iv, headers, texts);
    if ok {
      if |mac| > c.digestSize {
        return message, false, false;
      }
      var digest;
      digest, ok := c.TruncatedFinal(|mac|);
      verified := digest == mac;
    }
  }

  lemma MaskedTwice(f: BlockFunction, nonce: seq<byte>, data: seq<byte>, from: nat)
    requires 7 <= |nonce| <= 13 && IsBlockFunction(f, BLOCK)
    ensures Masked(f, nonce, Masked(f, nonce, data, from), from) == data
  {
    forall i | 0 <= i < |data|
      ensures Masked(f, nonce, Masked(f, nonce, data, from), from)[i] == data[i]
    {
      XorByteTwice(data[i], KeyStream(f, nonce, from + i));
    }
  }

  /** Whatever the cipher, nonce, header and message, and however both sides cut header, message and ciphertext into
      pieces, what was encrypted decrypts to the message and its tag is accepted. */
  method RoundTrip(f: BlockFunction, digestSize: nat, iv: seq<byte>, headers: seq<seq<byte>>, texts: seq<seq<byte>>,
                   headers': seq<seq<byte>>, cut: seq<byte> -> seq<seq<byte>>)
    returns (message: seq<byte>, verified: bool)
    requires IsBlockFunction(f, BLOCK) && digestSize % 2 == 0 && 4 <= digestSize <= 16 && 7 <= |iv| <= 13
    requires LengthsFit(iv, Flatten(headers), Flatten(texts))
    requires Flatten(headers') == Flatten(headers) && forall text :: Flatten(cut(text)) == text
    ensures message == Flatten(texts) && verified
  {
    hide Masked, Tag, Pow256, Flatten, CcmBase.Valid;
    var sender := new CcmBase(f, true, digestSize);
    var receiver := new CcmBase(f, false, digestSize);
    var ciphertext, mac, ok := EncryptAndAuthenticate(sender, digestSize, iv, headers, texts);
    message, verified, ok := DecryptAndVerify(receiver, mac, iv, headers', cut(ciphertext));
    MaskedTwice(f, iv, Flatten(texts), BLOCK);
  }
}
