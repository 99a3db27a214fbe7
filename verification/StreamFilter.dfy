/** StreamTransformationFilter of filters.cpp with its two padding schemes that can be undone: PKCS padding (section
    6.3 of RFC 5652) and a one bit followed by zeros. */
module StreamFilter {
  import opened Arithmetic
  import opened Bytes
  import opened Options
  import opened BufferedInput

  // A block cipher in a mode of operation: its state, and what one block does to state and block, in each direction.
  datatype Cipher<!S> = Cipher(
    blockSize: nat,
    encrypt: (S, seq<byte>) -> (S, seq<byte>),
    decrypt: (S, seq<byte>) -> (S, seq<byte>)
  )

  type Step<!S> = (S, seq<byte>) -> (S, seq<byte>)

  // In the state s, back undoes forth on the block b and moves on to the same state.
  ghost predicate Undoes<S(!new)>(back: Step<S>, forth: Step<S>, s: S, b: seq<byte>) {
    && |forth(s, b).1| == |b|
    && back(s, forth(s, b).1) == (forth(s, b).0, b)
  }

  ghost predicate IsCipher<S(!new)>(c: Cipher<S>) {
    && 1 < c.blockSize < 256
    && (forall s, b :: |b| == c.blockSize ==> Undoes(c.decrypt, c.encrypt, s, b))
    && (forall s, b :: |b| == c.blockSize ==> Undoes(c.encrypt, c.decrypt, s, b))
  }

  // ----- Processing whole blocks -----

  function Process<S>(step: Step<S>, n: nat, s: S, data: seq<byte>): (S, seq<byte>)
    requires n > 0
    decreases |data|
  {
    if |data| < n then (s, [])
    else
      var (s1, b) := step(s, data[..n]);
      var (s2, rest) := Process(step, n, s1, data[n..]);
      (s2, b + rest)
  }

  lemma {:induction false} ProcessAppend<S>(step: Step<S>, n: nat, s: S, a: seq<byte>, b: seq<byte>)
    requires n > 0 && |a| % n == 0
    ensures var (s1, a1) := Process(step, n, s, a);
            var (s2, b1) := Process(step, n, s1, b);
            Process(step, n, s, a + b) == (s2, a1 + b1)
    decreases |a|
  {
    if |a| < n {
      DivUnique(|a|, n, 0, |a|);
      assert a == [] && a + b == b;
      assert [] + Process(step, n, s, b).1 == Process(step, n, s, b).1;
    } else {
      SubtractModulus(|a|, n);
      assert (a + b)[..n] == a[..n] && (a + b)[n..] == a[n..] + b;
      var (s1, c) := step(s, a[..n]);
      ProcessAppend(step, n, s1, a[n..], b);
      var (s2, rest) := Process(step, n, s1, a[n..]);
      var b1 := Process(step, n, s2, b).1;
      assert c + (rest + b1) == (c + rest) + b1;
    }
  }

  // States and blocks in order, each step from the one before.
  ghost predicate InSteps<S>(step: Step<S>, n: nat, s: seq<S>, blocks: seq<seq<byte>>, out: seq<seq<byte>>) {
    && |s| == |blocks| + 1 && |out| == |blocks|
    && (forall i :: 0 <= i < |blocks| ==> |blocks[i]| == n)
    && (forall i :: 0 <= i < |blocks| ==> step(s[i], blocks[i]) == (s[i + 1], out[i]))
  }

  lemma {:induction false} ProcessByBlocks<S>(
    step: Step<S>, n: nat, s: seq<S>, blocks: seq<seq<byte>>, out: seq<seq<byte>>)
    requires n > 0 && InSteps(step, n, s, blocks, out)
    ensures |Flatten(blocks)| % n == 0
    ensures Process(step, n, s[0], Flatten(blocks)) == (s[|blocks|], Flatten(out))
  {
    var m := |blocks| - 1;
    if blocks != [] {
      hide Process;
      ProcessByBlocks(step, n, s[..m + 1], blocks[..m], out[..m]);
      ProcessAppend(step, n, s[0], Flatten(blocks[..m]), blocks[m]);
      ProcessOne(step, n, s[m], blocks[m]);
      SubtractModulus(|Flatten(blocks[..m])| + n, n);
    }
  }

  lemma ProcessOne<S>(step: Step<S>, n: nat, s: S, block: seq<byte>)
    requires 0 < n == |block|
    ensures Process(step, n, s, block) == step(s, block)
  {
    assert block[..n] == block && block[n..] == [];
    var (s1, b) := step(s, block);
    assert b + [] == b;
  }

  // Decrypting block by block undoes encrypting block by block, and the other way round.
  lemma {:induction false} ProcessUndone<S(!new)>(back: Step<S>, forth: Step<S>, n: nat, s: S, data: seq<byte>)
    requires n > 0 && |data| % n == 0
    requires forall t, b :: |b| == n ==> Undoes(back, forth, t, b)
    ensures var (s1, out) := Process(forth, n, s, data);
            |out| == |data| && Process(back, n, s, out) == (s1, data)
    decreases |data|
  {
    if |data| < n {
      DivUnique(|data|, n, 0, |data|);
    } else {
      SubtractModulus(|data|, n);
      var b := data[..n];
      assert Undoes(back, forth, s, b);
      var (s1, c) := forth(s, b);
      ProcessUndone(back, forth, n, s1, data[n..]);
      var rest := Process(forth, n, s1, data[n..]).1;
      assert (c + rest)[..n] == c && (c + rest)[n..] == rest;
      assert b + data[n..] == data;
    }
  }

  // ----- Padding -----

  datatype Padding = PKCS_PADDING | ONE_AND_ZEROS_PADDING

  // The last block: what is left of the message and the padding.
  function Pad(padding: Padding, n: nat, tail: seq<byte>): (block: seq<byte>)
    requires |tail| < n < 256
    ensures |block| == n
  {
    match padding
    case PKCS_PADDING => var pad: byte := n - |tail|; tail + seq(n - |tail|, i => pad)
    case ONE_AND_ZEROS_PADDING => tail + [0x80] + Zeros(n - |tail| - 1)
  }

  // LastPut's reading of a decrypted last block: how much of it is message.
  method Unpad(padding: Padding, space: seq<byte>) returns (length: Option<nat>)
    requires 0 < |space| < 256
    ensures length.Some? ==> length.value < |space| && space == Pad(padding, |space|, space[..length.value])
    ensures length.None? ==> forall tail: seq<byte> :: |tail| < |space| ==> space != Pad(padding, |space|, tail)
  {
    var s := |space|;
    if padding == PKCS_PADDING {
      var pad := space[s - 1];
      if pad < 1 || pad > s {
        return None;
      }
      var i := s - pad;
      while i < s && space[i] == pad
        invariant s - pad <= i <= s
        invariant forall k :: s - pad <= k < i ==> space[k] == pad
      {
        i := i + 1;
      }
      if i != s {
        forall tail: seq<byte> | |tail| < |space|
          ensures space != Pad(padding, |space|, tail)
        {
          if space == Pad(padding, s, tail) { PaddedEnd(space, tail); }
        }
        return None;
      }
      return Some(s - pad);
    } else {
      var n := s;
      while n > 1 && space[n - 1] == 0
        invariant 1 <= n <= s
        invariant space[n..] == Zeros(s - n)
      {
        n := n - 1;
      }
      n := n - 1;
      if space[n] != 0x80 {
        forall tail: seq<byte> | |tail| < |space|
          ensures space != Pad(padding, |space|, tail)
        {
          if space == Pad(padding, s, tail) { OneThenZeros(space, tail, n); }
        }
        return None;
      }
      assert space == space[..n] + [space[n]] + space[n + 1..];
      return Some(n);
    }
  }

  // Where the zeros stop in a padded block there is the one.
  lemma OneThenZeros(space: seq<byte>, tail: seq<byte>, n: nat)
    requires n < |space| && |tail| < |space| < 256
    requires space == tail + [0x80] + Zeros(|space| - |tail| - 1)
    requires space[n + 1..] == Zeros(|space| - n - 1) && (n > 0 ==> space[n] != 0)
    ensures space[n] == 0x80
  {
    assert space[|tail|] == 0x80;
    ZerosFrom(space, n + 1);
  }

  lemma ZerosFrom(space: seq<byte>, from: nat)
    requires from <= |space| && space[from..] == Zeros(|space| - from)
    ensures forall k :: from <= k < |space| ==> space[k] == 0
  {
    assert forall k :: from <= k < |space| ==> space[k] == space[from..][k - from];
  }

  lemma PaddedEnd(space: seq<byte>, tail: seq<byte>)
    requires |tail| < |space| < 256 && space == Pad(PKCS_PADDING, |space|, tail)
    ensures forall k :: |tail| <= k < |space| ==> space[k] == |space| - |tail|
  {
  }

  // A padded block determines what was padded.
  lemma PadInjective(padding: Padding, n: nat, tail: seq<byte>, tail': seq<byte>)
    requires |tail| < n < 256 && |tail'| < n && Pad(padding, n, tail) == Pad(padding, n, tail')
    ensures tail == tail'
  {
    var b, b' := Pad(padding, n, tail), Pad(padding, n, tail');
    assert b[..|tail|] == tail && b'[..|tail'|] == tail';
    match padding
    case PKCS_PADDING =>
      assert b[n - 1] == n - |tail| && b'[n - 1] == n - |tail'|;
    case ONE_AND_ZEROS_PADDING =>
      assert b[|tail|] == 0x80 && b'[|tail'|] == 0x80;
      assert forall i :: |tail| < i < n ==> b[i] == 0;
      assert forall i :: |tail'| < i < n ==> b'[i] == 0;
  }

  // ----- Whole messages -----

  // Everything up to the last whole block boundary, then the padded rest.
  function Padded(padding: Padding, n: nat, message: seq<byte>): (p: seq<byte>)
    requires 1 < n < 256
  {
    MiddleFits(|message|, n, 0);
    var k := MiddleLength(|message|, n, 0);
    TailIsShort(|message|, n);
    message[..k] + Pad(padding, n, message[k..])
  }

  lemma TailIsShort(k: nat, n: nat)
    requires n > 0
    ensures 0 <= k - MiddleLength(k, n, 0) < n
    ensures MiddleLength(k, n, 0) % n == 0
  {
    DivMod(k, n);
    if k >= n { RoundedDown(k, n); } else { DivUnique(0, n, 0, 0); }
  }

  lemma PaddedLength(padding: Padding, n: nat, message: seq<byte>)
    requires 1 < n < 256
    ensures |Padded(padding, n, message)| % n == 0
    ensures |Padded(padding, n, message)| == MiddleLength(|message|, n, 0) + n
  {
    TailIsShort(|message|, n);
    SubtractModulus(MiddleLength(|message|, n, 0) + n, n);
  }

  // The octets that are added: as many as it takes to fill the last block and at least one, each of them their number
  // or the first 80 and the others zero.
  predicate PaddingOctets(padding: Padding, p: seq<byte>) {
    match padding
    case PKCS_PADDING => forall i :: 0 <= i < |p| ==> p[i] == |p|
    case ONE_AND_ZEROS_PADDING => p != [] && p[0] == 0x80 && forall i :: 0 < i < |p| ==> p[i] == 0
  }

  lemma PaddedExactly(padding: Padding, n: nat, message: seq<byte>, p: seq<byte>)
    requires 1 < n < 256
    ensures message + p == Padded(padding, n, message)
       <==> 0 < |p| <= n && (|message| + |p|) % n == 0 && PaddingOctets(padding, p)
  {
    PaddedLength(padding, n, message);
    TailIsShort(|message|, n);
    var k := MiddleLength(|message|, n, 0);
    var q := Pad(padding, n, message[k..])[|message| - k..];
    assert Padded(padding, n, message) == message + q;
    if 0 < |p| <= n && (|message| + |p|) % n == 0 && PaddingOctets(padding, p) {
      FillsBlock(k, |message|, |p|, n);
      assert p == q;
    }
    if message + p == Padded(padding, n, message) {
      assert (message + p)[|message|..] == p && (message + q)[|message|..] == q;
    }
  }

  lemma FillsBlock(k: nat, m: nat, p: nat, n: nat)
    requires 0 < n && 0 < p <= n && k % n == 0 && k <= m < k + n && (m + p) % n == 0
    ensures m + p == k + n
  {
    var t := m + p - k;
    DivMod(k, n);
    DivMod(t, n);
    MulDistributes(n, k / n, t / n);
    DivUnique(k + t, n, k / n + t / n, t % n);
    if t < n {
      DivUnique(t, n, 0, t);
    } else {
      DivUnique(t, n, 1, t - n);
    }
  }

  // Cutting off the last block of a padded message and unpadding it gives the message, and nothing else does.
  ghost predicate Unpads(padding: Padding, n: nat, padded: seq<byte>, message: seq<byte>)
    requires 1 < n < 256
  {
    exists tail: seq<byte> :: |tail| < n && |padded| >= n
      && padded[|padded| - n..] == Pad(padding, n, tail) && message == padded[..|padded| - n] + tail
  }

  lemma UnpadsExactly(padding: Padding, n: nat, padded: seq<byte>, message: seq<byte>)
    requires 1 < n < 256 && |padded| % n == 0
    ensures Unpads(padding, n, padded, message) <==> padded == Padded(padding, n, message)
  {
    hide Padded, Pad;
    if padded == Padded(padding, n, message) {
      UnpadsPadded(padding, n, message);
    }
    if Unpads(padding, n, padded, message) {
      var tail: seq<byte> :| |tail| < n && |padded| >= n && padded[|padded| - n..] == Pad(padding, n, tail)
        && message == padded[..|padded| - n] + tail;
      OnlyPadded(padding, n, padded, tail);
    }
  }

  lemma UnpadsPadded(padding: Padding, n: nat, message: seq<byte>)
    requires 1 < n < 256
    ensures Unpads(padding, n, Padded(padding, n, message), message)
  {
    hide Pad, MiddleLength;
    var padded, k := Padded(padding, n, message), MiddleLength(|message|, n, 0);
    TailIsShort(|message|, n);
    assert message == message[..k] + message[k..];
    assert padded[..k] == message[..k] && padded[k..] == Pad(padding, n, message[k..]);
  }

  lemma OnlyPadded(padding: Padding, n: nat, padded: seq<byte>, tail: seq<byte>)
    requires 1 < n < 256 && |padded| % n == 0 && |tail| < n <= |padded|
    requires padded[|padded| - n..] == Pad(padding, n, tail)
    ensures padded == Padded(padding, n, padded[..|padded| - n] + tail)
  {
    hide Pad, MiddleLength;
    var k, message := |padded| - n, padded[..|padded| - n] + tail;
    SubtractModulus(|padded|, n);
    MiddleDecided(k, |tail|, Sizes(0, n, 0));
    assert message[..k] == padded[..k] && message[k..] == tail;
    assert padded == padded[..k] + padded[k..];
  }

  ghost function Encrypted<S(!new)>(c: Cipher<S>, padding: Padding, s: S, message: seq<byte>): (S, seq<byte>)
    requires IsCipher(c)
  {
    Process(c.encrypt, c.blockSize, s, Padded(padding, c.blockSize, message))
  }

  // What a decrypting filter makes of a ciphertext: a message, or an error.
  ghost predicate Decrypts<S(!new)>(c: Cipher<S>, padding: Padding, s: S, text: seq<byte>, message: seq<byte>)
    requires IsCipher(c)
  {
    && |text| % c.blockSize == 0
    && Unpads(padding, c.blockSize, Process(c.decrypt, c.blockSize, s, text).1, message)
  }

  // A text that decrypts to no message.
  ghost predicate Rejects<S(!new)>(c: Cipher<S>, padding: Padding, s: S, text: seq<byte>)
    requires IsCipher(c)
  {
    forall message: seq<byte> :: !Decrypts(c, padding, s, text, message)
  }

  /** Decryption undoes encryption, and the texts that decrypt to a message are its encryption alone. */
  lemma DecryptionUndoesEncryption<S(!new)>(c: Cipher<S>, padding: Padding, s: S, text: seq<byte>, message: seq<byte>)
    requires IsCipher(c)
    ensures Decrypts(c, padding, s, text, message) <==> text == Encrypted(c, padding, s, message).1
    ensures text == Encrypted(c, padding, s, message).1 ==>
      Process(c.decrypt, c.blockSize, s, text).0 == Encrypted(c, padding, s, message).0
  {
    hide Unpads, Padded;
    var n := c.blockSize;
    var padded := Padded(padding, n, message);
    PaddedLength(padding, n, message);
    ProcessUndone(c.decrypt, c.encrypt, n, s, padded);
    if |text| % n == 0 {
      ProcessUndone(c.encrypt, c.decrypt, n, s, text);
      UnpadsExactly(padding, n, Process(c.decrypt, n, s, text).1, message);
      UnpadsExactly(padding, n, padded, message);
    }
  }

  // ----- The filter -----

  // The calls before the last of a message: all of whole blocks.
  ghost predicate WholeBlocks(n: nat, calls: seq<Call>)
    requires n > 0
  {
    forall i :: 0 <= i < |calls| ==>
      !calls[i].Last? && |calls[i].bytes| % n == 0 && (calls[i].First? ==> calls[i].bytes == [])
  }

  lemma {:induction false} WholeBlocksJoined(n: nat, calls: seq<Call>)
    requires n > 0 && WholeBlocks(n, calls)
    ensures |Joined(calls)| % n == 0
  {
    DivUnique(0, n, 0, 0);
    if calls != [] {
      WholeBlocksJoined(n, calls[..|calls| - 1]);
      SumOfMultiples(|Joined(calls[..|calls| - 1])|, |calls[|calls| - 1].bytes|, n);
    }
  }

  class StreamTransformationFilter<S(!new)> {
    const cipher: Cipher<S>
    const forward: bool
    const padding: Padding
    const optimalBufferSize: nat
    const splitter: FilterWithBufferedInput
    var state: S
    var output: seq<byte>
    // the cipher's state and the output when the current message began
    ghost var startState: S
    ghost var startOutput: seq<byte>

    function Step(): Step<S> {
      if forward then cipher.encrypt else cipher.decrypt
    }

    // InitializeDerivedAndReturnNewSizes: a decrypting filter holds back a block to unpad.
    function BlockSizes(): Sizes {
      Sizes(0, cipher.blockSize, if forward then 0 else cipher.blockSize)
    }

    ghost predicate Processed(data: seq<byte>)
      requires cipher.blockSize > 0
      reads this
    {
      (state, output) == (
        Process(Step(), cipher.blockSize, startState, data).0,
        startOutput + Process(Step(), cipher.blockSize, startState, data).1)
    }

    ghost predicate Valid()
      reads this, splitter, splitter.queue, splitter.queue.buffer
    {
      && IsCipher(cipher) && Buffered()
      && splitter.Valid() && splitter.Parts() == BlockSizes()
      && Processed(Joined(splitter.calls[|splitter.before|..]))
    }

    constructor (cipher: Cipher<S>, forward: bool, padding: Padding, state: S, optimal: nat)
      requires IsCipher(cipher) && optimal > 0 && optimal % cipher.blockSize == 0
      ensures Valid() && this.cipher == cipher && this.forward == forward && this.padding == padding
      ensures splitter.input == [] && startState == state && output == startOutput == []
      ensures fresh(splitter) && fresh(splitter.queue) && fresh(splitter.queue.buffer)
    {
      this.cipher, this.forward, this.padding, this.optimalBufferSize := cipher, forward, padding, optimal;
      this.state, this.startState := state, state;
      this.output, this.startOutput := [], [];
      var sp := new FilterWithBufferedInput(0, cipher.blockSize, if forward then 0 else cipher.blockSize);
      this.splitter := sp;
      new;
      assert splitter.calls[|splitter.before|..] == [];
      NothingProcessed();
    }

    // m_optimalBufferSize is a whole number of blocks.
    predicate Buffered() {
      cipher.blockSize > 0 && optimalBufferSize > 0 && optimalBufferSize % cipher.blockSize == 0
    }

    // m_cipher.ProcessString, and passing on what it gives.
    method ProcessString(bytes: seq<byte>, ghost sofar: seq<byte>)
      requires cipher.blockSize > 0 && |sofar| % cipher.blockSize == 0 && Processed(sofar)
      modifies this`state, this`output
      ensures Processed(sofar + bytes)
    {
      ProcessAppend(Step(), cipher.blockSize, startState, sofar, bytes);
      var (s, out) := Process(Step(), cipher.blockSize, state, bytes);
      assert startOutput + (Process(Step(), cipher.blockSize, startState, sofar).1 + out) == output + out;
      output := output + out;
      state := s;
    }

    // NextPutMultiple and NextPutModifiable process whole blocks; the pieces in which the former does so are of whole
    // blocks too and do not change the outcome.
    method NextPut(bytes: seq<byte>, ghost sofar: seq<byte>)
      requires Buffered() && |bytes| % cipher.blockSize == 0 && |sofar| % cipher.blockSize == 0
      requires Processed(sofar)
      modifies this`state, this`output
      ensures Processed(sofar + bytes)
    {
      hide Processed;
      var n := cipher.blockSize;
      var i := 0;
      DivUnique(0, n, 0, 0);
      assert sofar + bytes[..0] == sofar;
      while i < |bytes|
        invariant i <= |bytes| && i % n == 0 && Processed(sofar + bytes[..i])
      {
        var len := if optimalBufferSize < |bytes| - i then optimalBufferSize else |bytes| - i;
        if i + len < |bytes| { SumOfMultiples(i, len, n); }
        SumOfMultiples(|sofar|, i, n);
        ProcessString(bytes[i..i + len], sofar + bytes[..i]);
        assert (sofar + bytes[..i]) + bytes[i..i + len] == sofar + bytes[..i + len];
        i := i + len;
      }
      assert bytes[..|bytes|] == bytes;
    }

    // The calls that the splitter makes before the last one of a message.
    method Dispatch(calls: seq<Call>, ghost earlier: seq<Call>)
      requires Buffered() && WholeBlocks(cipher.blockSize, earlier) && WholeBlocks(cipher.blockSize, calls)
      requires Processed(Joined(earlier))
      modifies this`state, this`output
      ensures Processed(Joined(earlier + calls))
    {
      hide Processed;
      var i := 0;
      assert earlier + calls[..0] == earlier;
      while i < |calls|
        invariant i <= |calls| && Processed(Joined(earlier + calls[..i]))
      {
        ghost var done := earlier + calls[..i];
        assert earlier + calls[..i + 1] == done + [calls[i]];
        assert (done + [calls[i]])[..|done|] == done;
        assert Joined(done + [calls[i]]) == Joined(done) + calls[i].bytes;
        if calls[i].Next? {
          WholeBlocksJoined(cipher.blockSize, done);
          NextPut(calls[i].bytes, Joined(done));
        } else {
          assert Joined(done) + [] == Joined(done);
        }
        i := i + 1;
      }
      assert calls[..|calls|] == calls;
    }

    // Put2 without a message end.
    method Put(inString: seq<byte>)
      requires Valid()
      modifies this`state, this`output, splitter, splitter.queue, splitter.queue.buffer
      ensures Valid() && splitter.input == old(splitter.input) + inString
      ensures fresh({splitter.queue.buffer} - {old(splitter.queue.buffer)})
    {
      hide Processed, IsCipher, Joined, WholeBlocks, Progress, QueueBlocks;
      ghost var calls := splitter.calls;
      ghost var earlier := calls[|splitter.before|..];
      var n := |splitter.calls|;
      splitter.Put(inString);
      BlocksSoFar(splitter);
      AddedCalls(calls, splitter.calls, |splitter.before|);
      BlocksOfPart(cipher.blockSize, earlier, splitter.calls[n..]);
      Dispatch(splitter.calls[n..], earlier);
    }

    // LastPut of an encrypting filter.
    method LastPutForward(inString: seq<byte>, ghost message: seq<byte>)
      requires IsCipher(cipher) && forward
      requires MiddleLength(|message|, cipher.blockSize, 0) <= |message|
      requires inString == message[MiddleLength(|message|, cipher.blockSize, 0)..]
      requires Processed(message[..MiddleLength(|message|, cipher.blockSize, 0)])
      modifies this`state, this`output
      ensures Processed(Padded(padding, cipher.blockSize, message))
    {
      hide Processed, MiddleLength, Pad;
      TailIsShort(|message|, cipher.blockSize);
      ProcessString(Pad(padding, cipher.blockSize, inString), message[..MiddleLength(|message|, cipher.blockSize, 0)]);
    }

    // LastPut of a decrypting filter: false stands for InvalidCiphertext.
    method LastPutBackward(inString: seq<byte>, ghost text: seq<byte>) returns (ok: bool)
      requires IsCipher(cipher) && !forward
      requires |inString| <= |text| && text[|text| - |inString|..] == inString
      requires |inString| == cipher.blockSize <==> |text| % cipher.blockSize == 0 && text != []
      requires (|text| - |inString|) % cipher.blockSize == 0
      requires Processed(text[..|text| - |inString|])
      modifies this`state, this`output
      ensures ok ==> startOutput <= output && Decrypts(cipher, padding, startState, text, output[|startOutput|..])
      ensures ok ==> state == Process(cipher.decrypt, cipher.blockSize, startState, text).0
      ensures !ok ==> Rejects(cipher, padding, startState, text)
    {
      hide Decrypts, Rejects, Process, Pad;
      var n := cipher.blockSize;
      if |inString| != n {
        NothingDecrypts(cipher, padding, startState, text);
        return false;
      }
      ghost var head := text[..|text| - n];
      assert text == head + inString;
      LastBlock(cipher, startState, head, inString);
      ghost var headPlain := Process(cipher.decrypt, n, startState, head).1;
      var (s, space) := cipher.decrypt(state, inString);
      var length := Unpad(padding, space);
      if length.None? {
        LastBlockRejects(cipher, padding, startState, text, headPlain, space);
        return false;
      }
      LastBlockAccepts(cipher, padding, startState, text, headPlain, space, length.value);
      output := output + space[..length.value];
      state := s;
      assert output == startOutput + (headPlain + space[..length.value]);
      ok := true;
    }

    // The end of the message. An encrypting filter pads; a decrypting one may find that the text is not valid.
    method MessageEnd() returns (ok: bool)
      requires Valid()
      modifies this, splitter, splitter.queue
      ensures ok ==> Valid() && splitter.input == [] && startState == state && startOutput == output
      ensures forward ==> ok
      ensures forward ==> output == old(startOutput) + Encrypted(cipher, padding, old(startState), old(splitter.input)).1
      ensures forward ==> state == Encrypted(cipher, padding, old(startState), old(splitter.input)).0
      ensures !forward && ok ==> old(startOutput) <= output
      ensures !forward && ok ==>
        Decrypts(cipher, padding, old(startState), old(splitter.input), output[|old(startOutput)|..])
      ensures !forward && ok ==>
        state == Process(cipher.decrypt, cipher.blockSize, old(startState), old(splitter.input)).0
      ensures !forward && !ok ==> Rejects(cipher, padding, old(startState), old(splitter.input))
      ensures fresh(splitter.queue.buffer)
    {
      hide Processed, IsCipher, Decrypts, Rejects, Encrypted, Complete;
      ghost var message := splitter.input;
      ghost var earlier := splitter.calls[|splitter.before|..];
      var n := |splitter.calls|;
      BlocksSoFar(splitter);
      splitter.MessageEnd();
      assert splitter.calls[|old(splitter.before)|..] == earlier + splitter.calls[n..];
      ok := Conclude(splitter.calls[n..], earlier, message);
      startState, startOutput := state, output;
      NothingProcessed();
      assert splitter.calls[|splitter.before|..] == [];
    }

    // The calls made at the end of a message, LastPut being the last.
    method Conclude(calls: seq<Call>, ghost earlier: seq<Call>, ghost message: seq<byte>) returns (ok: bool)
      requires IsCipher(cipher) && Buffered() && Complete(BlockSizes(), earlier + calls, message)
      requires WholeBlocks(cipher.blockSize, earlier) && Processed(Joined(earlier))
      modifies this`state, this`output
      ensures forward ==> ok && state == Encrypted(cipher, padding, startState, message).0
      ensures forward ==> output == startOutput + Encrypted(cipher, padding, startState, message).1
      ensures !forward && ok ==> startOutput <= output
      ensures !forward && ok ==> Decrypts(cipher, padding, startState, message, output[|startOutput|..])
      ensures !forward && ok ==> state == Process(cipher.decrypt, cipher.blockSize, startState, message).0
      ensures !forward && !ok ==> Rejects(cipher, padding, startState, message)
    {
      hide Decrypts, Rejects, Complete, Process, Padded, MiddleLength;
      BlocksOfMessage(BlockSizes(), earlier + calls, earlier, message);
      var last := |calls| - 1;
      assert (earlier + calls)[..|earlier + calls| - 1] == earlier + calls[..last];
      BlocksOfPart(cipher.blockSize, earlier, calls[..last]);
      Dispatch(calls[..last], earlier);
      if forward {
        LastPutForward(calls[last].bytes, message);
        ok := true;
      } else {
        HeldBack(|message|, cipher.blockSize);
        ok := LastPutBackward(calls[last].bytes, message);
      }
    }

    lemma NothingProcessed()
      requires cipher.blockSize > 0 && state == startState && output == startOutput
      ensures Processed(Joined([]))
    {
      assert Process(Step(), cipher.blockSize, state, []) == (state, []) && startOutput + [] == startOutput;
    }
  }

  lemma AddedCalls(calls: seq<Call>, more: seq<Call>, from: nat)
    requires calls <= more && from <= |calls|
    ensures more[from..] == calls[from..] + more[|calls|..]
  {
  }

  lemma BlocksSoFar(f: FilterWithBufferedInput)
    requires f.Valid() && f.firstSize == 0
    ensures |f.before| <= |f.calls| && WholeBlocks(f.blockSize, f.calls[|f.before|..])
  {
    if f.firstInputDone {
      var calls := f.calls[|f.before|..];
      assert forall i :: 0 < i < |calls| ==> calls[i] == calls[1..][i - 1];
      DivUnique(0, f.blockSize, 0, 0);
    }
  }

  lemma BlocksOfPart(n: nat, a: seq<Call>, b: seq<Call>)
    requires n > 0 && WholeBlocks(n, a + b)
    ensures WholeBlocks(n, a) && WholeBlocks(n, b)
  {
    assert forall i :: 0 <= i < |a| ==> a[i] == (a + b)[i];
    assert forall i :: 0 <= i < |b| ==> b[i] == (a + b)[|a| + i];
  }

  lemma BlocksOfMessage(z: Sizes, all: seq<Call>, earlier: seq<Call>, message: seq<byte>)
    requires z.block > 0 && z.first == 0 && Complete(z, all, message)
    requires earlier <= all && WholeBlocks(z.block, earlier)
    ensures |earlier| < |all| && WholeBlocks(z.block, all[..|all| - 1])
    ensures MiddleLength(|message|, z.block, z.last) <= |message|
    ensures Joined(all[..|all| - 1]) == message[..MiddleLength(|message|, z.block, z.last)]
    ensures all[|all| - 1] == Last(message[MiddleLength(|message|, z.block, z.last)..])
  {
    MiddleFits(|message|, z.block, z.last);
    var front, middle := all[..|all| - 1], all[1..|all| - 1];
    assert front == [all[0]] + middle;
    JoinedPrepend(all[0], middle);
    assert forall i :: 0 < i < |front| ==> front[i] == middle[i - 1];
    DivUnique(0, z.block, 0, 0);
    assert [] + Joined(middle) == Joined(middle);
    assert all[|all| - 1].Last?;
  }

  // The part held back by a decrypting filter is one block exactly when the text is whole blocks, at least one.
  lemma HeldBack(k: nat, n: nat)
    requires n > 0
    ensures MiddleLength(k, n, n) <= k && MiddleLength(k, n, n) % n == 0
    ensures k - MiddleLength(k, n, n) == n <==> k % n == 0 && k > 0
  {
    MiddleFits(k, n, n);
    DivUnique(0, n, 0, 0);
    if k >= n + n {
      RoundedDown(k - n, n);
      SubtractModulus(k, n);
      DivMod(k - n, n);
    } else if k >= n {
      DivUnique(k, n, 1, k - n);
    } else {
      DivUnique(k, n, 0, k);
    }
  }

  lemma OneBlock<S>(step: Step<S>, n: nat, s: S, block: seq<byte>)
    requires n > 0 && |block| == n
    ensures Process(step, n, s, block) == (step(s, block).0, step(s, block).1 + [])
  {
    assert block[..n] == block && block[n..] == [];
    assert Process(step, n, step(s, block).0, []) == (step(s, block).0, []);
  }

  lemma NothingDecrypts<S(!new)>(c: Cipher<S>, padding: Padding, s: S, text: seq<byte>)
    requires IsCipher(c) && (|text| % c.blockSize != 0 || text == [])
    ensures Rejects(c, padding, s, text)
  {
  }

  lemma LastBlock<S(!new)>(c: Cipher<S>, s: S, head: seq<byte>, block: seq<byte>)
    requires IsCipher(c) && |head| % c.blockSize == 0 && |block| == c.blockSize
    ensures var (t, plain) := Process(c.decrypt, c.blockSize, s, head);
            Process(c.decrypt, c.blockSize, s, head + block) == (c.decrypt(t, block).0, plain + c.decrypt(t, block).1)
            && |c.decrypt(t, block).1| == c.blockSize
  {
    var (t, plain) := Process(c.decrypt, c.blockSize, s, head);
    ProcessAppend(c.decrypt, c.blockSize, s, head, block);
    OneBlock(c.decrypt, c.blockSize, t, block);
    assert Undoes(c.encrypt, c.decrypt, t, block);
    assert c.decrypt(t, block).1 + [] == c.decrypt(t, block).1;
  }

  lemma LastBlockAccepts<S(!new)>(
    c: Cipher<S>, padding: Padding, s: S, text: seq<byte>, head: seq<byte>, space: seq<byte>, length: nat)
    requires IsCipher(c) && |text| % c.blockSize == 0 && length < |space| == c.blockSize
    requires Process(c.decrypt, c.blockSize, s, text).1 == head + space
    requires space == Pad(padding, |space|, space[..length])
    ensures Decrypts(c, padding, s, text, head + space[..length])
  {
    hide Pad, Process, IsCipher;
    var padded := head + space;
    assert padded[|padded| - |space|..] == space && padded[..|padded| - |space|] == head;
  }

  lemma LastBlockRejects<S(!new)>(
    c: Cipher<S>, padding: Padding, s: S, text: seq<byte>, head: seq<byte>, space: seq<byte>)
    requires IsCipher(c) && |space| == c.blockSize
    requires Process(c.decrypt, c.blockSize, s, text).1 == head + space
    requires forall tail: seq<byte> :: |tail| < |space| ==> space != Pad(padding, |space|, tail)
    ensures Rejects(c, padding, s, text)
  {
    hide Pad, Process, IsCipher;
    var padded := head + space;
    assert padded[|padded| - |space|..] == space;
  }

  // A whole message through a filter, in any pieces.
  method Transform<S(!new)>(filter: StreamTransformationFilter<S>, chunks: seq<seq<byte>>) returns (ok: bool)
    requires filter.Valid() && filter.splitter.input == [] && filter.startOutput == filter.output == []
    modifies filter, filter.splitter, filter.splitter.queue, filter.splitter.queue.buffer
    ensures filter.forward ==> ok
    ensures filter.forward ==>
      filter.output == Encrypted(filter.cipher, filter.padding, old(filter.startState), Flatten(chunks)).1
    ensures !filter.forward && ok ==>
      Decrypts(filter.cipher, filter.padding, old(filter.startState), Flatten(chunks), filter.output)
    ensures !filter.forward && !ok ==>
      Rejects(filter.cipher, filter.padding, old(filter.startState), Flatten(chunks))
  {
    hide Decrypts, Rejects, Encrypted, Process, Progress, QueueBlocks;
    var i := 0;
    assert chunks[..0] == [];
    while i < |chunks|
      invariant i <= |chunks| && filter.Valid() && filter.splitter.input == Flatten(chunks[..i])
      invariant filter.startState == old(filter.startState) && filter.startOutput == []
      invariant fresh({filter.splitter.queue.buffer} - {old(filter.splitter.queue.buffer)})
    {
      assert chunks[..i + 1][..i] == chunks[..i];
      filter.Put(chunks[i]);
      i := i + 1;
    }
    assert chunks[..|chunks|] == chunks;
    ok := filter.MessageEnd();
  }

  /** Whatever the cipher, the message and the pieces in which message and ciphertext arrive, decrypting what was
      encrypted returns the message. */
  method RoundTrip<S(!new)>(
      c: Cipher<S>, padding: Padding, s: S, chunks: seq<seq<byte>>, cut: seq<byte> -> seq<seq<byte>>)
    returns (received: seq<byte>)
    requires IsCipher(c) && forall text :: Flatten(cut(text)) == text
    ensures received == Flatten(chunks)
  {
    hide Decrypts, Encrypted;
    DivUnique(c.blockSize, c.blockSize, 1, 0);
    var sender := new StreamTransformationFilter(c, true, padding, s, c.blockSize);
    var ok := Transform(sender, chunks);
    var receiver := new StreamTransformationFilter(c, false, padding, s, c.blockSize);
    ok := Transform(receiver, cut(sender.output));
    DecryptionUndoesEncryption(c, padding, s, sender.output, Flatten(chunks));
    if ok {
      DecryptionUndoesEncryption(c, padding, s, sender.output, receiver.output);
      EncryptionIsInjective(c, padding, s, Flatten(chunks), receiver.output);
    }
    received := receiver.output;
  }

  lemma EncryptionIsInjective<S(!new)>(c: Cipher<S>, padding: Padding, s: S, m: seq<byte>, m': seq<byte>)
    requires IsCipher(c) && Encrypted(c, padding, s, m).1 == Encrypted(c, padding, s, m').1
    ensures m == m'
  {
    hide Padded;
    var p, p' := Padded(padding, c.blockSize, m), Padded(padding, c.blockSize, m');
    PaddedLength(padding, c.blockSize, m);
    PaddedLength(padding, c.blockSize, m');
    ProcessUndone(c.decrypt, c.encrypt, c.blockSize, s, p);
    ProcessUndone(c.decrypt, c.encrypt, c.blockSize, s, p');
    assert p == p';
    UnpadsPadded(padding, c.blockSize, m);
    UnpadsPadded(padding, c.blockSize, m');
    UnpadsOnce(padding, c.blockSize, p, m, m');
  }

  lemma UnpadsOnce(padding: Padding, n: nat, padded: seq<byte>, m: seq<byte>, m': seq<byte>)
    requires 1 < n < 256 && Unpads(padding, n, padded, m) && Unpads(padding, n, padded, m')
    ensures m == m'
  {
    hide Pad;
    var tail: seq<byte> :| |tail| < n && |padded| >= n
      && padded[|padded| - n..] == Pad(padding, n, tail) && m == padded[..|padded| - n] + tail;
    var tail': seq<byte> :| |tail'| < n && |padded| >= n
      && padded[|padded| - n..] == Pad(padding, n, tail') && m' == padded[..|padded| - n] + tail';
    PadInjective(padding, n, tail, tail');
  }
}
