/** FilterWithBufferedInput of filters.cpp: cutting a stream, however it arrives, into first, middle and last parts. */
module BufferedInput {
  import opened Arithmetic
  import opened Bytes
  import BlockQueues

  // The calls made to a derived filter. Next stands for NextPutSingle, NextPutMultiple and NextPutModifiable.
  datatype Call = First(bytes: seq<byte>) | Next(bytes: seq<byte>) | Last(bytes: seq<byte>)

  function Joined(calls: seq<Call>): (s: seq<byte>) {
    if calls == [] then [] else Joined(calls[..|calls| - 1]) + calls[|calls| - 1].bytes
  }

  function RoundDownToMultipleOf(n: nat, m: nat): nat
    requires m > 0
  {
    n - n % m
  }

  // How many of the n bytes after the first part go to the middle.
  function MiddleLength(n: nat, blockSize: nat, lastSize: nat): nat
    requires blockSize > 0
  {
    if n < blockSize + lastSize then 0 else RoundDownToMultipleOf(n - lastSize, blockSize)
  }

  lemma MiddleFits(n: nat, blockSize: nat, lastSize: nat)
    requires blockSize > 0
    ensures MiddleLength(n, blockSize, lastSize) <= n
  {
    if n >= lastSize { DivMod(n - lastSize, blockSize); }
  }

  datatype Sizes = Sizes(first: nat, block: nat, last: nat)

  // The calls so far deliver a prefix of the input in order, with rest still to come.
  ghost predicate Progress(z: Sizes, calls: seq<Call>, input: seq<byte>, rest: seq<byte>)
    requires z.block > 0
  {
    && |calls| > 0 && calls[0].First? && |calls[0].bytes| == z.first
    && Middle(z, calls[1..])
    && input == calls[0].bytes + Joined(calls[1..]) + rest
    && (|calls| > 1 ==> |rest| >= z.last)
  }

  ghost predicate Middle(z: Sizes, calls: seq<Call>)
    requires z.block > 0
  {
    forall i :: 0 <= i < |calls| ==> calls[i].Next? && |calls[i].bytes| > 0 && |calls[i].bytes| % z.block == 0
  }

  // All the calls that a whole message causes.
  ghost predicate Complete(z: Sizes, calls: seq<Call>, input: seq<byte>)
    requires z.block > 0
  {
    if |input| < z.first then calls == [Last(input)]
    else
      MiddleFits(|input| - z.first, z.block, z.last);
      var m := z.first + MiddleLength(|input| - z.first, z.block, z.last);
      && |calls| >= 2
      && calls[0] == First(input[..z.first])
      && Middle(z, calls[1..|calls| - 1])
      && Joined(calls[1..|calls| - 1]) == input[z.first..m]
      && calls[|calls| - 1] == Last(input[m..])
  }

  lemma {:induction false} JoinedMultiple(z: Sizes, calls: seq<Call>)
    requires z.block > 0 && Middle(z, calls)
    ensures |Joined(calls)| % z.block == 0
    ensures calls != [] ==> |Joined(calls)| > 0
  {
    DivUnique(0, z.block, 0, 0);
    if calls != [] {
      var shorter := calls[..|calls| - 1];
      JoinedMultiple(z, shorter);
      SumOfMultiples(|Joined(shorter)|, |calls[|calls| - 1].bytes|, z.block);
    }
  }

  // The middle's length is decided by the input's alone: what is left is less than a block more than the last part.
  lemma MiddleDecided(k: nat, rest: nat, z: Sizes)
    requires z.block > 0 && k % z.block == 0 && rest < z.block + z.last && (k > 0 ==> rest >= z.last)
    ensures k == MiddleLength(k + rest, z.block, z.last)
  {
    DivMod(k, z.block);
    if k > 0 {
      if k / z.block >= 1 { MulAtLeast(z.block, k / z.block); }
      DivUnique(k + rest - z.last, z.block, k / z.block, rest - z.last);
    }
  }

  lemma AppendNext(z: Sizes, calls: seq<Call>, input: seq<byte>, bytes: seq<byte>, rest: seq<byte>)
    requires z.block > 0 && Progress(z, calls, input, bytes + rest)
    requires |bytes| > 0 && |bytes| % z.block == 0 && |rest| >= z.last
    ensures Progress(z, calls + [Next(bytes)], input, rest)
  {
    var more := calls + [Next(bytes)];
    assert more[1..] == calls[1..] + [Next(bytes)];
    assert more[1..][..|more[1..]| - 1] == calls[1..];
    assert Joined(more[1..]) == Joined(calls[1..]) + bytes;
  }

  lemma Finish(z: Sizes, calls: seq<Call>, input: seq<byte>, rest: seq<byte>)
    requires z.block > 0 && Progress(z, calls, input, rest) && |rest| < z.block + z.last
    ensures Complete(z, calls + [Last(rest)], input)
  {
    var joined := Joined(calls[1..]);
    var all := calls + [Last(rest)];
    assert all[1..|all| - 1] == calls[1..];
    JoinedMultiple(z, calls[1..]);
    MiddleDecided(|joined|, |rest|, z);
    var m := z.first + |joined|;
    assert |input| - z.first == |joined| + |rest|;
    assert input[..z.first] == calls[0].bytes;
    assert input[z.first..m] == joined;
    assert input[m..] == rest;
  }

  lemma FirstAndRest(a: seq<byte>, s: seq<byte>, len: nat, first: seq<byte>)
    requires len <= |s| && first == a + s[..len]
    ensures a + s == first + s[len..]
  {
    assert s == s[..len] + s[len..];
  }

  lemma FirstCall(z: Sizes, first: seq<byte>, rest: seq<byte>)
    requires z.block > 0 && |first| == z.first
    ensures Progress(z, [First(first)], first + rest, rest)
  {
    assert [First(first)][1..] == [];
    assert first + [] + rest == first + rest;
  }

  // More input extends what is still to come.
  lemma MoreInput(z: Sizes, calls: seq<Call>, input: seq<byte>, rest: seq<byte>, more: seq<byte>)
    requires z.block > 0 && Progress(z, calls, input, rest)
    ensures Progress(z, calls, input + more, rest + more)
  {
    assert (calls[0].bytes + Joined(calls[1..]) + rest) + more == calls[0].bytes + Joined(calls[1..]) + (rest + more);
  }

  // A message that never filled the first part.
  lemma ShortMessage(z: Sizes, calls: seq<Call>, input: seq<byte>)
    requires z.block > 0 && (input == [] || |input| < z.first)
    requires calls == if z.first == 0 then [First([])] else []
    ensures Complete(z, calls + [Last(input)], input)
  {
    if z.first == 0 {
      assert calls[1..] == [] && Progress(z, calls, input, []);
      Finish(z, calls, input, []);
    }
  }

  // The capacity the queue is given after the first part is enough for what is ever kept.
  function QueueBlocks(z: Sizes): nat
    requires z.block > 0
  {
    (2 * z.block + z.last - 2) / z.block
  }

  lemma Capacity(z: Sizes)
    requires z.block > 0
    ensures z.block * QueueBlocks(z) >= z.block + z.last - 1
    ensures z.block > 1 ==> z.block * QueueBlocks(z) >= z.block
  {
    DivMod(2 * z.block + z.last - 2, z.block);
    if z.block > 1 && z.last == 0 {
      DivUnique(2 * z.block - 2, z.block, 1, z.block - 2);
    }
  }

  class FilterWithBufferedInput {
    var firstSize: nat
    var blockSize: nat
    var lastSize: nat
    var firstInputDone: bool
    const queue: BlockQueues.BlockQueue
    // what the derived class has been called with, ever
    var calls: seq<Call>
    // the current message so far, and the calls made before it began
    ghost var input: seq<byte>
    ghost var before: seq<Call>

    ghost predicate Sized()
      reads this, queue
    {
      && queue.Valid() && queue.Aligned() && blockSize >= 1
      && before <= calls
      && if firstInputDone then queue.blockSize == blockSize && queue.maxBlocks == QueueBlocks(Parts())
         else queue.blockSize == 1 && queue.maxBlocks == firstSize && queue.begin == 0
    }

    function Parts(): Sizes
      reads this
    {
      Sizes(firstSize, blockSize, lastSize)
    }

    ghost predicate Valid()
      reads this, queue, queue.buffer
    {
      && Sized()
      && if firstInputDone then
           && Progress(Parts(), calls[|before|..], input, queue.Contents())
           && queue.size < blockSize + lastSize
         else
           calls == before && queue.Contents() == input && (input == [] || |input| < firstSize)
    }

    constructor (firstSize: nat, blockSize: nat, lastSize: nat)
      requires blockSize >= 1
      ensures Valid() && Parts() == Sizes(firstSize, blockSize, lastSize)
      ensures calls == [] && input == [] && before == []
      ensures fresh(queue) && fresh(queue.buffer)
    {
      this.firstSize, this.blockSize, this.lastSize := firstSize, blockSize, lastSize;
      this.firstInputDone := false;
      this.calls := [];
      this.input, this.before := [], [];
      var q := new BlockQueues.BlockQueue();
      this.queue := q;
      new;
      queue.ResetQueue(1, firstSize);
    }

    // FirstPut: the first part is complete.
    method DeliverFirst(inString: seq<byte>) returns (rest: seq<byte>)
      requires Valid() && !firstInputDone && queue.size + |inString| >= firstSize
      modifies this`calls, this`firstInputDone, queue, queue.buffer
      ensures Sized() && firstInputDone && queue.Contents() == [] && old(calls) <= calls
      ensures Progress(Parts(), calls[|before|..], input + inString, rest)
      ensures fresh(queue.buffer)
    {
      hide Progress, QueueBlocks;
      var len := firstSize - queue.size;
      queue.Put(inString[..len]);
      var first := queue.GetContigousBlocks(firstSize);
      assert queue.Contents() == [];
      assert first + [] == first;
      calls := calls + [First(first)];
      queue.ResetQueue(blockSize, QueueBlocks(Parts()));
      firstInputDone := true;
      rest := inString[len..];
      assert calls[|before|..] == [First(first)];
      FirstAndRest(input, inString, len, first);
      FirstCall(Parts(), first, rest);
    }

    // NextPutModifiable or NextPutMultiple: a run of whole blocks.
    method DeliverNext(bytes: seq<byte>, ghost rest: seq<byte>)
      requires Sized() && firstInputDone && Progress(Parts(), calls[|before|..], input, bytes + rest)
      requires |bytes| > 0 && |bytes| % blockSize == 0 && |rest| >= lastSize
      modifies this`calls
      ensures old(calls) <= calls && Sized() && Progress(Parts(), calls[|before|..], input, rest)
    {
      hide Progress;
      AppendNext(Parts(), calls[|before|..], input, bytes, rest);
      assert (calls + [Next(bytes)])[|before|..] == calls[|before|..] + [Next(bytes)];
      calls := calls + [Next(bytes)];
    }

    // The middle part as a stream: everything but the last lastSize bytes goes through.
    method PutStream(inString: seq<byte>) returns (kept: seq<byte>)
      requires Sized() && firstInputDone && blockSize == 1
      requires Progress(Parts(), calls[|before|..], input, queue.Contents() + inString)
      modifies this`calls, queue
      ensures Sized() && queue.buffer == old(queue.buffer) && old(calls) <= calls
      ensures Progress(Parts(), calls[|before|..], input, queue.Contents() + kept)
      ensures queue.size + |kept| < blockSize + lastSize
    {
      hide Progress;
      var newLength := queue.size + |inString|;
      while newLength > lastSize && queue.size > 0
        invariant Sized() && newLength == queue.size + |inString|
        invariant queue.buffer == old(queue.buffer) && old(calls) <= calls
        invariant Progress(Parts(), calls[|before|..], input, queue.Contents() + inString)
        decreases queue.size
      {
        ghost var waiting := queue.Contents();
        var bytes := queue.GetContigousBlocks(newLength - lastSize);
        assert waiting + inString == bytes + (queue.Contents() + inString);
        DeliverNext(bytes, queue.Contents() + inString);
        newLength := newLength - |bytes|;
      }
      kept := inString;
      if newLength > lastSize {
        var len := newLength - lastSize;
        kept := inString[len..];
        assert queue.Contents() + inString == inString[..len] + (queue.Contents() + kept);
        DeliverNext(inString[..len], queue.Contents() + kept);
      }
    }

    // The middle part in blocks: first those in the queue, then one begun in it, then those still in the input.
    method PutBlocks(inString: seq<byte>) returns (kept: seq<byte>)
      requires Sized() && firstInputDone && blockSize > 1
      requires Progress(Parts(), calls[|before|..], input, queue.Contents() + inString)
      modifies this`calls, queue, queue.buffer
      ensures Sized() && queue.buffer == old(queue.buffer) && old(calls) <= calls
      ensures Progress(Parts(), calls[|before|..], input, queue.Contents() + kept)
      ensures queue.size + |kept| < blockSize + lastSize
    {
      hide Progress, QueueBlocks;
      var newLength := queue.size + |inString|;
      while newLength >= blockSize + lastSize && queue.size >= blockSize
        invariant Sized() && newLength == queue.size + |inString|
        invariant queue.buffer == old(queue.buffer) && old(calls) <= calls
        invariant Progress(Parts(), calls[|before|..], input, queue.Contents() + inString)
        decreases queue.size
      {
        ghost var waiting := queue.Contents();
        var block := queue.GetBlock();
        assert waiting + inString == block.value + (queue.Contents() + inString);
        DivUnique(blockSize, blockSize, 1, 0);
        DeliverNext(block.value, queue.Contents() + inString);
        newLength := newLength - blockSize;
      }
      kept := inString;
      if newLength >= blockSize + lastSize && queue.size > 0 {
        kept := FillBlock(kept);
        newLength := newLength - blockSize;
      }
      if newLength >= blockSize + lastSize {
        kept := PutWhole(kept);
      }
    }

    // All whole blocks but the last part, straight from the input.
    method PutWhole(inString: seq<byte>) returns (kept: seq<byte>)
      requires Sized() && firstInputDone && blockSize > 1
      requires queue.size + |inString| >= blockSize + lastSize && queue.size == 0
      requires Progress(Parts(), calls[|before|..], input, queue.Contents() + inString)
      modifies this`calls
      ensures Sized() && old(calls) <= calls && |kept| < blockSize + lastSize
      ensures Progress(Parts(), calls[|before|..], input, queue.Contents() + kept)
    {
      hide Progress, QueueBlocks;
      var len := RoundDownToMultipleOf(|inString| - lastSize, blockSize);
      RoundedDown(|inString| - lastSize, blockSize);
      kept := inString[len..];
      assert queue.Contents() + inString == inString[..len] + (queue.Contents() + kept);
      DeliverNext(inString[..len], queue.Contents() + kept);
    }

    // Completes the block that the queue has begun and delivers it.
    method FillBlock(inString: seq<byte>) returns (kept: seq<byte>)
      requires Sized() && firstInputDone && blockSize > 1 && 0 < queue.size < blockSize
      requires queue.size + |inString| >= blockSize + lastSize
      requires Progress(Parts(), calls[|before|..], input, queue.Contents() + inString)
      modifies this`calls, queue, queue.buffer
      ensures Sized() && queue.buffer == old(queue.buffer) && queue.size == 0 && old(calls) <= calls
      ensures Progress(Parts(), calls[|before|..], input, queue.Contents() + kept)
      ensures |kept| == old(queue.size) + |inString| - blockSize
    {
      hide Progress, QueueBlocks, Joined;
      var len := blockSize - queue.size;
      Capacity(Parts());
      ghost var begun := queue.Contents();
      queue.Put(inString[..len]);
      kept := inString[len..];
      var block := queue.GetBlock();
      Regroup(begun, inString, len, block.value, queue.Contents());
      DivUnique(blockSize, blockSize, 1, 0);
      DeliverNext(block.value, queue.Contents() + kept);
    }

    // PutMaybeModifiable without a message end.
    method Put(inString: seq<byte>)
      requires Valid()
      modifies this, queue, queue.buffer
      ensures Valid() && Parts() == old(Parts())
      ensures input == old(input) + inString && before == old(before) && old(calls) <= calls
      ensures fresh({queue.buffer} - {old(queue.buffer)})
    {
      if |inString| == 0 {
        return;
      }
      hide Progress, QueueBlocks;
      if !firstInputDone && queue.size + |inString| < firstSize {
        queue.Put(inString);
        input := input + inString;
        return;
      }
      var rest := inString;
      if !firstInputDone {
        rest := DeliverFirst(inString);
        assert queue.Contents() + rest == rest;
      } else {
        MoreInput(Parts(), calls[|before|..], input, queue.Contents(), inString);
      }
      input := input + inString;
      PutMiddle(rest);
    }

    // What follows once the first part is out.
    method PutMiddle(inString: seq<byte>)
      requires Sized() && firstInputDone
      requires Progress(Parts(), calls[|before|..], input, queue.Contents() + inString)
      modifies this`calls, queue, queue.buffer
      ensures Sized() && queue.buffer == old(queue.buffer) && old(calls) <= calls
      ensures Progress(Parts(), calls[|before|..], input, queue.Contents()) && queue.size < blockSize + lastSize
    {
      hide Progress, QueueBlocks;
      var rest: seq<byte>;
      if blockSize == 1 {
        rest := PutStream(inString);
      } else {
        rest := PutBlocks(inString);
      }
      Capacity(Parts());
      queue.Put(rest);
    }

    // FirstPut when nothing ever came and no first part was wanted, and LastPut with what is left.
    method LastPart()
      requires Valid()
      modifies this`calls, queue
      ensures old(calls) <= calls && before <= calls && queue.Valid()
      ensures Complete(Parts(), calls[|before|..], input)
    {
      hide Progress, QueueBlocks, Joined, Complete;
      if !firstInputDone && firstSize == 0 {
        calls := calls + [First([])];
      }
      ghost var sofar := calls[|before|..];
      var temp := queue.GetAll();
      calls := calls + [Last(temp)];
      assert calls[|before|..] == sofar + [Last(temp)];
      if firstInputDone {
        Finish(Parts(), sofar, input, temp);
      } else {
        ShortMessage(Parts(), sofar, input);
      }
    }

    // PutMaybeModifiable's last part: the end of the message.
    method MessageEnd()
      requires Valid()
      modifies this, queue
      ensures Valid() && Parts() == old(Parts())
      ensures before == calls && old(calls) <= calls && old(before) <= calls && input == []
      ensures Complete(Parts(), calls[|old(before)|..], old(input))
      ensures fresh(queue.buffer)
    {
      hide Progress, QueueBlocks, Complete;
      LastPart();
      firstInputDone := false;
      queue.ResetQueue(1, firstSize);
      input, before := [], calls;
    }
  }

  lemma Regroup(begun: seq<byte>, s: seq<byte>, len: nat, block: seq<byte>, left: seq<byte>)
    requires len <= |s| && begun + s[..len] == block + left && |block| == |begun| + len
    ensures left == [] && begun + s == block + (left + s[len..])
  {
    assert |left| == 0;
    assert block + left == block;
    assert left + s[len..] == s[len..];
    assert s == s[..len] + s[len..];
    assert begun + (s[..len] + s[len..]) == (begun + s[..len]) + s[len..];
  }

  // A whole message in any pieces: the calls depend on the pieces' concatenation as Complete says.
  method PutMessage(filter: FilterWithBufferedInput, chunks: seq<seq<byte>>)
    requires filter.Valid() && filter.input == []
    modifies filter, filter.queue, filter.queue.buffer
    ensures filter.Valid() && filter.Parts() == old(filter.Parts()) && filter.input == []
    ensures old(filter.before) <= filter.calls
    ensures Complete(filter.Parts(), filter.calls[|old(filter.before)|..], Flatten(chunks))
    ensures fresh({filter.queue.buffer} - {old(filter.queue.buffer)})
  {
    hide Complete, Progress, QueueBlocks;
    var i := 0;
    assert chunks[..0] == [];
    while i < |chunks|
      invariant i <= |chunks| && filter.Valid() && filter.Parts() == old(filter.Parts())
      invariant filter.before == old(filter.before) && filter.input == Flatten(chunks[..i])
      invariant fresh({filter.queue.buffer} - {old(filter.queue.buffer)})
    {
      assert chunks[..i + 1][..i] == chunks[..i];
      filter.Put(chunks[i]);
      i := i + 1;
    }
    assert chunks[..|chunks|] == chunks;
    filter.MessageEnd();
  }

  // The sizes promised in filters.h.
  lemma DocumentedSizes(z: Sizes, calls: seq<Call>, input: seq<byte>)
    requires z.block > 0 && Complete(z, calls, input)
    ensures |calls| > 0 && calls[|calls| - 1].Last?
    ensures calls[0].First? <==> |input| >= z.first
    ensures |calls| > 2 <==> |input| >= z.first + z.block + z.last
    ensures var last := |calls[|calls| - 1].bytes|;
            if |input| < z.first then last == |input|
            else if |input| <= z.first + z.last then last == |input| - z.first
            else z.last <= last < z.last + z.block
  {
    if |input| >= z.first {
      MiddleFits(|input| - z.first, z.block, z.last);
      var n, middle := |input| - z.first, calls[1..|calls| - 1];
      JoinedMultiple(z, middle);
      if n >= z.block + z.last { RoundedDown(n - z.last, z.block); }
      assert middle == [] ==> Joined(middle) == [];
    }
  }

  // Nothing is lost, repeated or reordered.
  lemma NothingLost(z: Sizes, calls: seq<Call>, input: seq<byte>)
    requires z.block > 0 && Complete(z, calls, input)
    ensures Joined(calls) == input
  {
    if |input| < z.first {
      assert calls[..0] == [];
    } else {
      hide MiddleLength, Middle, Joined;
      MiddleFits(|input| - z.first, z.block, z.last);
      var middle := calls[1..|calls| - 1];
      var m := z.first + MiddleLength(|input| - z.first, z.block, z.last);
      assert calls == [calls[0]] + middle + [calls[|calls| - 1]];
      JoinedAll(calls[0], middle, calls[|calls| - 1]);
      ThreeParts(input, z.first, m);
    }
  }

  lemma ThreeParts(s: seq<byte>, i: nat, j: nat)
    requires i <= j <= |s|
    ensures s == s[..i] + s[i..j] + s[j..]
  {
  }

  lemma {:induction false} JoinedPrepend(c: Call, calls: seq<Call>)
    ensures Joined([c] + calls) == c.bytes + Joined(calls)
  {
    if calls == [] {
      assert [c][..0] == [];
      assert [c] + calls == [c];
    } else {
      var shorter, last := calls[..|calls| - 1], calls[|calls| - 1];
      assert ([c] + calls)[..|calls|] == [c] + shorter && ([c] + calls)[|calls|] == last;
      assert Joined([c] + calls) == Joined([c] + shorter) + last.bytes && Joined(calls) == Joined(shorter) + last.bytes;
      hide Joined;
      JoinedPrepend(c, shorter);
    }
  }

  lemma JoinedAll(first: Call, middle: seq<Call>, last: Call)
    ensures Joined([first] + middle + [last]) == first.bytes + Joined(middle) + last.bytes
  {
    JoinedPrepend(first, middle);
    assert ([first] + middle + [last])[..1 + |middle|] == [first] + middle;
  }

  lemma RoundedDown(n: nat, m: nat)
    requires m > 0 && n >= m
    ensures 0 < RoundDownToMultipleOf(n, m) <= n < RoundDownToMultipleOf(n, m) + m
    ensures RoundDownToMultipleOf(n, m) % m == 0
  {
    DivMod(n, m);
    DivUnique(n - n % m, m, n / m, 0);
  }
}
