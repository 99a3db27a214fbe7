/** Bytes, and FilterWithBufferedInput::BlockQueue of filters.cpp: a ring buffer that hands out whole blocks. */
module Bytes {
  type byte = x: int | 0 <= x < 256

  function Zeros(k: nat): (z: seq<byte>)
    ensures |z| == k
  {
    seq(k, i => 0)
  }

  // The data that arrive in these pieces.
  function Flatten(chunks: seq<seq<byte>>): (s: seq<byte>) {
    if chunks == [] then [] else Flatten(chunks[..|chunks| - 1]) + chunks[|chunks| - 1]
  }

  lemma EmptyFlatten()
    ensures Flatten([]) == []
  {
  }

  lemma FlattenNext(chunks: seq<seq<byte>>, i: nat)
    requires i < |chunks|
    ensures Flatten(chunks[..i + 1]) == Flatten(chunks[..i]) + chunks[i]
  {
    assert chunks[..i + 1][..i] == chunks[..i];
  }

  lemma {:induction false} FlattenGrows(chunks: seq<seq<byte>>, i: nat)
    requires i <= |chunks|
    ensures |Flatten(chunks[..i])| <= |Flatten(chunks)|
    decreases |chunks| - i
  {
    assert chunks[..|chunks|] == chunks;
    if i < |chunks| {
      FlattenNext(chunks, i);
      FlattenGrows(chunks, i + 1);
    }
  }

  ghost function Overwrite(target: seq<byte>, at: nat, source: seq<byte>): (r: seq<byte>)
    requires at + |source| <= |target|
    ensures |r| == |target|
  {
    target[..at] + source + target[at + |source|..]
  }

  // memcpy of a whole sequence into an array.
  method CopyInto(target: array<byte>, at: nat, source: seq<byte>)
    requires at + |source| <= target.Length
    modifies target
    ensures target[..] == Overwrite(old(target[..]), at, source)
  {
    hide Overwrite;
    ghost var was := target[..];
    OverwriteNothing(was, at);
    var i := 0;
    while i < |source|
      invariant i <= |source| && target[..] == Overwrite(was, at, source[..i])
    {
      OverwriteNext(was, at, source, i);
      ghost var before := target[..];
      target[at + i] := source[i];
      assert target[..] == before[at + i := source[i]];
      i := i + 1;
    }
    assert source[..|source|] == source;
  }

  lemma OverwriteNothing(target: seq<byte>, at: nat)
    requires at <= |target|
    ensures Overwrite(target, at, []) == target
  {
  }

  lemma OverwriteNext(target: seq<byte>, at: nat, source: seq<byte>, i: nat)
    requires at + |source| <= |target| && i < |source|
    ensures Overwrite(target, at, source[..i])[at + i := source[i]] == Overwrite(target, at, source[..i + 1])
  {
  }
}

module BlockQueues {
  import opened Arithmetic
  import opened Bytes
  import opened Options

  class BlockQueue {
    var buffer: array<byte>
    var blockSize: nat
    var maxBlocks: nat
    var size: nat
    // where m_begin points, counted from the start of the buffer
    var begin: nat

    ghost predicate Valid()
      reads this
    {
      && blockSize >= 1
      && buffer.Length == blockSize * maxBlocks
      && size <= buffer.Length
      && (begin < buffer.Length || (begin == 0 && buffer.Length == 0))
    }

    // Blocks are handed out from their own boundaries only.
    ghost predicate Aligned()
      reads this
    {
      blockSize >= 1 && begin % blockSize == 0
    }

    ghost function Contents(): (c: seq<byte>)
      requires Valid()
      reads this, buffer
      ensures |c| == size
    {
      Unrolled(buffer[..], begin, size)
    }

    constructor ()
      ensures Valid() && Aligned() && size == 0 && fresh(buffer)
    {
      buffer := new byte[0];
      blockSize, maxBlocks, size, begin := 1, 0, 0, 0;
    }

    method ResetQueue(newBlockSize: nat, newMaxBlocks: nat)
      requires newBlockSize >= 1
      modifies this
      ensures Valid() && Aligned() && Contents() == [] && begin == 0
      ensures blockSize == newBlockSize && maxBlocks == newMaxBlocks && fresh(buffer)
    {
      assert newBlockSize * newMaxBlocks >= 0;
      buffer := new byte[newBlockSize * newMaxBlocks];
      blockSize, maxBlocks, size, begin := newBlockSize, newMaxBlocks, 0, 0;
      DivUnique(0, blockSize, 0, 0);
    }

    method GetBlock() returns (block: Option<seq<byte>>)
      requires Valid() && Aligned()
      modifies this
      ensures Valid() && Aligned()
      ensures buffer == old(buffer) && blockSize == old(blockSize) && maxBlocks == old(maxBlocks)
      ensures block.Some? <==> old(size) >= blockSize
      ensures block.Some? ==> |block.value| == blockSize && old(Contents()) == block.value + Contents()
      ensures block.None? ==> Contents() == old(Contents())
    {
      hide Unrolled;
      if size >= blockSize {
        BlockFits(begin, blockSize, maxBlocks);
        Dequeue(buffer[..], begin, size, blockSize);
        block := Some(buffer[begin..begin + blockSize]);
        begin := begin + blockSize;
        if begin == buffer.Length {
          begin := 0;
          DivUnique(0, blockSize, 0, 0);
        }
        size := size - blockSize;
      } else {
        block := None;
      }
    }

    // Takes at most wanted bytes: as many as there are in one piece.
    method GetContigousBlocks(wanted: nat) returns (bytes: seq<byte>)
      requires Valid()
      modifies this
      ensures Valid()
      ensures buffer == old(buffer) && blockSize == old(blockSize) && maxBlocks == old(maxBlocks)
      ensures old(Contents()) == bytes + Contents()
      ensures |bytes| <= wanted
      ensures wanted > 0 && old(size) > 0 ==> |bytes| > 0
      ensures |bytes| == wanted || size == 0 || begin == 0
      ensures old(begin) == 0 ==> |bytes| == if wanted < old(size) then wanted else old(size)
      ensures blockSize == 1 ==> Aligned()
    {
      hide Unrolled;
      var n := buffer.Length - begin;
      n := if n < size then n else size;
      n := if wanted < n then wanted else n;
      Dequeue(buffer[..], begin, size, n);
      bytes := buffer[begin..begin + n];
      begin := begin + n;
      size := size - n;
      if size == 0 || begin == buffer.Length {
        begin := 0;
      }
    }

    method GetAll() returns (bytes: seq<byte>)
      requires Valid()
      modifies this
      ensures Valid() && size == 0
      ensures buffer == old(buffer) && blockSize == old(blockSize) && maxBlocks == old(maxBlocks)
      ensures bytes == old(Contents())
    {
      bytes := GetContigousBlocks(maxBlocks * blockSize);
      assert Contents() == buffer[begin..begin + size];
      bytes := bytes + buffer[begin..begin + size];
      size := 0;
    }

    method Put(bytes: seq<byte>)
      requires Valid() && size + |bytes| <= buffer.Length
      modifies this, buffer
      ensures Valid() && (old(Aligned()) ==> Aligned())
      ensures buffer == old(buffer) && blockSize == old(blockSize) && maxBlocks == old(maxBlocks)
      ensures Contents() == old(Contents()) + bytes && begin == old(begin)
    {
      hide Unrolled, Written;
      Enqueue(buffer[..], begin, size, bytes);
      WriteRing(buffer, begin, size, bytes);
      size := size + |bytes|;
    }
  }

  method WriteRing(buffer: array<byte>, begin: nat, size: nat, bytes: seq<byte>)
    requires size + |bytes| <= buffer.Length && begin <= buffer.Length
    modifies buffer
    ensures buffer[..] == Written(old(buffer[..]), begin, size, bytes)
  {
    hide Overwrite;
    var end := if size < buffer.Length - begin then begin + size else begin + size - buffer.Length;
    var n := if |bytes| < buffer.Length - end then |bytes| else buffer.Length - end;
    CopyInto(buffer, end, bytes[..n]);
    if n < |bytes| {
      CopyInto(buffer, 0, bytes[n..]);
    }
  }

  // What a ring of the given contents holds from begin on, for size places.
  ghost function Unrolled(ring: seq<byte>, begin: nat, size: nat): (c: seq<byte>)
    requires size <= |ring| && begin <= |ring|
    ensures |c| == size
  {
    if begin + size <= |ring| then ring[begin..begin + size] else ring[begin..] + ring[..begin + size - |ring|]
  }

  lemma Dequeue(ring: seq<byte>, begin: nat, size: nat, n: nat)
    requires size <= |ring| && n <= size && begin + n <= |ring|
    ensures Unrolled(ring, begin, size)
         == ring[begin..begin + n] + Unrolled(ring, if begin + n == |ring| then 0 else begin + n, size - n)
    ensures n == size ==> Unrolled(ring, begin, size) == ring[begin..begin + n]
  {
    hide Unrolled;
    var next := if begin + n == |ring| then 0 else begin + n;
    forall i | 0 <= i < size
      ensures Unrolled(ring, begin, size)[i] == (ring[begin..begin + n] + Unrolled(ring, next, size - n))[i]
    {
      UnrolledAt(ring, begin, size, i);
      if i >= n { UnrolledAt(ring, next, size - n, i - n); }
    }
  }

  // Writing at the end of the used part appends.
  ghost function Written(ring: seq<byte>, begin: nat, size: nat, bytes: seq<byte>): (w: seq<byte>)
    requires size + |bytes| <= |ring| && begin <= |ring|
    ensures |w| == |ring|
  {
    var end := if size < |ring| - begin then begin + size else begin + size - |ring|;
    var n := if |bytes| < |ring| - end then |bytes| else |ring| - end;
    var once := Overwrite(ring, end, bytes[..n]);
    if n < |bytes| then Overwrite(once, 0, bytes[n..]) else once
  }

  function Wrap(i: nat, m: nat): nat {
    if i < m then i else i - m
  }

  lemma UnrolledAt(ring: seq<byte>, begin: nat, size: nat, i: nat)
    requires size <= |ring| && begin <= |ring| && i < size
    ensures Unrolled(ring, begin, size)[i] == ring[Wrap(begin + i, |ring|)]
  {
  }

  lemma WrittenAt(ring: seq<byte>, begin: nat, size: nat, bytes: seq<byte>, i: nat)
    requires size + |bytes| <= |ring| && begin < |ring| && i < size + |bytes|
    ensures Written(ring, begin, size, bytes)[Wrap(begin + i, |ring|)]
         == if i < size then ring[Wrap(begin + i, |ring|)] else bytes[i - size]
  {
    hide Overwrite;
    var end := if size < |ring| - begin then begin + size else begin + size - |ring|;
    var n := if |bytes| < |ring| - end then |bytes| else |ring| - end;
    var j := Wrap(begin + i, |ring|);
    OverwriteAt(ring, end, bytes[..n], j);
    if n < |bytes| { OverwriteAt(Overwrite(ring, end, bytes[..n]), 0, bytes[n..], j); }
  }

  lemma OverwriteAt(target: seq<byte>, at: nat, source: seq<byte>, j: nat)
    requires at + |source| <= |target| && j < |target|
    ensures Overwrite(target, at, source)[j] == if at <= j < at + |source| then source[j - at] else target[j]
  {
  }

  lemma Enqueue(ring: seq<byte>, begin: nat, size: nat, bytes: seq<byte>)
    requires size + |bytes| <= |ring| && (begin < |ring| || begin == 0)
    ensures Unrolled(Written(ring, begin, size, bytes), begin, size + |bytes|)
         == Unrolled(ring, begin, size) + bytes
  {
    hide Unrolled, Written;
    var w := Written(ring, begin, size, bytes);
    forall i | 0 <= i < size + |bytes|
      ensures Unrolled(w, begin, size + |bytes|)[i] == (Unrolled(ring, begin, size) + bytes)[i]
    {
      UnrolledAt(w, begin, size + |bytes|, i);
      WrittenAt(ring, begin, size, bytes, i);
      if i < size { UnrolledAt(ring, begin, size, i); }
    }
  }

  lemma BlockFits(begin: nat, blockSize: nat, maxBlocks: nat)
    requires blockSize >= 1 && begin % blockSize == 0 && begin < blockSize * maxBlocks
    ensures begin + blockSize <= blockSize * maxBlocks
    ensures (begin + blockSize) % blockSize == 0
  {
    var k := begin / blockSize;
    DivMod(begin, blockSize);
    if k >= maxBlocks {
      MulMonotone(maxBlocks, k, blockSize);
    }
    MulMonotone(k + 1, maxBlocks, blockSize);
    MulDistributes(blockSize, k, 1);
    DivUnique(begin + blockSize, blockSize, k + 1, 0);
  }
}
