/** Storage of incoming multi-frame payloads: a chain of fixed-size pool blocks that behaves like a flat byte array. */
module TransferBuffer {
  import opened Transfer
  import opened Arithmetic

  // ----- The flat buffer that the block chain refines -----

  /** How many bytes a write may store: nothing past the size limit, and no more than the memory `granted` to it. */
  function WriteLength(maxSize: nat, offset: nat, len: nat, granted: nat): (n: nat)
    ensures n <= len && n <= granted && (n > 0 ==> offset + n <= maxSize)
  {
    if offset >= maxSize then 0 else Min(granted, Min(len, maxSize - offset))
  }

  function FlatWrite(contents: seq<Byte>, maxSize: nat, offset: nat, data: seq<Byte>, granted: nat): (r: seq<Byte>)
    requires offset <= |contents|
    ensures |r| == Max(offset + WriteLength(maxSize, offset, |data|, granted), |contents|)
  {
    var n := WriteLength(maxSize, offset, |data|, granted);
    if offset + n < |contents| then contents[..offset] + data[..n] + contents[offset + n..]
    else contents[..offset] + data[..n]
  }

  /** A read sees what was written, and everything else is as it was. */
  lemma FlatReadOfWrite(contents: seq<Byte>, maxSize: nat, offset: nat, data: seq<Byte>, granted: nat, k: nat)
    requires offset <= |contents|
    ensures
      var n := WriteLength(maxSize, offset, |data|, granted);
      var after := FlatWrite(contents, maxSize, offset, data, granted);
      && FlatRead(after, offset, n) == data[..n]
      && (k < |contents| && !(offset <= k < offset + n) ==> after[k] == contents[k])
  {
  }

  lemma FlatWriteClips(contents: seq<Byte>, maxSize: nat, offset: nat, data: seq<Byte>, granted: nat)
    requires offset <= |contents| && offset < maxSize
    ensures FlatWrite(contents, maxSize, offset, data[..Min(|data|, maxSize - offset)], granted) ==
            FlatWrite(contents, maxSize, offset, data, granted)
  {
    var clipped := data[..Min(|data|, maxSize - offset)];
    var n := WriteLength(maxSize, offset, |data|, granted);
    assert WriteLength(maxSize, offset, |clipped|, granted) == n;
    assert clipped[..n] == data[..n];
  }

  lemma FlatWriteBeyondLimit(contents: seq<Byte>, maxSize: nat, offset: nat, data: seq<Byte>, granted: nat)
    requires offset >= maxSize
    ensures offset <= |contents| ==> FlatWrite(contents, maxSize, offset, data, granted) == contents
  {
  }

  function FlatRead(contents: seq<Byte>, offset: nat, len: nat): (r: seq<Byte>)
  {
    if offset >= |contents| then [] else contents[offset..Min(offset + len, |contents|)]
  }

  // ----- One block -----

  /** What remains of `len` bytes bound for position `target` onwards once all positions below `reached` are done. */
  function Remaining(len: nat, target: nat, reached: nat): (r: nat)
    ensures r <= len
  {
    len - Min(len, Max(reached - target, 0))
  }

  /** Writes the part of `data`, bound for absolute position `target`, that falls into the block starting at `total`. */
  method BlockWrite(block: array<Byte>, data: seq<Byte>, inPos: nat, target: nat, total: nat, left: nat)
    returns (inPos': nat, total': nat, left': nat)
    requires left == Remaining(|data|, target, total) && inPos == |data| - left && left > 0
    modifies block
    ensures left' == Remaining(|data|, target, total + block.Length) && inPos' == |data| - left'
    ensures left' > 0 ==> total' == total + block.Length
    ensures forall i | 0 <= i < block.Length ::
              block[i] == if target <= total + i < target + |data| then data[total + i - target] else old(block[i])
  {
    inPos', total', left' := inPos, total, left;
    var i := 0;
    while i < block.Length && left' > 0
      invariant 0 <= i <= block.Length
      invariant total' == total + i
      invariant left' == Remaining(|data|, target, total') && inPos' == |data| - left'
      invariant forall k | 0 <= k < block.Length ::
                  block[k] == if k < i && target <= total + k < target + |data| then data[total + k - target]
                              else old(block[k])
    {
      if total' >= target {
        block[i] := data[inPos'];
        inPos', left' := inPos' + 1, left' - 1;
      }
      i, total' := i + 1, total' + 1;
    }
  }

  /** Reads the part of the range `target` .. `target + len` that falls into the block starting at `total`. */
  method BlockRead(block: array<Byte>, out: seq<Byte>, ghost len: nat, target: nat, total: nat, left: nat)
    returns (out': seq<Byte>, total': nat, left': nat)
    requires left == Remaining(len, target, total) && |out| == len - left && left > 0
    ensures left' == Remaining(len, target, total + block.Length) && |out'| == len - left' && out <= out'
    ensures left' > 0 ==> total' == total + block.Length
    ensures |out| < |out'| ==>
              && 0 <= target + |out| - total && target + |out'| - total <= block.Length
              && out' == out + block[target + |out| - total..target + |out'| - total]
  {
    out', total', left' := out, total, left;
    var i := 0;
    while i < block.Length && left' > 0
      invariant 0 <= i <= block.Length
      invariant total' == total + i
      invariant left' == Remaining(len, target, total') && |out'| == len - left' && out <= out'
      invariant |out| < |out'| ==>
                  && 0 <= target + |out| - total && target + |out'| - total == i
                  && out' == out + block[target + |out| - total..i]
    {
      if total' >= target {
        out', left' := out' + [block[i]], left' - 1;
      }
      i, total' := i + 1, total' + 1;
    }
  }

  // ----- The chain as a value -----

  /** The absolute position at which block `b` starts; with `b` blocks, the capacity of the chain. */
  function Base(size: nat, b: nat): nat
  {
    if b == 0 then 0 else Base(size, b - 1) + size
  }

  /** The absolute position of cell `i` of block `b`. */
  function Position(size: nat, b: nat, i: nat): nat { Base(size, b) + i }

  lemma {:induction false} BaseIsMonotone(size: nat, b: nat, c: nat)
    requires b <= c
    ensures Base(size, b) <= Base(size, c)
    ensures b < c ==> Base(size, b) + size <= Base(size, c)
    decreases c
  {
    if b < c {
      BaseIsMonotone(size, b, c - 1);
    }
  }

  /** All blocks of a chain have the same size. */
  ghost predicate Uniform(chunks: seq<seq<Byte>>, size: nat)
  {
    forall b | 0 <= b < |chunks| :: |chunks[b]| == size
  }

  ghost function Flatten(chunks: seq<seq<Byte>>): seq<Byte>
  {
    if chunks == [] then [] else Flatten(chunks[..|chunks| - 1]) + chunks[|chunks| - 1]
  }

  lemma {:induction false} FlattenAt(chunks: seq<seq<Byte>>, size: nat, b: nat, i: nat)
    requires Uniform(chunks, size) && b < |chunks| && i < size
    ensures |Flatten(chunks)| == Base(size, |chunks|)
    ensures Position(size, b, i) < Base(size, |chunks|) && Flatten(chunks)[Position(size, b, i)] == chunks[b][i]
    decreases |chunks|
  {
    var init := chunks[..|chunks| - 1];
    if init == [] {
      assert Flatten(init) == [];
    } else if b < |init| {
      FlattenAt(init, size, b, i);
    } else {
      FlattenAt(init, size, 0, i);
    }
  }

  lemma {:induction false} FlattenLength(chunks: seq<seq<Byte>>, size: nat)
    requires Uniform(chunks, size)
    ensures |Flatten(chunks)| == Base(size, |chunks|)
    decreases |chunks|
  {
    if chunks != [] {
      FlattenLength(chunks[..|chunks| - 1], size);
    }
  }

  /** Every position below the capacity lies in some cell. */
  lemma {:induction false} Locate(size: nat, blocks: nat, k: nat) returns (b: nat, i: nat)
    requires k < Base(size, blocks)
    ensures b < blocks && i < size && Position(size, b, i) == k
    decreases blocks
  {
    if k >= Base(size, blocks - 1) {
      b, i := blocks - 1, k - Base(size, blocks - 1);
    } else {
      b, i := Locate(size, blocks - 1, k);
    }
  }

  /**
    * Positions `offset` up to `end` of the chain `now` hold `data`; all positions that `was` had are otherwise
    * unchanged.
    */
  ghost predicate Stored(now: seq<seq<Byte>>, was: seq<seq<Byte>>, size: nat, offset: nat, end: int, data: seq<Byte>)
  {
    && |was| <= |now| && end <= offset + |data| && Uniform(now, size) && Uniform(was, size)
    && forall b, i | 0 <= b < |now| && 0 <= i < size ::
         var p := Position(size, b, i);
         if offset <= p < end then now[b][i] == data[p - offset]
         else b < |was| ==> now[b][i] == was[b][i]
  }

  lemma StoredEmptyRange(now: seq<seq<Byte>>, was: seq<seq<Byte>>, size: nat, offset: nat, end: int, end': int,
                         data: seq<Byte>)
    requires Stored(now, was, size, offset, end, data) && end <= offset && end' <= offset
    ensures Stored(now, was, size, offset, end', data)
  {
  }

  lemma StartOfChain(chunks: seq<seq<Byte>>, size: nat, offset: nat, data: seq<Byte>)
    requires Uniform(chunks, size)
    ensures Base(size, 0) == 0 && Remaining(|data|, offset, 0) == |data|
    ensures Stored(chunks, chunks, size, offset, Min(offset + |data|, Base(size, 0)), data)
  {
  }

  /** Once nothing is left to be stored, the blocks that were not visited need no visit. */
  lemma EndOfChain(now: seq<seq<Byte>>, was: seq<seq<Byte>>, size: nat, offset: nat, data: seq<Byte>, left: nat,
                   b: nat, blocks: nat)
    requires Stored(now, was, size, offset, Min(offset + |data|, Base(size, b)), data)
    requires left == Remaining(|data|, offset, Base(size, b)) && b <= blocks && (b < blocks ==> left == 0)
    ensures left == Remaining(|data|, offset, Base(size, blocks))
    ensures Stored(now, was, size, offset, Min(offset + |data|, Base(size, blocks)), data)
  {
    BaseIsMonotone(size, b, blocks);
    if data == [] {
      StoredEmptyRange(now, was, size, offset, Min(offset, Base(size, b)), Min(offset, Base(size, blocks)), data);
    }
  }

  /** What is stored when `left` bytes found no place below the capacity, which is then exhausted. */
  lemma StoredLength(now: seq<seq<Byte>>, was: seq<seq<Byte>>, size: nat, offset: nat, data: seq<Byte>, left: nat,
                     capacity: nat, limit: nat)
    requires Stored(now, was, size, offset, Min(offset + |data|, capacity), data)
    requires left == Remaining(|data|, offset, capacity) && capacity <= limit && (left > 0 ==> capacity == limit)
    ensures
      var n := |data| - left;
      && n == Min(|data|, Max(limit - offset, 0)) && (n > 0 ==> offset + n <= capacity)
      && Stored(now, was, size, offset, offset + n, data)
  {
    if left == |data| {
      StoredEmptyRange(now, was, size, offset, Min(offset + |data|, capacity), offset, data);
    }
  }

  lemma StoredWithFreshBlock(chunks: seq<seq<Byte>>, was: seq<seq<Byte>>, size: nat, offset: nat, end: int,
                             data: seq<Byte>, block: seq<Byte>)
    requires |block| == size && end <= Base(size, |chunks|)
    requires Stored(chunks, was, size, offset, end, data)
    ensures Stored(chunks + [block], was, size, offset, end, data)
  {
  }

  /** What one block write does to a chain of which the earlier blocks are done. */
  ghost predicate BlockStep(before: seq<seq<Byte>>, now: seq<seq<Byte>>, size: nat, offset: nat, data: seq<Byte>,
                            b: nat)
  {
    && b < |before| == |now| && |now[b]| == |before[b]| == size
    && (forall c | 0 <= c < |now| && c != b :: now[c] == before[c])
    && (forall i | 0 <= i < size ::
          var p := Position(size, b, i);
          now[b][i] == if offset <= p < offset + |data| then data[p - offset] else before[b][i])
  }

  lemma StoredInBlock(before: seq<seq<Byte>>, now: seq<seq<Byte>>, was: seq<seq<Byte>>, size: nat,
                      offset: nat, data: seq<Byte>, b: nat)
    requires Stored(before, was, size, offset, Min(offset + |data|, Base(size, b)), data)
    requires BlockStep(before, now, size, offset, data, b)
    ensures Stored(now, was, size, offset, Min(offset + |data|, Base(size, b + 1)), data)
  {
    forall c, i | 0 <= c < |now| && 0 <= i < size
      ensures
        var p := Position(size, c, i);
        if offset <= p < Min(offset + |data|, Base(size, b + 1)) then now[c][i] == data[p - offset]
        else c < |was| ==> now[c][i] == was[c][i]
    {
      if c < b {
        BaseIsMonotone(size, c, b);
      } else if c > b {
        BaseIsMonotone(size, b, c);
      }
    }
  }

  lemma StoredAt(now: seq<seq<Byte>>, was: seq<seq<Byte>>, size: nat, offset: nat, end: int, data: seq<Byte>, k: nat)
    requires Stored(now, was, size, offset, end, data) && k < Base(size, |now|)
    ensures |Flatten(now)| == Base(size, |now|) && |Flatten(was)| == Base(size, |was|)
    ensures offset <= k < end ==> Flatten(now)[k] == data[k - offset]
    ensures !(offset <= k < end) && k < Base(size, |was|) ==> Flatten(now)[k] == Flatten(was)[k]
  {
    hide Flatten;
    FlattenLength(was, size);
    var b, i := Locate(size, |now|, k);
    FlattenAt(now, size, b, i);
    if b < |was| {
      FlattenAt(was, size, b, i);
    } else {
      BaseIsMonotone(size, |was|, b);
    }
  }

  /** A stored range is a write to the flat contents, as long as it leaves no gap behind the old contents. */
  lemma StoredIsFlatWrite(now: seq<seq<Byte>>, was: seq<seq<Byte>>, size: nat, maxSize: nat, offset: nat, n: nat,
                          data: seq<Byte>, granted: nat, pos: nat)
    requires n == WriteLength(maxSize, offset, |data|, granted)
    requires |was| <= |now| && Uniform(was, size) && Uniform(now, size)
    requires Stored(now, was, size, offset, offset + n, data)
    requires offset <= pos <= Base(size, |was|) && offset + n <= Base(size, |now|)
    ensures |Flatten(was)| == Base(size, |was|) && |Flatten(now)| == Base(size, |now|) && pos <= |Flatten(now)|
    ensures Flatten(now)[..Max(offset + n, pos)] == FlatWrite(Flatten(was)[..pos], maxSize, offset, data, granted)
  {
    hide Flatten, Stored, WriteLength;
    FlattenLength(was, size);
    FlattenLength(now, size);
    BaseIsMonotone(size, |was|, |now|);
    var flat := FlatWrite(Flatten(was)[..pos], maxSize, offset, data, granted);
    forall k | 0 <= k < |flat|
      ensures Flatten(now)[k] == flat[k]
    {
      StoredAt(now, was, size, offset, offset + n, data, k);
    }
  }

  lemma ClippedStoreIsFlatWrite(now: seq<seq<Byte>>, was: seq<seq<Byte>>, size: nat, maxSize: nat, offset: nat, n: nat,
                                data: seq<Byte>, granted: nat, pos: nat)
    requires offset < maxSize && n == WriteLength(maxSize, offset, |data|, granted)
    requires |was| <= |now| && Uniform(was, size) && Uniform(now, size)
    requires Stored(now, was, size, offset, offset + n, data[..Min(|data|, maxSize - offset)])
    requires offset <= pos <= Base(size, |was|) && offset + n <= Base(size, |now|)
    ensures |Flatten(was)| == Base(size, |was|) && |Flatten(now)| == Base(size, |now|) && pos <= |Flatten(now)|
    ensures Flatten(now)[..Max(offset + n, pos)] == FlatWrite(Flatten(was)[..pos], maxSize, offset, data, granted)
  {
    hide Flatten, Stored, FlatWrite;
    StoredIsFlatWrite(now, was, size, maxSize, offset, n, data[..Min(|data|, maxSize - offset)], granted, pos);
    FlatWriteClips(Flatten(was)[..pos], maxSize, offset, data, granted);
  }

  lemma SliceOfBlock(chunks: seq<seq<Byte>>, size: nat, b: nat, from: nat, to: nat)
    requires Uniform(chunks, size) && b < |chunks| && from < to <= size
    ensures |Flatten(chunks)| == Base(size, |chunks|) && Base(size, b) + size <= Base(size, |chunks|)
    ensures Flatten(chunks)[Base(size, b) + from..Base(size, b) + to] == chunks[b][from..to]
  {
    hide Flatten;
    FlattenLength(chunks, size);
    BaseIsMonotone(size, b, |chunks|);
    forall i | from <= i < to
      ensures Flatten(chunks)[Base(size, b) + i] == chunks[b][i]
    {
      FlattenAt(chunks, size, b, i);
    }
  }

  lemma StartOfRead(size: nat, len: nat, offset: nat)
    ensures Base(size, 0) == 0 && Remaining(len, offset, 0) == len
  {
  }

  lemma EndOfRead(size: nat, len: nat, offset: nat, left: nat, b: nat, blocks: nat)
    requires offset + len <= Base(size, blocks) && left == Remaining(len, offset, Base(size, b))
    requires b <= blocks && (b < blocks ==> left == 0)
    ensures left == 0
  {
  }

  lemma SlicesJoin(s: seq<Byte>, i: nat, j: nat, k: nat)
    requires i <= j <= k <= |s|
    ensures s[i..j] + s[j..k] == s[i..k]
  {
  }

  lemma SliceOfPrefix(s: seq<Byte>, pos: nat, i: nat, j: nat)
    requires i <= j <= pos <= |s|
    ensures s[..pos][i..j] == s[i..j]
  {
  }

  // ----- The chain as an object -----

  /** The chain of blocks as a value. */
  ghost function Snapshot(blocks: seq<array<Byte>>): (c: seq<seq<Byte>>)
    reads blocks
    ensures |c| == |blocks|
    ensures forall b | 0 <= b < |blocks| :: c[b] == blocks[b][..]
  {
    seq(|blocks|, b requires 0 <= b < |blocks| reads blocks => blocks[b][..])
  }

  /** When a chain of `now` blocks reaches the end of a write of `n` bytes. */
  lemma BackedIff(size: nat, was: nat, budget: nat, now: nat, offset: nat, len: nat, n: nat, pos: nat)
    requires size > 0 && was <= now <= was + budget && pos <= Base(size, was)
    requires n == Min(len, Max(Base(size, was + budget) - offset, 0)) && (n > 0 ==> offset + n <= Base(size, now))
    requires if len == 0 then now == was else n < len ==> now == was + budget
    ensures Max(offset + n, pos) <= Base(size, now) <==>
      offset <= Base(size, was) || (len > 0 && offset <= Base(size, was + budget))
  {
    hide Base;
    BaseIsMonotone(size, was, now);
    BaseIsMonotone(size, now, was + budget);
  }

  class TransferBufferManagerEntry {
    const blockSize: nat
    const maxSize: nat
    var blocks: seq<array<Byte>>
    var maxWritePos: nat

    constructor (blockSize: nat, maxSize: nat)
      requires blockSize > 8
      ensures this.blockSize == blockSize && this.maxSize == maxSize
      ensures Valid() && Backed() && blocks == [] && Contents() == []
    {
      this.blockSize, this.maxSize := blockSize, maxSize;
      blocks, maxWritePos := [], 0;
    }

    ghost predicate Valid()
      reads this
    {
      && blockSize > 8
      && maxWritePos <= maxSize
      && (forall b | 0 <= b < |blocks| :: blocks[b].Length == blockSize)
      && (forall b, c | 0 <= b < c < |blocks| :: blocks[b] != blocks[c])
    }

    ghost function Capacity(): nat
      reads this
    {
      Base(blockSize, |blocks|)
    }

    /** Every byte that was ever reported as written has memory behind it. */
    ghost predicate Backed()
      reads this
    {
      maxWritePos <= Capacity()
    }

    ghost function Contents(): (s: seq<Byte>)
      requires Valid() && Backed()
      reads this, blocks
      ensures |s| == maxWritePos
    {
      FlattenLength(Snapshot(blocks), blockSize);
      Flatten(Snapshot(blocks))[..maxWritePos]
    }

    /**
      * A write at this offset cannot leave the chain short: it is refused, or the chain reaches the offset already, or
      * there is something to write and the chain can be extended that far.
      */
    ghost predicate CanBack(offset: nat, data: seq<Byte>, budget: nat)
      reads this
    {
      || offset >= maxSize
      || offset <= Capacity()
      || (data != [] && offset <= Base(blockSize, |blocks| + budget))
    }

    /** Writes into block `b`. */
    method WriteInto(b: nat, offset: nat, data: seq<Byte>, inPos: nat, total: nat, left: nat)
      returns (inPos': nat, total': nat, left': nat)
      requires Valid() && b < |blocks| && total == Base(blockSize, b)
      requires left == Remaining(|data|, offset, total) && inPos == |data| - left && left > 0
      modifies blocks[b]
      ensures left' == Remaining(|data|, offset, Base(blockSize, b + 1)) && inPos' == |data| - left'
      ensures left' > 0 ==> total' == Base(blockSize, b + 1)
      ensures BlockStep(old(Snapshot(blocks)), Snapshot(blocks), blockSize, offset, data, b)
    {
      inPos', total', left' := BlockWrite(blocks[b], data, inPos, offset, total, left);
    }

    /** The part of a write that falls into blocks which are already there. */
    method WriteExisting(offset: nat, data: seq<Byte>) returns (total: nat, left: nat)
      requires Valid()
      modifies blocks
      ensures left == Remaining(|data|, offset, Capacity())
      ensures left > 0 ==> total == Capacity()
      ensures Stored(Snapshot(blocks), old(Snapshot(blocks)), blockSize, offset, Min(offset + |data|, Capacity()), data)
    {
      hide Stored, BlockStep, Base, Remaining, Snapshot;
      ghost var was := Snapshot(blocks);
      var inPos := 0;
      total, left := 0, |data|;
      var b := 0;
      StartOfChain(was, blockSize, offset, data);
      while b < |blocks| && left > 0
        invariant 0 <= b <= |blocks|
        invariant left > 0 ==> total == Base(blockSize, b)
        invariant left == Remaining(|data|, offset, Base(blockSize, b)) && inPos == |data| - left
        invariant Stored(Snapshot(blocks), was, blockSize, offset, Min(offset + |data|, Base(blockSize, b)), data)
      {
        ghost var before := Snapshot(blocks);
        inPos, total, left := WriteInto(b, offset, data, inPos, total, left);
        StoredInBlock(before, Snapshot(blocks), was, blockSize, offset, data, b);
        b := b + 1;
      }
      EndOfChain(Snapshot(blocks), was, blockSize, offset, data, left, b, |blocks|);
    }

    method AppendBlock()
      requires Valid()
      modifies this`blocks
      ensures Valid() && |blocks| == |old(blocks)| + 1 && old(blocks) <= blocks && fresh(blocks[|old(blocks)|])
      ensures Snapshot(blocks) == old(Snapshot(blocks)) + [blocks[|old(blocks)|][..]]
    {
      var block := new Byte[blockSize];
      blocks := blocks + [block];
    }

    /** The part of a write for which blocks are appended until the allocator refuses. */
    method WriteAppended(offset: nat, data: seq<Byte>, budget: nat, total: nat, left: nat, ghost was: seq<seq<Byte>>)
      returns (left': nat)
      requires Valid()
      requires left == Remaining(|data|, offset, Capacity()) && (left > 0 ==> total == Capacity())
      requires Stored(Snapshot(blocks), was, blockSize, offset, Min(offset + |data|, Capacity()), data)
      modifies this`blocks
      ensures Valid() && old(blocks) <= blocks && |blocks| <= |old(blocks)| + budget
      ensures forall b | |old(blocks)| <= b < |blocks| :: fresh(blocks[b])
      ensures left' == Remaining(|data|, offset, Capacity())
      ensures left' > 0 ==> |blocks| == |old(blocks)| + budget
      ensures left == 0 ==> blocks == old(blocks)
      ensures Stored(Snapshot(blocks), was, blockSize, offset, Min(offset + |data|, Capacity()), data)
    {
      hide Stored, BlockStep, Base, Remaining, Snapshot;
      left' := left;
      var total', inPos := total, |data| - left;
      var granted := 0;
      while left' > 0 && granted < budget
        invariant granted <= budget && |blocks| == |old(blocks)| + granted
        invariant Valid() && old(blocks) <= blocks
        invariant forall b | |old(blocks)| <= b < |blocks| :: fresh(blocks[b])
        invariant left' == Remaining(|data|, offset, Capacity()) && inPos == |data| - left'
        invariant left' > 0 ==> total' == Capacity()
        invariant left == 0 ==> blocks == old(blocks) && left' == 0
        invariant Stored(Snapshot(blocks), was, blockSize, offset, Min(offset + |data|, Capacity()), data)
        decreases budget - granted
      {
        var last := |blocks|;
        ghost var chunks := Snapshot(blocks);
        AppendBlock();
        granted := granted + 1;
        ghost var before := Snapshot(blocks);
        StoredWithFreshBlock(chunks, was, blockSize, offset, Min(offset + |data|, total'), data, blocks[last][..]);
        inPos, total', left' := WriteInto(last, offset, data, inPos, total', left');
        StoredInBlock(before, Snapshot(blocks), was, blockSize, offset, data, last);
      }
    }

    /** Stores what it can of `data` in old and new blocks. */
    method WriteBlocks(offset: nat, data: seq<Byte>, budget: nat) returns (n: nat)
      requires Valid()
      modifies this`blocks, blocks
      ensures Valid() && old(blocks) <= blocks && |blocks| <= |old(blocks)| + budget
      ensures forall b | |old(blocks)| <= b < |blocks| :: fresh(blocks[b])
      ensures n == Min(|data|, Max(Base(blockSize, |old(blocks)| + budget) - offset, 0))
      ensures n > 0 ==> offset + n <= Capacity()
      ensures if data == [] then blocks == old(blocks) else n < |data| ==> |blocks| == |old(blocks)| + budget
      ensures Stored(Snapshot(blocks), old(Snapshot(blocks)), blockSize, offset, offset + n, data)
    {
      hide Stored, Remaining, Base, Snapshot;
      ghost var was := Snapshot(blocks);
      var total, left := WriteExisting(offset, data);
      left := WriteAppended(offset, data, budget, total, left, was);
      n := |data| - left;
      BaseIsMonotone(blockSize, |blocks|, |old(blocks)| + budget);
      StoredLength(Snapshot(blocks), was, blockSize, offset, data, left, Capacity(),
                   Base(blockSize, |old(blocks)| + budget));
    }

    /**
      * Stores as much of `data` at `offset` as the size limit allows and as `budget` fresh blocks can back; the
      * allocator is represented by the number of blocks it gives before it refuses. A write that starts within the
      * contents is a write to the flat buffer. One that starts behind them can leave the chain unbacked, namely when
      * the allocator refuses before `offset` is reached.
      */
    method Write(offset: nat, data: seq<Byte>, budget: nat) returns (n: nat)
      requires Valid() && Backed()
      modifies this`blocks, this`maxWritePos, blocks
      ensures Valid() && old(blocks) <= blocks && |blocks| <= |old(blocks)| + budget
      ensures forall b | |old(blocks)| <= b < |blocks| :: fresh(blocks[b])
      ensures
        var room := Max(Base(blockSize, |old(blocks)| + budget) - offset, 0);
        && n == WriteLength(maxSize, offset, |data|, room)
        && (offset <= old(maxWritePos) ==>
              Backed() && Contents() == FlatWrite(old(Contents()), maxSize, offset, data, room))
      ensures Backed() <==> old(CanBack(offset, data, budget))
      ensures maxWritePos == if offset < maxSize then Max(offset + n, old(maxWritePos)) else old(maxWritePos)
    {
      hide Stored, Flatten, FlatWrite, Base;
      if offset >= maxSize {
        FlatWriteBeyondLimit(Contents(), maxSize, offset, data, Max(Base(blockSize, |blocks| + budget) - offset, 0));
        return 0;
      }
      ghost var room := Max(Base(blockSize, |blocks| + budget) - offset, 0);
      var clipped := data[..Min(|data|, maxSize - offset)];
      n := WriteBlocks(offset, clipped, budget);
      BackedIff(blockSize, |old(blocks)|, budget, |blocks|, offset, |clipped|, n, maxWritePos);
      BaseIsMonotone(blockSize, |old(blocks)|, |blocks|);
      if offset <= maxWritePos {
        ClippedStoreIsFlatWrite(Snapshot(blocks), old(Snapshot(blocks)), blockSize, maxSize, offset, n, data, room,
                                maxWritePos);
      }
      maxWritePos := Max(offset + n, maxWritePos);
    }

    /** Reads from block `b`. */
    method ReadFrom(b: nat, out: seq<Byte>, ghost len: nat, offset: nat, total: nat, left: nat)
      returns (out': seq<Byte>, total': nat, left': nat)
      requires Valid() && b < |blocks| && total == Base(blockSize, b) && offset + len <= Capacity()
      requires left == Remaining(len, offset, total) && |out| == len - left && left > 0
      ensures left' == Remaining(len, offset, Base(blockSize, b + 1)) && |out'| == len - left' && out <= out'
      ensures left' > 0 ==> total' == Base(blockSize, b + 1)
      ensures |Flatten(Snapshot(blocks))| == Capacity()
      ensures out' == out + Flatten(Snapshot(blocks))[offset + |out|..offset + |out'|]
    {
      hide Flatten;
      FlattenLength(Snapshot(blocks), blockSize);
      out', total', left' := BlockRead(blocks[b], out, len, offset, total, left);
      if |out| < |out'| {
        SliceOfBlock(Snapshot(blocks), blockSize, b, offset + |out| - total, offset + |out'| - total);
      }
    }

    method ReadBlocks(offset: nat, n: nat) returns (data: seq<Byte>)
      requires Valid() && offset + n <= Capacity()
      ensures |Flatten(Snapshot(blocks))| == Capacity()
      ensures data == Flatten(Snapshot(blocks))[offset..offset + n]
    {
      hide Flatten, Snapshot, Base, Remaining;
      ghost var flat := Flatten(Snapshot(blocks));
      FlattenLength(Snapshot(blocks), blockSize);
      var total, left := 0, n;
      var b := 0;
      data := [];
      StartOfRead(blockSize, n, offset);
      while b < |blocks| && left > 0
        invariant 0 <= b <= |blocks|
        invariant left > 0 ==> total == Base(blockSize, b)
        invariant left == Remaining(n, offset, Base(blockSize, b)) && |data| == n - left
        invariant data == flat[offset..offset + |data|]
      {
        ghost var before := |data|;
        data, total, left := ReadFrom(b, data, n, offset, total, left);
        SlicesJoin(flat, offset, offset + before, offset + |data|);
        b := b + 1;
      }
      EndOfRead(blockSize, n, offset, left, b, |blocks|);
    }

    /** Reads exactly the requested slice of the flat contents, clipped to what has been written. */
    method Read(offset: nat, len: nat) returns (data: seq<Byte>)
      requires Valid() && Backed()
      ensures data == FlatRead(Contents(), offset, len)
    {
      hide Flatten;
      if offset >= maxWritePos {
        return [];
      }
      var n := Min(len, maxWritePos - offset);
      data := ReadBlocks(offset, n);
      SliceOfPrefix(Flatten(Snapshot(blocks)), maxWritePos, offset, offset + n);
    }

    /** Releases all memory. */
    method Reset()
      requires Valid()
      modifies this`blocks, this`maxWritePos
      ensures Valid() && Backed() && blocks == [] && Contents() == []
    {
      blocks, maxWritePos := [], 0;
    }
  }
}
