/** A pool of equal blocks: the free ones form a linked list inside the pool itself. */
module Pool {
  import opened Arithmetic

  /** No block. */
  const NULL := -1

  /** Following the links from `head` visits exactly `free` and ends there. */
  ghost predicate IsChain(links: seq<int>, head: int, free: seq<int>)
    decreases |free|
  {
    if free == [] then head == NULL
    else head == free[0] && 0 <= head < |links| && IsChain(links, links[head], free[1..])
  }

  /** Every block is either free or handed out, and none is twice on the list. */
  ghost predicate IsPartition(free: seq<int>, handedOut: set<int>, numBlocks: nat)
  {
    && (forall b :: 0 <= b < numBlocks <==> b in free || b in handedOut)
    && (forall b | b in free :: b !in handedOut)
    && (forall i, j | 0 <= i < j < |free| :: free[i] != free[j])
  }

  lemma PartitionPops(free: seq<int>, handedOut: set<int>, numBlocks: nat)
    requires IsPartition(free, handedOut, numBlocks) && free != []
    ensures free[0] !in handedOut && IsPartition(free[1..], handedOut + {free[0]}, numBlocks)
  {
    var b, rest := free[0], free[1..];
    assert free == [b] + rest;
    assert b in free && b !in rest;
    forall c
      ensures 0 <= c < numBlocks <==> c in rest || c in handedOut + {b}
    {
      assert c in free <==> c == b || c in rest;
    }
  }

  lemma PartitionPushes(free: seq<int>, handedOut: set<int>, numBlocks: nat, b: int)
    requires IsPartition(free, handedOut, numBlocks) && b in handedOut
    ensures 0 <= b < numBlocks && b !in free && IsPartition([b] + free, handedOut - {b}, numBlocks)
  {
  }

  lemma {:induction false} ChainIgnoresOthers(links: seq<int>, head: int, free: seq<int>, b: int, link: int)
    requires IsChain(links, head, free) && 0 <= b < |links| && b !in free
    ensures IsChain(links[b := link], head, free)
    decreases |free|
  {
    if free != [] {
      ChainIgnoresOthers(links, links[head], free[1..], b, link);
    }
  }

  lemma {:induction false} ConsecutiveChain(links: seq<int>, i: nat)
    requires i < |links| && links[|links| - 1] == NULL
    requires forall k | 0 <= k < |links| - 1 :: links[k] == k + 1
    ensures IsChain(links, i, seq(|links| - i, k => i + k))
    decreases |links| - i
  {
    var free := seq(|links| - i, k => i + k);
    if i + 1 < |links| {
      ConsecutiveChain(links, i + 1);
      assert free[1..] == seq(|links| - (i + 1), k => i + 1 + k);
    }
  }

  class PoolAllocator {
    const numBlocks: nat
    const blockSize: nat
    /** The link stored in each free block; in a block handed out, whatever its user has left there. */
    var links: seq<int>
    var freeList: int
    var used: nat
    var maxUsed: nat
    ghost var free: seq<int>
    ghost var handedOut: set<int>

    ghost predicate Valid()
      reads this
    {
      && |links| == numBlocks
      && IsChain(links, freeList, free) && IsPartition(free, handedOut, numBlocks)
      && used == |handedOut| && used + |free| == numBlocks && used <= maxUsed <= numBlocks
    }

    constructor (numBlocks: nat, blockSize: nat)
      requires numBlocks >= 1
      ensures Valid() && this.numBlocks == numBlocks && this.blockSize == blockSize && handedOut == {}
    {
      this.numBlocks, this.blockSize := numBlocks, blockSize;
      freeList, used, maxUsed := 0, 0, 0;
      free := seq(numBlocks, i => 0 + i);
      handedOut := {};
      var table: seq<int> := seq(numBlocks, _ => 0);
      var i := 0;
      while i + 1 < numBlocks
        invariant 0 <= i < numBlocks && |table| == numBlocks
        invariant forall k | 0 <= k < i :: table[k] == k + 1
      {
        table := table[i := i + 1];
        i := i + 1;
      }
      links := table[numBlocks - 1 := NULL];
      new;
      forall b | 0 <= b < numBlocks
        ensures b in free
      {
        assert free[b] == b;
      }
      ConsecutiveChain(links, 0);
    }

    /** A block nobody else has, if one is left and it is large enough. */
    method Allocate(size: nat) returns (block: int)
      requires Valid()
      modifies this
      ensures Valid()
      ensures block == NULL <==> old(used) == numBlocks || size > blockSize
      ensures block == NULL ==>
        handedOut == old(handedOut) && used == old(used) && maxUsed == old(maxUsed) && free == old(free)
      ensures block != NULL ==>
        && block !in old(handedOut) && handedOut == old(handedOut) + {block}
        && old(free) == [block] + free && maxUsed == Max(old(maxUsed), used)
    {
      hide IsPartition;
      if freeList == NULL || size > blockSize {
        return NULL;
      }
      PartitionPops(free, handedOut, numBlocks);
      block := freeList;
      freeList := links[freeList];
      free, handedOut := free[1..], handedOut + {block};
      used := used + 1;
      if used > maxUsed {
        maxUsed := used;
      }
    }

    method Deallocate(block: int)
      requires Valid() && (block == NULL || block in handedOut)
      modifies this
      ensures Valid() && maxUsed == old(maxUsed)
      ensures handedOut == old(handedOut) - {block}
      ensures free == if block == NULL then old(free) else [block] + old(free)
    {
      hide IsPartition;
      if block == NULL {
        assert NULL !in handedOut by { NullIsNoBlock(free, handedOut, numBlocks); }
        return;
      }
      PartitionPushes(free, handedOut, numBlocks, block);
      ChainIgnoresOthers(links, freeList, free, block, freeList);
      links := links[block := freeList];
      freeList := block;
      free, handedOut := [block] + free, handedOut - {block};
      used := used - 1;
    }
  }

  lemma NullIsNoBlock(free: seq<int>, handedOut: set<int>, numBlocks: nat)
    requires IsPartition(free, handedOut, numBlocks)
    ensures NULL !in handedOut
  {
  }
}
