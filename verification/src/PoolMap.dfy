/** A map kept in groups of pairs, one pool block each. */
module PoolMaps {
  import opened Options
  import opened Pool

  datatype Pair<K, V> = Pair(key: K, value: V)

  /** A block and its slots; an empty slot is one whose key is invalid in memory. */
  datatype Group<K, V> = Group(block: int, kvs: seq<Option<Pair<K, V>>>)

  /** The slot holds a pair. */
  predicate IsTaken<K, V>(groups: seq<Group<K, V>>, g: int, i: int)
  {
    0 <= g < |groups| && 0 <= i < |groups[g].kvs| && groups[g].kvs[i].Some?
  }

  function PairAt<K, V>(groups: seq<Group<K, V>>, g: int, i: int): Pair<K, V>
    requires IsTaken(groups, g, i)
  {
    groups[g].kvs[i].value
  }

  /** The slots hold exactly the entries of the map, each once. */
  ghost predicate Represents<K, V>(groups: seq<Group<K, V>>, m: map<K, V>)
  {
    && (forall g, i | IsTaken(groups, g, i) ::
         PairAt(groups, g, i).key in m && m[PairAt(groups, g, i).key] == PairAt(groups, g, i).value)
    && (forall k | k in m :: exists g, i | IsTaken(groups, g, i) :: PairAt(groups, g, i).key == k)
    && (forall g, i, h, j | IsTaken(groups, g, i) && IsTaken(groups, h, j) ::
         PairAt(groups, g, i).key == PairAt(groups, h, j).key ==> g == h && i == j)
  }

  function WithSlot<K, V>(groups: seq<Group<K, V>>, g: int, i: int, slot: Option<Pair<K, V>>): seq<Group<K, V>>
    requires 0 <= g < |groups| && 0 <= i < |groups[g].kvs|
  {
    groups[g := groups[g].(kvs := groups[g].kvs[i := slot])]
  }

  lemma SlotOf<K, V>(groups: seq<Group<K, V>>, g: int, i: int, slot: Option<Pair<K, V>>, h: int, j: int)
    requires 0 <= g < |groups| && 0 <= i < |groups[g].kvs|
    ensures
      var after := WithSlot(groups, g, i, slot);
      && IsTaken(after, h, j) == (if h == g && j == i then slot.Some? else IsTaken(groups, h, j))
      && (IsTaken(after, h, j) ==> PairAt(after, h, j) == if h == g && j == i then slot.value else PairAt(groups, h, j))
  {
  }

  lemma SlotIsInRange<K, V>(groups: seq<Group<K, V>>, g: int, i: int)
    requires IsTaken(groups, g, i)
    ensures 0 <= g < |groups| && 0 <= i < |groups[g].kvs|
  {
  }

  lemma ClearedSlotRemoves<K, V>(groups: seq<Group<K, V>>, m: map<K, V>, g: int, i: int)
    requires Represents(groups, m) && IsTaken(groups, g, i)
    ensures Represents(WithSlot(groups, g, i, None), m - {PairAt(groups, g, i).key})
  {
    SlotIsInRange(groups, g, i);
    hide WithSlot, IsTaken, PairAt;
    var after, key := WithSlot(groups, g, i, None), PairAt(groups, g, i).key;
    forall h, j
      ensures IsTaken(after, h, j) == (IsTaken(groups, h, j) && !(h == g && j == i))
      ensures IsTaken(after, h, j) ==> PairAt(after, h, j) == PairAt(groups, h, j)
    {
      SlotOf(groups, g, i, None, h, j);
    }
    forall k | k in m && k != key
      ensures exists h, j | IsTaken(after, h, j) :: PairAt(after, h, j).key == k
    {
      var h, j :| IsTaken(groups, h, j) && PairAt(groups, h, j).key == k;
      assert IsTaken(after, h, j);
    }
  }

  lemma FilledSlotAdds<K, V>(groups: seq<Group<K, V>>, m: map<K, V>, g: int, i: int, pair: Pair<K, V>)
    requires Represents(groups, m) && 0 <= g < |groups| && 0 <= i < |groups[g].kvs| && !IsTaken(groups, g, i)
    requires pair.key !in m
    ensures Represents(WithSlot(groups, g, i, Some(pair)), m[pair.key := pair.value])
  {
    hide WithSlot, IsTaken, PairAt;
    var after := WithSlot(groups, g, i, Some(pair));
    forall h, j
      ensures IsTaken(after, h, j) == (IsTaken(groups, h, j) || (h == g && j == i))
      ensures IsTaken(after, h, j) ==> PairAt(after, h, j) == if h == g && j == i then pair else PairAt(groups, h, j)
    {
      SlotOf(groups, g, i, Some(pair), h, j);
    }
    assert IsTaken(after, g, i);
    forall k | k in m
      ensures exists h, j | IsTaken(after, h, j) :: PairAt(after, h, j).key == k
    {
      var h, j :| IsTaken(groups, h, j) && PairAt(groups, h, j).key == k;
      assert IsTaken(after, h, j);
    }
  }

  /** Some slot of the group holds a pair. */
  ghost predicate IsInUse<K, V>(group: Group<K, V>)
  {
    exists i | 0 <= i < |group.kvs| :: group.kvs[i].Some?
  }

  function WithoutGroup<K, V>(groups: seq<Group<K, V>>, g: nat): seq<Group<K, V>>
    requires g < |groups|
  {
    groups[..g] + groups[g + 1..]
  }

  lemma UnusedGroupCanGo<K, V>(groups: seq<Group<K, V>>, m: map<K, V>, g: nat)
    requires Represents(groups, m) && g < |groups| && !IsInUse(groups[g])
    ensures Represents(WithoutGroup(groups, g), m)
  {
    var after := WithoutGroup(groups, g);
    forall h, j
      ensures IsTaken(after, h, j) == IsTaken(groups, if h < g then h else h + 1, j)
      ensures IsTaken(after, h, j) ==> PairAt(after, h, j) == PairAt(groups, if h < g then h else h + 1, j)
    {
    }
    assert forall j :: !IsTaken(groups, g, j);
    hide WithoutGroup, IsTaken, PairAt, IsInUse;
    forall k | k in m
      ensures exists h, j | IsTaken(after, h, j) :: PairAt(after, h, j).key == k
    {
      var h, j :| IsTaken(groups, h, j) && PairAt(groups, h, j).key == k;
      assert IsTaken(after, if h < g then h else h - 1, j);
    }
  }

  function NewGroup<K, V>(block: int, numKV: nat, pair: Pair<K, V>): Group<K, V>
    requires numKV >= 1
  {
    Group(block, [Some(pair)] + seq(numKV - 1, _ => None))
  }

  lemma NewGroupAdds<K, V>(groups: seq<Group<K, V>>, m: map<K, V>, block: int, numKV: nat, pair: Pair<K, V>)
    requires Represents(groups, m) && numKV >= 1 && pair.key !in m
    ensures Represents([NewGroup(block, numKV, pair)] + groups, m[pair.key := pair.value])
  {
    var after := [NewGroup(block, numKV, pair)] + groups;
    forall h, j
      ensures IsTaken(after, h, j) == if h == 0 then j == 0 else IsTaken(groups, h - 1, j)
      ensures IsTaken(after, h, j) ==> PairAt(after, h, j) == if h == 0 then pair else PairAt(groups, h - 1, j)
    {
    }
    hide IsTaken, PairAt, NewGroup;
    assert IsTaken(after, 0, 0);
    forall k | k in m
      ensures exists h, j | IsTaken(after, h, j) :: PairAt(after, h, j).key == k
    {
      var h, j :| IsTaken(groups, h, j) && PairAt(groups, h, j).key == k;
      assert IsTaken(after, h + 1, j);
    }
  }

  function BlocksOf<K, V>(groups: seq<Group<K, V>>): set<int>
  {
    set g | 0 <= g < |groups| :: groups[g].block
  }

  /** Each group has its own block out of the pool, and the right number of slots. */
  ghost predicate AreBacked<K, V>(groups: seq<Group<K, V>>, handedOut: set<int>, numKV: nat)
  {
    && (forall g | 0 <= g < |groups| :: groups[g].block in handedOut && |groups[g].kvs| == numKV)
    && (forall g, h | 0 <= g < h < |groups| :: groups[g].block != groups[h].block)
  }

  lemma GroupGivesBlockBack<K, V>(groups: seq<Group<K, V>>, handedOut: set<int>, numKV: nat, g: nat)
    requires AreBacked(groups, handedOut, numKV) && g < |groups|
    ensures AreBacked(WithoutGroup(groups, g), handedOut - {groups[g].block}, numKV)
    ensures BlocksOf(WithoutGroup(groups, g)) == BlocksOf(groups) - {groups[g].block}
    ensures groups[g].block in handedOut
  {
    var after := WithoutGroup(groups, g);
    forall b
      ensures b in BlocksOf(after) <==> b in BlocksOf(groups) && b != groups[g].block
    {
      if b in BlocksOf(groups) && b != groups[g].block {
        var h :| 0 <= h < |groups| && groups[h].block == b;
        assert after[if h < g then h else h - 1].block == b;
      }
    }
  }

  lemma SameBlocks<K, V>(groups: seq<Group<K, V>>, handedOut: set<int>, numKV: nat, g: int, i: int,
                         slot: Option<Pair<K, V>>)
    requires AreBacked(groups, handedOut, numKV) && 0 <= g < |groups| && 0 <= i < |groups[g].kvs|
    ensures AreBacked(WithSlot(groups, g, i, slot), handedOut, numKV)
    ensures BlocksOf(WithSlot(groups, g, i, slot)) == BlocksOf(groups)
  {
    var after := WithSlot(groups, g, i, slot);
    assert forall h | 0 <= h < |groups| :: after[h].block == groups[h].block;
  }

  /** All entries that satisfy the predicate are gone up to the given position. */
  ghost predicate ArePurged<K, V>(groups: seq<Group<K, V>>, g: nat, i: nat, predicate': (K, V) -> bool)
  {
    forall h, j | IsTaken(groups, h, j) && (h < g || (h == g && j < i)) ::
      !predicate'(PairAt(groups, h, j).key, PairAt(groups, h, j).value)
  }

  lemma NothingToPurge<K, V>(groups: seq<Group<K, V>>, predicate': (K, V) -> bool)
    ensures ArePurged(groups, 0, 0, predicate')
  {
  }

  lemma ClearingPurges<K, V>(groups: seq<Group<K, V>>, g: nat, i: nat, predicate': (K, V) -> bool)
    requires ArePurged(groups, g, i, predicate') && IsTaken(groups, g, i)
    ensures ArePurged(WithSlot(groups, g, i, None), g, i + 1, predicate')
  {
    hide WithSlot;
    forall h, j | IsTaken(WithSlot(groups, g, i, None), h, j)
      ensures IsTaken(groups, h, j) && !(h == g && j == i)
      ensures PairAt(WithSlot(groups, g, i, None), h, j) == PairAt(groups, h, j)
    {
      SlotOf(groups, g, i, None, h, j);
    }
  }

  lemma GroupIsPurged<K, V>(groups: seq<Group<K, V>>, g: nat, predicate': (K, V) -> bool)
    requires g < |groups| && ArePurged(groups, g, |groups[g].kvs|, predicate')
    ensures ArePurged(groups, g + 1, 0, predicate')
  {
  }

  /** `contents` is what is left of `before` without `gone`, which are entries that satisfy the predicate. */
  ghost predicate IsPurgedFrom<K, V>(contents: map<K, V>, before: map<K, V>, gone: seq<Pair<K, V>>,
                                     predicate': (K, V) -> bool)
  {
    && (forall k | k in contents :: k in before && contents[k] == before[k])
    && (forall p | p in gone ::
         p.key in before && before[p.key] == p.value && p.key !in contents && predicate'(p.key, p.value))
    && (forall k | k in before && k !in contents :: Pair(k, before[k]) in gone)
    && (forall i, j | 0 <= i < j < |gone| :: gone[i].key != gone[j].key)
  }

  lemma OneMoreIsGone<K, V>(contents: map<K, V>, before: map<K, V>, gone: seq<Pair<K, V>>, predicate': (K, V) -> bool,
                            pair: Pair<K, V>)
    requires IsPurgedFrom(contents, before, gone, predicate') && predicate'(pair.key, pair.value)
    requires pair.key in contents && contents[pair.key] == pair.value
    ensures IsPurgedFrom(contents - {pair.key}, before, gone + [pair], predicate')
  {
    assert forall i | 0 <= i < |gone| :: gone[i] in gone;
  }

  lemma UnusedWhenEmpty<K, V>(groups: seq<Group<K, V>>, g: nat)
    requires Represents(groups, map[]) && g < |groups|
    ensures !IsInUse(groups[g])
  {
    forall i | 0 <= i < |groups[g].kvs|
      ensures groups[g].kvs[i].None?
    {
      assert IsTaken(groups, g, i) == groups[g].kvs[i].Some?;
    }
  }

  class Map<K(==), V> {
    const allocator: PoolAllocator
    const numKV: nat
    const groupSize: nat
    var groups: seq<Group<K, V>>
    ghost var contents: map<K, V>

    /** Everything but that all groups are in use. */
    ghost predicate IsConsistent()
      reads this, allocator
    {
      && allocator.Valid() && numKV >= 1
      && Represents(groups, contents) && AreBacked(groups, allocator.handedOut, numKV)
    }

    /** No group without a pair is kept. */
    ghost predicate Valid()
      reads this, allocator
    {
      IsConsistent() && forall g | 0 <= g < |groups| :: IsInUse(groups[g])
    }

    /** The blocks that belong to other users of the pool. */
    ghost function OtherBlocks(): set<int>
      reads this, allocator
    {
      allocator.handedOut - BlocksOf(groups)
    }

    constructor (allocator: PoolAllocator, numKV: nat, groupSize: nat)
      requires allocator.Valid() && numKV >= 1
      ensures Valid() && contents == map[]
      ensures this.allocator == allocator && this.numKV == numKV && this.groupSize == groupSize
    {
      this.allocator, this.numKV, this.groupSize := allocator, numKV, groupSize;
      groups, contents := [], map[];
    }

    method FindKey(key: K) returns (found: bool, g: nat, i: nat)
      requires IsConsistent()
      ensures found ==> IsTaken(groups, g, i) && PairAt(groups, g, i).key == key
      ensures found == (key in contents)
    {
      found, g, i := false, 0, 0;
      while g < |groups|
        invariant g <= |groups|
        invariant forall h, j | IsTaken(groups, h, j) && h < g :: PairAt(groups, h, j).key != key
      {
        i := 0;
        while i < |groups[g].kvs|
          invariant i <= |groups[g].kvs|
          invariant forall h, j | IsTaken(groups, h, j) && (h < g || (h == g && j < i)) ::
            PairAt(groups, h, j).key != key
        {
          if groups[g].kvs[i].Some? && groups[g].kvs[i].value.key == key {
            found := true;
            assert IsTaken(groups, g, i);
            return;
          }
          i := i + 1;
        }
        g := g + 1;
      }
    }

    method FindFree() returns (found: bool, g: nat, i: nat)
      requires IsConsistent()
      ensures found ==> g < |groups| && i < |groups[g].kvs| && !IsTaken(groups, g, i)
      ensures !found ==> forall h, j | 0 <= h < |groups| && 0 <= j < |groups[h].kvs| :: groups[h].kvs[j].Some?
    {
      found, g, i := false, 0, 0;
      while g < |groups|
        invariant g <= |groups|
        invariant forall h, j | 0 <= h < g && 0 <= j < |groups[h].kvs| :: groups[h].kvs[j].Some?
      {
        i := 0;
        while i < |groups[g].kvs|
          invariant i <= |groups[g].kvs|
          invariant forall j | 0 <= j < i :: groups[g].kvs[j].Some?
        {
          if groups[g].kvs[i].None? {
            found := true;
            return;
          }
          i := i + 1;
        }
        g := g + 1;
      }
    }

    method IsUnused(g: nat) returns (b: bool)
      requires g < |groups|
      ensures b == !IsInUse(groups[g])
    {
      var group := groups[g];
      for i := 0 to |group.kvs|
        invariant forall j | 0 <= j < i :: group.kvs[j].None?
      {
        if group.kvs[i].Some? {
          return false;
        }
      }
      b := true;
    }

    method DropGroup(g: nat)
      requires IsConsistent() && g < |groups| && !IsInUse(groups[g])
      modifies this, allocator
      ensures IsConsistent() && contents == old(contents) && OtherBlocks() == old(OtherBlocks())
      ensures groups == WithoutGroup(old(groups), g)
    {
      hide Represents, AreBacked, IsInUse;
      UnusedGroupCanGo(groups, contents, g);
      GroupGivesBlockBack(groups, allocator.handedOut, numKV, g);
      var block := groups[g].block;
      assert block in BlocksOf(groups);
      groups := groups[..g] + groups[g + 1..];
      allocator.Deallocate(block);
    }

    /** Gives every block back that holds no pair. */
    method Compact()
      requires IsConsistent()
      modifies this, allocator
      ensures Valid() && contents == old(contents) && OtherBlocks() == old(OtherBlocks())
    {
      hide Represents, AreBacked, IsInUse, BlocksOf;
      var p := 0;
      while p < |groups|
        invariant p <= |groups| && IsConsistent() && contents == old(contents) && OtherBlocks() == old(OtherBlocks())
        invariant forall g | 0 <= g < p :: IsInUse(groups[g])
        decreases |groups| - p
      {
        var unused := IsUnused(p);
        if unused {
          DropGroup(p);
        } else {
          p := p + 1;
        }
      }
    }

    method ClearSlot(g: nat, i: nat)
      requires IsConsistent() && IsTaken(groups, g, i)
      modifies this
      ensures IsConsistent() && OtherBlocks() == old(OtherBlocks())
      ensures contents == old(contents) - {PairAt(old(groups), g, i).key}
      ensures groups == WithSlot(old(groups), g, i, None)
    {
      SlotIsInRange(groups, g, i);
      hide Represents, AreBacked, BlocksOf;
      ClearedSlotRemoves(groups, contents, g, i);
      SameBlocks(groups, allocator.handedOut, numKV, g, i, None);
      contents := contents - {PairAt(groups, g, i).key};
      groups := groups[g := groups[g].(kvs := groups[g].kvs[i := None])];
    }

    method Remove(key: K)
      requires Valid()
      modifies this, allocator
      ensures Valid() && OtherBlocks() == old(OtherBlocks())
      ensures contents == old(contents) - {key}
    {
      hide Represents, AreBacked, BlocksOf, IsInUse, IsTaken, PairAt;
      var found, g, i := FindKey(key);
      if found {
        ClearSlot(g, i);
        Compact();
      }
    }

    method Access(key: K) returns (value: Option<V>)
      requires Valid()
      ensures value == if key in contents then Some(contents[key]) else None
    {
      var found, g, i := FindKey(key);
      value := if found then Some(groups[g].kvs[i].value.value) else None;
    }

    /** Replaces the value of a key; without memory for a new pair the old one is gone as well. */
    method Insert(key: K, value: V) returns (ok: bool)
      requires Valid()
      modifies this, allocator
      ensures Valid() && OtherBlocks() == old(OtherBlocks())
      ensures contents == if ok then old(contents)[key := value] else old(contents) - {key}
      ensures !ok ==> allocator.used == allocator.numBlocks || groupSize > allocator.blockSize
      ensures !ok ==> forall g, i | 0 <= g < |groups| && 0 <= i < |groups[g].kvs| :: groups[g].kvs[i].Some?
    {
      hide Represents, AreBacked, BlocksOf, IsInUse;
      Remove(key);
      assert (old(contents) - {key})[key := value] == old(contents)[key := value];
      var found, g, i := FindFree();
      if found {
        FillSlot(g, i, Pair(key, value));
        return true;
      }
      ok := AddGroup(Pair(key, value));
    }

    /**
      * Removes the entries that satisfy the predicate. `gone` lists them in the order in which the predicate has
      * accepted them, each once: whatever the predicate does on the side, it does for exactly these.
      */
    method RemoveAllWhere(predicate': (K, V) -> bool) returns (gone: seq<Pair<K, V>>)
      requires Valid()
      modifies this, allocator
      ensures Valid() && OtherBlocks() == old(OtherBlocks())
      ensures contents == map k | k in old(contents) && !predicate'(k, old(contents)[k]) :: old(contents)[k]
      ensures forall p :: p in gone <==>
        p.key in old(contents) && p.value == old(contents)[p.key] && predicate'(p.key, p.value)
      ensures forall i, j | 0 <= i < j < |gone| :: gone[i].key != gone[j].key
    {
      hide AreBacked, BlocksOf, IsInUse, Represents, IsTaken, PairAt;
      gone := [];
      var g := 0;
      NothingToPurge(groups, predicate');
      while g < |groups|
        invariant g <= |groups| && IsConsistent() && OtherBlocks() == old(OtherBlocks())
        invariant ArePurged(groups, g, 0, predicate') && IsPurgedFrom(contents, old(contents), gone, predicate')
        invariant gone == [] ==> groups == old(groups)
      {
        gone := PurgeGroup(g, predicate', gone, old(contents), old(groups));
        g := g + 1;
      }
      PurgeIsComplete(old(contents), gone, predicate');
      if |gone| > 0 {
        Compact();
      }
    }

    lemma PurgeIsComplete(before: map<K, V>, gone: seq<Pair<K, V>>, predicate': (K, V) -> bool)
      requires IsConsistent() && ArePurged(groups, |groups|, 0, predicate')
      requires IsPurgedFrom(contents, before, gone, predicate')
      ensures contents == map k | k in before && !predicate'(k, before[k]) :: before[k]
    {
      hide AreBacked;
      forall k | k in contents
        ensures !predicate'(k, contents[k])
      {
        var g, i :| IsTaken(groups, g, i) && PairAt(groups, g, i).key == k;
      }
    }

    method PurgeGroup(g: nat, predicate': (K, V) -> bool, already: seq<Pair<K, V>>, ghost before: map<K, V>,
                      ghost start: seq<Group<K, V>>)
      returns (gone: seq<Pair<K, V>>)
      requires IsConsistent() && g < |groups| && ArePurged(groups, g, 0, predicate')
      requires IsPurgedFrom(contents, before, already, predicate')
      requires already == [] ==> groups == start
      modifies this
      ensures IsConsistent() && OtherBlocks() == old(OtherBlocks()) && |groups| == |old(groups)|
      ensures ArePurged(groups, g + 1, 0, predicate') && IsPurgedFrom(contents, before, gone, predicate')
      ensures gone == [] ==> groups == start
    {
      hide AreBacked, BlocksOf, IsInUse, Represents, IsPurgedFrom;
      gone := already;
      var i := 0;
      while i < |groups[g].kvs|
        invariant |groups| == |old(groups)| && i <= |groups[g].kvs| == |old(groups[g].kvs)|
        invariant IsConsistent() && OtherBlocks() == old(OtherBlocks())
        invariant ArePurged(groups, g, i, predicate') && IsPurgedFrom(contents, before, gone, predicate')
        invariant gone == [] ==> groups == start
      {
        if groups[g].kvs[i].Some? {
          var pair := groups[g].kvs[i].value;
          if predicate'(pair.key, pair.value) {
            TakenIsInContents(g, i);
            OneMoreIsGone(contents, before, gone, predicate', pair);
            ClearingPurges(groups, g, i, predicate');
            ClearSlot(g, i);
            gone := gone + [pair];
          }
        }
        i := i + 1;
      }
      GroupIsPurged(groups, g, predicate');
    }

    lemma TakenIsInContents(g: nat, i: nat)
      requires IsConsistent() && IsTaken(groups, g, i)
      ensures PairAt(groups, g, i).key in contents && contents[PairAt(groups, g, i).key] == PairAt(groups, g, i).value
    {
    }

    method Clear()
      requires Valid()
      modifies this, allocator
      ensures Valid() && OtherBlocks() == old(OtherBlocks())
      ensures contents == map[] && groups == []
    {
      hide AreBacked, BlocksOf, IsInUse, Represents;
      var _ := RemoveAllWhere((_, _) => true);
      if groups != [] {
        UnusedWhenEmpty(groups, 0);
      }
    }

    method FillSlot(g: nat, i: nat, pair: Pair<K, V>)
      requires Valid() && g < |groups| && i < |groups[g].kvs| && !IsTaken(groups, g, i) && pair.key !in contents
      modifies this
      ensures Valid() && OtherBlocks() == old(OtherBlocks())
      ensures contents == old(contents)[pair.key := pair.value]
      ensures groups == WithSlot(old(groups), g, i, Some(pair))
    {
      hide Represents, AreBacked, BlocksOf;
      FilledSlotAdds(groups, contents, g, i, pair);
      SameBlocks(groups, allocator.handedOut, numKV, g, i, Some(pair));
      contents := contents[pair.key := pair.value];
      groups := groups[g := groups[g].(kvs := groups[g].kvs[i := Some(pair)])];
      assert groups[g].kvs[i].Some?;
    }

    method AddGroup(pair: Pair<K, V>) returns (ok: bool)
      requires Valid() && pair.key !in contents
      modifies this, allocator
      ensures Valid() && OtherBlocks() == old(OtherBlocks())
      ensures ok <==> old(allocator.used) < allocator.numBlocks && groupSize <= allocator.blockSize
      ensures contents == if ok then old(contents)[pair.key := pair.value] else old(contents)
      ensures !ok ==> groups == old(groups) && allocator.used == old(allocator.used)
    {
      hide Represents, AreBacked;
      var block := allocator.Allocate(groupSize);
      if block == NULL {
        return false;
      }
      NewGroupAdds(groups, contents, block, numKV, pair);
      NewBlockBacks(groups, old(allocator.handedOut), numKV, block, pair);
      contents := contents[pair.key := pair.value];
      groups := [NewGroup(block, numKV, pair)] + groups;
      assert groups[0].kvs[0].Some?;
      ok := true;
    }
  }

  lemma NewBlockBacks<K, V>(groups: seq<Group<K, V>>, handedOut: set<int>, numKV: nat, block: int, pair: Pair<K, V>)
    requires AreBacked(groups, handedOut, numKV) && numKV >= 1 && block !in handedOut
    ensures
      var after := [NewGroup(block, numKV, pair)] + groups;
      AreBacked(after, handedOut + {block}, numKV) && BlocksOf(after) == BlocksOf(groups) + {block}
  {
    var after := [NewGroup(block, numKV, pair)] + groups;
    assert after[0].block == block;
    forall b
      ensures b in BlocksOf(after) <==> b in BlocksOf(groups) || b == block
    {
      if b in BlocksOf(groups) {
        var g :| 0 <= g < |groups| && groups[g].block == b;
        assert after[g + 1].block == b;
      }
    }
  }
}
