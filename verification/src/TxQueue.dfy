/** The transmission queue of one interface: sorted by bus priority, bounded by a quota, with expiry and eviction. */
module TxQueue {
  import opened Arithmetic
  import opened Options
  import opened Can
  import LinkedLists

  datatype Qos = Volatile | Persistent

  /** `serial` numbers the pushes; it identifies the entry. */
  datatype Entry = Entry(frame: CanFrame, deadline: nat, qos: Qos, flags: nat, serial: nat)

  predicate IsExpired(e: Entry, now: nat) { now > e.deadline }

  predicate QosHigherThan(a: Entry, b: Entry)
  {
    if a.qos != b.qos then a.qos == Persistent else PriorityHigherThan(a.frame, b.frame)
  }

  /** The order in which entries wait: bus priority first, then the order of pushing. */
  predicate GoesBefore(a: Entry, b: Entry)
  {
    || ArbitrationField(a.frame) < ArbitrationField(b.frame)
    || (ArbitrationField(a.frame) == ArbitrationField(b.frame) && a.serial < b.serial)
  }

  ghost predicate IsOrdered(entries: seq<Entry>)
  {
    forall i, j | 0 <= i < j < |entries| :: GoesBefore(entries[i], entries[j])
  }

  const MAX_REJECTED: nat := 0xFFFF_FFFF

  /**
    * `rejected` is the saturating counter of the source. `pushes`, `dropped`, `lost`, `leaked` and `sent` are history:
    * how often a frame was offered, given up with and without being counted, how many blocks of the quota a failing
    * pool has eaten, and the entries handed over to the driver in order.
    */
  datatype State = State(entries: seq<Entry>, used: nat, quota: nat, rejected: nat,
                         pushes: nat, dropped: nat, lost: nat, leaked: nat, sent: seq<Entry>)

  function Empty(quota: nat): State { State([], 0, quota, 0, 0, 0, 0, 0, []) }

  /** Among frames of equal priority, those sent were pushed before those waiting, and sent in the order of pushing. */
  ghost predicate IsFifo(s: State)
  {
    && (forall i, j | 0 <= i < j < |s.sent| ::
         ArbitrationField(s.sent[i].frame) == ArbitrationField(s.sent[j].frame) ==> s.sent[i].serial < s.sent[j].serial)
    && (forall x, y | x in s.sent && y in s.entries ::
         ArbitrationField(x.frame) == ArbitrationField(y.frame) ==> x.serial < y.serial)
  }

  ghost predicate AreOlder(entries: seq<Entry>, serial: int)
  {
    forall e | e in entries :: e.serial < serial
  }

  /**
    * Every frame offered is queued, sent, dropped or lost, except for the `offered` ones still being dealt with; the
    * quota covers the queue and what has leaked.
    */
  ghost predicate Balanced(s: State, offered: nat)
  {
    && s.used == |s.entries| + s.leaked && s.used <= s.quota
    && s.pushes == |s.entries| + |s.sent| + s.dropped + s.lost + offered
    && s.rejected == Min(s.dropped, MAX_REJECTED)
    && (s.lost > 0 ==> s.leaked > 0)
  }

  ghost predicate InvWith(s: State, offered: nat)
  {
    && IsOrdered(s.entries) && IsFifo(s) && Balanced(s, offered)
    && AreOlder(s.entries, s.pushes - offered) && AreOlder(s.sent, s.pushes - offered)
  }

  ghost predicate Inv(s: State) { InvWith(s, 0) }

  // ----- Steps -----

  function Reject(s: State): State
  {
    s.(dropped := s.dropped + 1, rejected := if s.rejected < MAX_REJECTED then s.rejected + 1 else s.rejected)
  }

  predicate Allocates(s: State, grant: bool) { s.used < s.quota && grant }

  /** A block counts against the quota even if the pool behind it has none to give. */
  function Allocate(s: State, grant: bool): State
  {
    if s.used >= s.quota then s
    else s.(used := s.used + 1, leaked := if grant then s.leaked else s.leaked + 1)
  }

  function Without(entries: seq<Entry>, k: nat): seq<Entry>
    requires k < |entries|
  {
    entries[..k] + entries[k + 1..]
  }

  /** Unlinks an entry and returns its block. */
  function Release(s: State, k: nat): State
    requires k < |s.entries|
  {
    s.(entries := Without(s.entries, k), used := if s.used > 0 then s.used - 1 else 0)
  }

  /** Removes the expired entries from position `k` on, counting each. */
  function Purge(s: State, k: nat, now: nat): State
    requires k <= |s.entries|
    decreases |s.entries| - k
  {
    if k == |s.entries| then s
    else if IsExpired(s.entries[k], now) then Purge(Release(Reject(s), k), k, now)
    else Purge(s, k + 1, now)
  }

  /** Position of the first entry among those of lowest quality of service. */
  function Lowest(entries: seq<Entry>): (l: nat)
    requires entries != []
    ensures l < |entries|
  {
    if |entries| == 1 then 0 else
      var last := |entries| - 1;
      var l := Lowest(entries[..last]);
      if QosHigherThan(entries[l], entries[last]) then last else l
  }

  function OutrankedBy(e: Entry): Entry -> bool { (x: Entry) => PriorityHigherThan(e.frame, x.frame) }

  function Inserted(entries: seq<Entry>, e: Entry): seq<Entry>
  {
    LinkedLists.InsertedBefore(entries, e, OutrankedBy(e))
  }

  function Enqueue(s: State, e: Entry): State { s.(entries := Inserted(s.entries, e)) }

  /** Which allocations the pool would grant, in order. */
  datatype Grants = Grants(first: bool, second: bool, third: bool)

  function NewEntry(s: State, frame: CanFrame, deadline: nat, qos: Qos, flags: nat): Entry
  {
    Entry(frame, deadline, qos, flags, s.pushes)
  }

  /** Without memory the entry takes the place of one of lowest quality of service, unless all are above it. */
  function Arbitrate(s: State, e: Entry, grant: bool): State
  {
    var counted := Reject(s);
    if s.entries == [] || QosHigherThan(s.entries[Lowest(s.entries)], e) then counted
    else
      var room := Release(counted, Lowest(s.entries));
      if Allocates(room, grant) then Enqueue(Allocate(room, grant), e)
      else Allocate(room, grant).(lost := room.lost + 1)
  }

  function PushRest(s: State, e: Entry, now: nat, grants: Grants): State
  {
    if Allocates(s, grants.first) then Enqueue(Allocate(s, grants.first), e)
    else
      var purged := Purge(Allocate(s, grants.first), 0, now);
      if Allocates(purged, grants.second) then Enqueue(Allocate(purged, grants.second), e)
      else Arbitrate(Allocate(purged, grants.second), e, grants.third)
  }

  function AfterPush(s: State, e: Entry, now: nat, grants: Grants): State
  {
    var counted := s.(pushes := s.pushes + 1);
    if now >= e.deadline then Reject(counted) else PushRest(counted, e, now, grants)
  }

  /** Drops expired entries from the front. */
  function AfterPeek(s: State, now: nat): State
    decreases |s.entries|
  {
    if s.entries == [] || !IsExpired(s.entries[0], now) then s else AfterPeek(Release(Reject(s), 0), now)
  }

  /** The driver has taken the first entry. */
  function AfterTake(s: State): State
    requires s.entries != []
  {
    Release(s, 0).(sent := s.sent + [s.entries[0]])
  }

  // ----- What every step keeps -----

  lemma RejectKeeps(s: State, offered: nat)
    requires InvWith(s, offered) && offered > 0
    ensures InvWith(Reject(s), offered - 1)
  {
    hide IsOrdered;
  }

  lemma AllocateKeeps(s: State, grant: bool, offered: nat)
    requires InvWith(s, offered)
    ensures Allocates(s, grant) || InvWith(Allocate(s, grant), offered)
  {
    hide IsOrdered;
  }

  lemma WithoutKeeps(entries: seq<Entry>, k: nat)
    requires k < |entries|
    ensures IsOrdered(entries) ==> IsOrdered(Without(entries, k))
    ensures forall e | e in Without(entries, k) :: e in entries
  {
    hide GoesBefore;
    forall i | 0 <= i < |entries| - 1
      ensures Without(entries, k)[i] == entries[if i < k then i else i + 1]
    {
    }
  }

  lemma DropKeeps(s: State, k: nat, offered: nat)
    requires InvWith(s, offered) && k < |s.entries|
    ensures InvWith(Release(Reject(s), k), offered)
  {
    hide IsOrdered;
    WithoutKeeps(s.entries, k);
  }

  lemma {:induction false} PurgeKeeps(s: State, k: nat, now: nat, offered: nat)
    requires InvWith(s, offered) && k <= |s.entries|
    ensures InvWith(Purge(s, k, now), offered)
    decreases |s.entries| - k
  {
    hide InvWith;
    if k < |s.entries| {
      if IsExpired(s.entries[k], now) {
        DropKeeps(s, k, offered);
        PurgeKeeps(Release(Reject(s), k), k, now, offered);
      } else {
        PurgeKeeps(s, k + 1, now, offered);
      }
    }
  }

  lemma {:induction false} InsertedKeepsOrder(entries: seq<Entry>, e: Entry)
    requires IsOrdered(entries) && AreOlder(entries, e.serial)
    ensures IsOrdered(Inserted(entries, e)) && |Inserted(entries, e)| == |entries| + 1
    ensures forall x :: x in Inserted(entries, e) <==> x in entries || x == e
  {
    hide PriorityHigherThan, ArbitrationField;
    if entries != [] {
      PriorityIsArbitration(e.frame, entries[0].frame);
      if !PriorityHigherThan(e.frame, entries[0].frame) {
        var rest := entries[1..];
        assert forall x | x in rest :: GoesBefore(entries[0], x);
        InsertedKeepsOrder(rest, e);
        assert forall x | x in Inserted(rest, e) :: GoesBefore(entries[0], x);
      } else {
        assert forall i | 0 <= i < |entries| :: GoesBefore(e, entries[i]);
      }
    }
  }

  lemma EnqueueKeeps(s: State, e: Entry, grant: bool)
    requires InvWith(s, 1) && e.serial == s.pushes - 1 && Allocates(s, grant)
    ensures Inv(Enqueue(Allocate(s, grant), e))
  {
    hide IsOrdered, ArbitrationField;
    InsertedKeepsOrder(s.entries, e);
  }

  /** Only a pool that fails under quota loses a frame uncounted. */
  lemma LossKeeps(s: State, grant: bool)
    requires InvWith(s, 1) && s.used < s.quota && !grant
    ensures Inv(Allocate(s, grant).(lost := s.lost + 1))
  {
    hide IsOrdered, ArbitrationField;
  }

  lemma ArbitrateKeeps(s: State, e: Entry, grant: bool)
    requires InvWith(s, 1) && e.serial == s.pushes - 1
    ensures Inv(Arbitrate(s, e, grant))
  {
    if s.entries == [] || QosHigherThan(s.entries[Lowest(s.entries)], e) {
      RejectKeeps(s, 1);
    } else {
      var room := Release(Reject(s), Lowest(s.entries));
      DropKeeps(s, Lowest(s.entries), 1);
      hide IsOrdered, IsFifo, AreOlder, Lowest, Inserted;
      if Allocates(room, grant) {
        EnqueueKeeps(room, e, grant);
      } else {
        LossKeeps(room, grant);
      }
    }
  }

  lemma PushRestKeeps(s: State, e: Entry, now: nat, grants: Grants)
    requires InvWith(s, 1) && e.serial == s.pushes - 1
    ensures Inv(PushRest(s, e, now, grants))
  {
    hide InvWith, Allocate, Allocates, Enqueue, Arbitrate;
    if Allocates(s, grants.first) {
      EnqueueKeeps(s, e, grants.first);
    } else {
      AllocateKeeps(s, grants.first, 1);
      PurgeLeaves(Allocate(s, grants.first), 0, now);
      PurgeKeeps(Allocate(s, grants.first), 0, now, 1);
      var purged := Purge(Allocate(s, grants.first), 0, now);
      AllocateLeavesPushes(s, grants.first);
      AllocateLeavesPushes(purged, grants.second);
      if Allocates(purged, grants.second) {
        EnqueueKeeps(purged, e, grants.second);
      } else {
        AllocateKeeps(purged, grants.second, 1);
        ArbitrateKeeps(Allocate(purged, grants.second), e, grants.third);
      }
    }
  }

  lemma AllocateLeavesPushes(s: State, grant: bool)
    ensures Allocate(s, grant).pushes == s.pushes
  {
  }

  lemma {:induction false} PurgeLeaves(s: State, k: nat, now: nat)
    requires k <= |s.entries|
    ensures
      var t := Purge(s, k, now);
      t.pushes == s.pushes && t.leaked == s.leaked && t.quota == s.quota && t.sent == s.sent
    decreases |s.entries| - k
  {
    if k < |s.entries| {
      if IsExpired(s.entries[k], now) {
        PurgeLeaves(Release(Reject(s), k), k, now);
      } else {
        PurgeLeaves(s, k + 1, now);
      }
    }
  }

  /** Offering a frame keeps order, quota and balance, whatever the pool does. */
  lemma PushKeeps(s: State, e: Entry, now: nat, grants: Grants)
    requires Inv(s) && e.serial == s.pushes
    ensures Inv(AfterPush(s, e, now, grants))
  {
    hide IsOrdered, PushRest;
    var counted := s.(pushes := s.pushes + 1);
    assert InvWith(counted, 1);
    if now >= e.deadline {
      RejectKeeps(counted, 1);
    } else {
      PushRestKeeps(counted, e, now, grants);
    }
  }

  lemma {:induction false} PeekKeeps(s: State, now: nat)
    requires Inv(s)
    ensures Inv(AfterPeek(s, now))
    decreases |s.entries|
  {
    hide InvWith;
    if s.entries != [] && IsExpired(s.entries[0], now) {
      DropKeeps(s, 0, 0);
      PeekKeeps(Release(Reject(s), 0), now);
    }
  }

  lemma TakeKeeps(s: State)
    requires Inv(s) && s.entries != []
    ensures Inv(AfterTake(s))
  {
    hide ArbitrationField;
    WithoutKeeps(s.entries, 0);
    assert forall y | y in Without(s.entries, 0) :: GoesBefore(s.entries[0], y);
  }

  // ----- Eviction -----

  lemma QosIsTransitive(a: Entry, b: Entry, c: Entry)
    ensures !QosHigherThan(a, b) && !QosHigherThan(b, c) ==> !QosHigherThan(a, c)
    ensures QosHigherThan(a, b) && !QosHigherThan(c, b) ==> QosHigherThan(a, c)
    ensures !(QosHigherThan(a, b) && QosHigherThan(b, a))
  {
    hide PriorityHigherThan, ArbitrationField;
    PriorityIsArbitration(a.frame, b.frame);
    PriorityIsArbitration(b.frame, a.frame);
    PriorityIsArbitration(b.frame, c.frame);
    PriorityIsArbitration(a.frame, c.frame);
    PriorityIsArbitration(c.frame, b.frame);
  }

  /** A persistent frame is above a volatile one; between frames of one kind, arbitration on the bus decides. */
  predicate Outranks(a: Entry, b: Entry)
  {
    || (a.qos == Persistent && b.qos == Volatile)
    || (a.qos == b.qos && ArbitrationField(a.frame) < ArbitrationField(b.frame))
  }

  lemma QosIsRank(a: Entry, b: Entry)
    ensures QosHigherThan(a, b) <==> Outranks(a, b)
  {
    hide PriorityHigherThan, ArbitrationField;
    PriorityIsArbitration(a.frame, b.frame);
  }

  /** The search finds the first of the entries that outrank no other. */
  lemma LowestIsMinimal(entries: seq<Entry>)
    requires entries != []
    ensures forall k | 0 <= k < |entries| :: !Outranks(entries[Lowest(entries)], entries[k])
    ensures forall k | 0 <= k < Lowest(entries) :: Outranks(entries[k], entries[Lowest(entries)])
  {
    hide Outranks, QosHigherThan;
    LowestByComparison(entries);
    forall k | 0 <= k < |entries|
      ensures !Outranks(entries[Lowest(entries)], entries[k])
      ensures k < Lowest(entries) ==> Outranks(entries[k], entries[Lowest(entries)])
    {
      QosIsRank(entries[Lowest(entries)], entries[k]);
      QosIsRank(entries[k], entries[Lowest(entries)]);
    }
  }

  lemma {:induction false} LowestByComparison(entries: seq<Entry>)
    requires entries != []
    ensures forall k | 0 <= k < |entries| :: !QosHigherThan(entries[Lowest(entries)], entries[k])
    ensures forall k | 0 <= k < Lowest(entries) :: QosHigherThan(entries[k], entries[Lowest(entries)])
  {
    hide QosHigherThan;
    var last := |entries| - 1;
    QosIsTransitive(entries[last], entries[last], entries[last]);
    if |entries| > 1 {
      var front := entries[..last];
      LowestByComparison(front);
      var l := Lowest(front);
      forall k | 0 <= k < last
        ensures QosHigherThan(entries[l], entries[last]) ==>
          QosHigherThan(entries[k], entries[last]) && !QosHigherThan(entries[last], entries[k])
      {
        assert entries[k] == front[k];
        QosIsTransitive(entries[last], entries[l], entries[k]);
        QosIsTransitive(entries[k], entries[l], entries[last]);
        QosIsTransitive(entries[l], entries[k], entries[last]);
        QosIsTransitive(entries[l], entries[last], entries[k]);
      }
    }
  }

  lemma {:induction false} PurgeRemovesExpired(s: State, k: nat, now: nat)
    requires k <= |s.entries|
    ensures forall x :: x in Purge(s, k, now).entries <==>
      x in s.entries[..k] || (x in s.entries[k..] && now <= x.deadline)
    decreases |s.entries| - k
  {
    if k < |s.entries| {
      assert s.entries[k..] == [s.entries[k]] + s.entries[k + 1..];
      if IsExpired(s.entries[k], now) {
        var t := Release(Reject(s), k);
        PurgeRemovesExpired(t, k, now);
        assert t.entries[..k] == s.entries[..k] && t.entries[k..] == s.entries[k + 1..];
      } else {
        PurgeRemovesExpired(s, k + 1, now);
        assert s.entries[..k + 1] == s.entries[..k] + [s.entries[k]];
      }
    }
  }

  lemma ArbitrateIsFair(s: State, e: Entry, grant: bool)
    requires InvWith(s, 1) && e.serial == s.pushes - 1
    ensures
      var t := Arbitrate(s, e, grant);
      && (forall x | x in t.entries :: x in s.entries || x == e)
      && (forall x, y | x in s.entries && x !in t.entries && y in s.entries ::
           !QosHigherThan(x, e) && !QosHigherThan(x, y) && (y !in t.entries ==> x == y))
      && (e !in t.entries ==> (forall y | y in t.entries :: QosHigherThan(y, e)) || !grant)
  {
    hide IsOrdered, IsFifo, QosHigherThan, Lowest;
    if s.entries != [] {
      var l := Lowest(s.entries);
      LowestByComparison(s.entries);
      forall k | 0 <= k < |s.entries|
        ensures QosHigherThan(s.entries[l], e) ==> QosHigherThan(s.entries[k], e)
      {
        QosIsTransitive(s.entries[l], e, s.entries[k]);
        QosIsTransitive(s.entries[l], s.entries[k], e);
      }
      WithoutKeeps(s.entries, l);
      InsertedKeepsOrder(Without(s.entries, l), e);
    }
  }

  /**
    * What a push may cost. At most one entry with time left is given up: one that outranks neither the new entry nor
    * any other with time left. If the pool grants every request within the quota, the new entry is refused only if it
    * is late or everything that stays outranks it.
    */
  ghost predicate IsFair(before: seq<Entry>, e: Entry, now: nat, grants: Grants, after: seq<Entry>)
  {
    && (forall x | x in after :: x in before || x == e)
    && (forall x, y | x in before && x !in after && y in before && now <= x.deadline && now <= y.deadline ::
         !Outranks(x, e) && !Outranks(x, y) && (y !in after ==> x == y))
    && (e !in after && now < e.deadline && grants == Grants(true, true, true) ==>
         forall y | y in after :: Outranks(y, e))
  }

  /** The same in terms of the comparison that the queue uses. */
  ghost predicate IsFairAsCompared(before: seq<Entry>, e: Entry, now: nat, grants: Grants, after: seq<Entry>)
  {
    && (forall x | x in after :: x in before || x == e)
    && (forall x, y | x in before && x !in after && y in before && now <= x.deadline && now <= y.deadline ::
         !QosHigherThan(x, e) && !QosHigherThan(x, y) && (y !in after ==> x == y))
    && (e !in after && now < e.deadline && grants == Grants(true, true, true) ==>
         forall y | y in after :: QosHigherThan(y, e))
  }

  lemma FairAsCompared(before: seq<Entry>, e: Entry, now: nat, grants: Grants, after: seq<Entry>)
    requires IsFairAsCompared(before, e, now, grants, after)
    ensures IsFair(before, e, now, grants, after)
  {
    hide Outranks, QosHigherThan;
    forall x, y
      ensures QosHigherThan(x, y) <==> Outranks(x, y)
    {
      QosIsRank(x, y);
    }
  }

  lemma PurgedPushIsFair(s: State, e: Entry, now: nat, grants: Grants)
    requires InvWith(s, 1) && e.serial == s.pushes - 1 && !Allocates(s, grants.first)
    ensures IsFairAsCompared(s.entries, e, now, grants, PushRest(s, e, now, grants).entries)
  {
    hide IsOrdered, IsFifo, QosHigherThan, Arbitrate, Purge, Balanced;
    var first := Allocate(s, grants.first);
    AllocateKeeps(s, grants.first, 1);
    var purged := Purge(first, 0, now);
    PurgeKeeps(first, 0, now, 1);
    PurgeRemovesExpired(first, 0, now);
    PurgeLeaves(first, 0, now);
    assert forall x :: x in purged.entries <==> x in s.entries && now <= x.deadline;
    if Allocates(purged, grants.second) {
      InsertedKeepsOrder(purged.entries, e);
    } else {
      AllocateKeeps(purged, grants.second, 1);
      ArbitrateIsFair(Allocate(purged, grants.second), e, grants.third);
    }
  }

  lemma PushIsFair(s: State, e: Entry, now: nat, grants: Grants)
    requires Inv(s) && e.serial == s.pushes
    ensures IsFair(s.entries, e, now, grants, AfterPush(s, e, now, grants).entries)
    ensures now < e.deadline && Allocates(s, grants.first) ==>
      AfterPush(s, e, now, grants).entries == Inserted(s.entries, e)
  {
    hide InvWith, Arbitrate, Purge, IsFair, IsFairAsCompared, Inserted;
    var counted := s.(pushes := s.pushes + 1);
    OfferIsCounted(s);
    if now >= e.deadline || Allocates(counted, grants.first) {
      LateOrQueuedIsFair(s, e, now, grants, AfterPush(s, e, now, grants));
    } else {
      hide PushRest;
      PurgedPushIsFair(counted, e, now, grants);
    }
    FairAsCompared(s.entries, e, now, grants, AfterPush(s, e, now, grants).entries);
  }

  lemma OfferIsCounted(s: State)
    requires Inv(s)
    ensures InvWith(s.(pushes := s.pushes + 1), 1)
  {
    hide IsOrdered;
  }

  lemma LateOrQueuedIsFair(s: State, e: Entry, now: nat, grants: Grants, t: State)
    requires Inv(s) && e.serial == s.pushes
    requires if now >= e.deadline then t.entries == s.entries else t.entries == Inserted(s.entries, e)
    ensures IsFairAsCompared(s.entries, e, now, grants, t.entries)
  {
    hide IsOrdered, IsFifo, Balanced, QosHigherThan, IsExpired;
    InsertedKeepsOrder(s.entries, e);
  }

  // ----- Runs -----

  datatype Event =
    | Pushed(frame: CanFrame, deadline: nat, qos: Qos, flags: nat, now: nat, grants: Grants)
    | Peeked(now: nat)
    | Taken

  function Step(s: State, event: Event): State
  {
    match event
    case Pushed(frame, deadline, qos, flags, now, grants) =>
      AfterPush(s, NewEntry(s, frame, deadline, qos, flags), now, grants)
    case Peeked(now) => AfterPeek(s, now)
    case Taken => if s.entries == [] then s else AfterTake(s)
  }

  function Run(s: State, events: seq<Event>): State
    decreases |events|
  {
    if events == [] then s else Run(Step(s, events[0]), events[1..])
  }

  lemma StepKeeps(s: State, event: Event)
    requires Inv(s)
    ensures Inv(Step(s, event))
  {
    hide InvWith, AfterPush, AfterPeek, AfterTake;
    match event
    case Pushed(frame, deadline, qos, flags, now, grants) =>
      PushKeeps(s, NewEntry(s, frame, deadline, qos, flags), now, grants);
    case Peeked(now) => PeekKeeps(s, now);
    case Taken => if s.entries != [] { TakeKeeps(s); }
  }

  /** Order, quota and balance hold after any run, and frames of equal priority leave in the order they came. */
  lemma {:induction false} RunKeeps(s: State, events: seq<Event>)
    requires Inv(s)
    ensures Inv(Run(s, events))
    decreases |events|
  {
    hide Inv, Step;
    if events != [] {
      StepKeeps(s, events[0]);
      RunKeeps(Step(s, events[0]), events[1..]);
    }
  }

  lemma ArbitrateLeaves(s: State, e: Entry, grant: bool)
    ensures Arbitrate(s, e, grant).pushes == s.pushes && Arbitrate(s, e, grant).sent == s.sent
  {
    hide Lowest, Inserted, QosHigherThan;
  }

  /** An offer is counted once and sends nothing. */
  lemma PushLeaves(s: State, e: Entry, now: nat, grants: Grants)
    ensures AfterPush(s, e, now, grants).pushes == s.pushes + 1 && AfterPush(s, e, now, grants).sent == s.sent
  {
    hide Purge, Arbitrate, Inserted;
    var first := Allocate(s.(pushes := s.pushes + 1), grants.first);
    PurgeLeaves(first, 0, now);
    ArbitrateLeaves(Allocate(Purge(first, 0, now), grants.second), e, grants.third);
  }

  ghost predicate IsGranted(event: Event)
  {
    event.Pushed? ==> event.grants == Grants(true, true, true)
  }

  lemma {:induction false} PeekLeaves(s: State, now: nat)
    ensures
      var t := AfterPeek(s, now);
      && t.leaked == s.leaked && t.quota == s.quota && t.pushes == s.pushes && t.sent == s.sent
      && forall e | e in t.entries :: e in s.entries
    decreases |s.entries|
  {
    if s.entries != [] && IsExpired(s.entries[0], now) {
      WithoutKeeps(s.entries, 0);
      PeekLeaves(Release(Reject(s), 0), now);
    }
  }

  /** What has leaked from the quota never comes back; nothing leaks while the pool grants requests. */
  lemma StepLeaks(s: State, event: Event)
    ensures Step(s, event).quota == s.quota && Step(s, event).leaked >= s.leaked
    ensures IsGranted(event) ==> Step(s, event).leaked == s.leaked
  {
    hide Purge, AfterPeek, Lowest, Inserted, QosHigherThan, IsExpired;
    match event
    case Pushed(frame, deadline, qos, flags, now, grants) =>
      PurgeLeaves(Allocate(s.(pushes := s.pushes + 1), grants.first), 0, now);
    case Peeked(now) => PeekLeaves(s, now);
    case Taken =>
  }

  lemma {:induction false} RunLeaks(s: State, events: seq<Event>)
    ensures Run(s, events).quota == s.quota && Run(s, events).leaked >= s.leaked
    ensures (forall event | event in events :: IsGranted(event)) ==> Run(s, events).leaked == s.leaked
    decreases |events|
  {
    hide Step;
    if events != [] {
      StepLeaks(s, events[0]);
      RunLeaks(Step(s, events[0]), events[1..]);
    }
  }

  // ----- What a failing pool costs -----

  predicate HasExpired(entries: seq<Entry>, now: nat)
  {
    exists i | 0 <= i < |entries| :: IsExpired(entries[i], now)
  }

  /**
    * A push asks the pool, and is refused: at the first attempt if the quota has room; at the second if only expired
    * entries make room; at the third if only an eviction does.
    */
  predicate IsRefused(s: State, e: Entry, now: nat, grants: Grants)
  {
    && now < e.deadline
    && if s.used < s.quota then !grants.first
       else if HasExpired(s.entries, now) then !grants.second
       else s.entries != [] && !QosHigherThan(s.entries[Lowest(s.entries)], e) && !grants.third
  }

  /** Every expired entry that is purged gives its block back. */
  lemma {:induction false} PurgeFrees(s: State, k: nat, now: nat)
    requires k <= |s.entries| <= s.used
    ensures
      var t := Purge(s, k, now);
      && t.used - |t.entries| == s.used - |s.entries| && |t.entries| <= |s.entries|
      && (t.entries != s.entries ==> t.used < s.used)
      && (t.entries == s.entries <==> !HasExpired(s.entries[k..], now))
    decreases |s.entries| - k
  {
    if k < |s.entries| {
      var rest := s.entries[k + 1..];
      assert s.entries[k..] == [s.entries[k]] + rest;
      if IsExpired(s.entries[k], now) {
        assert s.entries[k..][0] == s.entries[k];
        PurgeFrees(Release(Reject(s), k), k, now);
      } else {
        PurgeFrees(s, k + 1, now);
        if HasExpired(s.entries[k..], now) {
          var i :| 0 <= i < |s.entries| - k && IsExpired(s.entries[k..][i], now);
          assert IsExpired(rest[i - 1], now);
        }
        if HasExpired(rest, now) {
          var i :| 0 <= i < |rest| && IsExpired(rest[i], now);
          assert IsExpired(s.entries[k..][i + 1], now);
        }
      }
    }
  }

  lemma ArbitrateLeaks(s: State, e: Entry, grant: bool)
    requires Balanced(s, 1)
    ensures
      var evicts := s.entries != [] && !QosHigherThan(s.entries[Lowest(s.entries)], e);
      Arbitrate(s, e, grant).leaked == s.leaked + if evicts && !grant then 1 else 0
  {
    hide Lowest, QosHigherThan, Inserted;
  }

  lemma SecondAttemptLeaks(s: State, e: Entry, grants: Grants)
    requires InvWith(s, 1) && !Allocates(s, grants.second)
    ensures
      var t := Arbitrate(Allocate(s, grants.second), e, grants.third);
      var evicts := s.entries != [] && !QosHigherThan(s.entries[Lowest(s.entries)], e);
      && t.leaked >= s.leaked
      && (t.leaked > s.leaked <==> s.used < s.quota || (evicts && !grants.third))
  {
    hide IsOrdered, IsFifo, AreOlder, Arbitrate, Lowest, QosHigherThan;
    AllocateKeeps(s, grants.second, 1);
    ArbitrateLeaks(Allocate(s, grants.second), e, grants.third);
  }

  lemma PushRestLeaks(s: State, e: Entry, now: nat, grants: Grants)
    requires InvWith(s, 1) && now < e.deadline
    ensures PushRest(s, e, now, grants).leaked >= s.leaked
    ensures PushRest(s, e, now, grants).leaked > s.leaked <==> IsRefused(s, e, now, grants)
  {
    hide Inserted, Lowest, QosHigherThan, IsOrdered, IsFifo, AreOlder, Arbitrate, Purge, HasExpired;
    if !Allocates(s, grants.first) {
      var first := Allocate(s, grants.first);
      AllocateKeeps(s, grants.first, 1);
      PurgeLeaves(first, 0, now);
      PurgeFrees(first, 0, now);
      PurgeKeeps(first, 0, now, 1);
      assert first.entries[0..] == s.entries;
      var purged := Purge(first, 0, now);
      if !Allocates(purged, grants.second) {
        SecondAttemptLeaks(purged, e, grants);
      }
    }
  }

  /** A push makes the quota leak if and only if the pool refuses it, which the state and the grants tell beforehand. */
  lemma PushLeaksIff(s: State, e: Entry, now: nat, grants: Grants)
    requires Inv(s) && e.serial == s.pushes
    ensures AfterPush(s, e, now, grants).leaked >= s.leaked
    ensures AfterPush(s, e, now, grants).leaked > s.leaked <==> IsRefused(s, e, now, grants)
  {
    hide InvWith, PushRest, HasExpired, QosHigherThan, Lowest;
    OfferIsCounted(s);
    if now < e.deadline {
      PushRestLeaks(s.(pushes := s.pushes + 1), e, now, grants);
    }
  }

  /** A queue whose whole quota has leaked never holds a frame again. */
  lemma ExhaustedQueueStaysEmpty(s: State, events: seq<Event>)
    requires Inv(s) && s.leaked == s.quota
    ensures
      var t := Run(s, events);
      t.entries == [] && t.used == t.quota == s.quota
  {
    hide Run;
    RunKeeps(s, events);
    RunLeaks(s, events);
  }

  const REFUSED := Grants(false, false, false)

  /** The same push, refused by the pool, again and again. */
  function RefusedPushes(frame: CanFrame, deadline: nat, qos: Qos, flags: nat, now: nat, n: nat): seq<Event>
  {
    seq(n, _ => Pushed(frame, deadline, qos, flags, now, REFUSED))
  }

  lemma RefusedPushLeaks(s: State, e: Entry, now: nat)
    requires Inv(s) && s.entries == [] && e.serial == s.pushes && now < e.deadline
    ensures
      var t := AfterPush(s, e, now, REFUSED);
      && Inv(t) && t.entries == [] && t.quota == s.quota
      && (s.leaked < s.quota ==> t.leaked > s.leaked) && t.leaked >= s.leaked
  {
    hide IsOrdered, IsFifo, AreOlder;
    PushKeeps(s, e, now, REFUSED);
    PushLeaksIff(s, e, now, REFUSED);
  }

  /** A pool that refuses as often as the quota is large takes the queue out of service for good. */
  lemma {:induction false} RefusalsExhaustQueue(s: State, frame: CanFrame, deadline: nat, qos: Qos, flags: nat,
                                                now: nat, n: nat)
    requires Inv(s) && s.entries == [] && now < deadline && s.leaked + n >= s.quota
    ensures
      var t := Run(s, RefusedPushes(frame, deadline, qos, flags, now, n));
      Inv(t) && t.leaked == t.quota == s.quota
    decreases n
  {
    hide AfterPush, IsOrdered, IsFifo, AreOlder;
    if n > 0 {
      var events := RefusedPushes(frame, deadline, qos, flags, now, n);
      var e := NewEntry(s, frame, deadline, qos, flags);
      RefusedPushLeaks(s, e, now);
      assert events[1..] == RefusedPushes(frame, deadline, qos, flags, now, n - 1);
      RefusalsExhaustQueue(AfterPush(s, e, now, REFUSED), frame, deadline, qos, flags, now, n - 1);
    }
  }

  /**
    * Conservation: as long as the pool grants every request within the quota, each frame ever offered is waiting, was
    * handed to the driver or was counted as rejected, until the counter saturates.
    */
  lemma FramesAreConserved(quota: nat, events: seq<Event>)
    requires forall event | event in events :: IsGranted(event)
    ensures
      var t := Run(Empty(quota), events);
      && |t.entries| == t.used <= quota
      && (t.rejected < MAX_REJECTED ==> t.pushes == |t.entries| + |t.sent| + t.rejected)
  {
    hide Run;
    assert Inv(Empty(quota));
    RunKeeps(Empty(quota), events);
    RunLeaks(Empty(quota), events);
  }

  // ----- Waiting ahead of a frame -----

  /** The first entry is of the same or a higher priority. */
  predicate LeadsWith(s: State, frame: CanFrame) { s.entries != [] && !PriorityHigherThan(frame, s.entries[0].frame) }

  predicate IsAhead(e: Entry, frame: CanFrame, now: nat)
  {
    now <= e.deadline && ArbitrationField(e.frame) <= ArbitrationField(frame)
  }

  /** An entry with time left is of the same or a higher priority. */
  ghost predicate WaitsAhead(s: State, frame: CanFrame, now: nat)
  {
    exists e | e in s.entries :: IsAhead(e, frame, now)
  }

  /** Peeking drops the entries up to the first that has time left, and counts them. */
  lemma {:induction false} PeekDropsExpired(s: State, now: nat, p: nat)
    requires p <= |s.entries| && (forall i | 0 <= i < p :: s.entries[i].deadline < now)
    requires p < |s.entries| ==> now <= s.entries[p].deadline
    ensures
      var t := AfterPeek(s, now);
      t.entries == s.entries[p..] && t.dropped == s.dropped + p && (p <= s.used ==> t.used == s.used - p)
    decreases p
  {
    if p > 0 {
      assert Without(s.entries, 0) == s.entries[1..];
      PeekDropsExpired(Release(Reject(s), 0), now, p - 1);
    }
  }

  lemma LeadsByArbitration(s: State, frame: CanFrame)
    ensures LeadsWith(s, frame) <==> s.entries != [] && ArbitrationField(s.entries[0].frame) <= ArbitrationField(frame)
  {
    hide PriorityHigherThan, ArbitrationField;
    if s.entries != [] {
      PriorityIsArbitration(frame, s.entries[0].frame);
    }
  }

  /** There is an entry to offer exactly if one has time left. */
  lemma PendingIff(s: State, now: nat)
    ensures AfterPeek(s, now).entries != [] <==> exists e | e in s.entries :: now <= e.deadline
  {
    var p := 0;
    while p < |s.entries| && s.entries[p].deadline < now
      invariant p <= |s.entries| && forall i | 0 <= i < p :: s.entries[i].deadline < now
    {
      p := p + 1;
    }
    PeekDropsExpired(s, now, p);
    if p < |s.entries| {
      assert s.entries[p] in s.entries;
    }
  }

  /** If any entry waits ahead of a frame, the first one does, so far as priority goes, and there is one to offer. */
  lemma WaitingIsOffered(s: State, frame: CanFrame, now: nat)
    requires Inv(s) && WaitsAhead(s, frame, now)
    ensures LeadsWith(s, frame) && AfterPeek(s, now).entries != []
  {
    hide PriorityHigherThan, ArbitrationField, AfterPeek;
    var e :| e in s.entries && IsAhead(e, frame, now);
    PendingIff(s, now);
    assert s.entries[0] == e || GoesBefore(s.entries[0], e);
    LeadsByArbitration(s, frame);
  }

  // ----- The queue object -----

  class CanTxQueue {
    var queue: seq<Entry>
    var usedBlocks: nat
    const maxBlocks: nat
    var rejectedFrames: nat
    var pushes: nat
    ghost var dropped: nat
    ghost var lost: nat
    ghost var leaked: nat
    ghost var sent: seq<Entry>

    ghost function Abs(): State
      reads this
    {
      State(queue, usedBlocks, maxBlocks, rejectedFrames, pushes, dropped, lost, leaked, sent)
    }

    constructor (quota: nat)
      ensures Abs() == Empty(quota) && Inv(Abs())
    {
      queue, usedBlocks, maxBlocks, rejectedFrames, pushes := [], 0, quota, 0, 0;
      dropped, lost, leaked, sent := 0, 0, 0, [];
    }

    /** `granted` is the answer of the pool, if it is asked. */
    method AllocateBlock(granted: bool) returns (ok: bool)
      modifies this
      ensures ok == Allocates(old(Abs()), granted) && Abs() == Allocate(old(Abs()), granted)
    {
      if usedBlocks < maxBlocks {
        usedBlocks := usedBlocks + 1;
        if !granted {
          leaked := leaked + 1;
        }
        return granted;
      }
      return false;
    }

    method RegisterRejectedFrame()
      modifies this
      ensures Abs() == Reject(old(Abs()))
    {
      if rejectedFrames < MAX_REJECTED {
        rejectedFrames := rejectedFrames + 1;
      }
      dropped := dropped + 1;
    }

    method Remove(k: nat)
      requires k < |queue|
      modifies this
      ensures Abs() == Release(old(Abs()), k)
    {
      queue := queue[..k] + queue[k + 1..];
      if usedBlocks > 0 {
        usedBlocks := usedBlocks - 1;
      }
    }

    method PurgeExpired(now: nat)
      modifies this
      ensures Abs() == Purge(old(Abs()), 0, now)
    {
      var k := 0;
      while k < |queue|
        invariant k <= |queue|
        invariant Purge(Abs(), k, now) == Purge(old(Abs()), 0, now)
        decreases |queue| - k
      {
        if IsExpired(queue[k], now) {
          RegisterRejectedFrame();
          Remove(k);
        } else {
          k := k + 1;
        }
      }
    }

    method FindLowest() returns (lowest: nat)
      requires queue != []
      ensures lowest == Lowest(queue)
    {
      hide QosHigherThan;
      lowest := 0;
      var p := 1;
      while p < |queue|
        invariant 1 <= p <= |queue|
        invariant lowest == Lowest(queue[..p])
      {
        assert queue[..p + 1][..p] == queue[..p];
        if QosHigherThan(queue[lowest], queue[p]) {
          lowest := p;
        }
        p := p + 1;
      }
      assert queue[..p] == queue;
    }

    method InsertBefore(e: Entry)
      modifies this
      ensures Abs() == Enqueue(old(Abs()), e)
    {
      queue := LinkedLists.InsertBeforeFirst(queue, e, OutrankedBy(e));
    }

    method ArbitrateQos(e: Entry, granted: bool)
      modifies this
      ensures Abs() == Arbitrate(old(Abs()), e, granted)
    {
      hide QosHigherThan, Lowest, Inserted;
      RegisterRejectedFrame();
      if queue == [] {
        return;
      }
      var lowest := FindLowest();
      if QosHigherThan(queue[lowest], e) {
        return;
      }
      Remove(lowest);
      var ok := AllocateBlock(granted);
      if ok {
        InsertBefore(e);
      } else {
        lost := lost + 1;
      }
    }

    method Push(frame: CanFrame, deadline: nat, qos: Qos, flags: nat, now: nat, grants: Grants)
      requires Inv(Abs())
      modifies this
      ensures Abs() == AfterPush(old(Abs()), NewEntry(old(Abs()), frame, deadline, qos, flags), now, grants)
      ensures Inv(Abs())
    {
      hide Inv, Purge, Inserted, Arbitrate;
      PushKeeps(Abs(), NewEntry(Abs(), frame, deadline, qos, flags), now, grants);
      var e := Entry(frame, deadline, qos, flags, pushes);
      pushes := pushes + 1;
      if now >= deadline {
        RegisterRejectedFrame();
        return;
      }
      var ok := AllocateBlock(grants.first);
      if !ok {
        PurgeExpired(now);
        ok := AllocateBlock(grants.second);
      }
      if ok {
        InsertBefore(e);
      } else {
        ArbitrateQos(e, grants.third);
      }
    }

    method Peek(now: nat) returns (e: Option<Entry>)
      requires Inv(Abs())
      modifies this
      ensures Abs() == AfterPeek(old(Abs()), now) && Inv(Abs())
      ensures e == if queue == [] then None else Some(queue[0])
      ensures e.Some? ==> !IsExpired(e.value, now)
    {
      hide Inv;
      PeekKeeps(Abs(), now);
      while queue != [] && IsExpired(queue[0], now)
        invariant AfterPeek(Abs(), now) == AfterPeek(old(Abs()), now)
        decreases |queue|
      {
        RegisterRejectedFrame();
        Remove(0);
      }
      e := if queue == [] then None else Some(queue[0]);
    }

    /** The driver has accepted the entry that was peeked. */
    method TakeFirst()
      requires Inv(Abs()) && queue != []
      modifies this
      ensures Abs() == AfterTake(old(Abs())) && Inv(Abs())
    {
      hide Inv;
      TakeKeeps(Abs());
      sent := sent + [queue[0]];
      Remove(0);
    }

    predicate TopPriorityHigherOrEqual(frame: CanFrame)
      reads this
      ensures TopPriorityHigherOrEqual(frame) <==> LeadsWith(Abs(), frame)
    {
      queue != [] && !PriorityHigherThan(frame, queue[0].frame)
    }
  }
}
