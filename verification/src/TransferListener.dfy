/** Dispatching of frames to one receiver per source and transfer type, and delivery of completed transfers. */
module Listener {
  import opened Transfer
  import opened Options
  import opened Arithmetic
  import opened Frames
  import opened TransferCrc
  import opened TransferBuffer
  import opened Receiver

  datatype Config = Config(crcBase: bv16, maxSize: nat, allowAnonymous: bool)

  datatype Key = Key(node: NodeId, transferType: TransferType)

  /** A transfer handed to the application. */
  datatype Delivery = Delivery(src: NodeId, transferType: TransferType, tid: TransferId, priority: Octet, iface: Octet,
                               monotonic: nat, utc: nat, payload: seq<Byte>)

  /** `canTrack` says whether memory can be found for a new receiver. */
  datatype Event = FrameEvent(rx: RxFrame, memory: Memory, canTrack: bool) | CleanupEvent(ts: nat)

  datatype State = State(receivers: map<Key, ReceiverState>, buffers: map<Key, seq<Byte>>)

  const EMPTY := State(map[], map[])

  function KeyOf(f: RxFrame): Key { Key(f.frame.src, f.frame.transferType) }

  function BufferAt(s: State, k: Key): Buffer { if k in s.buffers then Some(s.buffers[k]) else None }

  /** Every buffer belongs to a receiver, and every receiver is consistent with its buffer. */
  ghost predicate WellFormed(s: State, maxSize: nat)
  {
    && s.buffers.Keys <= s.receivers.Keys
    && forall k | k in s.receivers :: Consistent(s.receivers[k], BufferAt(s, k), maxSize)
  }

  // ----- What concerns one key -----

  /** The part of the state that belongs to one key. */
  datatype Local = Local(receiver: Option<ReceiverState>, buffer: Buffer)

  function At(s: State, k: Key): Local
  {
    Local(if k in s.receivers then Some(s.receivers[k]) else None, BufferAt(s, k))
  }

  ghost predicate IsLocal(l: Local, maxSize: nat)
  {
    if l.receiver.Some? then Consistent(l.receiver.value, l.buffer, maxSize) else l.buffer.None?
  }

  function SingleFrameDelivery(f: RxFrame): Delivery
  {
    Delivery(f.frame.src, f.frame.transferType, f.frame.tid, f.frame.priority, f.iface, f.monotonic, f.utc,
             f.frame.payload)
  }

  /** A multi-frame transfer takes its times from the first frame and everything else from the last one. */
  function MultiFrameDelivery(f: RxFrame, s: ReceiverState, payload: seq<Byte>): Delivery
  {
    Delivery(f.frame.src, f.frame.transferType, f.frame.tid, f.frame.priority, f.iface, s.prevTransferTs,
             s.firstFrameTs, payload)
  }

  /** The consequences of a receiver's reaction. */
  function Handled(cfg: Config, f: RxFrame, o: Outcome): (Local, seq<Delivery>)
  {
    match o.result
    case NotComplete => (Local(Some(o.state.(errors := 0)), o.buffer), [])
    case SingleFrame => (Local(Some(o.state), o.buffer), [SingleFrameDelivery(f)])
    case Complete =>
      if o.buffer.Some? && Crc(cfg.crcBase, o.buffer.value) == o.state.crc then
        (Local(Some(o.state), None), [MultiFrameDelivery(f, o.state, o.buffer.value)])
      else
        (Local(Some(o.state), o.buffer), [])
  }

  function LocalFrame(cfg: Config, l: Local, f: RxFrame, memory: Memory, canTrack: bool): (Local, seq<Delivery>)
    requires IsLocal(l, cfg.maxSize)
  {
    if l.receiver.None? && (!f.frame.startOfTransfer || !canTrack) then (l, [])
    else
      var s := if l.receiver.Some? then l.receiver.value else FRESH_STATE;
      Handled(cfg, f, Reaction(s, f, l.buffer, cfg.maxSize, memory))
  }

  function LocalCleanup(l: Local, ts: nat): Local
  {
    if l.receiver.Some? && IsTimedOut(l.receiver.value, ts) then Local(None, None) else l
  }

  lemma LocalFrameIsLocal(cfg: Config, l: Local, f: RxFrame, memory: Memory, canTrack: bool)
    requires IsLocal(l, cfg.maxSize)
    ensures IsLocal(LocalFrame(cfg, l, f, memory, canTrack).0, cfg.maxSize)
  {
    hide Reaction, Crc;
    var s := if l.receiver.Some? then l.receiver.value else FRESH_STATE;
    ReactionIsConsistent(s, f, l.buffer, cfg.maxSize, memory);
    CompleteLeavesNothingPending(s, f, l.buffer, cfg.maxSize, memory);
  }

  lemma CompleteLeavesNothingPending(s: ReceiverState, f: RxFrame, buffer: Buffer, maxSize: nat, memory: Memory)
    requires Consistent(s, buffer, maxSize)
    ensures
      var o := Reaction(s, f, buffer, maxSize, memory);
      o.result == Complete ==> o.state.writePos == 0 && o.buffer.Some?
  {
    hide NeedsRestart, ValidationErrors, AppendedBuffer, AveragedInterval, CrcField, IsStored;
  }

  // ----- The listener -----

  predicate IsAnonymous(f: Frame)
  {
    IsBroadcast(f.src) && f.startOfTransfer && f.endOfTransfer && IsBroadcast(f.dst)
  }

  function Replaced(s: State, k: Key, l: Local): State
  {
    State(if l.receiver.Some? then s.receivers[k := l.receiver.value] else s.receivers - {k},
          if l.buffer.Some? then s.buffers[k := l.buffer.value] else s.buffers - {k})
  }

  function CleanedUp(s: State, ts: nat): State
  {
    State(map k | k in s.receivers && !IsTimedOut(s.receivers[k], ts) :: s.receivers[k],
          map k | k in s.buffers && !(k in s.receivers && IsTimedOut(s.receivers[k], ts)) :: s.buffers[k])
  }

  function Step(cfg: Config, s: State, e: Event): (State, seq<Delivery>)
    requires WellFormed(s, cfg.maxSize)
  {
    match e
    case CleanupEvent(ts) => (CleanedUp(s, ts), [])
    case FrameEvent(rx, memory, canTrack) =>
      if IsUnicast(rx.frame.src) then
        AtIsLocal(s, KeyOf(rx), cfg.maxSize);
        var (l, deliveries) := LocalFrame(cfg, At(s, KeyOf(rx)), rx, memory, canTrack);
        (Replaced(s, KeyOf(rx), l), deliveries)
      else if IsAnonymous(rx.frame) && cfg.allowAnonymous then (s, [SingleFrameDelivery(rx)])
      else (s, [])
  }

  lemma AtIsLocal(s: State, k: Key, maxSize: nat)
    requires WellFormed(s, maxSize)
    ensures IsLocal(At(s, k), maxSize)
  {
  }

  lemma ReplacedAt(s: State, k: Key, l: Local, k': Key)
    ensures At(Replaced(s, k, l), k') == if k' == k then l else At(s, k')
  {
  }

  lemma CleanedUpAt(s: State, ts: nat, k: Key)
    requires s.buffers.Keys <= s.receivers.Keys
    ensures At(CleanedUp(s, ts), k) == LocalCleanup(At(s, k), ts)
  {
  }

  lemma LocalsMakeWellFormed(s: State, maxSize: nat)
    requires forall k :: IsLocal(At(s, k), maxSize)
    ensures WellFormed(s, maxSize)
  {
    forall k | k in s.buffers
      ensures k in s.receivers
    {
      assert IsLocal(At(s, k), maxSize);
    }
    forall k | k in s.receivers
      ensures Consistent(s.receivers[k], BufferAt(s, k), maxSize)
    {
      assert IsLocal(At(s, k), maxSize);
    }
  }

  /** Every event leaves each buffer with its receiver, whatever memory runs short. */
  lemma StepIsWellFormed(cfg: Config, s: State, e: Event)
    requires WellFormed(s, cfg.maxSize)
    ensures WellFormed(Step(cfg, s, e).0, cfg.maxSize)
  {
    hide LocalFrame, Consistent, Replaced, CleanedUp;
    var s' := Step(cfg, s, e).0;
    forall k
      ensures IsLocal(At(s', k), cfg.maxSize)
    {
      AtIsLocal(s, k, cfg.maxSize);
      match e
      case CleanupEvent(ts) =>
        CleanedUpAt(s, ts, k);
      case FrameEvent(rx, memory, canTrack) =>
        if IsUnicast(rx.frame.src) {
          AtIsLocal(s, KeyOf(rx), cfg.maxSize);
          LocalFrameIsLocal(cfg, At(s, KeyOf(rx)), rx, memory, canTrack);
          ReplacedAt(s, KeyOf(rx), LocalFrame(cfg, At(s, KeyOf(rx)), rx, memory, canTrack).0, k);
        }
    }
    LocalsMakeWellFormed(s', cfg.maxSize);
  }

  /** The assertion at the end of a cleanup: without receivers there are no buffers. */
  lemma CleanupLeavesNoOrphans(cfg: Config, s: State, ts: nat)
    requires WellFormed(s, cfg.maxSize)
    ensures
      var s' := Step(cfg, s, CleanupEvent(ts)).0;
      s'.receivers == map[] ==> s'.buffers == map[]
  {
    StepIsWellFormed(cfg, s, CleanupEvent(ts));
  }

  /**
    * Frames without a source are delivered at once, without a receiver, if they are whole messages to everybody and the
    * listener allows it, and ignored otherwise.
    */
  lemma AnonymousIsDeliveredIff(cfg: Config, s: State, rx: RxFrame, memory: Memory, canTrack: bool)
    requires WellFormed(s, cfg.maxSize) && !IsUnicast(rx.frame.src)
    ensures
      var f := rx.frame;
      var wanted := f.src == 0 && f.dst == 0 && f.startOfTransfer && f.endOfTransfer && cfg.allowAnonymous;
      Step(cfg, s, FrameEvent(rx, memory, canTrack)) ==
        (s, if wanted then
              [Delivery(0, f.transferType, f.tid, f.priority, rx.iface, rx.monotonic, rx.utc, f.payload)]
            else [])
  {
  }

  /** A sender becomes known with the start of a transfer, if there is memory to track it; until then it is ignored. */
  lemma SenderBecomesKnownIff(cfg: Config, s: State, rx: RxFrame, memory: Memory, canTrack: bool)
    requires WellFormed(s, cfg.maxSize) && IsUnicast(rx.frame.src) && KeyOf(rx) !in s.receivers
    ensures
      var r := Step(cfg, s, FrameEvent(rx, memory, canTrack));
      && (KeyOf(rx) in r.0.receivers <==> rx.frame.startOfTransfer && canTrack)
      && (KeyOf(rx) !in r.0.receivers ==> r == (s, []))
  {
    hide Reaction, Crc;
    assert s.receivers - {KeyOf(rx)} == s.receivers && s.buffers - {KeyOf(rx)} == s.buffers;
  }

  /** The errors that a frame has caused are passed on unless it completes a transfer. */
  lemma ErrorsAreYielded(cfg: Config, s: State, rx: RxFrame, memory: Memory, canTrack: bool)
    requires WellFormed(s, cfg.maxSize) && IsUnicast(rx.frame.src) && KeyOf(rx) in s.receivers
    ensures
      var k := KeyOf(rx);
      var o := Reaction(s.receivers[k], rx, BufferAt(s, k), cfg.maxSize, memory);
      var s' := Step(cfg, s, FrameEvent(rx, memory, canTrack)).0;
      k in s'.receivers && s'.receivers[k].errors == if o.result == NotComplete then 0 else o.state.errors
  {
    hide Reaction, Crc;
  }

  // ----- Runs -----

  function Run(cfg: Config, s: State, events: seq<Event>): (r: (State, seq<Delivery>))
    requires WellFormed(s, cfg.maxSize)
    ensures WellFormed(r.0, cfg.maxSize)
    decreases |events|
  {
    if events == [] then (s, [])
    else
      StepIsWellFormed(cfg, s, events[0]);
      var (s1, first) := Step(cfg, s, events[0]);
      var (s2, rest) := Run(cfg, s1, events[1..]);
      (s2, first + rest)
  }

  /** The event concerns a node: a frame that it sent, or a cleanup. */
  predicate Concerns(e: Event, node: NodeId) { e.FrameEvent? ==> e.rx.frame.src == node }

  function EventsOf(events: seq<Event>, node: NodeId): seq<Event>
  {
    if events == [] then []
    else (if Concerns(events[0], node) then [events[0]] else []) + EventsOf(events[1..], node)
  }

  function DeliveriesFrom(deliveries: seq<Delivery>, node: NodeId): seq<Delivery>
  {
    if deliveries == [] then []
    else (if deliveries[0].src == node then [deliveries[0]] else []) + DeliveriesFrom(deliveries[1..], node)
  }

  lemma {:induction false} DeliveriesFromConcatenation(a: seq<Delivery>, b: seq<Delivery>, node: NodeId)
    ensures DeliveriesFrom(a + b, node) == DeliveriesFrom(a, node) + DeliveriesFrom(b, node)
  {
    if a == [] {
      assert a + b == b;
    } else {
      var all := a + b;
      assert all[0] == a[0] && all[1..] == a[1..] + b;
      DeliveriesFromConcatenation(a[1..], b, node);
      var first := if a[0].src == node then [a[0]] else [];
      assert DeliveriesFrom(all, node) == first + DeliveriesFrom(all[1..], node);
      assert DeliveriesFrom(a, node) == first + DeliveriesFrom(a[1..], node);
    }
  }

  /** Two listeners hold the same for all keys of a node. */
  ghost predicate Agree(s: State, t: State, node: NodeId)
  {
    forall tt :: At(s, Key(node, tt)) == At(t, Key(node, tt))
  }

  /** An event delivers at most one transfer, and that comes from the sender of the frame. */
  lemma StepDelivers(cfg: Config, s: State, e: Event)
    requires WellFormed(s, cfg.maxSize)
    ensures
      var d := Step(cfg, s, e).1;
      |d| <= 1 && (d != [] ==> e.FrameEvent? && d[0].src == e.rx.frame.src)
  {
    hide Reaction, Crc;
  }

  lemma ForeignStep(cfg: Config, s: State, t: State, e: Event, node: NodeId)
    requires WellFormed(s, cfg.maxSize) && Agree(s, t, node) && !Concerns(e, node)
    ensures Agree(Step(cfg, s, e).0, t, node) && DeliveriesFrom(Step(cfg, s, e).1, node) == []
  {
    hide LocalFrame, Replaced;
    StepDelivers(cfg, s, e);
    if IsUnicast(e.rx.frame.src) {
      AtIsLocal(s, KeyOf(e.rx), cfg.maxSize);
      forall tt
        ensures At(Step(cfg, s, e).0, Key(node, tt)) == At(s, Key(node, tt))
      {
        ReplacedAt(s, KeyOf(e.rx), LocalFrame(cfg, At(s, KeyOf(e.rx)), e.rx, e.memory, e.canTrack).0, Key(node, tt));
      }
    }
  }

  lemma OwnStep(cfg: Config, s: State, t: State, e: Event, node: NodeId)
    requires WellFormed(s, cfg.maxSize) && WellFormed(t, cfg.maxSize) && Agree(s, t, node) && Concerns(e, node)
    ensures Agree(Step(cfg, s, e).0, Step(cfg, t, e).0, node) && Step(cfg, s, e).1 == Step(cfg, t, e).1
    ensures DeliveriesFrom(Step(cfg, s, e).1, node) == Step(cfg, s, e).1
  {
    hide LocalFrame, Replaced, CleanedUp;
    StepDelivers(cfg, s, e);
    match e
    case CleanupEvent(ts) =>
      forall tt
        ensures At(CleanedUp(s, ts), Key(node, tt)) == At(CleanedUp(t, ts), Key(node, tt))
      {
        CleanedUpAt(s, ts, Key(node, tt));
        CleanedUpAt(t, ts, Key(node, tt));
      }
    case FrameEvent(rx, memory, canTrack) =>
      var k := KeyOf(rx);
      AtIsLocal(s, k, cfg.maxSize);
      AtIsLocal(t, k, cfg.maxSize);
      assert At(s, k) == At(t, k) by {
        assert k == Key(node, rx.frame.transferType);
      }
      var l := LocalFrame(cfg, At(s, k), rx, memory, canTrack).0;
      forall tt
        ensures At(Replaced(s, k, l), Key(node, tt)) == At(Replaced(t, k, l), Key(node, tt))
      {
        ReplacedAt(s, k, l, Key(node, tt));
        ReplacedAt(t, k, l, Key(node, tt));
      }
  }

  /**
    * Sources do not interfere: whatever frames are interleaved, and whatever memory each of them is granted, what a
    * node gets delivered is what its own frames deliver when nobody else sends.
    */
  lemma {:induction false} SourcesDoNotInterfere(cfg: Config, s: State, t: State, events: seq<Event>, node: NodeId)
    requires WellFormed(s, cfg.maxSize) && WellFormed(t, cfg.maxSize) && Agree(s, t, node)
    ensures DeliveriesFrom(Run(cfg, s, events).1, node) == Run(cfg, t, EventsOf(events, node)).1
    ensures Agree(Run(cfg, s, events).0, Run(cfg, t, EventsOf(events, node)).0, node)
    decreases |events|
  {
    hide Step, Agree, DeliveriesFrom;
    if events == [] {
      NoDeliveries(node);
    } else {
      var e, rest := events[0], events[1..];
      StepIsWellFormed(cfg, s, e);
      var s1, d := Step(cfg, s, e).0, Step(cfg, s, e).1;
      DeliveriesFromConcatenation(d, Run(cfg, s1, rest).1, node);
      if Concerns(e, node) {
        StepIsWellFormed(cfg, t, e);
        OwnStep(cfg, s, t, e, node);
        SourcesDoNotInterfere(cfg, s1, Step(cfg, t, e).0, rest, node);
        assert EventsOf(events, node)[1..] == EventsOf(rest, node);
      } else {
        ForeignStep(cfg, s, t, e, node);
        SourcesDoNotInterfere(cfg, s1, t, rest, node);
        assert EventsOf(events, node) == EventsOf(rest, node);
      }
    }
  }

  lemma NoDeliveries(node: NodeId)
    ensures DeliveriesFrom([], node) == []
  {
  }

  // ----- The listener object -----

  class TransferListener {
    const cfg: Config
    var receivers: map<Key, ReceiverState>
    var buffers: map<Key, seq<Byte>>
    var delivered: seq<Delivery>

    constructor (cfg: Config)
      ensures this.cfg == cfg && Current() == EMPTY && delivered == [] && WellFormed(Current(), cfg.maxSize)
    {
      this.cfg := cfg;
      receivers, buffers, delivered := map[], map[], [];
    }

    ghost function Current(): State
      reads this
    {
      State(receivers, buffers)
    }

    /** Reads the buffer in pieces of sixteen bytes, until there is nothing more to read. */
    method CheckPayloadCrc(compareWith: bv16, contents: seq<Byte>) returns (ok: bool)
      ensures ok <==> Crc(cfg.crcBase, contents) == compareWith
    {
      var crc := new TransferCRC();
      crc.value := cfg.crcBase;
      var offset := 0;
      var chunk := FlatRead(contents, offset, 16);
      while chunk != []
        invariant offset <= |contents| && chunk == FlatRead(contents, offset, 16)
        invariant crc.value == Crc(cfg.crcBase, contents[..offset])
        decreases |contents| - offset
      {
        CrcOfConcatenation(cfg.crcBase, contents[..offset], chunk);
        assert contents[..offset] + chunk == contents[..offset + |chunk|];
        crc.Add(chunk);
        offset := offset + |chunk|;
        chunk := FlatRead(contents, offset, 16);
      }
      assert contents[..offset] == contents;
      return crc.value == compareWith;
    }

    /** Feeds a frame to its receiver and delivers what this completes; a delivered buffer is released. */
    method HandleReception(key: Key, f: RxFrame, memory: Memory)
      requires key in receivers && key == KeyOf(f)
      requires Consistent(receivers[key], BufferAt(Current(), key), cfg.maxSize)
      modifies this
      ensures
        var o := Reaction(old(receivers)[key], f, old(BufferAt(Current(), key)), cfg.maxSize, memory);
        var (l, deliveries) := Handled(cfg, f, o);
        Current() == Replaced(old(Current()), key, l) && delivered == old(delivered) + deliveries
    {
      hide Reaction, Crc;
      var o := Reaction(receivers[key], f, if key in buffers then Some(buffers[key]) else None, cfg.maxSize, memory);
      receivers := receivers[key := o.state];
      buffers := if o.buffer.Some? then buffers[key := o.buffer.value] else buffers - {key};
      match o.result {
        case NotComplete =>
          receivers := receivers[key := o.state.(errors := 0)];
        case SingleFrame =>
          delivered := delivered + [SingleFrameDelivery(f)];
        case Complete =>
          if key in buffers {
            var ok := CheckPayloadCrc(o.state.crc, buffers[key]);
            if ok {
              delivered := delivered + [MultiFrameDelivery(f, o.state, buffers[key])];
              buffers := buffers - {key};
            }
          }
      }
    }

    method HandleFrame(f: RxFrame, memory: Memory, canTrack: bool)
      requires WellFormed(Current(), cfg.maxSize)
      modifies this
      ensures
        var (s, deliveries) := Step(cfg, old(Current()), FrameEvent(f, memory, canTrack));
        Current() == s && delivered == old(delivered) + deliveries
      ensures WellFormed(Current(), cfg.maxSize)
    {
      hide Handled, Reaction;
      StepIsWellFormed(cfg, Current(), FrameEvent(f, memory, canTrack));
      if IsUnicast(f.frame.src) {
        var key := KeyOf(f);
        AtIsLocal(Current(), key, cfg.maxSize);
        if key !in receivers {
          if !f.frame.startOfTransfer || !canTrack {
            assert Replaced(Current(), key, At(Current(), key)) == Current();
            return;
          }
          receivers := receivers[key := FRESH_STATE];
        }
        HandleReception(key, f, memory);
        ghost var known := if key in old(receivers) then old(receivers)[key] else FRESH_STATE;
        ghost var o := Reaction(known, f, old(BufferAt(Current(), key)), cfg.maxSize, memory);
        ReplacedTwice(old(Current()), key, FRESH_STATE, Handled(cfg, f, o).0);
      } else if && IsBroadcast(f.frame.src) && IsBroadcast(f.frame.dst)
                && f.frame.startOfTransfer && f.frame.endOfTransfer {
        if cfg.allowAnonymous {
          delivered := delivered + [SingleFrameDelivery(f)];
        }
      }
    }

    /** Drops receivers that have timed out, together with their buffers. */
    method Cleanup(ts: nat)
      requires WellFormed(Current(), cfg.maxSize)
      modifies this
      ensures Current() == CleanedUp(old(Current()), ts) && delivered == old(delivered)
      ensures WellFormed(Current(), cfg.maxSize)
      ensures receivers == map[] ==> buffers == map[]
    {
      hide CleanedUp, Pending;
      CleanupLeavesNoOrphans(cfg, Current(), ts);
      StepIsWellFormed(cfg, Current(), CleanupEvent(ts));
      PendingAtStart(Current(), ts);
      var keys := receivers.Keys;
      while keys != {}
        invariant delivered == old(delivered) && keys <= receivers.Keys
        invariant Current() == Pending(old(Current()), ts, keys)
        decreases |keys|
      {
        var k :| k in keys;
        PendingStep(old(Current()), ts, keys, k);
        if IsTimedOut(receivers[k], ts) {
          buffers := buffers - {k};
          receivers := receivers - {k};
        }
        keys := keys - {k};
      }
      PendingAtEnd(old(Current()), ts);
    }
  }

  /** A cleanup that has yet to look at some keys. */
  function Pending(s: State, ts: nat, keys: set<Key>): State
  {
    State(map k | k in s.receivers && (k in keys || !IsTimedOut(s.receivers[k], ts)) :: s.receivers[k],
          map k | k in s.buffers && (k in keys || !(k in s.receivers && IsTimedOut(s.receivers[k], ts))) ::
            s.buffers[k])
  }

  lemma PendingAtStart(s: State, ts: nat)
    requires s.buffers.Keys <= s.receivers.Keys
    ensures Pending(s, ts, s.receivers.Keys) == s
  {
    assert Pending(s, ts, s.receivers.Keys).receivers == s.receivers;
    assert Pending(s, ts, s.receivers.Keys).buffers == s.buffers;
  }

  lemma PendingAtEnd(s: State, ts: nat)
    ensures Pending(s, ts, {}) == CleanedUp(s, ts)
  {
    assert Pending(s, ts, {}).receivers == CleanedUp(s, ts).receivers;
    assert Pending(s, ts, {}).buffers == CleanedUp(s, ts).buffers;
  }

  lemma PendingStep(s: State, ts: nat, keys: set<Key>, k: Key)
    requires k in keys && keys <= Pending(s, ts, keys).receivers.Keys
    ensures
      var p, q := Pending(s, ts, keys), Pending(s, ts, keys - {k});
      && k in p.receivers && keys - {k} <= q.receivers.Keys
      && q == if IsTimedOut(p.receivers[k], ts) then State(p.receivers - {k}, p.buffers - {k}) else p
  {
    var p, q := Pending(s, ts, keys), Pending(s, ts, keys - {k});
    if IsTimedOut(p.receivers[k], ts) {
      assert q.receivers == p.receivers - {k};
      assert q.buffers == p.buffers - {k};
    } else {
      assert q.receivers == p.receivers;
      assert q.buffers == p.buffers;
    }
  }

  lemma ReplacedTwice(s: State, k: Key, r: ReceiverState, l: Local)
    ensures Replaced(s.(receivers := s.receivers[k := r]), k, l) == Replaced(s, k, l)
  {
  }
}
