/** From a sender to the application behind a listener. */
module EndToEnd {
  import opened Transfer
  import opened Options
  import opened Arithmetic
  import opened Frames
  import opened TransferCrc
  import opened TransferBuffer
  import opened Receiver
  import opened Sender
  import opened Wire
  import opened Listener
  import Trace = ReceiverTrace

  /** The carried frames as events of a listener that finds memory to track a new sender. */
  function Arriving(carried: seq<Trace.Event>): (events: seq<Event>)
    ensures |events| == |carried|
  {
    seq(|carried|, k requires 0 <= k < |carried| => FrameEvent(carried[k].rx, carried[k].memory, true))
  }

  function HeaderKey(h: Header): Key { Key(h.src, h.transferType) }

  // ----- What concerns one key -----

  predicate IsFrameOf(e: Event, k: Key) { e.FrameEvent? && KeyOf(e.rx) == k }

  /** The frames of one key, in order. */
  function FramesOf(events: seq<Event>, k: Key): seq<Event>
  {
    if events == [] then []
    else (if IsFrameOf(events[0], k) then [events[0]] else []) + FramesOf(events[1..], k)
  }

  function IfOf(d: Delivery, k: Key): seq<Delivery> { if Key(d.src, d.transferType) == k then [d] else [] }

  /** The deliveries of one key, in order. */
  function DeliveriesOf(deliveries: seq<Delivery>, k: Key): seq<Delivery>
  {
    if deliveries == [] then [] else IfOf(deliveries[0], k) + DeliveriesOf(deliveries[1..], k)
  }

  /** What a listener that knows nobody yet delivers of one key. */
  function DeliveredOf(cfg: Config, events: seq<Event>, k: Key): seq<Delivery>
  {
    DeliveriesOf(Run(cfg, EMPTY, events).1, k)
  }

  /** No cleanup runs later than `limit`. */
  predicate CleanupsWithin(events: seq<Event>, limit: nat)
  {
    forall e | e in events && e.CleanupEvent? :: e.ts <= limit
  }

  lemma {:induction false} DeliveriesOfConcatenation(a: seq<Delivery>, b: seq<Delivery>, k: Key)
    ensures DeliveriesOf(a + b, k) == DeliveriesOf(a, k) + DeliveriesOf(b, k)
  {
    if a == [] {
      assert a + b == b;
    } else {
      var all := a + b;
      assert all[0] == a[0] && all[1..] == a[1..] + b;
      DeliveriesOfConcatenation(a[1..], b, k);
      hide IfOf;
      assert DeliveriesOf(all, k) == IfOf(a[0], k) + (DeliveriesOf(a[1..], k) + DeliveriesOf(b, k));
    }
  }

  /** A frame of another key, or a cleanup before the key's receiver times out, leaves the key alone. */
  lemma OtherEventLeavesKey(cfg: Config, s: State, e: Event, k: Key)
    requires WellFormed(s, cfg.maxSize) && IsUnicast(k.node) && !IsFrameOf(e, k)
    requires e.CleanupEvent? ==> LocalCleanup(At(s, k), e.ts) == At(s, k)
    ensures At(Step(cfg, s, e).0, k) == At(s, k) && DeliveriesOf(Step(cfg, s, e).1, k) == []
  {
    hide Reaction, Replaced, CleanedUp, Crc;
    match e
    case CleanupEvent(ts) => CleanedUpAt(s, ts, k);
    case FrameEvent(rx, memory, canTrack) =>
      if IsUnicast(rx.frame.src) {
        AtIsLocal(s, KeyOf(rx), cfg.maxSize);
        var (l, d) := LocalFrame(cfg, At(s, KeyOf(rx)), rx, memory, canTrack);
        ReplacedAt(s, KeyOf(rx), l, k);
        assert d == [] || (|d| == 1 && Key(d[0].src, d[0].transferType) == KeyOf(rx));
      }
  }

  /** While no frame of the key arrives and its receiver does not time out, nothing happens to it. */
  lemma {:induction false} QuietRunLeavesKey(cfg: Config, s: State, events: seq<Event>, k: Key)
    requires WellFormed(s, cfg.maxSize) && IsUnicast(k.node) && FramesOf(events, k) == []
    requires At(s, k).receiver.Some? ==>
      CleanupsWithin(events, At(s, k).receiver.value.thisTransferTs + TID_TIMEOUT_USEC)
    ensures At(Run(cfg, s, events).0, k) == At(s, k) && DeliveriesOf(Run(cfg, s, events).1, k) == []
    decreases |events|
  {
    hide Step, KeyOf;
    AtIsLocal(s, k, cfg.maxSize);
    if events != [] {
      StepIsWellFormed(cfg, s, events[0]);
      OtherEventLeavesKey(cfg, s, events[0], k);
      var s1 := Step(cfg, s, events[0]).0;
      QuietRunLeavesKey(cfg, s1, events[1..], k);
      DeliveriesOfConcatenation(Step(cfg, s, events[0]).1, Run(cfg, s1, events[1..]).1, k);
    }
  }

  // ----- One transfer -----

  /** What the listener knows about the sender, as the outcome of an earlier reaction. */
  function Known(s: State, k: Key): Outcome
  {
    Outcome(if k in s.receivers then s.receivers[k] else FRESH_STATE, BufferAt(s, k), NotComplete)
  }

  /** The delivery of `contents` as the payload of a transfer. */
  function DeliveryOf(h: Header, first: RxFrame, contents: seq<Byte>): Delivery
  {
    Delivery(h.src, h.transferType, h.tid, h.priority, first.iface, first.monotonic, first.utc, contents)
  }

  /** What is delivered of a transfer with the announced checksum over a leftover of an earlier, corrupted one. */
  function Expected(cfg: Config, h: Header, first: RxFrame, payload: seq<Byte>, crc: bv16, old': seq<Byte>)
    : seq<Delivery>
  {
    var contents := Overlay(payload, old');
    if Crc(cfg.crcBase, contents) == crc then [DeliveryOf(h, first, contents)] else []
  }

  /** The state of one key after a frame of this sender, by the reaction of its receiver. */
  lemma StepReacts(cfg: Config, s: State, e: Trace.Event, k: Key)
    requires WellFormed(s, cfg.maxSize) && IsUnicast(e.rx.frame.src) && KeyOf(e.rx) == k
    requires k in s.receivers || e.rx.frame.startOfTransfer
    ensures
      var known := Known(s, k);
      && Consistent(known.state, known.buffer, cfg.maxSize)
      && var o := Reaction(known.state, e.rx, known.buffer, cfg.maxSize, e.memory);
      var (s', d) := Step(cfg, s, FrameEvent(e.rx, e.memory, true));
      d == Handled(cfg, e.rx, o).1 && At(s', k) == Handled(cfg, e.rx, o).0
  {
    hide Reaction, Replaced, Crc;
    AtIsLocal(s, k, cfg.maxSize);
    ReplacedAt(s, k, LocalFrame(cfg, At(s, k), e.rx, e.memory, true).0, k);
  }

  /** The receiver has completed the transfer and waits for the next one. */
  ghost predicate HasRested(l: Local, h: Header, first: RxFrame, intervalMsec: nat, buffer: Buffer)
  {
    && l.receiver.Some? && l.buffer == buffer
    && var r := l.receiver.value;
    && r.tid == Increment(h.tid) && !r.nextToggle && r.writePos == 0 && r.iface == first.iface
    && r.thisTransferTs == r.prevTransferTs == first.monotonic && r.intervalMsec == intervalMsec
  }

  /** In the middle of a transfer, with `k` frames taken, while the times are still those from before it. */
  ghost predicate IsUnderWay(s: State, carried: seq<Trace.Event>, h: Header, payload: seq<Byte>, crc: bv16, k: nat,
                             old': seq<Byte>, prev: nat, intervalMsec: nat)
    requires carried != []
  {
    var known := Known(s, HeaderKey(h));
    && HeaderKey(h) in s.receivers && Midway(known, h, payload, crc, carried[0].rx, k, old')
    && known.state.prevTransferTs == prev && known.state.intervalMsec == intervalMsec
  }

  /** The outcome of a transfer for its key: the deliveries and the state it leaves behind. */
  ghost predicate HasArrived(cfg: Config, r: (State, seq<Delivery>), h: Header, first: RxFrame, payload: seq<Byte>,
                             crc: bv16, old': seq<Byte>, intervalMsec: nat)
  {
    var expected := Expected(cfg, h, first, payload, crc, old');
    && DeliveriesOf(r.1, HeaderKey(h)) == expected
    && HasRested(At(r.0, HeaderKey(h)), h, first, intervalMsec,
                 if expected == [] then Some(Overlay(payload, old')) else None)
  }

  lemma SingleDeliveryOf(d: Delivery)
    ensures DeliveriesOf([d], Key(d.src, d.transferType)) == [d]
  {
    assert [d][1..] == [];
  }

  lemma FinishedHasArrived(cfg: Config, r: (State, seq<Delivery>), h: Header, first: RxFrame, f: RxFrame,
                           payload: seq<Byte>, crc: bv16, old': seq<Byte>, o: Outcome)
    requires Finished(o, h, payload, crc, first, old') && f.iface == first.iface
    requires f.frame.src == h.src && f.frame.transferType == h.transferType && f.frame.tid == h.tid
    requires f.frame.priority == h.priority
    requires At(r.0, HeaderKey(h)) == Handled(cfg, f, o).0 && r.1 == Handled(cfg, f, o).1
    ensures HasArrived(cfg, r, h, first, payload, crc, old', o.state.intervalMsec)
  {
    hide Crc, Overlay;
    SingleDeliveryOf(DeliveryOf(h, first, Overlay(payload, old')));
  }

  lemma NextFrameStep(cfg: Config, s: State, carried: seq<Trace.Event>, h: Header, payload: seq<Byte>, base: bv16,
                      k: nat, old': seq<Byte>, prev: nat, intervalMsec: nat)
    requires IsValidHeader(h) && PAYLOAD_CAPACITY < |payload| <= cfg.maxSize && WellFormed(s, cfg.maxSize)
    requires Carry(carried, h, payload, base) && 1 <= k < |carried|
    requires IsUnderWay(s, carried, h, payload, Crc(base, payload), k, old', prev, intervalMsec)
    ensures
      var (s', d) := Step(cfg, s, Arriving(carried)[k]);
      if k < |carried| - 1 then
        d == [] && IsUnderWay(s', carried, h, payload, Crc(base, payload), k + 1, old', prev, intervalMsec)
      else
        HasArrived(cfg, (s', d), h, carried[0].rx, payload, Crc(base, payload), old',
                   IntervalAfter(prev, intervalMsec, carried[0].rx.monotonic))
  {
    hide Reaction, FrameAt, Crc, Compile, Parse, Step, Overlay, Sent, IntervalAfter;
    var crc, key, e := Crc(base, payload), HeaderKey(h), carried[k];
    var known := Known(s, key);
    EventCarriesFrame(carried, h, payload, base, k);
    HeaderOfFrame(h, payload, crc, k);
    StepReacts(cfg, s, e, key);
    NextFrameIsTaken(known, h, payload, crc, carried[0].rx, k, old', e, cfg.maxSize);
    ReactionTimes(known.state, e.rx, known.buffer, cfg.maxSize, e.memory);
    if k == |carried| - 1 {
      hide HasArrived, Handled, Finished;
      var o := Reaction(known.state, e.rx, known.buffer, cfg.maxSize, e.memory);
      FinishedHasArrived(cfg, Step(cfg, s, Arriving(carried)[k]), h, carried[0].rx, e.rx, payload, crc, old', o);
    }
  }

  /** The run of a step and the rest, as far as one key is concerned. */
  lemma RunUnfolds(cfg: Config, s: State, events: seq<Event>, k: Key)
    requires WellFormed(s, cfg.maxSize) && events != []
    ensures WellFormed(Step(cfg, s, events[0]).0, cfg.maxSize)
    ensures
      var (s1, d) := Step(cfg, s, events[0]);
      var rest := Run(cfg, s1, events[1..]);
      && Run(cfg, s, events).0 == rest.0
      && DeliveriesOf(Run(cfg, s, events).1, k) == DeliveriesOf(d, k) + DeliveriesOf(rest.1, k)
  {
    hide Step;
    StepIsWellFormed(cfg, s, events[0]);
    var s1 := Step(cfg, s, events[0]).0;
    DeliveriesOfConcatenation(Step(cfg, s, events[0]).1, Run(cfg, s1, events[1..]).1, k);
  }

  lemma {:induction false} RemainingFramesArrive(cfg: Config, s: State, events: seq<Event>, carried: seq<Trace.Event>,
                                                 h: Header, payload: seq<Byte>, base: bv16, k: nat, old': seq<Byte>,
                                                 prev: nat, intervalMsec: nat)
    requires IsValidHeader(h) && PAYLOAD_CAPACITY < |payload| <= cfg.maxSize && WellFormed(s, cfg.maxSize)
    requires Carry(carried, h, payload, base) && 1 <= k < |carried|
    requires FramesOf(events, HeaderKey(h)) == Arriving(carried)[k..]
    requires CleanupsWithin(events, carried[0].rx.monotonic + TID_TIMEOUT_USEC)
    requires IsUnderWay(s, carried, h, payload, Crc(base, payload), k, old', prev, intervalMsec)
    ensures HasArrived(cfg, Run(cfg, s, events), h, carried[0].rx, payload, Crc(base, payload), old',
                       IntervalAfter(prev, intervalMsec, carried[0].rx.monotonic))
    decreases |events|
  {
    hide Carry, Crc, Step, Run, Overlay, IntervalAfter, Arriving, KeyOf, DeliveriesOf, Expected;
    var key := HeaderKey(h);
    RunUnfolds(cfg, s, events, key);
    var (s1, d) := Step(cfg, s, events[0]);
    var rest := events[1..];
    if IsFrameOf(events[0], key) {
      assert events[0] == Arriving(carried)[k] && FramesOf(rest, key) == Arriving(carried)[k + 1..];
      NextFrameStep(cfg, s, carried, h, payload, base, k, old', prev, intervalMsec);
      if k < |carried| - 1 {
        NoDeliveriesOf(key);
        RemainingFramesArrive(cfg, s1, rest, carried, h, payload, base, k + 1, old', prev, intervalMsec);
      } else {
        QuietRunLeavesKey(cfg, s1, rest, key);
      }
    } else {
      OtherEventLeavesKey(cfg, s, events[0], key);
      RemainingFramesArrive(cfg, s1, rest, carried, h, payload, base, k, old', prev, intervalMsec);
    }
  }

  lemma NoDeliveriesOf(k: Key)
    ensures DeliveriesOf([], k) == []
  {
  }

  /** The first frame of a transfer, if it is admitted. */
  lemma {:induction false} FirstFrameStep(cfg: Config, s: State, carried: seq<Trace.Event>, h: Header,
                                          payload: seq<Byte>, base: bv16)
    requires IsValidHeader(h) && PAYLOAD_CAPACITY < |payload| <= cfg.maxSize && WellFormed(s, cfg.maxSize)
    requires Carry(carried, h, payload, base) && carried != []
    requires Admits(Known(s, HeaderKey(h)).state, carried[0].rx)
    ensures |carried| > 1 && IsFrameOf(Arriving(carried)[0], HeaderKey(h))
    ensures
      var known := Known(s, HeaderKey(h));
      var (s', d) := Step(cfg, s, Arriving(carried)[0]);
      d == [] && IsUnderWay(s', carried, h, payload, Crc(base, payload), 1,
                            Leftover(known.state, carried[0].rx, known.buffer),
                            known.state.prevTransferTs, known.state.intervalMsec)
  {
    hide Reaction, FrameAt, Crc, Compile, Parse, Step, Overlay, Sent, Admits;
    var crc, key, e := Crc(base, payload), HeaderKey(h), carried[0];
    EventCarriesFrame(carried, h, payload, base, 0);
    HeaderOfFrame(h, payload, crc, 0);
    OnlyFirstFrameStarts(h, payload, crc, 0);
    FirstFrameIsFull(|payload|);
    var known := Known(s, key);
    StepReacts(cfg, s, e, key);
    FirstFrameIsTaken(h, payload, crc, e, known.state, known.buffer, cfg.maxSize);
    ReactionTimes(known.state, e.rx, known.buffer, cfg.maxSize, e.memory);
  }

  /**
    * A transfer arrives at a listener in any state in which its first frame is admitted, among any frames of other
    * senders and other transfer types and any cleanups before its receiver times out.
    */
  lemma {:induction false} TransferArrives(cfg: Config, s: State, events: seq<Event>, carried: seq<Trace.Event>,
                                           h: Header, payload: seq<Byte>, base: bv16)
    requires IsValidHeader(h) && PAYLOAD_CAPACITY < |payload| <= cfg.maxSize && WellFormed(s, cfg.maxSize)
    requires Carry(carried, h, payload, base) && carried != []
    requires events != [] && events[0] == Arriving(carried)[0] && FramesOf(events, HeaderKey(h)) == Arriving(carried)
    requires CleanupsWithin(events, carried[0].rx.monotonic + TID_TIMEOUT_USEC)
    requires Admits(Known(s, HeaderKey(h)).state, carried[0].rx)
    ensures
      var known := Known(s, HeaderKey(h));
      HasArrived(cfg, Run(cfg, s, events), h, carried[0].rx, payload, Crc(base, payload),
                 Leftover(known.state, carried[0].rx, known.buffer),
                 IntervalAfter(known.state.prevTransferTs, known.state.intervalMsec, carried[0].rx.monotonic))
  {
    hide Carry, Crc, Step, Run, Admits, DeliveriesOf, IntervalAfter, HasArrived, IsUnderWay, Leftover;
    var crc, key, e := Crc(base, payload), HeaderKey(h), carried[0];
    var known := Known(s, key);
    FirstFrameStep(cfg, s, carried, h, payload, base);
    RunUnfolds(cfg, s, events, key);
    NoDeliveriesOf(key);
    var s1 := Step(cfg, s, events[0]).0;
    assert FramesOf(events[1..], key) == Arriving(carried)[1..];
    var old' := Leftover(known.state, e.rx, known.buffer);
    RemainingFramesArrive(cfg, s1, events[1..], carried, h, payload, base, 1, old',
                          known.state.prevTransferTs, known.state.intervalMsec);
    SameRunForKey(cfg, Run(cfg, s, events), Run(cfg, s1, events[1..]), h, e.rx, payload, crc, old',
                  IntervalAfter(known.state.prevTransferTs, known.state.intervalMsec, e.rx.monotonic));
  }

  lemma {:induction false} NextFramesArrive(cfg: Config, s: State, events: seq<Event>, carried: seq<Trace.Event>,
                                            h: Header, payload: seq<Byte>, base: bv16, k: nat, n: nat,
                                            old': seq<Byte>, prev: nat, intervalMsec: nat)
    requires IsValidHeader(h) && PAYLOAD_CAPACITY < |payload| <= cfg.maxSize && WellFormed(s, cfg.maxSize)
    requires Carry(carried, h, payload, base) && 1 <= k <= n < |carried|
    requires FramesOf(events, HeaderKey(h)) == Arriving(carried)[k..n]
    requires CleanupsWithin(events, carried[0].rx.monotonic + TID_TIMEOUT_USEC)
    requires IsUnderWay(s, carried, h, payload, Crc(base, payload), k, old', prev, intervalMsec)
    ensures IsUnderWay(Run(cfg, s, events).0, carried, h, payload, Crc(base, payload), n, old', prev, intervalMsec)
    ensures DeliveriesOf(Run(cfg, s, events).1, HeaderKey(h)) == []
    decreases |events|
  {
    hide Carry, Crc, Step, Run, Overlay, Arriving, KeyOf, DeliveriesOf, HasArrived;
    var key := HeaderKey(h);
    if k == n {
      QuietRunLeavesKey(cfg, s, events, key);
    } else {
      RunUnfolds(cfg, s, events, key);
      var s1 := Step(cfg, s, events[0]).0;
      var rest := events[1..];
      if IsFrameOf(events[0], key) {
        assert events[0] == Arriving(carried)[k] && FramesOf(rest, key) == Arriving(carried)[k + 1..n];
        NextFrameStep(cfg, s, carried, h, payload, base, k, old', prev, intervalMsec);
        NoDeliveriesOf(key);
        NextFramesArrive(cfg, s1, rest, carried, h, payload, base, k + 1, n, old', prev, intervalMsec);
      } else {
        OtherEventLeavesKey(cfg, s, events[0], key);
        NextFramesArrive(cfg, s1, rest, carried, h, payload, base, k, n, old', prev, intervalMsec);
      }
    }
  }

  /** A transfer of which only the first `n` frames arrive is not delivered, and leaves its receiver waiting. */
  lemma {:induction false} CutOffArrives(cfg: Config, s: State, events: seq<Event>, carried: seq<Trace.Event>,
                                         h: Header, payload: seq<Byte>, base: bv16, n: nat)
    requires IsValidHeader(h) && PAYLOAD_CAPACITY < |payload| <= cfg.maxSize && WellFormed(s, cfg.maxSize)
    requires Carry(carried, h, payload, base) && 1 <= n < |carried|
    requires events != [] && events[0] == Arriving(carried)[0]
    requires FramesOf(events, HeaderKey(h)) == Arriving(carried)[..n]
    requires CleanupsWithin(events, carried[0].rx.monotonic + TID_TIMEOUT_USEC)
    requires Admits(Known(s, HeaderKey(h)).state, carried[0].rx)
    ensures
      var known := Known(s, HeaderKey(h));
      && DeliveriesOf(Run(cfg, s, events).1, HeaderKey(h)) == []
      && IsUnderWay(Run(cfg, s, events).0, carried, h, payload, Crc(base, payload), n,
                    Leftover(known.state, carried[0].rx, known.buffer),
                    known.state.prevTransferTs, known.state.intervalMsec)
  {
    hide Carry, Crc, Step, Run, Admits, DeliveriesOf, IsUnderWay, Leftover;
    var key, known := HeaderKey(h), Known(s, HeaderKey(h));
    FirstFrameStep(cfg, s, carried, h, payload, base);
    RunUnfolds(cfg, s, events, key);
    NoDeliveriesOf(key);
    assert FramesOf(events[1..], key) == Arriving(carried)[1..n];
    NextFramesArrive(cfg, Step(cfg, s, events[0]).0, events[1..], carried, h, payload, base, 1, n,
                     Leftover(known.state, carried[0].rx, known.buffer),
                     known.state.prevTransferTs, known.state.intervalMsec);
  }

  lemma SameRunForKey(cfg: Config, r: (State, seq<Delivery>), r': (State, seq<Delivery>), h: Header, first: RxFrame,
                      payload: seq<Byte>, crc: bv16, old': seq<Byte>, intervalMsec: nat)
    requires r.0 == r'.0 && DeliveriesOf(r.1, HeaderKey(h)) == DeliveriesOf(r'.1, HeaderKey(h))
    ensures HasArrived(cfg, r, h, first, payload, crc, old', intervalMsec) ==
            HasArrived(cfg, r', h, first, payload, crc, old', intervalMsec)
  {
  }

  /**
    * The three fates of an intact transfer. It is delivered as it was sent if and only if the leftover is not longer
    * than the payload. Over a longer leftover, it is not delivered unless the overlay happens to have its checksum;
    * and if it has, what is delivered is the payload with the tail of the leftover.
    */
  lemma FateOfTransfer(cfg: Config, h: Header, first: RxFrame, payload: seq<Byte>, old': seq<Byte>)
    ensures
      var d := Expected(cfg, h, first, payload, Crc(cfg.crcBase, payload), old');
      && (d == [DeliveryOf(h, first, payload)] <==> |old'| <= |payload|)
      && (|old'| > |payload| ==>
           var contents := payload + old'[|payload|..];
           d == if Crc(cfg.crcBase, contents) == Crc(cfg.crcBase, payload) then [DeliveryOf(h, first, contents)]
                else [])
  {
    hide Crc;
    assert |Overlay(payload, old')| == Max(|payload|, |old'|);
  }

  /**
    * Of an intact transfer in any state that admits it, exactly the intended delivery if and only if no longer
    * leftover is in the way.
    */
  lemma TransferIsDelivered(cfg: Config, s: State, events: seq<Event>, carried: seq<Trace.Event>, h: Header,
                            payload: seq<Byte>)
    requires IsValidHeader(h) && PAYLOAD_CAPACITY < |payload| <= cfg.maxSize && WellFormed(s, cfg.maxSize)
    requires Carry(carried, h, payload, cfg.crcBase) && carried != []
    requires events != [] && events[0] == Arriving(carried)[0] && FramesOf(events, HeaderKey(h)) == Arriving(carried)
    requires CleanupsWithin(events, carried[0].rx.monotonic + TID_TIMEOUT_USEC)
    requires Admits(Known(s, HeaderKey(h)).state, carried[0].rx)
    ensures
      var known := Known(s, HeaderKey(h));
      var old' := Leftover(known.state, carried[0].rx, known.buffer);
      var contents := Overlay(payload, old');
      var d := DeliveriesOf(Run(cfg, s, events).1, HeaderKey(h));
      && (d == [DeliveryOf(h, carried[0].rx, payload)] <==> |old'| <= |payload|)
      && (|old'| > |payload| ==>
           d == if Crc(cfg.crcBase, contents) == Crc(cfg.crcBase, payload)
                then [DeliveryOf(h, carried[0].rx, contents)] else [])
  {
    hide Run, Carry, Crc, DeliveriesOf, Admits, HasRested;
    var known := Known(s, HeaderKey(h));
    TransferArrives(cfg, s, events, carried, h, payload, cfg.crcBase);
    FateOfTransfer(cfg, h, carried[0].rx, payload, Leftover(known.state, carried[0].rx, known.buffer));
  }

  /** From scratch, among any frames of other keys and any cleanups in time. */
  lemma {:induction false} InterleavedTransferArrives(cfg: Config, s: State, events: seq<Event>,
                                                      carried: seq<Trace.Event>, h: Header, payload: seq<Byte>,
                                                      base: bv16)
    requires IsValidHeader(h) && PAYLOAD_CAPACITY < |payload| <= cfg.maxSize && WellFormed(s, cfg.maxSize)
    requires Carry(carried, h, payload, base) && carried != []
    requires At(s, HeaderKey(h)) == Local(None, None) && FramesOf(events, HeaderKey(h)) == Arriving(carried)
    requires CleanupsWithin(events, carried[0].rx.monotonic + TID_TIMEOUT_USEC)
    ensures HasArrived(cfg, Run(cfg, s, events), h, carried[0].rx, payload, Crc(base, payload), [],
                       DEFAULT_INTERVAL_MSEC)
    decreases |events|
  {
    hide Run, Step, Crc, Compile, Parse, KeyOf, HasRested, Expected;
    var key := HeaderKey(h);
    if IsFrameOf(events[0], key) {
      FreshReceiverAdmits(carried[0].rx);
      TransferArrives(cfg, s, events, carried, h, payload, base);
    } else {
      RunUnfolds(cfg, s, events, key);
      OtherEventLeavesKey(cfg, s, events[0], key);
      InterleavedTransferArrives(cfg, Step(cfg, s, events[0]).0, events[1..], carried, h, payload, base);
    }
  }

  /** Whoever else sends, and whatever else this node sends, every transfer that comes first gets through intact. */
  lemma InterleavedTransferIsDelivered(cfg: Config, events: seq<Event>, carried: seq<Trace.Event>, h: Header,
                                       payload: seq<Byte>)
    requires IsValidHeader(h) && PAYLOAD_CAPACITY < |payload| <= cfg.maxSize
    requires Carry(carried, h, payload, cfg.crcBase) && carried != []
    requires FramesOf(events, HeaderKey(h)) == Arriving(carried)
    requires CleanupsWithin(events, carried[0].rx.monotonic + TID_TIMEOUT_USEC)
    ensures DeliveredOf(cfg, events, HeaderKey(h)) == [DeliveryOf(h, carried[0].rx, payload)]
  {
    hide Run, Crc, Carry, HasRested;
    InterleavedTransferArrives(cfg, EMPTY, events, carried, h, payload, cfg.crcBase);
    FateOfTransfer(cfg, h, carried[0].rx, payload, []);
  }

  // ----- Transfers of a single frame -----

  /** A single frame that is admitted is complete at once, and drops whatever was in the buffer. */
  lemma SingleFrameCompletes(s: ReceiverState, f: RxFrame, buffer: Buffer, maxSize: nat, memory: Memory)
    requires Consistent(s, buffer, maxSize) && Admits(s, f) && f.iface < IFACE_NOT_SET
    requires f.frame.startOfTransfer && f.frame.endOfTransfer && !f.frame.toggle
    ensures
      var o := Reaction(s, f, buffer, maxSize, memory);
      && o.result == SingleFrame && o.buffer == None
      && o.state.tid == Increment(f.frame.tid) && !o.state.nextToggle && o.state.writePos == 0
      && o.state.iface == f.iface && o.state.thisTransferTs == o.state.prevTransferTs == f.monotonic
      && o.state.intervalMsec == IntervalAfter(s.prevTransferTs, s.intervalMsec, f.monotonic)
  {
    hide NeedsRestart, AveragedInterval, ValidationErrors;
  }

  /**
    * A transfer of a single frame is delivered with its payload whenever its frame is admitted, whatever is left in the
    * buffer, which is dropped.
    */
  lemma SingleFrameIsDelivered(cfg: Config, s: State, events: seq<Event>, carried: seq<Trace.Event>, h: Header,
                               payload: seq<Byte>)
    requires IsValidHeader(h) && |payload| <= PAYLOAD_CAPACITY && WellFormed(s, cfg.maxSize)
    requires Carry(carried, h, payload, cfg.crcBase) && carried != []
    requires events != [] && events[0] == Arriving(carried)[0] && FramesOf(events, HeaderKey(h)) == Arriving(carried)
    requires CleanupsWithin(events, carried[0].rx.monotonic + TID_TIMEOUT_USEC)
    requires Admits(Known(s, HeaderKey(h)).state, carried[0].rx)
    ensures
      var known, r := Known(s, HeaderKey(h)), Run(cfg, s, events);
      && DeliveriesOf(r.1, HeaderKey(h)) == [DeliveryOf(h, carried[0].rx, payload)]
      && HasRested(At(r.0, HeaderKey(h)), h, carried[0].rx,
                   IntervalAfter(known.state.prevTransferTs, known.state.intervalMsec, carried[0].rx.monotonic), None)
  {
    hide Compile, Parse, Crc, Step, Reaction, Run, Admits, IntervalAfter;
    var key, e := HeaderKey(h), carried[0];
    var known := Known(s, key);
    CarriedFrame(carried, h, payload, cfg.crcBase, 0);
    StepReacts(cfg, s, e, key);
    SingleFrameCompletes(known.state, e.rx, known.buffer, cfg.maxSize, e.memory);
    RunUnfolds(cfg, s, events, key);
    var s1 := Step(cfg, s, events[0]).0;
    SingleDeliveryOf(DeliveryOf(h, e.rx, payload));
    assert FramesOf(events[1..], key) == [];
    QuietRunLeavesKey(cfg, s1, events[1..], key);
  }

  // ----- A transfer after a corrupted one -----

  lemma {:induction false} RunOfConcatenation(cfg: Config, s: State, a: seq<Event>, b: seq<Event>, k: Key)
    requires WellFormed(s, cfg.maxSize)
    ensures
      var r := Run(cfg, s, a);
      && Run(cfg, s, a + b).0 == Run(cfg, r.0, b).0
      && DeliveriesOf(Run(cfg, s, a + b).1, k) == DeliveriesOf(r.1, k) + DeliveriesOf(Run(cfg, r.0, b).1, k)
    decreases |a|
  {
    hide Step, DeliveriesOf;
    if a == [] {
      assert a + b == b;
      NoDeliveriesOf(k);
    } else {
      assert (a + b)[0] == a[0] && (a + b)[1..] == a[1..] + b;
      RunUnfolds(cfg, s, a, k);
      RunUnfolds(cfg, s, a + b, k);
      RunOfConcatenation(cfg, Step(cfg, s, a[0]).0, a[1..], b, k);
    }
  }

  /** A transfer whose checksum was started differently, as by a sender with another data type, is not delivered. */
  lemma MismatchIsNotDelivered(cfg: Config, h: Header, first: RxFrame, payload: seq<Byte>, base: bv16)
    requires base != cfg.crcBase
    ensures Expected(cfg, h, first, payload, Crc(base, payload), []) == [] && Overlay(payload, []) == payload
  {
    hide Crc;
    StartValuesAreTold(base, cfg.crcBase, payload);
  }

  function NextHeader(h: Header): Header { h.(tid := Increment(h.tid)) }

  /** The next transfer restarts the receiver exactly if it starts more than a second after the one before. */
  lemma NextTransferIsAdmitted(l: Local, h: Header, first: RxFrame, buffer: Buffer, f: RxFrame)
    requires HasRested(l, h, first, DEFAULT_INTERVAL_MSEC, buffer) && first.iface == f.iface < IFACE_NOT_SET
    requires f.frame.tid == Increment(h.tid) && f.frame.startOfTransfer && !f.frame.toggle && !IsGarbled(f.frame)
    requires 0 < first.monotonic <= f.monotonic
    ensures Admits(l.receiver.value, f)
    ensures NeedsRestart(l.receiver.value, f) <==> f.monotonic - first.monotonic > DEFAULT_INTERVAL_MSEC * 1000
  {
  }

  /** A transfer of a single frame needs no buffer. */
  predicate Fits(cfg: Config, payload: seq<Byte>) { |payload| <= PAYLOAD_CAPACITY || |payload| <= cfg.maxSize }

  /** The setting: a corrupted transfer, then an intact one with the next identifier over the same interface. */
  ghost predicate FollowsMismatch(cfg: Config, events: seq<Event>, events': seq<Event>, bad: seq<Trace.Event>,
                                  good: seq<Trace.Event>, h: Header, corrupted: seq<Byte>, payload: seq<Byte>,
                                  base: bv16)
  {
    var key := HeaderKey(h);
    && IsValidHeader(h) && base != cfg.crcBase
    && PAYLOAD_CAPACITY < |corrupted| <= cfg.maxSize && Fits(cfg, payload)
    && Carry(bad, h, corrupted, base) && bad != [] && Carry(good, NextHeader(h), payload, cfg.crcBase) && good != []
    && good[0].rx.iface == bad[0].rx.iface && bad[0].rx.monotonic <= good[0].rx.monotonic
    && FramesOf(events, key) == Arriving(bad) && CleanupsWithin(events, bad[0].rx.monotonic + TID_TIMEOUT_USEC)
    && events' != [] && events'[0] == Arriving(good)[0] && FramesOf(events', key) == Arriving(good)
    && CleanupsWithin(events', good[0].rx.monotonic + TID_TIMEOUT_USEC)
  }

  lemma ArrivesAfterMismatch(cfg: Config, events: seq<Event>, events': seq<Event>, bad: seq<Trace.Event>,
                             good: seq<Trace.Event>, h: Header, corrupted: seq<Byte>, payload: seq<Byte>, base: bv16)
    requires FollowsMismatch(cfg, events, events', bad, good, h, corrupted, payload, base)
    ensures bad != [] && good != []
    ensures
      var late := good[0].rx.monotonic - bad[0].rx.monotonic > DEFAULT_INTERVAL_MSEC * 1000;
      DeliveredOf(cfg, events + events', HeaderKey(h)) ==
        if |payload| <= PAYLOAD_CAPACITY then [DeliveryOf(NextHeader(h), good[0].rx, payload)]
        else Expected(cfg, NextHeader(h), good[0].rx, payload, Crc(cfg.crcBase, payload),
                      if late then [] else corrupted)
  {
    hide Run, Crc, Carry, DeliveriesOf, Expected, Overlay, TransferFrames, IntervalAfter, NeedsRestart;
    var key, next := HeaderKey(h), NextHeader(h);
    InterleavedTransferArrives(cfg, EMPTY, events, bad, h, corrupted, base);
    MismatchIsNotDelivered(cfg, h, bad[0].rx, corrupted, base);
    var s := Run(cfg, EMPTY, events).0;
    FirstFrameOfCarried(good, next, payload, cfg.crcBase);
    CarriedTimes(bad, h, corrupted, base);
    NextTransferIsAdmitted(At(s, key), h, bad[0].rx, Some(corrupted), good[0].rx);
    if |payload| <= PAYLOAD_CAPACITY {
      SingleFrameIsDelivered(cfg, s, events', good, next, payload);
    } else {
      TransferArrives(cfg, s, events', good, next, payload, cfg.crcBase);
    }
    RunOfConcatenation(cfg, EMPTY, events, events', key);
  }

  lemma FirstFrameOfCarried(carried: seq<Trace.Event>, h: Header, payload: seq<Byte>, base: bv16)
    requires IsValidHeader(h) && Carry(carried, h, payload, base) && carried != []
    ensures
      var f := carried[0].rx.frame;
      f.tid == h.tid && f.startOfTransfer && !f.toggle && !IsGarbled(f)
  {
    hide TransferFrames;
    CarriedFrame(carried, h, payload, base, 0);
    FrameOfTransfer(h, payload, base, 0);
  }

  /**
    * Recovery from loss. Whatever has happened to the receiver of a sender before, the next transfer over the interface
    * it follows is delivered as it was sent if its identifier is neither the one the receiver is at nor the one before.
    * So is one over another interface if its identifier is ahead and the switch delay has passed.
    */
  lemma {:induction false} RecoversFromLoss(cfg: Config, s: State, events: seq<Event>, carried: seq<Trace.Event>,
                                            h: Header, payload: seq<Byte>)
    requires IsValidHeader(h) && Fits(cfg, payload) && WellFormed(s, cfg.maxSize) && HeaderKey(h) in s.receivers
    requires Carry(carried, h, payload, cfg.crcBase) && carried != []
    requires events != [] && events[0] == Arriving(carried)[0] && FramesOf(events, HeaderKey(h)) == Arriving(carried)
    requires CleanupsWithin(events, carried[0].rx.monotonic + TID_TIMEOUT_USEC)
    requires
      var r, first := s.receivers[HeaderKey(h)], carried[0].rx;
      && HasUsableTime(r, first)
      && (if r.iface == first.iface then h.tid != r.tid && Increment(h.tid) != r.tid
          else
            && first.monotonic - r.thisTransferTs > r.intervalMsec * 1000
            && (h.tid - r.tid) % TRANSFER_ID_MODULUS < TRANSFER_ID_HALF)
    ensures DeliveriesOf(Run(cfg, s, events).1, HeaderKey(h)) == [DeliveryOf(h, carried[0].rx, payload)]
  {
    hide Run, Crc, Carry, DeliveriesOf, TransferFrames, IntervalAfter, NeedsRestart, HasRested;
    var r, first := s.receivers[HeaderKey(h)], carried[0].rx;
    FirstFrameOfCarried(carried, h, payload, cfg.crcBase);
    CarriedTimes(carried, h, payload, cfg.crcBase);
    if IsTimedOut(r, first.monotonic) || !IsInitialized(r) {
      LostReceiverRestarts(r, first);
    } else if r.iface == first.iface {
      StartIsAdmittedIff(r, first);
    } else {
      StartElsewhereIsAdmittedIff(r, first);
    }
    if |payload| <= PAYLOAD_CAPACITY {
      SingleFrameIsDelivered(cfg, s, events, carried, h, payload);
    } else {
      TransferIsDelivered(cfg, s, events, carried, h, payload);
    }
  }

  lemma LostReceiverRestarts(s: ReceiverState, f: RxFrame)
    requires IsTimedOut(s, f.monotonic) || !IsInitialized(s)
    ensures NeedsRestart(s, f)
  {
  }

  lemma CarriedTimes(carried: seq<Trace.Event>, h: Header, payload: seq<Byte>, base: bv16)
    requires Carry(carried, h, payload, base) && carried != []
    ensures carried[0].rx.monotonic > 0 && carried[0].rx.iface < IFACE_NOT_SET
  {
  }

  /**
    * After a corrupted transfer, the next one over the same interface is delivered as it was sent if and only if it is
    * a single frame, is not shorter, or starts more than a second later. Otherwise it is lost, or delivered with the
    * tail of the corrupted one.
    */
  lemma DeliveredAfterMismatchIff(cfg: Config, events: seq<Event>, events': seq<Event>, bad: seq<Trace.Event>,
                                  good: seq<Trace.Event>, h: Header, corrupted: seq<Byte>, payload: seq<Byte>,
                                  base: bv16)
    requires FollowsMismatch(cfg, events, events', bad, good, h, corrupted, payload, base)
    ensures bad != [] && good != []
    ensures
      var late := good[0].rx.monotonic - bad[0].rx.monotonic > DEFAULT_INTERVAL_MSEC * 1000;
      var d := DeliveredOf(cfg, events + events', HeaderKey(h));
      && (d == [DeliveryOf(NextHeader(h), good[0].rx, payload)] <==>
           |payload| <= PAYLOAD_CAPACITY || |corrupted| <= |payload| || late)
      && (PAYLOAD_CAPACITY < |payload| < |corrupted| && !late ==>
           var contents := payload + corrupted[|payload|..];
           d == if Crc(cfg.crcBase, contents) == Crc(cfg.crcBase, payload)
                then [DeliveryOf(NextHeader(h), good[0].rx, contents)] else [])
  {
    hide Run, Crc, DeliveriesOf, FollowsMismatch, Expected;
    MismatchIsSet(cfg, events, events', bad, good, h, corrupted, payload, base);
    ArrivesAfterMismatch(cfg, events, events', bad, good, h, corrupted, payload, base);
    FateOfTransfer(cfg, NextHeader(h), good[0].rx, payload, corrupted);
    FateOfTransfer(cfg, NextHeader(h), good[0].rx, payload, []);
  }

  lemma MismatchIsSet(cfg: Config, events: seq<Event>, events': seq<Event>, bad: seq<Trace.Event>,
                      good: seq<Trace.Event>, h: Header, corrupted: seq<Byte>, payload: seq<Byte>, base: bv16)
    requires FollowsMismatch(cfg, events, events', bad, good, h, corrupted, payload, base)
    ensures bad != [] && good != []
  {
  }

  /** A corrupted and an intact transfer, each received at one time. */
  function TwoTransfers(cfg: Config, h: Header, corrupted: seq<Byte>, payload: seq<Byte>, base: bv16, start: nat,
                        start': nat, iface: Octet): seq<Event>
  {
    Arriving(Transmitted(h, corrupted, base, start, iface))
    + Arriving(Transmitted(NextHeader(h), payload, cfg.crcBase, start', iface))
  }

  lemma {:induction false} AllAreFramesOf(events: seq<Event>, k: Key)
    requires forall e | e in events :: IsFrameOf(e, k)
    ensures FramesOf(events, k) == events
  {
    if events != [] {
      AllAreFramesOf(events[1..], k);
    }
  }

  lemma TransmittedFrames(h: Header, payload: seq<Byte>, base: bv16, start: nat, iface: Octet)
    requires IsValidHeader(h) && start > 0 && iface < IFACE_NOT_SET
    ensures
      var carried := Transmitted(h, payload, base, start, iface);
      && carried != [] && Carry(carried, h, payload, base)
      && FramesOf(Arriving(carried), HeaderKey(h)) == Arriving(carried)
      && CleanupsWithin(Arriving(carried), 0)
      && carried[0].rx.monotonic == start && carried[0].rx.utc == 0 && carried[0].rx.iface == iface
  {
    hide TransferFrames, Crc, Carry;
    EveryTransferCanBeCarried(h, payload, base, start, iface);
    var events := Arriving(Transmitted(h, payload, base, start, iface));
    forall e | e in events
      ensures IsFrameOf(e, HeaderKey(h))
    {
      var k: nat :| k < |events| && e == events[k];
      FrameOfTransfer(h, payload, base, k);
    }
    AllAreFramesOf(events, HeaderKey(h));
  }

  /** The setting does occur. */
  lemma MismatchCanHappen(cfg: Config, h: Header, corrupted: seq<Byte>, payload: seq<Byte>, base: bv16, start: nat,
                          start': nat, iface: Octet)
    requires IsValidHeader(h) && base != cfg.crcBase && 0 < start <= start' && iface < IFACE_NOT_SET
    requires PAYLOAD_CAPACITY < |corrupted| <= cfg.maxSize && Fits(cfg, payload)
    ensures
      var bad := Transmitted(h, corrupted, base, start, iface);
      var good := Transmitted(NextHeader(h), payload, cfg.crcBase, start', iface);
      FollowsMismatch(cfg, Arriving(bad), Arriving(good), bad, good, h, corrupted, payload, base)
  {
    hide Transmitted, Carry, FramesOf, Arriving;
    TransmittedFrames(h, corrupted, base, start, iface);
    TransmittedFrames(NextHeader(h), payload, cfg.crcBase, start', iface);
  }

  /**
    * For every payload there is a corrupted transfer, one byte longer, that makes the listener lose the intact transfer
    * that follows within a second.
    */
  lemma LeftoverCanSwallowTransfer(cfg: Config, h: Header, payload: seq<Byte>, base: bv16, start: nat, start': nat,
                                   iface: Octet)
    requires IsValidHeader(h) && base != cfg.crcBase && iface < IFACE_NOT_SET
    requires PAYLOAD_CAPACITY < |payload| < cfg.maxSize && 0 < start <= start' <= start + DEFAULT_INTERVAL_MSEC * 1000
    ensures exists b: Byte ::
      DeliveredOf(cfg, TwoTransfers(cfg, h, payload + [b], payload, base, start, start', iface), HeaderKey(h)) == []
  {
    hide Run, Crc, DeliveriesOf, AddByte, FollowsMismatch, Transmitted, Arriving;
    var v := Crc(cfg.crcBase, payload);
    var b := if AddByte(v, 0) == v then 1 else 0;
    BytesAreTold(v, 0, 1);
    var corrupted := payload + [b];
    CrcOfOneMore(cfg.crcBase, payload, b);
    assert payload + corrupted[|payload|..] == corrupted;
    TransmittedFrames(h, corrupted, base, start, iface);
    TransmittedFrames(NextHeader(h), payload, cfg.crcBase, start', iface);
    MismatchCanHappen(cfg, h, corrupted, payload, base, start, start', iface);
    var bad := Transmitted(h, corrupted, base, start, iface);
    var good := Transmitted(NextHeader(h), payload, cfg.crcBase, start', iface);
    DeliveredAfterMismatchIff(cfg, Arriving(bad), Arriving(good), bad, good, h, corrupted, payload, base);
  }

  /** And there is one, two bytes longer, after which the listener delivers the payload with the two stale bytes. */
  lemma LeftoverCanCorruptTransfer(cfg: Config, h: Header, payload: seq<Byte>, base: bv16, start: nat, start': nat,
                                   iface: Octet)
    requires IsValidHeader(h) && base != cfg.crcBase && iface < IFACE_NOT_SET
    requires PAYLOAD_CAPACITY < |payload| < cfg.maxSize - 1
    requires 0 < start <= start' <= start + DEFAULT_INTERVAL_MSEC * 1000
    ensures exists x: Byte, y: Byte ::
      DeliveredOf(cfg, TwoTransfers(cfg, h, payload + [x, y], payload, base, start, start', iface), HeaderKey(h)) ==
      [Delivery(h.src, h.transferType, Increment(h.tid), h.priority, iface, start', 0, payload + [x, y])]
  {
    hide Run, Crc, DeliveriesOf, AddByte, FollowsMismatch, Transmitted, Arriving;
    var v := Crc(cfg.crcBase, payload);
    var x, y := TwoBytesReachAnyChecksum(v, v);
    var corrupted := payload + [x, y];
    CrcOfOneMore(cfg.crcBase, payload, x);
    CrcOfOneMore(cfg.crcBase, payload + [x], y);
    assert payload + [x] + [y] == corrupted && payload + corrupted[|payload|..] == corrupted;
    TransmittedFrames(h, corrupted, base, start, iface);
    TransmittedFrames(NextHeader(h), payload, cfg.crcBase, start', iface);
    MismatchCanHappen(cfg, h, corrupted, payload, base, start, start', iface);
    var bad := Transmitted(h, corrupted, base, start, iface);
    var good := Transmitted(NextHeader(h), payload, cfg.crcBase, start', iface);
    DeliveredAfterMismatchIff(cfg, Arriving(bad), Arriving(good), bad, good, h, corrupted, payload, base);
  }

  lemma CrcOfOneMore(base: bv16, bytes: seq<Byte>, b: Byte)
    ensures Crc(base, bytes + [b]) == AddByte(Crc(base, bytes), b)
  {
    hide AddByte;
    assert (bytes + [b])[..|bytes|] == bytes;
  }
}
