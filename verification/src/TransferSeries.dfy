/**
  * A series of transfers from one sender: all that get through completely arrive, each once, in order, however often
  * identifiers wrap around and whatever is lost in between.
  */
module TransferSeries {
  import opened Transfer
  import opened Options
  import opened Frames
  import opened TransferCrc
  import opened Receiver
  import opened Sender
  import opened Wire
  import opened Listener
  import opened EndToEnd
  import Trace = ReceiverTrace

  /**
    * One transfer on its way: its frames, of which the first `arrived` are carried by the wire and the rest are lost;
    * what happens before the first of them, and what happens from then on until the next transfer.
    */
  datatype Sending = Sending(header: Header, payload: seq<Byte>, first: Trace.Event, others: seq<Trace.Event>,
                             arrived: nat, gap: seq<Event>, events: seq<Event>)

  predicate IsComplete(x: Sending) { x.arrived == 1 + |x.others| }

  /**
    * In the gap anything may happen but frames of this key; after that come the frames of the transfer, among any
    * frames of other keys and any cleanups before its receiver times out.
    */
  ghost predicate IsUndisturbed(cfg: Config, x: Sending)
  {
    var key, carried := HeaderKey(x.header), [x.first] + x.others;
    && IsValidHeader(x.header) && Fits(cfg, x.payload) && Carry(carried, x.header, x.payload, cfg.crcBase)
    && FramesOf(x.gap, key) == [] && 1 <= x.arrived <= |carried|
    && x.events != [] && x.events[0] == Arriving(carried)[0]
    && FramesOf(x.events, key) == Arriving(carried)[..x.arrived]
    && CleanupsWithin(x.events, x.first.rx.monotonic + TID_TIMEOUT_USEC)
  }

  /**
    * Transfer `y` is a later one of the same sender over the same interface. Transfers in between may be lost, as long
    * as the identifier is not that of `x` again, nor, if the end of `x` is lost, the one before.
    */
  predicate IsNext(x: Sending, y: Sending)
  {
    && HeaderKey(y.header) == HeaderKey(x.header)
    && y.header.tid != x.header.tid && (!IsComplete(x) ==> Increment(y.header.tid) != x.header.tid)
    && y.first.rx.iface == x.first.rx.iface && x.first.rx.monotonic <= y.first.rx.monotonic
  }

  ghost predicate IsSeries(cfg: Config, xs: seq<Sending>)
  {
    xs == [] || (IsUndisturbed(cfg, xs[0]) && (|xs| > 1 ==> IsNext(xs[0], xs[1])) && IsSeries(cfg, xs[1..]))
  }

  function EventsOf(xs: seq<Sending>): seq<Event>
  {
    if xs == [] then [] else xs[0].gap + xs[0].events + EventsOf(xs[1..])
  }

  function Intended(x: Sending): seq<Delivery>
  {
    if IsComplete(x) then [DeliveryOf(x.header, x.first.rx, x.payload)] else []
  }

  function AllIntended(xs: seq<Sending>): seq<Delivery>
  {
    if xs == [] then [] else Intended(xs[0]) + AllIntended(xs[1..])
  }

  // ----- Between transfers -----

  /**
    * The sender is unknown, or its receiver follows the interface and is ready for a transfer that starts at `time` or
    * later: it waits for it with an empty buffer, or has lost the end of another one.
    */
  ghost predicate IsReady(l: Local, tid: TransferId, iface: nat, time: nat)
  {
    || l == Local(None, None)
    || (&& l.receiver.Some?
        && var r := l.receiver.value;
        && r.iface == iface && r.thisTransferTs <= time && r.prevTransferTs <= time
        && (if r.tid == tid then l.buffer.None? && !r.nextToggle && r.writePos == 0 else r.tid != Increment(tid)))
  }

  lemma {:induction false} GapKeepsReady(cfg: Config, s: State, events: seq<Event>, k: Key, tid: TransferId, iface: nat,
                                         time: nat)
    requires WellFormed(s, cfg.maxSize) && IsUnicast(k.node) && FramesOf(events, k) == []
    requires IsReady(At(s, k), tid, iface, time)
    ensures WellFormed(Run(cfg, s, events).0, cfg.maxSize) && IsReady(At(Run(cfg, s, events).0, k), tid, iface, time)
    ensures DeliveriesOf(Run(cfg, s, events).1, k) == []
    decreases |events|
  {
    hide Step, DeliveriesOf;
    NoDeliveriesOf(k);
    if events != [] {
      RunUnfolds(cfg, s, events, k);
      StepBetween(cfg, s, events[0], k, tid, iface, time);
      GapKeepsReady(cfg, Step(cfg, s, events[0]).0, events[1..], k, tid, iface, time);
    }
  }

  lemma StepBetween(cfg: Config, s: State, e: Event, k: Key, tid: TransferId, iface: nat, time: nat)
    requires WellFormed(s, cfg.maxSize) && IsUnicast(k.node) && !IsFrameOf(e, k) && IsReady(At(s, k), tid, iface, time)
    ensures IsReady(At(Step(cfg, s, e).0, k), tid, iface, time) && DeliveriesOf(Step(cfg, s, e).1, k) == []
  {
    hide CleanedUp, Replaced, LocalFrame, KeyOf;
    if e.CleanupEvent? {
      CleanedUpAt(s, e.ts, k);
    } else {
      OtherEventLeavesKey(cfg, s, e, k);
    }
  }

  // ----- One transfer after another -----

  lemma ReadyAdmits(s: State, k: Key, f: RxFrame)
    requires IsReady(At(s, k), f.frame.tid, f.iface, f.monotonic) && f.monotonic > 0 && f.iface < IFACE_NOT_SET
    requires f.frame.startOfTransfer && !f.frame.toggle && !IsGarbled(f.frame)
    ensures Admits(Known(s, k).state, f) && Leftover(Known(s, k).state, f, Known(s, k).buffer) == []
  {
    if k in s.receivers {
      var r := s.receivers[k];
      if !IsTimedOut(r, f.monotonic) {
        StartIsAdmittedIff(r, f);
      }
    }
  }

  lemma RestedIsReady(l: Local, h: Header, first: RxFrame, intervalMsec: nat, tid: TransferId, time: nat)
    requires HasRested(l, h, first, intervalMsec, None) && tid != h.tid && first.monotonic <= time
    ensures IsReady(l, tid, first.iface, time)
  {
  }

  lemma CutOffIsReady(s: State, carried: seq<Trace.Event>, h: Header, payload: seq<Byte>, crc: bv16, n: nat,
                      old': seq<Byte>, prev: nat, intervalMsec: nat, tid: TransferId, time: nat)
    requires carried != [] && IsUnderWay(s, carried, h, payload, crc, n, old', prev, intervalMsec)
    requires tid != h.tid && Increment(tid) != h.tid && carried[0].rx.monotonic <= time
    ensures IsReady(At(s, HeaderKey(h)), tid, carried[0].rx.iface, time)
  {
    hide Overlay, Sent;
  }

  /** After this transfer, the listener is ready for all that may come next. */
  ghost predicate LeavesReady(l: Local, x: Sending)
  {
    forall tid: TransferId, time: nat |
      tid != x.header.tid && (!IsComplete(x) ==> Increment(tid) != x.header.tid) && x.first.rx.monotonic <= time ::
      IsReady(l, tid, x.first.rx.iface, time)
  }

  /**
    * A transfer that finds the listener ready is delivered as it was sent, or not at all if its end is lost, and leaves
    * the listener ready for the next one.
    */
  lemma {:induction false} NextIsDelivered(cfg: Config, s: State, x: Sending)
    requires IsUndisturbed(cfg, x) && WellFormed(s, cfg.maxSize)
    requires IsReady(At(s, HeaderKey(x.header)), x.header.tid, x.first.rx.iface, x.first.rx.monotonic)
    ensures
      var r := Run(cfg, s, x.events);
      DeliveriesOf(r.1, HeaderKey(x.header)) == Intended(x) && LeavesReady(At(r.0, HeaderKey(x.header)), x)
  {
    var key, first, carried := HeaderKey(x.header), x.first.rx, [x.first] + x.others;
    var known := Known(s, key);
    assert IsComplete(x) ==> Arriving(carried)[..x.arrived] == Arriving(carried);
    hide Run, Carry, Crc, DeliveriesOf, Admits, IsReady, HasRested, IntervalAfter, TransferFrames, Leftover, IsUnderWay;
    FirstFrameOfCarried(carried, x.header, x.payload, cfg.crcBase);
    CarriedTimes(carried, x.header, x.payload, cfg.crcBase);
    ReadyAdmits(s, key, first);
    var l := At(Run(cfg, s, x.events).0, key);
    var interval := IntervalAfter(known.state.prevTransferTs, known.state.intervalMsec, first.monotonic);
    if IsComplete(x) {
      if |x.payload| <= PAYLOAD_CAPACITY {
        SingleFrameIsDelivered(cfg, s, x.events, carried, x.header, x.payload);
      } else {
        TransferArrives(cfg, s, x.events, carried, x.header, x.payload, cfg.crcBase);
        FateOfTransfer(cfg, x.header, first, x.payload, []);
      }
      forall tid: TransferId, time: nat | tid != x.header.tid && first.monotonic <= time
        ensures IsReady(l, tid, first.iface, time)
      {
        RestedIsReady(l, x.header, first, interval, tid, time);
      }
    } else {
      SingleFrameIsWhole(carried, x.header, x.payload, cfg.crcBase);
      CutOffArrives(cfg, s, x.events, carried, x.header, x.payload, cfg.crcBase, x.arrived);
      forall tid: TransferId, time: nat |
        tid != x.header.tid && Increment(tid) != x.header.tid && first.monotonic <= time
        ensures IsReady(l, tid, first.iface, time)
      {
        CutOffIsReady(Run(cfg, s, x.events).0, carried, x.header, x.payload, Crc(cfg.crcBase, x.payload), x.arrived, [],
                      known.state.prevTransferTs, known.state.intervalMsec, tid, time);
      }
    }
  }

  lemma SingleFrameIsWhole(carried: seq<Trace.Event>, h: Header, payload: seq<Byte>, base: bv16)
    requires Carry(carried, h, payload, base)
    ensures |carried| > 1 ==> |payload| > PAYLOAD_CAPACITY
  {
  }

  lemma RunStaysWellFormed(cfg: Config, s: State, events: seq<Event>)
    requires WellFormed(s, cfg.maxSize)
    ensures WellFormed(Run(cfg, s, events).0, cfg.maxSize)
    decreases |events|
  {
    hide Step, WellFormed;
    if events != [] {
      StepIsWellFormed(cfg, s, events[0]);
      RunStaysWellFormed(cfg, Step(cfg, s, events[0]).0, events[1..]);
    }
  }

  lemma GapAndNext(cfg: Config, s: State, x: Sending)
    requires IsUndisturbed(cfg, x) && WellFormed(s, cfg.maxSize)
    requires IsReady(At(s, HeaderKey(x.header)), x.header.tid, x.first.rx.iface, x.first.rx.monotonic)
    ensures
      var r := Run(cfg, s, x.gap + x.events);
      && WellFormed(r.0, cfg.maxSize) && DeliveriesOf(r.1, HeaderKey(x.header)) == Intended(x)
      && LeavesReady(At(r.0, HeaderKey(x.header)), x)
  {
    hide IsUndisturbed, Run, DeliveriesOf, IsReady, Intended, WellFormed, LeavesReady;
    var k, first := HeaderKey(x.header), x.first.rx;
    UndisturbedIsUnicast(cfg, x);
    GapKeepsReady(cfg, s, x.gap, k, x.header.tid, first.iface, first.monotonic);
    NextIsDelivered(cfg, Run(cfg, s, x.gap).0, x);
    RunStaysWellFormed(cfg, s, x.gap + x.events);
    RunOfConcatenation(cfg, s, x.gap, x.events, k);
  }

  /** All complete transfers of a series that finds the listener ready are delivered as they were sent, in order. */
  lemma {:induction false} RestIsDelivered(cfg: Config, s: State, xs: seq<Sending>, k: Key)
    requires IsSeries(cfg, xs) && WellFormed(s, cfg.maxSize)
    requires xs != [] ==>
      && HeaderKey(xs[0].header) == k
      && IsReady(At(s, k), xs[0].header.tid, xs[0].first.rx.iface, xs[0].first.rx.monotonic)
    ensures DeliveriesOf(Run(cfg, s, EventsOf(xs)).1, k) == AllIntended(xs)
    decreases |xs|
  {
    hide IsUndisturbed, Run, DeliveriesOf, IsReady, Intended;
    if xs == [] {
      NothingRuns(cfg, s, k);
    } else {
      var x, rest := xs[0], xs[1..];
      GapAndNext(cfg, s, x);
      RestIsDelivered(cfg, Run(cfg, s, x.gap + x.events).0, rest, k);
      RunOfConcatenation(cfg, s, x.gap + x.events, EventsOf(rest), k);
    }
  }

  lemma UndisturbedIsUnicast(cfg: Config, x: Sending)
    requires IsUndisturbed(cfg, x)
    ensures IsUnicast(x.header.src) && FramesOf(x.gap, HeaderKey(x.header)) == []
  {
  }

  lemma NothingRuns(cfg: Config, s: State, k: Key)
    requires WellFormed(s, cfg.maxSize)
    ensures DeliveriesOf(Run(cfg, s, []).1, k) == []
  {
  }

  /**
    * Whatever is sent by others, whenever cleanups run between the transfers, and however many transfers or ends of
    * transfers are lost: the listener delivers exactly the transfers of the series that get through completely, each
    * once, as they were sent and in order.
    */
  lemma SeriesIsDelivered(cfg: Config, xs: seq<Sending>)
    requires IsSeries(cfg, xs) && xs != []
    ensures DeliveredOf(cfg, EventsOf(xs), HeaderKey(xs[0].header)) == AllIntended(xs)
  {
    hide Run, DeliveriesOf, IsSeries;
    RestIsDelivered(cfg, EMPTY, xs, HeaderKey(xs[0].header));
  }

  // ----- Every list of payloads -----

  /** The payloads as a sender numbers and cuts them, transfer after transfer. */
  function Prepared(cfg: Config, h: Header, payloads: seq<seq<Byte>>, start: nat, iface: Octet): seq<Sending>
    decreases |payloads|
  {
    if payloads == [] then []
    else
      var carried := Transmitted(h, payloads[0], cfg.crcBase, start, iface);
      SomethingIsTransmitted(h, payloads[0], cfg.crcBase);
      [Sending(h, payloads[0], carried[0], carried[1..], |carried|, [], Arriving(carried))]
      + Prepared(cfg, NextHeader(h), payloads[1..], start, iface)
  }

  lemma SomethingIsTransmitted(h: Header, payload: seq<Byte>, base: bv16)
    ensures TransferFrames(h, payload, base) != []
  {
    if |payload| > PAYLOAD_CAPACITY {
      FirstFrameIsFull(|payload|);
    }
  }

  lemma PreparedIsUndisturbed(cfg: Config, h: Header, payload: seq<Byte>, start: nat, iface: Octet)
    requires IsValidHeader(h) && start > 0 && iface < IFACE_NOT_SET && Fits(cfg, payload)
    ensures
      var x := Prepared(cfg, h, [payload], start, iface)[0];
      && IsUndisturbed(cfg, x) && IsComplete(x) && x.header == h && x.payload == payload
      && x.first.rx.iface == iface && x.first.rx.monotonic == start
  {
    hide Transmitted, Carry, FramesOf, Arriving;
    TransmittedFrames(h, payload, cfg.crcBase, start, iface);
    var carried := Transmitted(h, payload, cfg.crcBase, start, iface);
    assert [carried[0]] + carried[1..] == carried;
    assert Arriving(carried)[..|carried|] == Arriving(carried);
    NoFramesOf(HeaderKey(h));
  }

  lemma NoFramesOf(k: Key)
    ensures FramesOf([], k) == []
  {
  }

  lemma PreparedFirst(cfg: Config, h: Header, payloads: seq<seq<Byte>>, start: nat, iface: Octet)
    requires payloads != []
    ensures
      var xs := Prepared(cfg, h, payloads, start, iface);
      && |xs| == |payloads| && xs[0] == Prepared(cfg, h, [payloads[0]], start, iface)[0]
      && xs[1..] == Prepared(cfg, NextHeader(h), payloads[1..], start, iface)
    decreases |payloads|
  {
    hide Transmitted;
    if |payloads| > 1 {
      PreparedFirst(cfg, NextHeader(h), payloads[1..], start, iface);
    }
  }

  lemma {:induction false} PreparedIsSeries(cfg: Config, h: Header, payloads: seq<seq<Byte>>, start: nat, iface: Octet)
    requires IsValidHeader(h) && start > 0 && iface < IFACE_NOT_SET && forall p | p in payloads :: Fits(cfg, p)
    ensures IsSeries(cfg, Prepared(cfg, h, payloads, start, iface))
    decreases |payloads|
  {
    hide Prepared, IsUndisturbed, Fits;
    if payloads == [] {
      NothingPrepared(cfg, h, start, iface);
    } else {
      PreparedFirst(cfg, h, payloads, start, iface);
      PreparedIsUndisturbed(cfg, h, payloads[0], start, iface);
      if |payloads| > 1 {
        PreparedFirst(cfg, NextHeader(h), payloads[1..], start, iface);
        PreparedIsUndisturbed(cfg, NextHeader(h), payloads[1], start, iface);
      }
      PreparedIsSeries(cfg, NextHeader(h), payloads[1..], start, iface);
    }
  }

  lemma NothingPrepared(cfg: Config, h: Header, start: nat, iface: Octet)
    ensures Prepared(cfg, h, [], start, iface) == []
  {
  }

  /**
    * For every list of payloads that fit, of any length: what a sender makes of it, numbered from any identifier, is
    * delivered payload by payload, with consecutive identifiers modulo 32.
    */
  lemma PayloadsAreDelivered(cfg: Config, h: Header, payloads: seq<seq<Byte>>, start: nat, iface: Octet)
    requires IsValidHeader(h) && start > 0 && iface < IFACE_NOT_SET && forall p | p in payloads :: Fits(cfg, p)
    ensures
      var d := DeliveredOf(cfg, EventsOf(Prepared(cfg, h, payloads, start, iface)), HeaderKey(h));
      && |d| == |payloads|
      && forall i | 0 <= i < |d| :: d[i].payload == payloads[i] && d[i].tid == (h.tid + i) % TRANSFER_ID_MODULUS
  {
    hide DeliveredOf, IsSeries;
    var xs := Prepared(cfg, h, payloads, start, iface);
    hide Prepared;
    PreparedIsSeries(cfg, h, payloads, start, iface);
    if payloads == [] {
      NothingPrepared(cfg, h, start, iface);
      NothingDelivered(cfg, HeaderKey(h));
    } else {
      PreparedFirst(cfg, h, payloads, start, iface);
      PreparedIsUndisturbed(cfg, h, payloads[0], start, iface);
      SeriesIsDelivered(cfg, xs);
      forall i: nat | i < |payloads|
        ensures
          var d := AllIntended(xs);
          |d| == |payloads| && d[i].payload == payloads[i] && d[i].tid == (h.tid + i) % TRANSFER_ID_MODULUS
      {
        IntendedAt(cfg, h, payloads, start, iface, i);
      }
      IntendedAt(cfg, h, payloads, start, iface, 0);
    }
  }

  lemma NothingDelivered(cfg: Config, k: Key)
    ensures DeliveredOf(cfg, [], k) == []
  {
  }

  lemma {:induction false} IntendedAt(cfg: Config, h: Header, payloads: seq<seq<Byte>>, start: nat, iface: Octet,
                                      i: nat)
    requires IsValidHeader(h) && start > 0 && iface < IFACE_NOT_SET && (forall p | p in payloads :: Fits(cfg, p))
    requires i < |payloads|
    ensures
      var d := AllIntended(Prepared(cfg, h, payloads, start, iface));
      |d| == |payloads| && d[i].payload == payloads[i] && d[i].tid == (h.tid + i) % TRANSFER_ID_MODULUS
    decreases |payloads|
  {
    hide Prepared, IsUndisturbed, Fits;
    var xs := Prepared(cfg, h, payloads, start, iface);
    PreparedFirst(cfg, h, payloads, start, iface);
    PreparedIsUndisturbed(cfg, h, payloads[0], start, iface);
    if |payloads| > 1 {
      IntendedAt(cfg, NextHeader(h), payloads[1..], start, iface, if i > 0 then i - 1 else 0);
    } else {
      NothingPrepared(cfg, NextHeader(h), start, iface);
    }
  }
}
