/** The way of a transfer from a sender over the wire into a receiver. */
module Wire {
  import opened Transfer
  import opened Options
  import opened Arithmetic
  import opened Frames
  import opened TransferCrc
  import opened TransferBuffer
  import opened Receiver
  import opened Sender
  import opened ReceiverTrace

  lemma SenderFramesAreValid(h: Header, payload: seq<Byte>, crc: bv16, k: nat)
    requires IsValidHeader(h) && |payload| > PAYLOAD_CAPACITY && k < FrameCount(|payload|)
    ensures IsValid(FrameAt(h, payload, crc, k)) && !IsGarbled(FrameAt(h, payload, crc, k))
  {
    LastFrame(|payload|, k);
  }

  /**
    * The events are the frames of the transfer as they arrive over the wire: compiled, parsed, in order, on one
    * interface, within the transfer timeout, and without a shortage of memory.
    */
  ghost predicate Carry(events: seq<Event>, h: Header, payload: seq<Byte>, crcBase: bv16)
  {
    var frames := TransferFrames(h, payload, crcBase);
    && |events| == |frames|
    && (forall k | 0 <= k < |events| ::
          && Compile(frames[k]).Some? && Parse(Compile(frames[k]).value) == Some(events[k].rx.frame)
          && events[k].rx.iface == events[0].rx.iface < IFACE_NOT_SET
          && 0 < events[0].rx.monotonic <= events[k].rx.monotonic <= events[0].rx.monotonic + TID_TIMEOUT_USEC
          && events[k].memory.created && events[k].memory.granted >= PAYLOAD_CAPACITY)
  }

  /** The state after a number of events, and the result of the last one. */
  function After(s: ReceiverState, buffer: Buffer, events: seq<Event>, maxSize: nat): (o: Outcome)
    requires Consistent(s, buffer, maxSize)
    ensures Consistent(o.state, o.buffer, maxSize)
    decreases |events|
  {
    if events == [] then Outcome(s, buffer, NotComplete)
    else
      var e := events[|events| - 1];
      var o := After(s, buffer, events[..|events| - 1], maxSize);
      ReactionIsConsistent(o.state, e.rx, o.buffer, maxSize, e.memory);
      Reaction(o.state, e.rx, o.buffer, maxSize, e.memory)
  }

  /** The receiver takes this first frame: it restarts on it, or waits for exactly this transfer. */
  predicate Admits(s: ReceiverState, f: RxFrame)
  {
    HasUsableTime(s, f) && (NeedsRestart(s, f) || (IsExpected(s, f) && s.writePos == 0))
  }

  /**
    * On the interface it follows, a receiver that has not timed out takes the start of a transfer unless it belongs to
    * the transfer before the one it is at, or repeats the start of that one within the switch delay.
    */
  lemma StartIsAdmittedIff(s: ReceiverState, f: RxFrame)
    requires HasUsableTime(s, f) && !IsTimedOut(s, f.monotonic) && s.iface == f.iface < IFACE_NOT_SET
    requires f.frame.startOfTransfer && !IsGarbled(f.frame)
    ensures Admits(s, f) <==>
      && Increment(f.frame.tid) != s.tid
      && (|| f.frame.tid != s.tid || (!s.nextToggle && s.writePos == 0)
          || f.monotonic - s.thisTransferTs > s.intervalMsec * 1000)
    ensures f.frame.tid != s.tid && Increment(f.frame.tid) != s.tid ==> NeedsRestart(s, f)
  {
  }

  /** On another interface, it takes the start of a transfer that is ahead, once the switch delay has passed. */
  lemma StartElsewhereIsAdmittedIff(s: ReceiverState, f: RxFrame)
    requires HasUsableTime(s, f) && !IsTimedOut(s, f.monotonic) && IsInitialized(s) && s.iface != f.iface
    requires f.frame.startOfTransfer
    ensures Admits(s, f) <==>
      && f.monotonic - s.thisTransferTs > s.intervalMsec * 1000
      && (f.frame.tid - s.tid) % TRANSFER_ID_MODULUS < TRANSFER_ID_HALF
    ensures Admits(s, f) ==> NeedsRestart(s, f)
  {
  }

  /** What is still in the buffer from a transfer that failed its checksum. */
  function Leftover(s: ReceiverState, f: RxFrame, buffer: Buffer): seq<Byte>
  {
    if NeedsRestart(s, f) then [] else Contents(buffer)
  }

  /** New data written over old contents. */
  function Overlay(data: seq<Byte>, old': seq<Byte>): seq<Byte>
  {
    if |data| < |old'| then data + old'[|data|..] else data
  }

  lemma OverlayGrows(payload: seq<Byte>, old': seq<Byte>, maxSize: nat, from: nat, to: nat, granted: nat)
    requires from <= to <= |payload| && to <= maxSize && (from < maxSize || from == to)
    requires granted >= to - from
    ensures from <= |Overlay(payload[..from], old')|
    ensures WriteLength(maxSize, from, to - from, granted) == to - from
    ensures FlatWrite(Overlay(payload[..from], old'), maxSize, from, payload[from..to], granted) ==
            Overlay(payload[..to], old')
  {
  }

  /** In the middle of a transfer: `k` frames of the payload have been taken over the leftover `old'`. */
  ghost predicate Midway(o: Outcome, h: Header, payload: seq<Byte>, crc: bv16, first: RxFrame, k: nat, old': seq<Byte>)
  {
    && o.state.tid == h.tid && o.state.iface == first.iface && o.state.nextToggle == (k % 2 == 1)
    && o.state.thisTransferTs == first.monotonic && o.state.prevTransferTs <= first.monotonic
    && o.state.firstFrameTs == first.utc
    && o.state.crc == crc && o.state.writePos == Sent(|payload|, k)
    && o.buffer == Some(Overlay(payload[..Sent(|payload|, k)], old'))
  }

  lemma FirstFrameIsTaken(h: Header, payload: seq<Byte>, crc: bv16, e: Event, s: ReceiverState, buffer: Buffer,
                          maxSize: nat)
    requires IsValidHeader(h) && PAYLOAD_CAPACITY < |payload| <= maxSize && Consistent(s, buffer, maxSize)
    requires e.rx.frame == FrameAt(h, payload, crc, 0) && e.rx.iface < IFACE_NOT_SET
    requires Admits(s, e.rx) && e.memory.created && e.memory.granted >= PAYLOAD_CAPACITY
    ensures
      var o := Reaction(s, e.rx, buffer, maxSize, e.memory);
      o.result == NotComplete && Midway(o, h, payload, crc, e.rx, 1, Leftover(s, e.rx, buffer))
  {
    hide CrcField, FlatWrite, Crc, NeedsRestart, ValidationErrors;
    CrcFieldRecovered(crc, payload[..5]);
    FirstFrameIsFull(|payload|);
    OverlayGrows(payload, Leftover(s, e.rx, buffer), maxSize, 0, 5, e.memory.granted);
    var old' := Leftover(s, e.rx, buffer);
    assert Overlay(payload[..0], old') == old';
    assert Effective(e.rx.frame) == payload[0..5];
    var o := Reaction(s, e.rx, buffer, maxSize, e.memory);
    assert o.result == NotComplete && o.buffer.Some?;
    assert o.buffer.value == Overlay(payload[..5], old');
    assert o.state.crc == crc;
  }

  /** The transfer is complete: the whole payload lies over the leftover, and its checksum is known. */
  ghost predicate Finished(o: Outcome, h: Header, payload: seq<Byte>, crc: bv16, first: RxFrame, old': seq<Byte>)
  {
    && o.result == Complete && o.buffer == Some(Overlay(payload, old'))
    && o.state.crc == crc && o.state.tid == Increment(h.tid) && o.state.writePos == 0
    && !o.state.nextToggle && o.state.iface == first.iface && o.state.firstFrameTs == first.utc
    && o.state.thisTransferTs == o.state.prevTransferTs == first.monotonic
  }

  lemma NextFrameIsExpected(o: Outcome, h: Header, payload: seq<Byte>, crc: bv16, first: RxFrame, k: nat,
                            old': seq<Byte>, f: RxFrame)
    requires IsValidHeader(h) && PAYLOAD_CAPACITY < |payload| && 1 <= k < FrameCount(|payload|)
    requires Midway(o, h, payload, crc, first, k, old')
    requires f.frame == FrameAt(h, payload, crc, k) && f.iface == first.iface < IFACE_NOT_SET
    requires 0 < first.monotonic <= f.monotonic <= first.monotonic + TID_TIMEOUT_USEC
    ensures HasUsableTime(o.state, f) && !NeedsRestart(o.state, f) && IsExpected(o.state, f)
    ensures Effective(f.frame) == payload[Sent(|payload|, k)..Sent(|payload|, k + 1)]
    ensures f.frame.endOfTransfer <==> k == FrameCount(|payload|) - 1
  {
    SenderFramesAreValid(h, payload, crc, k);
    OnlyLastFrameEnds(h, payload, crc, k);
  }

  lemma NextFrameIsTaken(o: Outcome, h: Header, payload: seq<Byte>, crc: bv16, first: RxFrame, k: nat,
                         old': seq<Byte>, e: Event, maxSize: nat)
    requires IsValidHeader(h) && PAYLOAD_CAPACITY < |payload| <= maxSize && 1 <= k < FrameCount(|payload|)
    requires Consistent(o.state, o.buffer, maxSize) && Midway(o, h, payload, crc, first, k, old')
    requires e.rx.frame == FrameAt(h, payload, crc, k) && e.rx.iface == first.iface < IFACE_NOT_SET
    requires 0 < first.monotonic <= e.rx.monotonic <= first.monotonic + TID_TIMEOUT_USEC
    requires e.memory.created && e.memory.granted >= PAYLOAD_CAPACITY
    ensures
      var o' := Reaction(o.state, e.rx, o.buffer, maxSize, e.memory);
      if k == FrameCount(|payload|) - 1 then Finished(o', h, payload, crc, first, old')
      else o'.result == NotComplete && Midway(o', h, payload, crc, first, k + 1, old')
  {
    hide FlatWrite, NeedsRestart, ValidationErrors, FrameAt, FrameCount, Effective, AveragedInterval;
    NextFrameIsExpected(o, h, payload, crc, first, k, old', e.rx);
    LastFrame(|payload|, k);
    OverlayGrows(payload, old', maxSize, Sent(|payload|, k), Sent(|payload|, k + 1), e.memory.granted);
    assert k == FrameCount(|payload|) - 1 ==> payload[..Sent(|payload|, k + 1)] == payload;
    OnlyFirstFrameStarts(h, payload, crc, k);
  }

  lemma OnlyFirstFrameStarts(h: Header, payload: seq<Byte>, crc: bv16, k: nat)
    requires |payload| > PAYLOAD_CAPACITY
    ensures FrameAt(h, payload, crc, k).startOfTransfer <==> k == 0
  {
  }

  lemma EventCarriesFrame(events: seq<Event>, h: Header, payload: seq<Byte>, crcBase: bv16, k: nat)
    requires IsValidHeader(h) && |payload| > PAYLOAD_CAPACITY && Carry(events, h, payload, crcBase) && k < |events|
    ensures |events| == FrameCount(|payload|) && events[k].rx.frame == FrameAt(h, payload, Crc(crcBase, payload), k)
  {
    hide Compile, Parse, FrameAt;
    SenderFramesAreValid(h, payload, Crc(crcBase, payload), k);
    HeaderOfFrame(h, payload, Crc(crcBase, payload), k);
    WireIsLosslessIff(FrameAt(h, payload, Crc(crcBase, payload), k));
  }

  lemma HeaderOfFrame(h: Header, payload: seq<Byte>, crc: bv16, k: nat)
    requires |payload| > PAYLOAD_CAPACITY
    ensures
      var f := FrameAt(h, payload, crc, k);
      f.src == h.src && f.transferType == h.transferType && f.tid == h.tid && f.priority == h.priority
  {
  }

  lemma {:induction false} MidwayAfter(events: seq<Event>, h: Header, payload: seq<Byte>, crcBase: bv16,
                                       s: ReceiverState, buffer: Buffer, maxSize: nat, k: nat)
    requires IsValidHeader(h) && PAYLOAD_CAPACITY < |payload| <= maxSize && Consistent(s, buffer, maxSize)
    requires Carry(events, h, payload, crcBase) && 1 <= k < |events| && Admits(s, events[0].rx)
    ensures
      var o := After(s, buffer, events[..k], maxSize);
      && o.result == NotComplete
      && Midway(o, h, payload, Crc(crcBase, payload), events[0].rx, k, Leftover(s, events[0].rx, buffer))
    decreases k
  {
    hide Reaction, Midway, FrameAt, Crc, Compile, Parse, Admits;
    var crc, old' := Crc(crcBase, payload), Leftover(s, events[0].rx, buffer);
    assert events[..k][..k - 1] == events[..k - 1] && events[..k][k - 1] == events[k - 1];
    EventCarriesFrame(events, h, payload, crcBase, k - 1);
    if k == 1 {
      FirstFrameIsTaken(h, payload, crc, events[0], s, buffer, maxSize);
      assert After(s, buffer, events[..0], maxSize) == Outcome(s, buffer, NotComplete);
    } else {
      MidwayAfter(events, h, payload, crcBase, s, buffer, maxSize, k - 1);
      NextFrameIsTaken(After(s, buffer, events[..k - 1], maxSize), h, payload, crc, events[0].rx, k - 1, old',
                       events[k - 1], maxSize);
    }
  }

  /**
    * The round trip: whatever the payload, and whatever the receiver did before, all frames but the last leave the
    * transfer incomplete and the last one completes it, with the payload in the buffer and its checksum announced. A
    * buffer that a corrupted transfer left behind is overwritten, but not shortened.
    */
  lemma {:induction false} RoundTrip(events: seq<Event>, h: Header, payload: seq<Byte>, crcBase: bv16,
                  s: ReceiverState, buffer: Buffer, maxSize: nat)
    requires IsValidHeader(h) && PAYLOAD_CAPACITY < |payload| <= maxSize && Consistent(s, buffer, maxSize)
    requires Carry(events, h, payload, crcBase) && events != [] && Admits(s, events[0].rx)
    ensures |events| == FrameCount(|payload|)
    ensures forall k | 0 <= k < |events| :: After(s, buffer, events[..k], maxSize).result == NotComplete
    ensures Finished(After(s, buffer, events, maxSize), h, payload, Crc(crcBase, payload), events[0].rx,
                     Leftover(s, events[0].rx, buffer))
  {
    hide Reaction, Midway, FrameAt, Crc, Compile, Parse, Admits, Finished;
    var n := |events|;
    EventCarriesFrame(events, h, payload, crcBase, n - 1);
    FirstFrameIsFull(|payload|);
    forall k | 0 < k < n
      ensures After(s, buffer, events[..k], maxSize).result == NotComplete
    {
      MidwayAfter(events, h, payload, crcBase, s, buffer, maxSize, k);
    }
    MidwayAfter(events, h, payload, crcBase, s, buffer, maxSize, n - 1);
    NextFrameIsTaken(After(s, buffer, events[..n - 1], maxSize), h, payload, Crc(crcBase, payload), events[0].rx, n - 1,
                     Leftover(s, events[0].rx, buffer), events[n - 1], maxSize);
  }

  /** A new receiver takes any first frame, and has nothing left over. */
  lemma FreshReceiverAdmits(f: RxFrame)
    requires f.monotonic > 0
    ensures Admits(FRESH_STATE, f) && Leftover(FRESH_STATE, f, None) == []
  {
  }

  // ----- Transfers of any length -----

  /** What the frames of every transfer have in common. */
  lemma FrameOfTransfer(h: Header, payload: seq<Byte>, crcBase: bv16, k: nat)
    requires IsValidHeader(h) && k < |TransferFrames(h, payload, crcBase)|
    ensures
      var f := TransferFrames(h, payload, crcBase)[k];
      && IsValid(f) && !IsGarbled(f) && (f.startOfTransfer <==> k == 0)
      && f.src == h.src && f.transferType == h.transferType && f.tid == h.tid && f.priority == h.priority
  {
    hide FrameAt, Crc;
    if |payload| > PAYLOAD_CAPACITY {
      SenderFramesAreValid(h, payload, Crc(crcBase, payload), k);
      HeaderOfFrame(h, payload, Crc(crcBase, payload), k);
      OnlyFirstFrameStarts(h, payload, Crc(crcBase, payload), k);
    }
  }

  lemma CarriedFrame(events: seq<Event>, h: Header, payload: seq<Byte>, crcBase: bv16, k: nat)
    requires IsValidHeader(h) && Carry(events, h, payload, crcBase) && k < |events|
    ensures events[k].rx.frame == TransferFrames(h, payload, crcBase)[k]
  {
    hide Compile, Parse, TransferFrames;
    FrameOfTransfer(h, payload, crcBase, k);
    WireIsLosslessIff(TransferFrames(h, payload, crcBase)[k]);
  }

  /** The frames of a transfer, all received at one time over one interface. */
  function Transmitted(h: Header, payload: seq<Byte>, crcBase: bv16, monotonic: nat, iface: Octet): seq<Event>
  {
    var frames := TransferFrames(h, payload, crcBase);
    seq(|frames|, k requires 0 <= k < |frames| =>
      Event(RxFrame(frames[k], monotonic, 0, iface), Memory(true, PAYLOAD_CAPACITY)))
  }

  /** Every valid transfer can be carried: all its frames compile, and the parser accepts them. */
  lemma EveryTransferCanBeCarried(h: Header, payload: seq<Byte>, crcBase: bv16, monotonic: nat, iface: Octet)
    requires IsValidHeader(h) && monotonic > 0 && iface < IFACE_NOT_SET
    ensures Transmitted(h, payload, crcBase, monotonic, iface) != []
    ensures Carry(Transmitted(h, payload, crcBase, monotonic, iface), h, payload, crcBase)
  {
    hide Compile, Parse, FrameAt, Crc;
    var frames := TransferFrames(h, payload, crcBase);
    if |payload| > PAYLOAD_CAPACITY {
      FirstFrameIsFull(|payload|);
    }
    hide TransferFrames;
    forall k: nat | k < |frames|
      ensures Compile(frames[k]).Some? && Parse(Compile(frames[k]).value) == Some(frames[k])
    {
      FrameOfTransfer(h, payload, crcBase, k);
      WireIsLosslessIff(frames[k]);
    }
  }
}
