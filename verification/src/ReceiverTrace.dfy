/**
  * What a receiver has accepted: an account, for arbitrary lost, duplicated or garbled frames, of the frames since the
  * last restart or completion, and its agreement with the receiver's state and buffer.
  */
module ReceiverTrace {
  import opened Transfer
  import opened Options
  import opened Frames
  import opened TransferBuffer
  import opened Receiver

  datatype Event = Event(rx: RxFrame, memory: Memory)

  /** A receiver together with the frames it has accepted for the transfer in progress. */
  datatype Machine = Machine(state: ReceiverState, buffer: Buffer, accepted: seq<RxFrame>)

  /** What is left in place when a frame with a usable time arrives: everything, or nothing on a restart. */
  function Resumed(m: Machine, f: RxFrame): Machine
  {
    if NeedsRestart(m.state, f) then Machine(Restarted(m.state, f), None, []) else m
  }

  /** The frame extends a transfer of several frames, and its payload could be stored. */
  predicate Extends(r: Machine, e: Event, maxSize: nat)
  {
    && !(e.rx.frame.startOfTransfer && e.rx.frame.endOfTransfer)
    && (r.buffer.Some? || e.memory.created)
    && IsStored(r.state, e.rx, maxSize, e.memory)
  }

  function AcceptedAfter(m: Machine, e: Event, maxSize: nat): seq<RxFrame>
  {
    if !HasUsableTime(m.state, e.rx) then m.accepted
    else
      var r := Resumed(m, e.rx);
      if NeedsRestart(m.state, e.rx) && !e.rx.frame.startOfTransfer then []
      else if !IsExpected(r.state, e.rx) then r.accepted
      else if Extends(r, e, maxSize) && !e.rx.frame.endOfTransfer then r.accepted + [e.rx]
      else []
  }

  function Step(m: Machine, e: Event, maxSize: nat): (m': Machine)
    requires Consistent(m.state, m.buffer, maxSize)
    ensures Consistent(m'.state, m'.buffer, maxSize)
  {
    ReactionIsConsistent(m.state, e.rx, m.buffer, maxSize, e.memory);
    var o := Reaction(m.state, e.rx, m.buffer, maxSize, e.memory);
    Machine(o.state, o.buffer, AcceptedAfter(m, e, maxSize))
  }

  // ----- The account -----

  /** The frames belong to one transfer on one interface, with alternating toggle bits that start cleared. */
  ghost predicate OneTransfer(frames: seq<RxFrame>, tid: TransferId, iface: nat)
  {
    forall i | 0 <= i < |frames| ::
      && frames[i].frame.tid == tid && frames[i].iface == iface
      && frames[i].frame.toggle == (i % 2 == 1)
      && !IsGarbled(frames[i].frame)
      && !(frames[i].frame.startOfTransfer && frames[i].frame.endOfTransfer)
  }

  /** The concatenated payloads, without checksums. */
  ghost function Assembled(frames: seq<RxFrame>): seq<Byte>
  {
    if frames == [] then [] else Assembled(frames[..|frames| - 1]) + Effective(frames[|frames| - 1].frame)
  }

  /** The checksum announced by the last start of transfer among the frames. */
  ghost function Announced(frames: seq<RxFrame>): Option<bv16>
  {
    if frames == [] then None
    else
      var last := frames[|frames| - 1].frame;
      if last.startOfTransfer && |last.payload| >= CRC_BYTES then Some(CrcField(last.payload))
      else Announced(frames[..|frames| - 1])
  }

  ghost predicate Accounted(frames: seq<RxFrame>, contents: seq<Byte>, crc: bv16, maxSize: nat)
  {
    && |Assembled(frames)| <= maxSize && Assembled(frames) <= contents
    && (Announced(frames).Some? ==> crc == Announced(frames).value)
  }

  ghost predicate Inv(m: Machine, maxSize: nat)
  {
    && Consistent(m.state, m.buffer, maxSize)
    && OneTransfer(m.accepted, m.state.tid, m.state.iface)
    && (forall i | 0 <= i < |m.accepted| :: !m.accepted[i].frame.endOfTransfer)
    && m.state.nextToggle == (|m.accepted| % 2 == 1)
    && m.state.writePos == |Assembled(m.accepted)|
    && (m.accepted != [] ==> m.buffer.Some?)
    && Accounted(m.accepted, Contents(m.buffer), m.state.crc, maxSize)
  }

  lemma ResumedKeepsInv(m: Machine, f: RxFrame, maxSize: nat)
    requires Inv(m, maxSize)
    ensures Inv(Resumed(m, f), maxSize)
  {
  }

  lemma AppendToTrace(frames: seq<RxFrame>, f: RxFrame)
    ensures Assembled(frames + [f]) == Assembled(frames) + Effective(f.frame)
    ensures Announced(frames + [f]) ==
            if f.frame.startOfTransfer && |f.frame.payload| >= CRC_BYTES then Some(CrcField(f.frame.payload))
            else Announced(frames)
  {
    assert (frames + [f])[..|frames|] == frames;
  }

  lemma OneTransferExtends(frames: seq<RxFrame>, f: RxFrame, tid: TransferId, iface: nat)
    requires OneTransfer(frames, tid, iface)
    requires f.frame.tid == tid && f.iface == iface && f.frame.toggle == (|frames| % 2 == 1)
    requires !IsGarbled(f.frame) && !(f.frame.startOfTransfer && f.frame.endOfTransfer)
    ensures OneTransfer(frames + [f], tid, iface)
  {
  }

  /** Taking an expected frame extends the account by exactly that frame. */
  lemma TakenFrameIsAccounted(r: Machine, e: Event, maxSize: nat)
    requires Inv(r, maxSize) && IsExpected(r.state, e.rx) && Extends(r, e, maxSize)
    ensures
      var s := Appended(r.state, e.rx);
      var contents := AppendedBuffer(r.state, e.rx, r.buffer, maxSize, e.memory);
      var frames := r.accepted + [e.rx];
      && OneTransfer(frames, s.tid, s.iface)
      && s.nextToggle == (|frames| % 2 == 1) && s.writePos == |Assembled(frames)|
      && Accounted(frames, contents, s.crc, maxSize)
  {
    hide CrcField, OneTransfer, FlatWrite;
    OneTransferExtends(r.accepted, e.rx, r.state.tid, r.state.iface);
    AppendToTrace(r.accepted, e.rx);
    PrefixGrows(Assembled(r.accepted), Contents(r.buffer), maxSize, Effective(e.rx.frame), e.memory.granted);
  }

  lemma PrefixGrows(prefix: seq<Byte>, contents: seq<Byte>, maxSize: nat, data: seq<Byte>, granted: nat)
    requires prefix <= contents && WriteLength(maxSize, |prefix|, |data|, granted) == |data|
    ensures prefix + data <= FlatWrite(contents, maxSize, |prefix|, data, granted)
  {
  }

  /** Validation only counts errors. */
  lemma ValidatedKeepsInv(r: Machine, e: Event, maxSize: nat)
    requires Inv(r, maxSize)
    ensures Inv(r.(state := Validated(r.state, e.rx)), maxSize)
    ensures IsExpected(Validated(r.state, e.rx), e.rx) == IsExpected(r.state, e.rx)
    ensures Extends(r.(state := Validated(r.state, e.rx)), e, maxSize) == Extends(r, e, maxSize)
  {
    hide ValidationErrors;
  }

  /** The frames a completed transfer consists of. */
  function CompletedFrames(m: Machine, e: Event): seq<RxFrame> { Resumed(m, e.rx).accepted + [e.rx] }

  /** With nothing accepted there is nothing to account for. */
  lemma NothingIsAccounted(s: ReceiverState, buffer: Buffer, maxSize: nat)
    requires Consistent(s, buffer, maxSize) && s.writePos == 0 && !s.nextToggle
    ensures Inv(Machine(s, buffer, []), maxSize)
  {
  }

  lemma ReceiveWithoutTaking(v: Machine, e: Event, maxSize: nat)
    requires Inv(v, maxSize) && IsExpected(v.state, e.rx) && (!Extends(v, e, maxSize) || e.rx.frame.endOfTransfer)
    ensures
      var o := Receive(v.state, e.rx, v.buffer, maxSize, e.memory);
      Inv(Machine(o.state, o.buffer, []), maxSize)
  {
    hide Inv, AppendedBuffer, AveragedInterval, CrcField, IsStored;
    assert Consistent(v.state, v.buffer, maxSize) by {
      InvIsConsistent(v, maxSize);
    }
    ReceiveIsConsistent(v.state, e.rx, v.buffer, maxSize, e.memory);
    var o := Receive(v.state, e.rx, v.buffer, maxSize, e.memory);
    NothingIsAccounted(o.state, o.buffer, maxSize);
  }

  lemma InvIsConsistent(v: Machine, maxSize: nat)
    requires Inv(v, maxSize)
    ensures Consistent(v.state, v.buffer, maxSize)
  {
  }

  lemma ReceiveAndTake(v: Machine, e: Event, maxSize: nat)
    requires Inv(v, maxSize) && IsExpected(v.state, e.rx) && Extends(v, e, maxSize)
    ensures
      var o := Receive(v.state, e.rx, v.buffer, maxSize, e.memory);
      var frames := v.accepted + [e.rx];
      && o.buffer.Some? && OneTransfer(frames, v.state.tid, v.state.iface)
      && Accounted(frames, o.buffer.value, o.state.crc, maxSize)
      && (!e.rx.frame.endOfTransfer ==> Inv(Machine(o.state, o.buffer, frames), maxSize))
  {
    hide Accounted, OneTransfer, CrcField, AppendedBuffer, AveragedInterval, IsStored;
    ReceiveIsConsistent(v.state, e.rx, v.buffer, maxSize, e.memory);
    TakenFrameIsAccounted(v, e, maxSize);
  }

  lemma CompletionNeedsEnd(v: Machine, e: Event, maxSize: nat)
    requires Consistent(v.state, v.buffer, maxSize) && IsExpected(v.state, e.rx)
    ensures Receive(v.state, e.rx, v.buffer, maxSize, e.memory).result == Complete ==>
              e.rx.frame.endOfTransfer && Extends(v, e, maxSize)
  {
    hide Appended, AppendedBuffer, WithTimings, IsStored, CrcField;
  }

  /** Every reaction keeps the account, and a completed transfer is exactly the frames accounted for. */
  lemma StepIsAccounted(m: Machine, e: Event, maxSize: nat)
    requires Inv(m, maxSize)
    ensures Inv(Step(m, e, maxSize), maxSize)
    ensures
      var o := Reaction(m.state, e.rx, m.buffer, maxSize, e.memory);
      o.result == Complete ==> IsSound(Completion(CompletedFrames(m, e), Contents(o.buffer), o.state.crc), maxSize)
  {
    hide Receive, NeedsRestart, ValidationErrors, IsStored, Accounted, Restarted;
    if HasUsableTime(m.state, e.rx) {
      var r := Resumed(m, e.rx);
      ResumedKeepsInv(m, e.rx, maxSize);
      ValidatedKeepsInv(r, e, maxSize);
      if NeedsRestart(m.state, e.rx) && !e.rx.frame.startOfTransfer {
        RestartWithoutStart(m, e, maxSize);
      } else if IsExpected(r.state, e.rx) {
        var v := r.(state := Validated(r.state, e.rx));
        if Extends(v, e, maxSize) {
          ReceiveAndTake(v, e, maxSize);
        }
        if !Extends(v, e, maxSize) || e.rx.frame.endOfTransfer {
          ReceiveWithoutTaking(v, e, maxSize);
        }
        CompletionNeedsEnd(v, e, maxSize);
      }
    }
  }

  lemma RestartWithoutStart(m: Machine, e: Event, maxSize: nat)
    requires Inv(m, maxSize)
    ensures
      var s := Restarted(m.state, e.rx);
      Inv(Machine(s.(tid := Increment(s.tid)), None, []), maxSize)
  {
  }

  // ----- Runs -----

  /** A completed transfer: its frames, the buffer contents, and the checksum to compare with. */
  datatype Completion = Completion(frames: seq<RxFrame>, contents: seq<Byte>, crc: bv16)

  ghost predicate IsSound(c: Completion, maxSize: nat)
  {
    && c.frames != []
    && OneTransfer(c.frames, c.frames[0].frame.tid, c.frames[0].iface)
    && (forall i | 0 <= i < |c.frames| :: c.frames[i].frame.endOfTransfer == (i == |c.frames| - 1))
    && Accounted(c.frames, c.contents, c.crc, maxSize)
  }

  function Run(m: Machine, events: seq<Event>, maxSize: nat): (m': Machine)
    requires Consistent(m.state, m.buffer, maxSize)
    ensures Consistent(m'.state, m'.buffer, maxSize)
    decreases |events|
  {
    if events == [] then m else Run(Step(m, events[0], maxSize), events[1..], maxSize)
  }

  function Completions(m: Machine, events: seq<Event>, maxSize: nat): seq<Completion>
    requires Consistent(m.state, m.buffer, maxSize)
    decreases |events|
  {
    if events == [] then []
    else
      var e := events[0];
      var o := Reaction(m.state, e.rx, m.buffer, maxSize, e.memory);
      (if o.result == Complete then [Completion(CompletedFrames(m, e), Contents(o.buffer), o.state.crc)] else [])
      + Completions(Step(m, e, maxSize), events[1..], maxSize)
  }

  /** Over every run, the account is kept and all completed transfers are sound. */
  lemma {:induction false} RunIsAccounted(m: Machine, events: seq<Event>, maxSize: nat)
    requires Inv(m, maxSize)
    ensures Inv(Run(m, events, maxSize), maxSize)
    ensures forall c | c in Completions(m, events, maxSize) :: IsSound(c, maxSize)
    decreases |events|
  {
    hide IsSound, Step, Reaction, OneTransfer, Accounted;
    if events != [] {
      StepIsAccounted(m, events[0], maxSize);
      RunIsAccounted(Step(m, events[0], maxSize), events[1..], maxSize);
    }
  }

  /** A new receiver has nothing to account for. */
  lemma FreshIsAccounted(maxSize: nat)
    ensures Inv(Machine(FRESH_STATE, None, []), maxSize)
  {
  }

  // ----- Transfers whose start was missed -----

  predicate BeginsWithStart(frames: seq<RxFrame>) { frames == [] || frames[0].frame.startOfTransfer }

  /** A receiver between two transfers takes a frame that is not the first of one, as if it were. */
  predicate TakesWithoutStart(m: Machine, e: Event, maxSize: nat)
  {
    && HasUsableTime(m.state, e.rx) && !NeedsRestart(m.state, e.rx) && m.accepted == []
    && !e.rx.frame.startOfTransfer && IsExpected(m.state, e.rx) && Extends(m, e, maxSize)
  }

  predicate Completes(m: Machine, e: Event, maxSize: nat)
    requires Consistent(m.state, m.buffer, maxSize)
  {
    Reaction(m.state, e.rx, m.buffer, maxSize, e.memory).result == Complete
  }

  lemma CompletesWhenTaken(m: Machine, e: Event, maxSize: nat)
    requires Consistent(m.state, m.buffer, maxSize)
    ensures Completes(m, e, maxSize) <==>
      && HasUsableTime(m.state, e.rx) && !NeedsRestart(m.state, e.rx) && IsExpected(m.state, e.rx)
      && Extends(m, e, maxSize) && e.rx.frame.endOfTransfer
  {
    hide NeedsRestart, ValidationErrors, AppendedBuffer, AveragedInterval, CrcField, WithTimings;
  }

  /** A transfer is accepted without its start exactly if its first frame to be taken is not one. */
  lemma StartIsMissedIff(m: Machine, e: Event, maxSize: nat)
    requires Inv(m, maxSize) && BeginsWithStart(m.accepted)
    ensures TakesWithoutStart(m, e, maxSize) <==>
      || !BeginsWithStart(Step(m, e, maxSize).accepted)
      || (Completes(m, e, maxSize) && !BeginsWithStart(CompletedFrames(m, e)))
  {
    hide NeedsRestart, Reaction, Extends, Restarted, Completes;
    CompletesWhenTaken(m, e, maxSize);
  }

  /** A transfer that begins with its start has the checksum that is announced there. */
  lemma {:induction false} StartAnnounces(frames: seq<RxFrame>, tid: TransferId, iface: nat)
    requires OneTransfer(frames, tid, iface) && frames != [] && frames[0].frame.startOfTransfer
    ensures Announced(frames).Some?
  {
    hide CrcField;
    assert !IsGarbled(frames[0].frame);
    if |frames| > 1 {
      StartAnnounces(frames[..|frames| - 1], tid, iface);
    }
  }

  /** At no time is a frame taken without a start. */
  predicate NoStartIsMissed(m: Machine, events: seq<Event>, maxSize: nat)
    requires Consistent(m.state, m.buffer, maxSize)
    decreases |events|
  {
    || events == []
    || (!TakesWithoutStart(m, events[0], maxSize) && NoStartIsMissed(Step(m, events[0], maxSize), events[1..], maxSize))
  }

  /** Unless a start is missed, every completed transfer begins with its start and announces its checksum. */
  lemma {:induction false} CompletionsBeginWithStart(m: Machine, events: seq<Event>, maxSize: nat)
    requires Inv(m, maxSize) && BeginsWithStart(m.accepted) && NoStartIsMissed(m, events, maxSize)
    ensures forall c | c in Completions(m, events, maxSize) :: BeginsWithStart(c.frames) && Announced(c.frames).Some?
    decreases |events|
  {
    hide Step, Reaction, Accounted, Announced, TakesWithoutStart, OneTransfer;
    if events != [] {
      var e := events[0];
      StepIsAccounted(m, e, maxSize);
      StartIsMissedIff(m, e, maxSize);
      if Completes(m, e, maxSize) {
        var frames := CompletedFrames(m, e);
        StartAnnounces(frames, frames[0].frame.tid, frames[0].iface);
      }
      CompletionsBeginWithStart(Step(m, e, maxSize), events[1..], maxSize);
    }
  }

  /** A whole transfer 5, and the last frame of a transfer 6 of which nothing else arrived. */
  const WHOLE := Event(RxFrame(Frame(0, MessageBroadcast, 0, 1, 0, 5, true, true, false, []), 1, 0, 0), Memory(true, 7))
  const LAST := Event(RxFrame(Frame(0, MessageBroadcast, 0, 1, 0, 6, false, true, false, [7]), 2, 0, 0),
                      Memory(true, 7))

  const WAITING := Machine(FRESH_STATE.(prevTransferTs := 1, thisTransferTs := 1, tid := 6, iface := 0), None, [])

  lemma WholeIsReceived()
    ensures Step(Machine(FRESH_STATE, None, []), WHOLE, 7) == WAITING
    ensures !Completes(Machine(FRESH_STATE, None, []), WHOLE, 7)
  {
  }

  lemma LastIsReceived()
    ensures
      var o := Reaction(WAITING.state, LAST.rx, None, 7, LAST.memory);
      o.result == Complete && o.buffer == Some([7]) && o.state.crc == 0
  {
    var data: seq<Byte> := [7];
    assert Effective(LAST.rx.frame) == data && FlatWrite([], 7, 0, data, 7) == data;
  }

  /** A start can be missed: the lone last frame completes a transfer for which no checksum was announced. */
  lemma LoneLastFrameCompletes()
    ensures Completions(Machine(FRESH_STATE, None, []), [WHOLE, LAST], 7) == [Completion([LAST.rx], [7], 0)]
    ensures Announced([LAST.rx]) == None
  {
    hide Step, Reaction, CompletedFrames;
    WholeIsReceived();
    LastIsReceived();
    assert [WHOLE, LAST][1..] == [LAST] && [LAST][1..] == [] && [LAST.rx][..0] == [];
    assert CompletedFrames(WAITING, LAST) == [LAST.rx] by { LastIsTheOnlyFrame(); }
    assert Completions(WAITING, [LAST], 7) ==
      [Completion([LAST.rx], [7], 0)] + Completions(Step(WAITING, LAST, 7), [], 7);
  }

  lemma LastIsTheOnlyFrame()
    ensures CompletedFrames(WAITING, LAST) == [LAST.rx]
  {
  }
}
