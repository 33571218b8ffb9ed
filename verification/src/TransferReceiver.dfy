/** Reassembly of transfers from frames: the receiving state machine of one (source node, transfer type) pair. */
module Receiver {
  import opened Transfer
  import opened Options
  import opened Arithmetic
  import opened Frames
  import opened TransferBuffer

  const MIN_INTERVAL_MSEC := 1
  const MAX_INTERVAL_MSEC := 0xFFFF
  const DEFAULT_INTERVAL_MSEC := 1000
  const TID_TIMEOUT_USEC := 1000 * 1000
  const IFACE_NOT_SET := 3
  const CRC_BYTES := 2

  datatype ReceiverState = ReceiverState(
    prevTransferTs: nat,
    thisTransferTs: nat,
    firstFrameTs: nat,
    intervalMsec: nat,
    crc: bv16,
    writePos: nat,
    tid: TransferId,
    nextToggle: bool,
    iface: nat,
    errors: nat)

  datatype ResultCode = NotComplete | Complete | SingleFrame

  /** What the memory pool grants while one frame is handled: a buffer, and so many bytes behind it. */
  datatype Memory = Memory(created: bool, granted: nat)

  /** The buffer of this receiver, if it has one, holding its flat contents. */
  type Buffer = Option<seq<Byte>>

  datatype Outcome = Outcome(state: ReceiverState, buffer: Buffer, result: ResultCode)

  const FRESH_STATE := ReceiverState(0, 0, 0, DEFAULT_INTERVAL_MSEC, 0, 0, 0, false, IFACE_NOT_SET, 0)

  function BufferLength(buffer: Buffer): nat { if buffer.Some? then |buffer.value| else 0 }

  /** What every operation keeps: the write position is backed, and nothing exceeds the buffer limit. */
  predicate Consistent(s: ReceiverState, buffer: Buffer, maxSize: nat)
  {
    && s.writePos <= BufferLength(buffer) <= maxSize
    && MIN_INTERVAL_MSEC <= s.intervalMsec <= MAX_INTERVAL_MSEC
    && s.iface <= IFACE_NOT_SET && s.errors < 32
  }

  // ----- Small steps -----

  function WithError(s: ReceiverState): ReceiverState { s.(errors := (s.errors + 1) % 32) }

  predicate IsInitialized(s: ReceiverState) { s.iface != IFACE_NOT_SET }

  predicate IsTimedOut(s: ReceiverState, ts: nat) { ts - s.thisTransferTs > TID_TIMEOUT_USEC }

  /** The transfer interval is a running average with weight 1/8, over intervals clamped to 16 bits. */
  function AveragedInterval(intervalMsec: nat, elapsedUsec: nat): nat
  {
    (intervalMsec * 7 + Max(Min(elapsedUsec / 1000, MAX_INTERVAL_MSEC), MIN_INTERVAL_MSEC)) / 8
  }

  /** The interval after a transfer that started at `start`, if the one before started at `prev`. */
  function IntervalAfter(prev: nat, intervalMsec: nat, start: nat): nat
  {
    if prev != 0 && start != 0 && start >= prev then AveragedInterval(intervalMsec, start - prev) else intervalMsec
  }

  function WithTimings(s: ReceiverState): ReceiverState
  {
    s.(prevTransferTs := s.thisTransferTs,
       intervalMsec := IntervalAfter(s.prevTransferTs, s.intervalMsec, s.thisTransferTs))
  }

  function ReadyForNext(s: ReceiverState): ReceiverState
  {
    s.(tid := Increment(s.tid), nextToggle := false, writePos := 0)
  }

  predicate IsGarbled(f: Frame)
  {
    f.startOfTransfer && ((!f.endOfTransfer && |f.payload| < CRC_BYTES) || f.toggle)
  }

  predicate IsExpected(s: ReceiverState, f: RxFrame)
  {
    s.iface == f.iface && !IsGarbled(f.frame) && f.frame.toggle == s.nextToggle && f.frame.tid == s.tid
  }

  /** The number of errors that validation counts; an unexpected start of transfer is counted but not refused. */
  function ValidationErrors(s: ReceiverState, f: RxFrame): nat
  {
    if s.iface != f.iface then 0
    else if IsGarbled(f.frame) then 1
    else
      (if f.frame.startOfTransfer && s.writePos > 0 then 1 else 0) +
      (if f.frame.toggle != s.nextToggle || f.frame.tid != s.tid then 1 else 0)
  }

  function Validated(s: ReceiverState, f: RxFrame): ReceiverState
  {
    s.(errors := (s.errors + ValidationErrors(s, f)) % 32)
  }

  /** The part of a frame that belongs to the transfer payload: the first frame starts with the checksum. */
  function Effective(f: Frame): seq<Byte>
  {
    if f.startOfTransfer then (if |f.payload| < CRC_BYTES then [] else f.payload[CRC_BYTES..]) else f.payload
  }

  /** The transfer checksum in a first frame, least significant byte first. */
  function CrcField(payload: seq<Byte>): bv16
    requires |payload| >= CRC_BYTES
  {
    (payload[0] as bv16) | ((payload[1] as bv16) << 8)
  }

  /** The state after the timestamps of a first frame have been noted. */
  function WithFirstFrame(s: ReceiverState, f: RxFrame): ReceiverState
  {
    if f.frame.startOfTransfer then s.(thisTransferTs := f.monotonic, firstFrameTs := f.utc) else s
  }

  predicate IsStored(s: ReceiverState, f: RxFrame, maxSize: nat, memory: Memory)
  {
    var data := Effective(f.frame);
    WriteLength(maxSize, s.writePos, |data|, memory.granted) == |data|
  }

  /** The state after the checksum and the payload of a frame of a longer transfer have been taken. */
  function Appended(s: ReceiverState, f: RxFrame): ReceiverState
    requires !IsGarbled(f.frame)
  {
    WithChecksum(s, f).(writePos := s.writePos + |Effective(f.frame)|, nextToggle := !s.nextToggle)
  }

  function WithChecksum(s: ReceiverState, f: RxFrame): ReceiverState
    requires !IsGarbled(f.frame)
  {
    var s1 := WithFirstFrame(s, f);
    if f.frame.startOfTransfer && !f.frame.endOfTransfer then s1.(crc := CrcField(f.frame.payload)) else s1
  }

  function Contents(buffer: Buffer): seq<Byte> { if buffer.Some? then buffer.value else [] }

  function AppendedBuffer(s: ReceiverState, f: RxFrame, buffer: Buffer, maxSize: nat, memory: Memory): seq<Byte>
    requires Consistent(s, buffer, maxSize)
  {
    FlatWrite(Contents(buffer), maxSize, s.writePos, Effective(f.frame), memory.granted)
  }

  /** Receives a frame that has been validated. */
  function Receive(s: ReceiverState, f: RxFrame, buffer: Buffer, maxSize: nat, memory: Memory): Outcome
    requires Consistent(s, buffer, maxSize) && !IsGarbled(f.frame)
  {
    if f.frame.startOfTransfer && f.frame.endOfTransfer then
      Outcome(ReadyForNext(WithTimings(WithFirstFrame(s, f))).(crc := 0), None, SingleFrame)
    else if buffer.None? && !memory.created then
      Outcome(WithError(ReadyForNext(WithFirstFrame(s, f))), None, NotComplete)
    else if !IsStored(s, f, maxSize, memory) then
      Outcome(WithError(ReadyForNext(WithChecksum(s, f))), None, NotComplete)
    else
      var buffer' := Some(AppendedBuffer(s, f, buffer, maxSize, memory));
      if f.frame.endOfTransfer then Outcome(ReadyForNext(WithTimings(Appended(s, f))), buffer', Complete)
      else Outcome(Appended(s, f), buffer', NotComplete)
  }

  predicate HasUsableTime(s: ReceiverState, f: RxFrame)
  {
    f.monotonic != 0 && f.monotonic >= s.prevTransferTs && f.monotonic >= s.thisTransferTs
  }

  predicate NeedsRestart(s: ReceiverState, f: RxFrame)
  {
    || !IsInitialized(s)
    || IsTimedOut(s, f.monotonic)
    || (f.iface == s.iface && f.frame.startOfTransfer && ForwardDistance(f.frame.tid, s.tid) > 1)
    || (f.monotonic - s.thisTransferTs > s.intervalMsec * 1000 && f.frame.startOfTransfer
        && ForwardDistance(s.tid, f.frame.tid) < TRANSFER_ID_HALF)
  }

  function Restarted(s: ReceiverState, f: RxFrame): ReceiverState
  {
    var s1 := if IsInitialized(s) && s.tid != f.frame.tid then WithError(s) else s;
    s1.(iface := f.iface % 4, tid := f.frame.tid, nextToggle := false, writePos := 0, crc := 0)
  }

  /** The reaction to a frame. */
  function Reaction(s: ReceiverState, f: RxFrame, buffer: Buffer, maxSize: nat, memory: Memory): Outcome
    requires Consistent(s, buffer, maxSize)
  {
    if !HasUsableTime(s, f) then Outcome(s, buffer, NotComplete)
    else
      var restart := NeedsRestart(s, f);
      var s1 := if restart then Restarted(s, f) else s;
      var buffer1 := if restart then None else buffer;
      if restart && !f.frame.startOfTransfer then Outcome(s1.(tid := Increment(s1.tid)), None, NotComplete)
      else if !IsExpected(s1, f) then Outcome(Validated(s1, f), buffer1, NotComplete)
      else Receive(Validated(s1, f), f, buffer1, maxSize, memory)
  }

  lemma AveragedIntervalInRange(intervalMsec: nat, elapsedUsec: nat)
    requires MIN_INTERVAL_MSEC <= intervalMsec <= MAX_INTERVAL_MSEC
    ensures MIN_INTERVAL_MSEC <= AveragedInterval(intervalMsec, elapsedUsec) <= MAX_INTERVAL_MSEC
  {
  }

  /**
    * The running average: seven parts of the old interval and one part of the new one in milliseconds, which counts as
    * one at least and as 65535 at most. It lies between the two.
    */
  lemma IntervalIsAveraged(prev: nat, intervalMsec: nat, start: nat)
    requires 0 < prev <= start && 1 <= intervalMsec <= 65535
    ensures
      var ms := (start - prev) / 1000;
      var new' := if ms < 1 then 1 else if ms > 65535 then 65535 else ms;
      var average := IntervalAfter(prev, intervalMsec, start);
      && 8 * average <= 7 * intervalMsec + new' < 8 * average + 8
      && (intervalMsec <= average <= new' || new' <= average <= intervalMsec)
  {
  }

  lemma TimingsAreConsistent(s: ReceiverState, buffer: Buffer, maxSize: nat)
    requires Consistent(s, buffer, maxSize)
    ensures Consistent(WithTimings(s), buffer, maxSize)
    ensures Consistent(ReadyForNext(s), buffer, maxSize)
  {
    hide AveragedInterval;
    AveragedIntervalInRange(s.intervalMsec, Max(s.thisTransferTs - s.prevTransferTs, 0));
  }

  lemma AppendIsConsistent(s: ReceiverState, f: RxFrame, buffer: Buffer, maxSize: nat, memory: Memory)
    requires Consistent(s, buffer, maxSize) && !IsGarbled(f.frame) && IsStored(s, f, maxSize, memory)
    ensures Consistent(Appended(s, f), Some(AppendedBuffer(s, f, buffer, maxSize, memory)), maxSize)
  {
    hide FlatWrite, CrcField;
  }

  lemma ReceiveIsConsistent(s: ReceiverState, f: RxFrame, buffer: Buffer, maxSize: nat, memory: Memory)
    requires Consistent(s, buffer, maxSize) && !IsGarbled(f.frame)
    ensures
      var o := Receive(s, f, buffer, maxSize, memory);
      Consistent(o.state, o.buffer, maxSize)
  {
    hide WithTimings, Appended, AppendedBuffer, CrcField, Effective;
    if f.frame.startOfTransfer && f.frame.endOfTransfer {
      TimingsAreConsistent(WithFirstFrame(s, f), buffer, maxSize);
    } else if IsStored(s, f, maxSize, memory) {
      AppendIsConsistent(s, f, buffer, maxSize, memory);
      TimingsAreConsistent(Appended(s, f), Some(AppendedBuffer(s, f, buffer, maxSize, memory)), maxSize);
    }
  }

  lemma ReactionIsConsistent(s: ReceiverState, f: RxFrame, buffer: Buffer, maxSize: nat, memory: Memory)
    requires Consistent(s, buffer, maxSize)
    ensures
      var o := Reaction(s, f, buffer, maxSize, memory);
      Consistent(o.state, o.buffer, maxSize)
  {
    hide Receive, NeedsRestart, ValidationErrors;
    var restart := NeedsRestart(s, f);
    var s1 := if restart then Restarted(s, f) else s;
    var buffer1 := if restart then None else buffer;
    if IsExpected(s1, f) {
      ReceiveIsConsistent(Validated(s1, f), f, buffer1, maxSize, memory);
    }
  }

  lemma ReceiveTimes(s: ReceiverState, f: RxFrame, buffer: Buffer, maxSize: nat, memory: Memory)
    requires Consistent(s, buffer, maxSize) && !IsGarbled(f.frame)
    ensures
      var t := Receive(s, f, buffer, maxSize, memory);
      && (t.result == NotComplete ==>
           t.state.prevTransferTs == s.prevTransferTs && t.state.intervalMsec == s.intervalMsec)
      && (t.result == Complete ==>
           && !f.frame.startOfTransfer
           && t.state.intervalMsec == IntervalAfter(s.prevTransferTs, s.intervalMsec, s.thisTransferTs))
  {
    hide IntervalAfter, AppendedBuffer, CrcField, IsStored, Consistent, Effective;
  }

  /** Times are averaged only when a transfer is complete. */
  lemma ReactionTimes(s: ReceiverState, f: RxFrame, buffer: Buffer, maxSize: nat, memory: Memory)
    requires Consistent(s, buffer, maxSize)
    ensures
      var t := Reaction(s, f, buffer, maxSize, memory);
      && (t.result == NotComplete ==>
           t.state.prevTransferTs == s.prevTransferTs && t.state.intervalMsec == s.intervalMsec)
      && (t.result == Complete ==>
           t.state.intervalMsec == IntervalAfter(s.prevTransferTs, s.intervalMsec, s.thisTransferTs))
  {
    hide IntervalAfter, NeedsRestart, ValidationErrors, Receive;
    var restart := NeedsRestart(s, f);
    var s1 := if restart then Restarted(s, f) else s;
    if IsExpected(s1, f) {
      ReceiveTimes(Validated(s1, f), f, if restart then None else buffer, maxSize, memory);
    }
  }

  // ----- Errors -----

  lemma ReceiveErrors(s: ReceiverState, f: RxFrame, buffer: Buffer, maxSize: nat, memory: Memory)
    requires Consistent(s, buffer, maxSize) && !IsGarbled(f.frame)
    ensures
      var failed := !(f.frame.startOfTransfer && f.frame.endOfTransfer)
                    && ((buffer.None? && !memory.created) || !IsStored(s, f, maxSize, memory));
      Receive(s, f, buffer, maxSize, memory).state.errors == if failed then (s.errors + 1) % 32 else s.errors
  {
    hide AppendedBuffer, AveragedInterval, CrcField, IsStored;
  }

  /**
    * Errors are counted modulo 32. On the interface that is followed, a garbled frame is one, and so are a start in the
    * middle of a transfer, a frame out of sequence, and a lack of memory.
    */
  lemma DeviationsAreCounted(s: ReceiverState, f: RxFrame, buffer: Buffer, maxSize: nat, memory: Memory)
    requires Consistent(s, buffer, maxSize) && HasUsableTime(s, f) && !NeedsRestart(s, f) && s.iface == f.iface
    ensures
      var start, end, toggle, len := f.frame.startOfTransfer, f.frame.endOfTransfer, f.frame.toggle, |f.frame.payload|;
      var isGarbled := start && (toggle || (!end && len < 2));
      var isRepeated := start && s.writePos > 0;
      var isOutOfSequence := toggle != s.nextToggle || f.frame.tid != s.tid;
      var fails := !(start && end) && ((buffer.None? && !memory.created) || !IsStored(s, f, maxSize, memory));
      Reaction(s, f, buffer, maxSize, memory).state.errors ==
        (s.errors + if isGarbled then 1
                    else (if isRepeated then 1 else 0) + (if isOutOfSequence || fails then 1 else 0)) % 32
  {
    hide NeedsRestart, Receive, IsStored;
    if IsExpected(s, f) {
      ReceiveErrors(Validated(s, f), f, buffer, maxSize, memory);
      StoredAfterValidation(s, f, maxSize, memory);
    }
  }

  lemma StoredAfterValidation(s: ReceiverState, f: RxFrame, maxSize: nat, memory: Memory)
    ensures IsStored(Validated(s, f), f, maxSize, memory) == IsStored(s, f, maxSize, memory)
  {
  }

  /** Frames over other interfaces count as no error, and a restart as one if it leaves a transfer out. */
  lemma LossIsCounted(s: ReceiverState, f: RxFrame, buffer: Buffer, maxSize: nat, memory: Memory)
    requires Consistent(s, buffer, maxSize) && HasUsableTime(s, f) && f.iface < IFACE_NOT_SET
    requires f.frame.startOfTransfer && f.frame.endOfTransfer && !f.frame.toggle
    ensures
      var o := Reaction(s, f, buffer, maxSize, memory);
      if NeedsRestart(s, f) then
        o.state.errors == (s.errors + if s.iface != IFACE_NOT_SET && s.tid != f.frame.tid then 1 else 0) % 32
      else s.iface != f.iface ==> o == Outcome(s, buffer, NotComplete)
  {
    hide NeedsRestart, AveragedInterval;
  }

  // ----- Frames in the middle of nothing -----

  /** A frame that neither starts a transfer nor continues the current one changes nothing but the count of errors. */
  lemma StrayFrameIsHarmless(s: ReceiverState, f: RxFrame, buffer: Buffer, maxSize: nat, memory: Memory)
    requires Consistent(s, buffer, maxSize) && IsInitialized(s) && !IsTimedOut(s, f.monotonic)
    requires !f.frame.startOfTransfer
    requires s.iface != f.iface || f.frame.toggle != s.nextToggle || f.frame.tid != s.tid
    ensures
      var o := Reaction(s, f, buffer, maxSize, memory);
      o == Outcome(s.(errors := o.state.errors), buffer, NotComplete)
  {
  }

  /** If it comes to a receiver that is new or has timed out, everything is forgotten and the next transfer awaited. */
  lemma StrayFrameForgetsAll(s: ReceiverState, f: RxFrame, buffer: Buffer, maxSize: nat, memory: Memory)
    requires Consistent(s, buffer, maxSize) && (!IsInitialized(s) || IsTimedOut(s, f.monotonic)) && HasUsableTime(s, f)
    requires !f.frame.startOfTransfer && f.iface < IFACE_NOT_SET
    ensures
      var o := Reaction(s, f, buffer, maxSize, memory);
      && o.result == NotComplete && o.buffer == None
      && o.state == s.(tid := Increment(f.frame.tid), iface := f.iface, nextToggle := false, writePos := 0, crc := 0,
                       errors := o.state.errors)
  {
  }

  // ----- The receiver object -----

  class TransferReceiver {
    var prevTransferTs: nat
    var thisTransferTs: nat
    var firstFrameTs: nat
    var intervalMsec: nat
    var crc: bv16
    var writePos: nat
    var tid: TransferId
    var nextToggle: bool
    var iface: nat
    var errors: nat

    ghost function State(): ReceiverState
      reads this
    {
      ReceiverState(prevTransferTs, thisTransferTs, firstFrameTs, intervalMsec, crc, writePos, tid, nextToggle, iface,
                    errors)
    }

    constructor ()
      ensures State() == FRESH_STATE
    {
      prevTransferTs, thisTransferTs, firstFrameTs := 0, 0, 0;
      intervalMsec, crc, writePos := DEFAULT_INTERVAL_MSEC, 0, 0;
      tid, nextToggle, iface, errors := 0, false, IFACE_NOT_SET, 0;
    }

    method RegisterError()
      modifies this`errors
      ensures State() == WithError(old(State()))
    {
      errors := (errors + 1) % 32;
    }

    method UpdateTransferTimings()
      modifies this`prevTransferTs, this`intervalMsec
      ensures State() == WithTimings(old(State()))
    {
      var prevPrevTs := prevTransferTs;
      prevTransferTs := thisTransferTs;
      if prevPrevTs != 0 && prevTransferTs != 0 && prevTransferTs >= prevPrevTs {
        var interval := (prevTransferTs - prevPrevTs) / 1000;
        interval := Min(interval, MAX_INTERVAL_MSEC);
        interval := Max(interval, MIN_INTERVAL_MSEC);
        intervalMsec := (intervalMsec * 7 + interval) / 8;
      }
    }

    method PrepareForNextTransfer()
      modifies this`tid, this`nextToggle, this`writePos
      ensures State() == ReadyForNext(old(State()))
    {
      tid := Increment(tid);
      nextToggle := false;
      writePos := 0;
    }

    method Validate(f: RxFrame) returns (ok: bool)
      requires errors < 32
      modifies this`errors
      ensures ok == old(IsExpected(State(), f)) && State() == Validated(old(State()), f)
    {
      if iface != f.iface {
        return false;
      }
      if f.frame.startOfTransfer && !f.frame.endOfTransfer && |f.frame.payload| < CRC_BYTES {
        RegisterError();
        return false;
      }
      if f.frame.startOfTransfer && f.frame.toggle {
        RegisterError();
        return false;
      }
      if f.frame.startOfTransfer && writePos > 0 {
        RegisterError();
      }
      if f.frame.toggle != nextToggle {
        RegisterError();
        return false;
      }
      if f.frame.tid != tid {
        RegisterError();
        return false;
      }
      return true;
    }

    /**
      * Takes the checksum of a first frame, and stores the payload; the buffer is only changed as far as memory
      * allows.
      */
    method WritePayload(f: RxFrame, contents: seq<Byte>, maxSize: nat, memory: Memory)
      returns (success: bool, contents': seq<Byte>)
      requires Consistent(State(), Some(contents), maxSize) && !IsGarbled(f.frame)
      requires !(f.frame.startOfTransfer && f.frame.endOfTransfer)
      modifies this`crc, this`writePos
      ensures contents' == FlatWrite(contents, maxSize, old(writePos), Effective(f.frame), memory.granted)
      ensures success == old(IsStored(State(), f, maxSize, memory))
      ensures crc == if f.frame.startOfTransfer then CrcField(f.frame.payload) else old(crc)
      ensures writePos == if success then old(writePos) + |Effective(f.frame)| else old(writePos)
    {
      var data := f.frame.payload;
      if f.frame.startOfTransfer {
        crc := f.frame.payload[0] as bv16;
        crc := crc | ((f.frame.payload[1] as bv16) << 8);
        data := f.frame.payload[CRC_BYTES..];
      }
      contents' := FlatWrite(contents, maxSize, writePos, data, memory.granted);
      var res := WriteLength(maxSize, writePos, |data|, memory.granted);
      success := res == |data|;
      if success {
        writePos := writePos + |data|;
      }
    }

    method ReceiveValidated(f: RxFrame, buffer: Buffer, maxSize: nat, memory: Memory)
      returns (result: ResultCode, buffer': Buffer)
      requires Consistent(State(), buffer, maxSize) && !IsGarbled(f.frame)
      modifies this
      ensures Outcome(State(), buffer', result) == Receive(old(State()), f, buffer, maxSize, memory)
    {
      hide FlatWrite, CrcField, AveragedInterval;
      if f.frame.startOfTransfer {
        thisTransferTs := f.monotonic;
        firstFrameTs := f.utc;
      }
      if f.frame.startOfTransfer && f.frame.endOfTransfer {
        UpdateTransferTimings();
        PrepareForNextTransfer();
        crc := 0;
        return SingleFrame, None;
      }
      if buffer.None? && !memory.created {
        PrepareForNextTransfer();
        RegisterError();
        return NotComplete, None;
      }
      var success, contents := WritePayload(f, Contents(buffer), maxSize, memory);
      if !success {
        PrepareForNextTransfer();
        RegisterError();
        return NotComplete, None;
      }
      nextToggle := !nextToggle;
      if f.frame.endOfTransfer {
        UpdateTransferTimings();
        PrepareForNextTransfer();
        return Complete, Some(contents);
      }
      return NotComplete, Some(contents);
    }

    /** The restart decision. */
    method NeedRestart(f: RxFrame) returns (needed: bool)
      ensures needed == NeedsRestart(State(), f)
    {
      var notInitialized := iface == IFACE_NOT_SET;
      var tidTimedOut := f.monotonic - thisTransferTs > TID_TIMEOUT_USEC;
      var sameIface := f.iface == iface;
      var firstFrame := f.frame.startOfTransfer;
      var nonWrappedTid := ForwardDistance(tid, f.frame.tid) < TRANSFER_ID_HALF;
      var notPreviousTid := ForwardDistance(f.frame.tid, tid) > 1;
      var ifaceSwitchAllowed := f.monotonic - thisTransferTs > intervalMsec * 1000;
      needed := notInitialized || tidTimedOut || (sameIface && firstFrame && notPreviousTid)
                || (ifaceSwitchAllowed && firstFrame && nonWrappedTid);
    }

    method Restart(f: RxFrame)
      modifies this
      ensures State() == Restarted(old(State()), f)
    {
      if iface != IFACE_NOT_SET && tid != f.frame.tid {
        RegisterError();
      }
      iface, tid, nextToggle, writePos, crc := f.iface % 4, f.frame.tid, false, 0, 0;
    }

    /** The state machine: frames go in, and the buffer accessor is passed along as a value. */
    method AddFrame(f: RxFrame, buffer: Buffer, maxSize: nat, memory: Memory)
      returns (result: ResultCode, buffer': Buffer)
      requires Consistent(State(), buffer, maxSize)
      modifies this
      ensures Outcome(State(), buffer', result) == Reaction(old(State()), f, buffer, maxSize, memory)
      ensures Consistent(State(), buffer', maxSize)
    {
      hide Receive, ValidationErrors, NeedsRestart;
      ReactionIsConsistent(State(), f, buffer, maxSize, memory);
      if f.monotonic == 0 || f.monotonic < prevTransferTs || f.monotonic < thisTransferTs {
        return NotComplete, buffer;
      }
      buffer' := buffer;
      var needed := NeedRestart(f);
      if needed {
        Restart(f);
        buffer' := None;
        if !f.frame.startOfTransfer {
          tid := Increment(tid);
          return NotComplete, buffer';
        }
      }
      var ok := Validate(f);
      if !ok {
        return NotComplete, buffer';
      }
      result, buffer' := ReceiveValidated(f, buffer', maxSize, memory);
    }
  }
}
