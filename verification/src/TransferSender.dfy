/** Segmentation of a payload into frames. */
module Sender {
  import opened Transfer
  import opened Arithmetic
  import opened Frames
  import opened TransferCrc
  import Can
  import Receiver

  const ERR_PASSIVE_MODE := 11
  const ERR_MEMORY := 3

  /** What all frames of a transfer share. */
  datatype Header = Header(priority: Octet, transferType: TransferType, dataTypeId: Can.CanId, src: NodeId, dst: NodeId,
                           tid: TransferId)

  predicate IsValidHeader(h: Header)
  {
    && IsUnicast(h.src) && IsValidNode(h.dst) && h.src != h.dst
    && h.transferType != NumTransferTypes && (h.transferType == MessageBroadcast <==> IsBroadcast(h.dst))
    && h.dataTypeId <= MaxDataTypeId(h.transferType) && h.priority < 32
  }

  function FrameOf(h: Header, start: bool, end: bool, toggle: bool, payload: seq<Byte>): Frame
  {
    Frame(h.priority, h.transferType, h.dataTypeId, h.src, h.dst, h.tid, start, end, toggle, payload)
  }

  // ----- The frames of a transfer -----

  /** A transfer of more than seven bytes takes as many frames as seven-byte pieces hold payload and checksum. */
  function FrameCount(len: nat): nat
  {
    if len <= PAYLOAD_CAPACITY then 1 else (len + Receiver.CRC_BYTES + PAYLOAD_CAPACITY - 1) / PAYLOAD_CAPACITY
  }

  /** The number of payload bytes in the first `k` frames. */
  function Sent(len: nat, k: nat): nat
  {
    if k == 0 then 0 else Min(len, PAYLOAD_CAPACITY * k - Receiver.CRC_BYTES)
  }

  function FrameAt(h: Header, payload: seq<Byte>, crc: bv16, k: nat): Frame
    requires |payload| > PAYLOAD_CAPACITY
  {
    var from, to := Sent(|payload|, k), Sent(|payload|, k + 1);
    if k == 0 then FrameOf(h, true, false, false, [LowByte(crc), HighByte(crc)] + payload[..to])
    else FrameOf(h, false, to == |payload|, k % 2 == 1, payload[from..to])
  }

  function TransferFrames(h: Header, payload: seq<Byte>, crcBase: bv16): seq<Frame>
  {
    if |payload| <= PAYLOAD_CAPACITY then [FrameOf(h, true, true, false, payload)]
    else seq(FrameCount(|payload|), k requires k >= 0 => FrameAt(h, payload, Crc(crcBase, payload), k))
  }

  /** Every frame but the last is full, and the last frame ends with the payload. */
  lemma LastFrame(len: nat, k: nat)
    requires len > PAYLOAD_CAPACITY
    ensures FrameCount(len) >= 2
    ensures k < FrameCount(len) - 1 ==> Sent(len, k + 1) == PAYLOAD_CAPACITY * (k + 1) - Receiver.CRC_BYTES < len
    ensures k == FrameCount(len) - 1 ==> Sent(len, k + 1) == len && Sent(len, k) < len
  {
  }

  lemma FirstFrameIsFull(len: nat)
    requires len > PAYLOAD_CAPACITY
    ensures Sent(len, 1) == PAYLOAD_CAPACITY - Receiver.CRC_BYTES && FrameCount(len) >= 2
  {
  }

  /** The checksum travels in the first two bytes. */
  lemma CrcFieldRecovered(crc: bv16, rest: seq<Byte>)
    ensures Receiver.CrcField([LowByte(crc), HighByte(crc)] + rest) == crc
  {
  }

  /** The frame object rewritten to carry what follows `offset`. */
  function Rewritten(frame: Frame, payload: seq<Byte>, offset: nat): Frame
    requires offset <= |payload|
  {
    var to := Min(offset + PAYLOAD_CAPACITY, |payload|);
    frame.(startOfTransfer := false, toggle := !frame.toggle, payload := payload[offset..to],
           endOfTransfer := frame.endOfTransfer || to == |payload|)
  }

  lemma RewrittenIsNext(h: Header, payload: seq<Byte>, crc: bv16, k: nat)
    requires |payload| > PAYLOAD_CAPACITY && k + 1 < FrameCount(|payload|)
    ensures Rewritten(FrameAt(h, payload, crc, k), payload, Sent(|payload|, k + 1)) == FrameAt(h, payload, crc, k + 1)
    ensures Sent(|payload|, k + 2) == Min(Sent(|payload|, k + 1) + PAYLOAD_CAPACITY, |payload|)
    ensures !FrameAt(h, payload, crc, k).endOfTransfer
  {
    LastFrame(|payload|, k);
  }

  lemma OnlyLastFrameEnds(h: Header, payload: seq<Byte>, crc: bv16, k: nat)
    requires |payload| > PAYLOAD_CAPACITY && k < FrameCount(|payload|)
    ensures FrameAt(h, payload, crc, k).endOfTransfer <==> k == FrameCount(|payload|) - 1
  {
    LastFrame(|payload|, k);
  }

  /** What travels: the checksum, least significant byte first, and the payload. */
  function Stream(payload: seq<Byte>, crc: bv16): (all: seq<Byte>)
    ensures |all| == |payload| + 2
  {
    [(crc & 0xFF) as bv8, (crc >> 8) as bv8] + payload
  }

  lemma StreamParts(payload: seq<Byte>, crc: bv16)
    ensures Stream(payload, crc) == [LowByte(crc), HighByte(crc)] + payload
  {
  }

  lemma PieceOfStream(payload: seq<Byte>, low: Byte, high: Byte, k: nat)
    requires |payload| > 7 && k < FrameCount(|payload|)
    ensures 7 * k <= |payload| + 2
    ensures
      var from, to := Sent(|payload|, k), Sent(|payload|, k + 1);
      ([low, high] + payload)[7 * k..Min(7 * k + 7, |payload| + 2)] ==
        if k == 0 then [low, high] + payload[..to] else payload[from..to]
  {
  }

  /**
    * The format of a transfer of more than seven bytes. The stream is cut into pieces of seven bytes, the last one
    * excepted, and each piece makes a frame; the first is marked as the start, the last as the end, and the toggle bit
    * alternates from zero.
    */
  lemma TransferFormat(h: Header, payload: seq<Byte>, crcBase: bv16, k: nat)
    requires |payload| > 7
    ensures
      var frames, all := TransferFrames(h, payload, crcBase), Stream(payload, Crc(crcBase, payload));
      && |frames| == (|all| + 6) / 7
      && (k < |frames| ==>
           frames[k] == Frame(h.priority, h.transferType, h.dataTypeId, h.src, h.dst, h.tid, k == 0,
                              k == |frames| - 1, k % 2 == 1, all[7 * k..Min(7 * k + 7, |all|)]))
  {
    var crc := Crc(crcBase, payload);
    hide Crc, Stream, LowByte, HighByte;
    if k < FrameCount(|payload|) {
      LastFrame(|payload|, k);
      StreamParts(payload, crc);
      PieceOfStream(payload, LowByte(crc), HighByte(crc), k);
    }
  }

  // ----- The sender -----

  /** The number of frames that get out before the dispatcher first fails. */
  function Dispatched(results: nat -> int, count: nat): (n: nat)
    ensures n <= count
    ensures forall k | 0 <= k < n :: results(k) >= 0
    ensures n < count ==> results(n) < 0
  {
    if count == 0 then 0
    else
      var n := Dispatched(results, count - 1);
      if n < count - 1 || results(n) < 0 then n else count
  }

  lemma DispatchedIsUnique(results: nat -> int, count: nat, n: nat)
    requires n <= count && (forall k | 0 <= k < n :: results(k) >= 0) && (n < count ==> results(n) < 0)
    ensures Dispatched(results, count) == n
  {
  }

  /**
    * The result of sending and the frames handed to the dispatcher, whose result for each frame is given: an anonymous
    * node may send single-frame messages only, the frames go out in order up to the first failure, and a longer
    * transfer that gets through returns their number.
    */
  ghost predicate IsSent(crcBase: bv16, allowAnonymous: bool, h: Header, payload: seq<Byte>, results: nat -> int,
                         res: int, sent: seq<Frame>)
  {
    var frames := TransferFrames(h, payload, crcBase);
    var n := Dispatched(results, |frames|);
    if !IsUnicast(h.src)
       && !(allowAnonymous && h.transferType == MessageBroadcast && |payload| <= PAYLOAD_CAPACITY) then
      res == -ERR_PASSIVE_MODE && sent == []
    else if |payload| <= PAYLOAD_CAPACITY then
      res == results(0) && sent == frames
    else if n < |frames| then
      res == results(n) && sent == frames[..n + 1]
    else
      res == |frames| && sent == frames
  }

  /**
    * What goes out. A node without an identifier sends nothing but single-frame messages, if it may. Otherwise the
    * frames go out in order up to the first that fails, which then is the result; if none does, it is the result of the
    * only frame or the number of frames.
    */
  lemma SentUpToFailure(crcBase: bv16, allowAnonymous: bool, h: Header, payload: seq<Byte>, results: nat -> int,
                        res: int, sent: seq<Frame>)
    requires IsSent(crcBase, allowAnonymous, h, payload, results, res, sent)
    ensures
      var frames, n := TransferFrames(h, payload, crcBase), |sent|;
      if (h.src == 0 || h.src > 127) && !(allowAnonymous && h.transferType == MessageBroadcast && |payload| <= 7) then
        res == -11 && sent == []
      else
        && 0 < n <= |frames| && sent == frames[..n]
        && (forall k | 0 <= k < n - 1 :: results(k) >= 0) && (n < |frames| ==> results(n - 1) < 0)
        && res == if |frames| == 1 || results(n - 1) < 0 then results(n - 1) else |frames|
  {
    hide Crc;
    if |payload| > PAYLOAD_CAPACITY {
      FirstFrameIsFull(|payload|);
    }
  }

  // ----- The registry of outgoing transfers -----

  datatype TransferKey = TransferKey(dataTypeId: Can.CanId, transferType: TransferType, dst: NodeId)

  /** The next identifier of a tracked transfer, and when it may be forgotten. */
  datatype Tracked = Tracked(tid: TransferId, deadline: nat)

  type Registry = map<TransferKey, Tracked>

  const MIN_ENTRY_LIFETIME := 2000 * 1000

  function NextTid(r: Registry, k: TransferKey): TransferId { if k in r then r[k].tid else 0 }

  function AfterUse(r: Registry, k: TransferKey, deadline: nat): Registry
  {
    r[k := Tracked(Increment(NextTid(r, k)), deadline)]
  }

  function AfterCleanup(r: Registry, ts: nat): Registry
  {
    map k | k in r && r[k].deadline > ts :: r[k]
  }

  datatype RegistryEvent = Used(key: TransferKey, deadline: nat) | Cleaned(ts: nat)

  function AfterEvent(r: Registry, e: RegistryEvent): Registry
  {
    match e
    case Used(key, deadline) => AfterUse(r, key, deadline)
    case Cleaned(ts) => AfterCleanup(r, ts)
  }

  /** The identifiers that the transfers of one key get over a run. */
  function TidsOf(r: Registry, events: seq<RegistryEvent>, k: TransferKey): seq<TransferId>
    decreases |events|
  {
    if events == [] then []
    else
      (if Uses(events[0], k) then [NextTid(r, k)] else []) + TidsOf(AfterEvent(r, events[0]), events[1..], k)
  }

  /** No cleanup comes so late that it forgets the key. */
  predicate IsRemembered(r: Registry, events: seq<RegistryEvent>, k: TransferKey)
    decreases |events|
  {
    events == [] ||
    (&& (events[0].Cleaned? && k in r ==> r[k].deadline > events[0].ts)
     && IsRemembered(AfterEvent(r, events[0]), events[1..], k))
  }

  predicate Uses(e: RegistryEvent, k: TransferKey) { e.Used? && e.key == k }

  lemma EventMovesTid(r: Registry, e: RegistryEvent, k: TransferKey)
    requires e.Cleaned? && k in r ==> r[k].deadline > e.ts
    ensures NextTid(AfterEvent(r, e), k) == if Uses(e, k) then Increment(NextTid(r, k)) else NextTid(r, k)
  {
  }

  lemma IncrementThenAdd(t: TransferId, i: nat)
    ensures (Increment(t) + i) % TRANSFER_ID_MODULUS == (t + i + 1) % TRANSFER_ID_MODULUS
  {
  }

  /** Whatever else is sent and cleaned up, the transfers of a key that is remembered are numbered without a gap. */
  lemma {:induction false} TidsAreConsecutive(r: Registry, events: seq<RegistryEvent>, k: TransferKey, i: nat)
    requires IsRemembered(r, events, k) && i < |TidsOf(r, events, k)|
    ensures TidsOf(r, events, k)[i] == (NextTid(r, k) + i) % TRANSFER_ID_MODULUS
    decreases |events|
  {
    hide AfterEvent, NextTid, Increment;
    var e, r' := events[0], AfterEvent(r, events[0]);
    EventMovesTid(r, e, k);
    if !Uses(e, k) {
      TidsAreConsecutive(r', events[1..], k, i);
    } else if i > 0 {
      TidsAreConsecutive(r', events[1..], k, i - 1);
      IncrementThenAdd(NextTid(r, k), i - 1);
    }
  }

  /** A key whose deadline has come by a cleanup is forgotten: its next transfers are numbered from zero again. */
  lemma ForgottenStartsOver(r: Registry, ts: nat, events: seq<RegistryEvent>, k: TransferKey, i: nat)
    requires k in r ==> r[k].deadline <= ts
    requires IsRemembered(AfterCleanup(r, ts), events, k) && i < |TidsOf(AfterCleanup(r, ts), events, k)|
    ensures TidsOf(AfterCleanup(r, ts), events, k)[i] == i % 32
  {
    hide TidsOf, IsRemembered;
    TidsAreConsecutive(AfterCleanup(r, ts), events, k, i);
  }

  class TransferSender {
    const crcBase: bv16
    const allowAnonymous: bool
    const maxInterval: nat
    var registry: Registry

    constructor (crcBase: bv16, allowAnonymous: bool, maxInterval: nat)
      ensures this.crcBase == crcBase && this.allowAnonymous == allowAnonymous && this.maxInterval == maxInterval
      ensures registry == map[]
    {
      this.crcBase, this.allowAnonymous, this.maxInterval, registry := crcBase, allowAnonymous, maxInterval, map[];
    }

    /** Sends a transfer with an explicit identifier; `sent` lists the frames handed to the dispatcher. */
    method Send(h: Header, payload: seq<Byte>, results: nat -> int) returns (res: int, sent: seq<Frame>)
      ensures IsSent(crcBase, allowAnonymous, h, payload, results, res, sent)
    {
      if !IsUnicast(h.src) {
        var allow := allowAnonymous && h.transferType == MessageBroadcast && |payload| <= PAYLOAD_CAPACITY;
        if !allow {
          return -ERR_PASSIVE_MODE, [];
        }
      }
      if PAYLOAD_CAPACITY >= |payload| {
        return results(0), [FrameOf(h, true, true, false, payload)];
      }
      res, sent := SendFrames(h, payload, results);
    }

    /** The first frame carries the checksum; the frame truncates the eight bytes offered to it. */
    method FirstFrame(h: Header, payload: seq<Byte>) returns (frame: Frame)
      requires |payload| > PAYLOAD_CAPACITY
      ensures frame == FrameAt(h, payload, Crc(crcBase, payload), 0)
    {
      var crc := new TransferCRC();
      crc.value := crcBase;
      crc.Add(payload);
      var buf := [LowByte(crc.value), HighByte(crc.value)] + payload[..6];
      frame := FrameOf(h, true, false, false, buf[..PAYLOAD_CAPACITY]);
      assert buf[..PAYLOAD_CAPACITY] == [LowByte(crc.value), HighByte(crc.value)] + payload[..5];
    }

    /** The loop over the frames of a longer transfer: one frame object is rewritten and sent again and again. */
    method SendFrames(h: Header, payload: seq<Byte>, results: nat -> int) returns (res: int, sent: seq<Frame>)
      requires |payload| > PAYLOAD_CAPACITY
      ensures
        var frames := TransferFrames(h, payload, crcBase);
        var n := Dispatched(results, |frames|);
        if n < |frames| then res == results(n) && sent == frames[..n + 1]
        else res == |frames| && sent == frames
    {
      hide FrameAt, Dispatched, Sent;
      ghost var frames, crc := TransferFrames(h, payload, crcBase), Crc(crcBase, payload);
      var frame := FirstFrame(h, payload);
      var offset := PAYLOAD_CAPACITY - 2;
      FirstFrameIsFull(|payload|);
      var numSent := 0;
      sent := [];
      while true
        invariant numSent < |frames| == FrameCount(|payload|)
        invariant sent == frames[..numSent]
        invariant forall k | 0 <= k < numSent :: results(k) >= 0
        invariant frame == FrameAt(h, payload, crc, numSent) && offset == Sent(|payload|, numSent + 1) <= |payload|
        decreases |frames| - numSent
      {
        var sendRes := results(numSent);
        sent := sent + [frame];
        if sendRes < 0 {
          DispatchedIsUnique(results, |frames|, numSent);
          return sendRes, sent;
        }
        OnlyLastFrameEnds(h, payload, crc, numSent);
        numSent := numSent + 1;
        if frame.endOfTransfer {
          DispatchedIsUnique(results, |frames|, numSent);
          return numSent, sent;
        }
        RewrittenIsNext(h, payload, crc, numSent - 1);
        frame := frame.(startOfTransfer := false, toggle := !frame.toggle);
        var to := Min(offset + PAYLOAD_CAPACITY, |payload|);
        frame := frame.(payload := payload[offset..to]);
        offset := to;
        if offset >= |payload| {
          frame := frame.(endOfTransfer := true);
        }
      }
    }

    /** Sends with the next identifier of the tracked transfer; tracking a new one may fail for lack of memory. */
    method SendNext(h: Header, payload: seq<Byte>, txDeadline: nat, results: nat -> int, canTrack: bool)
      returns (res: int, sent: seq<Frame>)
      modifies this
      ensures
        var key := TransferKey(h.dataTypeId, h.transferType, h.dst);
        if key !in old(registry) && !canTrack then
          res == -ERR_MEMORY && sent == [] && registry == old(registry)
        else
          && registry == AfterUse(old(registry), key, txDeadline + Max(2 * maxInterval, 2_000_000))
          && IsSent(crcBase, allowAnonymous, h.(tid := NextTid(old(registry), key)), payload, results, res, sent)
    {
      hide IsSent;
      var key := TransferKey(h.dataTypeId, h.transferType, h.dst);
      var deadline := txDeadline + Max(2 * maxInterval, MIN_ENTRY_LIFETIME);
      if key !in registry {
        if !canTrack {
          return -ERR_MEMORY, [];
        }
        registry := registry[key := Tracked(0, deadline)];
      }
      registry := registry[key := registry[key].(deadline := deadline)];
      var tid := registry[key].tid;
      registry := registry[key := registry[key].(tid := Increment(tid))];
      res, sent := Send(h.(tid := tid), payload, results);
    }

    /** Forgets transfers that have not been sent for a long time. */
    method Cleanup(ts: nat)
      modifies this
      ensures registry == AfterCleanup(old(registry), ts)
    {
      var keys := registry.Keys;
      while keys != {}
        invariant keys <= registry.Keys
        invariant registry ==
          map k | k in old(registry) && (k in keys || old(registry)[k].deadline > ts) :: old(registry)[k]
        decreases |keys|
      {
        var k :| k in keys;
        if registry[k].deadline <= ts {
          registry := registry - {k};
        }
        keys := keys - {k};
      }
    }
  }
}
