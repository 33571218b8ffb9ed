/** Transport frames and their encoding in the CAN identifier and the tail byte of the CAN data field. */
module Frames {
  import opened Transfer
  import opened Can
  import opened TransferCrc
  import opened Options
  import opened Arithmetic

  const PAYLOAD_CAPACITY := 7

  /**
    * Fields as stored: 8-bit priority and node identifiers, a 32-bit data type identifier, all possibly out of range.
    */
  datatype Frame = Frame(
    priority: Octet,
    transferType: TransferType,
    dataTypeId: CanId,
    src: NodeId,
    dst: NodeId,
    tid: TransferId,
    startOfTransfer: bool,
    endOfTransfer: bool,
    toggle: bool,
    payload: seq<Byte>)

  type Octet = n: int | 0 <= n < 256

  /** A received frame: when and where it arrived. Times are in microseconds. */
  datatype RxFrame = RxFrame(frame: Frame, monotonic: nat, utc: nat, iface: Octet)

  function MaxDataTypeId(t: TransferType): nat
  {
    if t == MessageBroadcast then 65535 else 255
  }

  predicate IsValid(f: Frame)
  {
    && !(f.startOfTransfer && f.toggle)
    && IsValidNode(f.src) && IsValidNode(f.dst)
    && !(IsUnicast(f.src) && f.src == f.dst)
    && f.transferType != NumTransferTypes
    && (f.transferType == MessageBroadcast <==> IsBroadcast(f.dst))
    && !(IsBroadcast(f.src)
         && (!f.startOfTransfer || !f.endOfTransfer || f.transferType != MessageBroadcast))
    && |f.payload| <= PAYLOAD_CAPACITY
    && f.dataTypeId <= MaxDataTypeId(f.transferType)
    && f.priority < 32
  }

  // ----- The tail byte -----

  function TidBits(t: TransferId): bv5 { t as bv5 }

  function TidOf(b: bv5): TransferId { b as int }

  function TailOf(start: bool, end: bool, toggle: bool, tid: bv5): Byte
  {
    (tid as bv8) | (if start then 0x80 else 0) | (if end then 0x40 else 0) | (if toggle then 0x20 else 0)
  }

  function TailTid(tail: Byte): bv5 { (tail & 31) as bv5 }

  predicate TailStart(tail: Byte) { tail & 0x80 != 0 }

  predicate TailEnd(tail: Byte) { tail & 0x40 != 0 }

  predicate TailToggle(tail: Byte) { tail & 0x20 != 0 }

  lemma TidRoundTrips(t: TransferId, b: bv5)
    ensures TidOf(TidBits(t)) == t
    ensures TidBits(TidOf(b)) == b
  {
  }

  lemma TailFieldsRecovered(start: bool, end: bool, toggle: bool, tid: bv5)
    ensures TailTid(TailOf(start, end, toggle, tid)) == tid
    ensures TailStart(TailOf(start, end, toggle, tid)) == start
    ensures TailEnd(TailOf(start, end, toggle, tid)) == end
    ensures TailToggle(TailOf(start, end, toggle, tid)) == toggle
  {
  }

  lemma TailRecomposed(tail: Byte)
    ensures TailOf(TailStart(tail), TailEnd(tail), TailToggle(tail), TailTid(tail)) == tail
  {
  }

  // ----- The CAN identifier -----

  /** Bitwise or of two numbers. */
  function Or(x: nat, y: nat): nat
    decreases x
  {
    if x == 0 then y else 2 * Or(x / 2, y / 2) + (if x % 2 == 1 || y % 2 == 1 then 1 else 0)
  }

  /** Digit by digit. */
  lemma {:induction false} OrDigit(x: nat, y: nat, k: nat)
    ensures Digit(Or(x, y), k) <==> Digit(x, k) || Digit(y, k)
    decreases k
  {
    hide Digit;
    if k == 0 {
      LastDigit(x);
      LastDigit(y);
      LastDigit(Or(x, y));
    } else {
      OrDigit(x / 2, y / 2, k - 1);
      DigitOfHalf(x, k);
      DigitOfHalf(y, k);
      DigitOfHalf(Or(x, y), k);
    }
  }

  lemma {:induction false} OrIsBounded(x: nat, y: nat, n: nat)
    requires x < Pow2(n) && y < Pow2(n)
    ensures Or(x, y) < Pow2(n)
    decreases n
  {
    if x > 0 {
      OrIsBounded(x / 2, y / 2, n - 1);
    }
  }

  lemma OrOfFourteenBits(x: nat, y: nat)
    requires x < 0x4000 && y < 0x4000
    ensures Or(x, y) < 0x4000
  {
    assert Pow2(14) == 0x4000 by {
      assert Pow2(4) == 16 && Pow2(8) == 256;
      assert Pow2(12) == 4096;
    }
    OrIsBounded(x, y, 14);
  }

  /**
    * Identifier bits 8..23 of a message: its data type, and for an anonymous message the discriminator merged into
    * all but the two low bits.
    */
  function MessageTypeBits(dataTypeId: nat, anonymous: bool, discriminator: nat): nat
  {
    if anonymous then dataTypeId % 4 + 4 * Or(dataTypeId / 4, discriminator) else dataTypeId
  }

  lemma MessageTypeBitsFit(dataTypeId: nat, anonymous: bool, discriminator: nat)
    requires dataTypeId < 0x1_0000 && discriminator < 0x4000
    ensures MessageTypeBits(dataTypeId, anonymous, discriminator) < 0x1_0000
  {
    OrOfFourteenBits(dataTypeId / 4, discriminator);
  }

  function MessageId(priority: nat, typeBits: nat, src: nat): nat
  {
    src + priority * 0x100_0000 + typeBits * 0x100
  }

  function ServiceId(priority: nat, dataTypeId: nat, request: nat, dst: nat, src: nat): nat
  {
    src + priority * 0x100_0000 + 0x80 + dst * 0x100 + request * 0x8000 + dataTypeId * 0x1_0000
  }

  /** The 29 identifier bits of a frame; every field of a valid frame fits its place. */
  function CompiledId(f: Frame, discriminator: nat): nat
    requires IsValid(f)
  {
    if f.transferType == MessageBroadcast then
      MessageId(f.priority, MessageTypeBits(f.dataTypeId, IsBroadcast(f.src), discriminator), f.src)
    else
      ServiceId(f.priority, f.dataTypeId, if f.transferType == ServiceRequest then 1 else 0, f.dst, f.src)
  }

  function CompiledData(f: Frame): seq<Byte>
  {
    f.payload + [TailOf(f.startOfTransfer, f.endOfTransfer, f.toggle, TidBits(f.tid))]
  }

  /** Fourteen bits of checksum over the data field, which tell anonymous senders apart. */
  function Discriminator(data: seq<Byte>): (d: nat)
    ensures d < 0x4000
  {
    ((Crc(INITIAL_VALUE, data) & 0x3FFF) as bv14) as int
  }

  function Compile(f: Frame): Option<CanFrame>
  {
    if IsValid(f) then
      var data := CompiledData(f);
      CompiledIdFits(f, Discriminator(data));
      Some(CanFrame(FLAG_EFF + CompiledId(f, Discriminator(data)), data))
    else
      None
  }

  /** The identifier fields of a frame; payload and tail are not set yet. */
  function ParsedId(id: nat): Frame
  {
    var service := Unpack(id, 0x80, 2) != 0;
    var src := Unpack(id, 1, 128);
    var typeBits := Unpack(id, 0x100, 0x1_0000);
    Frame(
      Unpack(id, 0x100_0000, 32),
      if !service then MessageBroadcast
      else if Unpack(id, 0x8000, 2) != 0 then ServiceRequest else ServiceResponse,
      if service then Unpack(id, 0x1_0000, 0x100)
      else if IsBroadcast(src) then typeBits % 4 else typeBits,
      src,
      if service then Unpack(id, 0x100, 128) else BROADCAST_NODE,
      0, false, false, false, [])
  }

  function WithData(f: Frame, data: seq<Byte>): Frame
    requires |data| >= 1
  {
    var tail := data[|data| - 1];
    f.(tid := TidOf(TailTid(tail)), startOfTransfer := TailStart(tail), endOfTransfer := TailEnd(tail),
       toggle := TailToggle(tail), payload := data[..|data| - 1])
  }

  function Parse(c: CanFrame): Option<Frame>
  {
    if IsError(c) || IsRemote(c) || !IsExtended(c) || |c.data| > MAX_DATA_LEN || |c.data| < 1 then None
    else
      var f := WithData(ParsedId(CleanId(c)), c.data);
      if IsValid(f) then Some(f) else None
  }

  // ----- Round trips -----

  lemma MessageIdUnpacks(priority: nat, typeBits: nat, src: nat)
    requires priority < 32 && typeBits < 0x1_0000 && src < 128
    ensures
      var id := MessageId(priority, typeBits, src);
      && id < FLAG_ERR
      && Unpack(id, 1, 128) == src && Unpack(id, 0x80, 2) == 0
      && Unpack(id, 0x100, 0x1_0000) == typeBits && Unpack(id, 0x100_0000, 32) == priority
  {
    var high := priority * 0x1_0000 + typeBits;
    FieldIsUnpacked(0, src, 2 * high, 1, 128);
    FieldIsUnpacked(src, 0, high, 0x80, 2);
    FieldIsUnpacked(src, typeBits, priority, 0x100, 0x1_0000);
    FieldIsUnpacked(src + typeBits * 0x100, priority, 0, 0x100_0000, 32);
  }

  lemma ServiceIdUnpacks(priority: nat, dataTypeId: nat, request: nat, dst: nat, src: nat)
    requires priority < 32 && dataTypeId < 0x100 && request < 2 && dst < 128 && src < 128
    ensures
      var id := ServiceId(priority, dataTypeId, request, dst, src);
      && id < FLAG_ERR
      && Unpack(id, 1, 128) == src && Unpack(id, 0x80, 2) == 1
      && Unpack(id, 0x100, 128) == dst && Unpack(id, 0x8000, 2) == request
      && Unpack(id, 0x1_0000, 0x100) == dataTypeId && Unpack(id, 0x100_0000, 32) == priority
  {
    var top := dataTypeId + 0x100 * priority;
    var middle := dst + 0x80 * (request + 2 * top);
    FieldIsUnpacked(0, src, 1 + 2 * middle, 1, 128);
    FieldIsUnpacked(src, 1, middle, 0x80, 2);
    FieldIsUnpacked(src + 0x80, dst, request + 2 * top, 0x100, 128);
    FieldIsUnpacked(src + 0x80 + dst * 0x100, request, top, 0x8000, 2);
    FieldIsUnpacked(src + 0x80 + dst * 0x100 + request * 0x8000, dataTypeId, priority, 0x1_0000, 0x100);
    FieldIsUnpacked(src + 0x80 + dst * 0x100 + request * 0x8000 + dataTypeId * 0x1_0000, priority, 0, 0x100_0000, 32);
  }

  lemma CompiledIdFits(f: Frame, discriminator: nat)
    requires IsValid(f) && discriminator < 0x4000
    ensures CompiledId(f, discriminator) < FLAG_ERR
  {
    if f.transferType == MessageBroadcast {
      MessageTypeBitsFit(f.dataTypeId, IsBroadcast(f.src), discriminator);
    }
  }

  // ----- The format -----

  function TailNumber(tail: Byte): int { tail as int }

  lemma TidNumber(t: TransferId)
    ensures (TidBits(t) as bv8) as int == t
  {
  }

  lemma TailFormat(start: bool, end: bool, toggle: bool, tid: bv5)
    ensures TailNumber(TailOf(start, end, toggle, tid)) ==
      (if start then 128 else 0) + (if end then 64 else 0) + (if toggle then 32 else 0) + (tid as bv8) as int
  {
  }

  lemma IdFormat(f: Frame, discriminator: nat)
    requires IsValid(f)
    ensures CompiledId(f, discriminator) == f.priority * 0x100_0000 + f.src +
      if f.transferType == MessageBroadcast then
        if f.src != 0 then f.dataTypeId * 0x100
        else f.dataTypeId % 4 * 0x100 + Or(f.dataTypeId / 4, discriminator) * 0x400
      else
        f.dataTypeId * 0x1_0000 + (if f.transferType == ServiceRequest then 0x8000 else 0) + f.dst * 0x100 + 0x80
  {
    hide Or;
  }

  lemma DataFormat(f: Frame)
    ensures
      var data := CompiledData(f);
      var tail := data[|data| - 1];
      && data == f.payload + [tail]
      && TailNumber(tail) ==
           (if f.startOfTransfer then 128 else 0) + (if f.endOfTransfer then 64 else 0) + (if f.toggle then 32 else 0)
           + f.tid
  {
    hide TailOf, TailNumber, TidBits;
    TailFormat(f.startOfTransfer, f.endOfTransfer, f.toggle, TidBits(f.tid));
    TidNumber(f.tid);
  }

  /**
    * The format on the wire. The identifier holds, from the top, five bits of priority, then for a message sixteen bits
    * of data type, a zero bit and the source, and for a service eight bits of data type, the request bit, the
    * destination, a one bit and the source. An anonymous message has fourteen bits of the checksum of its data merged
    * into the top of its data type. The last data byte holds the start, end and toggle bits and the identifier.
    */
  lemma WireFormat(f: Frame)
    requires IsValid(f)
    ensures Compile(f).Some?
    ensures
      var c := Compile(f).value;
      var tail := c.data[|c.data| - 1];
      && c.data == f.payload + [tail]
      && TailNumber(tail) ==
           (if f.startOfTransfer then 128 else 0) + (if f.endOfTransfer then 64 else 0) + (if f.toggle then 32 else 0)
           + f.tid
      && c.id == 0x8000_0000 + f.priority * 0x100_0000 + f.src +
           if f.transferType == MessageBroadcast then
             if f.src != 0 then f.dataTypeId * 0x100
             else
               f.dataTypeId % 4 * 0x100
               + Or(f.dataTypeId / 4, ((Crc(0xFFFF, c.data) & 0x3FFF) as bv14) as int) * 0x400
           else
             f.dataTypeId * 0x1_0000 + (if f.transferType == ServiceRequest then 0x8000 else 0) + f.dst * 0x100 + 0x80
  {
    hide TailNumber, Crc, Or, CompiledId, CompiledData;
    var data := CompiledData(f);
    CompiledIdFits(f, Discriminator(data));
    IdFormat(f, Discriminator(data));
    DataFormat(f);
  }

  /** Which frames can be sent. */
  lemma CompilesIff(f: Frame)
    ensures Compile(f).Some? <==>
      && f.priority < 32 && f.src < 128 && f.dst < 128 && |f.payload| <= 7 && !(f.startOfTransfer && f.toggle)
      && match f.transferType
         case MessageBroadcast =>
           f.dst == 0 && f.dataTypeId < 0x1_0000 && (f.src == 0 ==> f.startOfTransfer && f.endOfTransfer)
         case NumTransferTypes => false
         case _ => f.dst != 0 && f.src != 0 && f.src != f.dst && f.dataTypeId < 0x100
  {
    hide Discriminator, CompiledId;
    if IsValid(f) {
      CompiledIdFits(f, Discriminator(CompiledData(f)));
    }
  }

  lemma StartBit(tail: Byte)
    ensures TailStart(tail) <==> TailNumber(tail) >= 128
  {
  }

  lemma EndBit(tail: Byte)
    ensures TailEnd(tail) <==> TailNumber(tail) / 64 % 2 == 1
  {
  }

  lemma ToggleBit(tail: Byte)
    ensures TailToggle(tail) <==> TailNumber(tail) / 32 % 2 == 1
  {
  }

  /**
    * Which CAN frames are accepted: extended data frames of one to eight bytes without an error flag, whose start of
    * transfer has a cleared toggle bit; services between two different nodes, and messages, which may be anonymous if
    * they are single frames.
    */
  lemma ParsesIff(c: CanFrame)
    ensures Parse(c).Some? <==>
      && 0x8000_0000 <= c.id < 0xA000_0000 && 1 <= |c.data| <= 8
      && var tail := TailNumber(c.data[|c.data| - 1]);
         var src, dst := c.id % 128, c.id / 0x100 % 128;
         && !(tail >= 128 && tail / 32 % 2 == 1)
         && if c.id / 0x80 % 2 == 1 then src != 0 && dst != 0 && src != dst else src == 0 ==> tail >= 192
  {
    hide TailStart, TailEnd, TailToggle, TailTid, TailNumber, IsError, IsRemote, IsExtended, CleanId;
    if |c.data| > 0 {
      var tail := c.data[|c.data| - 1];
      StartBit(tail);
      EndBit(tail);
      ToggleBit(tail);
      TailRange(tail);
    }
    FlagsOfExtended(c);
    if 0x8000_0000 <= c.id < 0xA000_0000 {
      SrcOfExtended(c.id - 0x8000_0000);
      ServiceOfExtended(c.id - 0x8000_0000);
      DstOfExtended(c.id - 0x8000_0000);
    }
  }

  lemma TailRange(tail: Byte)
    ensures 0 <= TailNumber(tail) < 256
  {
  }

  lemma FlagsOfExtended(c: CanFrame)
    ensures !IsError(c) && !IsRemote(c) && IsExtended(c) <==> 0x8000_0000 <= c.id < 0xA000_0000
    ensures 0x8000_0000 <= c.id < 0xA000_0000 ==> CleanId(c) == c.id - 0x8000_0000
  {
  }

  lemma SrcOfExtended(id: nat)
    ensures (0x8000_0000 + id) % 128 == Unpack(id, 1, 128)
  {
  }

  lemma ServiceOfExtended(id: nat)
    ensures (0x8000_0000 + id) / 0x80 % 2 == Unpack(id, 0x80, 2)
  {
  }

  lemma DstOfExtended(id: nat)
    ensures (0x8000_0000 + id) / 0x100 % 128 == Unpack(id, 0x100, 128)
  {
  }

  /** The data type that survives the wire: an anonymous message keeps the two low bits only. */
  function WireDataType(f: Frame): CanId
  {
    if IsBroadcast(f.src) then f.dataTypeId % 4 else f.dataTypeId
  }

  lemma ParsedMessageId(priority: Octet, typeBits: CanId, src: NodeId)
    requires priority < 32 && typeBits < 0x1_0000 && src < 128
    ensures ParsedId(MessageId(priority, typeBits, src)) ==
            Frame(priority, MessageBroadcast, if IsBroadcast(src) then typeBits % 4 else typeBits, src, BROADCAST_NODE,
                  0, false, false, false, [])
  {
    MessageIdUnpacks(priority, typeBits, src);
  }

  lemma ParsedServiceId(priority: Octet, dataTypeId: CanId, request: nat, dst: NodeId, src: NodeId)
    requires priority < 32 && dataTypeId < 0x100 && request < 2 && dst < 128 && src < 128
    ensures ParsedId(ServiceId(priority, dataTypeId, request, dst, src)) ==
            Frame(priority, if request == 1 then ServiceRequest else ServiceResponse, dataTypeId, src, dst,
                  0, false, false, false, [])
  {
    ServiceIdUnpacks(priority, dataTypeId, request, dst, src);
  }

  lemma ParsedOfCompiledId(f: Frame, discriminator: nat)
    requires IsValid(f) && discriminator < 0x4000
    ensures
      var p := ParsedId(CompiledId(f, discriminator));
      && p.priority == f.priority && p.transferType == f.transferType
      && p.src == f.src && p.dst == f.dst && p.dataTypeId == WireDataType(f)
  {
    hide ParsedId, MessageId, ServiceId;
    if f.transferType == MessageBroadcast {
      MessageTypeBitsFit(f.dataTypeId, IsBroadcast(f.src), discriminator);
      ParsedMessageId(f.priority, MessageTypeBits(f.dataTypeId, IsBroadcast(f.src), discriminator), f.src);
    } else {
      ParsedServiceId(f.priority, f.dataTypeId, if f.transferType == ServiceRequest then 1 else 0, f.dst, f.src);
    }
  }

  /** What arrives when a frame is sent. */
  lemma ParseOfCompile(f: Frame)
    requires IsValid(f)
    ensures Compile(f).Some? && Parse(Compile(f).value) == Some(f.(dataTypeId := WireDataType(f)))
  {
    hide Discriminator, CompiledId, ParsedId, TailOf, TailTid, TailStart, TailEnd, TailToggle;
    var data := CompiledData(f);
    var disc := Discriminator(data);
    CompiledIdFits(f, disc);
    ParsedOfCompiledId(f, disc);
    DataOfCompiled(f);
    WithDataOverwrites(ParsedId(CompiledId(f, disc)), f.(dataTypeId := WireDataType(f)), data);
    FlaggedIdIsClean(CompiledId(f, disc), data);
  }

  lemma FlaggedIdIsClean(id: nat, data: seq<Byte>)
    requires id < FLAG_ERR
    ensures
      var c := CanFrame(FLAG_EFF + id, data);
      CleanId(c) == id && IsExtended(c) && !IsRemote(c) && !IsError(c)
  {
  }

  lemma DataOfCompiled(f: Frame)
    ensures
      var g := WithData(f, CompiledData(f));
      && g.tid == f.tid && g.startOfTransfer == f.startOfTransfer && g.endOfTransfer == f.endOfTransfer
      && g.toggle == f.toggle && g.payload == f.payload
  {
    TidRoundTrips(f.tid, TidBits(f.tid));
    TailFieldsRecovered(f.startOfTransfer, f.endOfTransfer, f.toggle, TidBits(f.tid));
  }

  lemma WithDataOverwrites(p: Frame, f: Frame, data: seq<Byte>)
    requires |data| >= 1
    requires p.priority == f.priority && p.transferType == f.transferType
    requires p.src == f.src && p.dst == f.dst && p.dataTypeId == f.dataTypeId
    ensures WithData(p, data) == WithData(f, data)
  {
  }

  /** The wire loses nothing exactly for frames with a source, and for anonymous ones whose data type is below four. */
  lemma WireIsLosslessIff(f: Frame)
    requires IsValid(f)
    ensures Compile(f).Some?
    ensures Parse(Compile(f).value) == Some(f) <==> (IsUnicast(f.src) || f.dataTypeId < 4)
  {
    ParseOfCompile(f);
    assert f.(dataTypeId := WireDataType(f)) == f <==> WireDataType(f) == f.dataTypeId;
  }

  /**
    * Recompiling an accepted CAN frame reproduces it, bit for bit; for an anonymous frame this holds exactly when its
    * identifier carries the checksum of its data.
    */
  lemma CompileOfParse(c: CanFrame)
    requires Parse(c).Some?
    ensures Compile(Parse(c).value).Some?
    ensures Compile(Parse(c).value) == Some(c) <==>
            (IsUnicast(Parse(c).value.src) || Unpack(CleanId(c), 0x400, 0x4000) == Discriminator(c.data))
  {
    hide Discriminator, CompiledId, ParsedId, CompiledData, Unpack;
    var f := Parse(c).value;
    DataRecomposed(ParsedId(CleanId(c)), c.data);
    RecomposedId(CleanId(c), f, Discriminator(c.data));
    AcceptedId(c);
  }

  lemma AcceptedId(c: CanFrame)
    requires IsExtended(c) && !IsRemote(c) && !IsError(c)
    ensures c.id == FLAG_EFF + CleanId(c)
  {
  }

  lemma DataRecomposed(f: Frame, data: seq<Byte>)
    requires |data| >= 1
    ensures CompiledData(WithData(f, data)) == data
  {
    var tail := data[|data| - 1];
    TidRoundTrips(0, TailTid(tail));
    TailRecomposed(tail);
  }

  lemma MessageIdRecomposed(id: nat)
    requires id < FLAG_ERR && Unpack(id, 0x80, 2) == 0
    ensures id == MessageId(Unpack(id, 0x100_0000, 32), Unpack(id, 0x100, 0x1_0000), Unpack(id, 1, 128))
  {
    SplitQuotient(id, 0x80, 2);
    SplitQuotient(id, 0x100, 0x1_0000);
  }

  lemma TypeBitsSplit(id: nat)
    ensures Unpack(id, 0x100, 0x1_0000) == Unpack(id, 0x400, 0x4000) * 4 + Unpack(id, 0x100, 0x1_0000) % 4
  {
    var high := id / 0x100;
    SplitQuotient(id, 0x100, 4);
    SplitQuotient(high, 4, 0x4000);
    SplitQuotient(high, 0x1_0000, 1);
    DivMod(Unpack(high, 4, 0x4000), 4, high % 4);
  }

  /** A number is what its field and the rest above it say. */
  lemma FieldAndRest(id: nat, offset: nat, width: nat) returns (here: nat, field: nat, above: nat)
    requires offset > 0 && width > 0
    ensures here == id / offset && field == Unpack(id, offset, width)
    ensures offset * width > 0 && above == id / (offset * width) && here == field + width * above
  {
    SplitQuotient(id, offset, width);
    here, field, above := id / offset, Unpack(id, offset, width), id / (offset * width);
  }

  lemma ServiceIdRecomposed(id: nat)
    requires id < FLAG_ERR && Unpack(id, 0x80, 2) == 1
    ensures id == ServiceId(Unpack(id, 0x100_0000, 32), Unpack(id, 0x1_0000, 0x100), Unpack(id, 0x8000, 2),
                            Unpack(id, 0x100, 128), Unpack(id, 1, 128))
  {
    hide Unpack;
    var q0, src, r0 := FieldAndRest(id, 1, 128);
    var q1, service, r1 := FieldAndRest(id, 0x80, 2);
    var q2, dst, r2 := FieldAndRest(id, 0x100, 128);
    var q3, request, r3 := FieldAndRest(id, 0x8000, 2);
    var q4, dataType, r4 := FieldAndRest(id, 0x1_0000, 0x100);
    var q5, priority, r5 := FieldAndRest(id, 0x100_0000, 32);
  }

  lemma RecomposedId(id: nat, f: Frame, discriminator: nat)
    requires id < FLAG_ERR && discriminator < 0x4000 && IsValid(f)
    requires f == ParsedId(id).(tid := f.tid, startOfTransfer := f.startOfTransfer, endOfTransfer := f.endOfTransfer,
                                toggle := f.toggle, payload := f.payload)
    ensures CompiledId(f, discriminator) == id <==>
            (IsUnicast(f.src) || Unpack(id, 0x400, 0x4000) == discriminator)
  {
    if Unpack(id, 0x80, 2) == 0 {
      MessageIdRecomposed(id);
      TypeBitsSplit(id);
      if IsBroadcast(f.src) {
        assert Or(f.dataTypeId / 4, discriminator) == discriminator;
      }
    } else {
      ServiceIdRecomposed(id);
    }
  }

  /** A numerically lower transfer priority wins arbitration against any frame of a higher one. */
  lemma LowerPriorityWins(f: Frame, g: Frame)
    requires IsValid(f) && IsValid(g) && f.priority < g.priority
    ensures Compile(f).Some? && Compile(g).Some?
    ensures PriorityHigherThan(Compile(f).value, Compile(g).value)
  {
    hide CompiledId, CompiledData, Discriminator;
    var df, dg := Discriminator(CompiledData(f)), Discriminator(CompiledData(g));
    PriorityLeads(f, df);
    PriorityLeads(g, dg);
    FlaggedIdIsClean(CompiledId(f, df), CompiledData(f));
    FlaggedIdIsClean(CompiledId(g, dg), CompiledData(g));
  }

  lemma PriorityLeads(f: Frame, discriminator: nat)
    requires IsValid(f) && discriminator < 0x4000
    ensures f.priority * 0x100_0000 <= CompiledId(f, discriminator) < (f.priority + 1) * 0x100_0000
    ensures CompiledId(f, discriminator) < FLAG_ERR
  {
    if f.transferType == MessageBroadcast {
      MessageTypeBitsFit(f.dataTypeId, IsBroadcast(f.src), discriminator);
    }
  }
}
