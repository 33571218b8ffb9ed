/** Integers of any bit length in a bit stream: little-endian bytes, a partial last byte moved to its top. */
module ScalarCodecs {
  import opened Transfer
  import opened Arithmetic
  import opened Bits
  import opened Words
  import opened BitStreams
  import opened TransferBuffer

  datatype IntegerSpec = IntegerSpec(bitLen: nat, signed: bool, saturate: bool)

  predicate IsSpec(spec: IntegerSpec)
  {
    1 <= spec.bitLen <= 64 && (spec.signed ==> spec.bitLen >= 2)
  }

  /** The width of the machine integer that stores the value. */
  function StorageBytes(bitLen: nat): nat
  {
    if bitLen <= 8 then 1 else if bitLen <= 16 then 2 else if bitLen <= 32 then 4 else 8
  }

  function MaxValue(spec: IntegerSpec): int
    requires IsSpec(spec)
  {
    if spec.signed then Pow2(spec.bitLen - 1) - 1 else Pow2(spec.bitLen) - 1
  }

  function MinValue(spec: IntegerSpec): int
    requires IsSpec(spec)
  {
    if spec.signed then -MaxValue(spec) - 1 else 0
  }

  predicate InRange(v: int, spec: IntegerSpec)
    requires IsSpec(spec)
  {
    MinValue(spec) <= v <= MaxValue(spec)
  }

  // ----- Bytes of a number -----

  function ToBytes(u: nat, n: nat): (bytes: seq<Byte>)
    ensures |bytes| == n
  {
    if n == 0 then [] else [BitsOf(u % 256)] + ToBytes(u / 256, n - 1)
  }

  function FromBytes(bytes: seq<Byte>): nat
  {
    if bytes == [] then 0 else
      BitsOfValue(bytes[0]);
      ValueOf(bytes[0]) + 256 * FromBytes(bytes[1..])
  }

  lemma Pow2Of8More(n: nat)
    ensures Pow2(n + 8) == 256 * Pow2(n)
  {
    assert Pow2(n + 2) == 4 * Pow2(n) && Pow2(n + 4) == 4 * Pow2(n + 2);
    assert Pow2(n + 6) == 4 * Pow2(n + 4) && Pow2(n + 8) == 4 * Pow2(n + 6);
  }

  lemma {:induction false} FromBytesOfToBytes(u: nat, n: nat)
    requires u < Pow2(8 * n)
    ensures FromBytes(ToBytes(u, n)) == u
    decreases n
  {
    hide BitsOf, ValueOf;
    if n > 0 {
      Pow2Of8More(8 * (n - 1));
      FromBytesOfToBytes(u / 256, n - 1);
      ValueOfBits(u % 256);
      assert ToBytes(u, n)[1..] == ToBytes(u / 256, n - 1);
    }
  }

  lemma BitsOfZeroValue(b: Byte)
    requires ValueOf(b) == 0
    ensures b == 0
  {
  }

  /** A number of `bitLen` bits leaves the rest of its bytes zero. */
  lemma {:induction false} HighBytesAreZero(u: nat, n: nat, bitLen: nat, i: nat)
    requires u < Pow2(bitLen) && i < n
    ensures 8 * i >= bitLen ==> ToBytes(u, n)[i] == 0
    ensures 8 * i < bitLen < 8 * i + 8 ==> ValueOf(ToBytes(u, n)[i]) < Pow2(bitLen - 8 * i)
    decreases n
  {
    hide BitsOf, ValueOf;
    ValueOfBits(u % 256);
    if i == 0 {
      if bitLen == 0 {
        BitsOfZeroValue(BitsOf(u % 256));
      }
    } else {
      if bitLen >= 8 {
        Pow2Of8More(bitLen - 8);
        HighBytesAreZero(u / 256, n - 1, bitLen - 8, i - 1);
      } else {
        Pow2Of8More(0);
        Pow2IsMonotone(bitLen, 8);
        HighBytesAreZero(u / 256, n - 1, 0, i - 1);
      }
    }
  }

  lemma {:induction false} Pow2IsMonotone(m: nat, n: nat)
    requires m <= n
    ensures Pow2(m) <= Pow2(n)
    decreases n - m
  {
    if m < n {
      Pow2IsMonotone(m, n - 1);
    }
  }

  /** A small value has no bits at the top. */
  lemma SmallValueBits(b: Byte, r: nat, p: int)
    requires 0 < r < 8 && ValueOf(b) < Pow2(r) && 0 <= p < 8 - r
    ensures !BitAt(b, p)
  {
    if BitAt(b, p) {
      ProbeIsWeight(b, p);
      Pow2IsMonotone(r, 7 - p);
    }
  }

  lemma ProbeIsWeight(b: Byte, p: int)
    requires 0 <= p < 8 && BitAt(b, p)
    ensures ValueOf(b) >= Pow2(7 - p)
  {
    assert Pow2(0) == 1 && Pow2(1) == 2 && Pow2(2) == 4 && Pow2(3) == 8;
    assert Pow2(4) == 16 && Pow2(5) == 32 && Pow2(6) == 64 && Pow2(7) == 128;
  }

  // ----- The partial byte -----

  /** The stream wants the significant bits of the last, partial byte first. */
  function AlignUp(bytes: seq<Byte>, bitLen: nat): (r: seq<Byte>)
    requires bitLen <= 8 * |bytes|
    ensures |r| == |bytes|
  {
    if bitLen % 8 == 0 then bytes else bytes[bitLen / 8 := UpBy(bytes[bitLen / 8], 8 - bitLen % 8)]
  }

  function AlignDown(bytes: seq<Byte>, bitLen: nat): (r: seq<Byte>)
    requires bitLen <= 8 * |bytes|
    ensures |r| == |bytes|
  {
    if bitLen % 8 == 0 then bytes else bytes[bitLen / 8 := DownBy(bytes[bitLen / 8], 8 - bitLen % 8)]
  }

  lemma DownOfUp(b: Byte, r: nat)
    requires 0 < r < 8 && ValueOf(b) < Pow2(r)
    ensures DownBy(UpBy(b, 8 - r), 8 - r) == b
  {
    hide BitAt, ValueOf, UpBy, DownBy;
    forall p | 0 <= p < 8
      ensures BitAt(DownBy(UpBy(b, 8 - r), 8 - r), p) == BitAt(b, p)
    {
      DownByBit(UpBy(b, 8 - r), 8 - r, p);
      if p >= 8 - r {
        UpByBit(b, 8 - r, p - (8 - r));
      } else {
        SmallValueBits(b, r, p);
      }
    }
    ByteIsItsBits(DownBy(UpBy(b, 8 - r), 8 - r), b);
  }

  function StoredBytes(u: nat, bitLen: nat): (bytes: seq<Byte>)
    ensures |bytes| == StorageBytes(bitLen)
  {
    ToBytes(u, StorageBytes(bitLen))
  }

  /** The bits of a number in the stream. */
  function ScalarBits(u: nat, bitLen: nat): (bits: seq<bool>)
    requires 1 <= bitLen <= 64
    ensures |bits| == bitLen
  {
    BitsFrom(AlignUp(StoredBytes(u, bitLen), bitLen), 0, bitLen)
  }

  function ZeroBytes(n: nat): seq<Byte> { seq(n, _ => 0) }

  /** The bytes of a number read from the stream. */
  function ReadBytes(bits: seq<bool>): (bytes: seq<Byte>)
    requires 1 <= |bits| <= 64
    ensures |bytes| == StorageBytes(|bits|)
  {
    AlignDown(Packed(bits) + ZeroBytes(StorageBytes(|bits|) - ByteLen(|bits|)), |bits|)
  }

  function ScalarValue(bits: seq<bool>): nat
    requires 1 <= |bits| <= 64
  {
    FromBytes(ReadBytes(bits))
  }

  lemma AlignedTailIsZero(u: nat, bitLen: nat, k: nat)
    requires 1 <= bitLen <= 64 && u < Pow2(bitLen) && bitLen <= k < 8 * StorageBytes(bitLen)
    ensures !Bit(AlignUp(StoredBytes(u, bitLen), bitLen), k)
  {
    hide BitAt, ToBytes, UpBy, Pow2;
    var bytes := StoredBytes(u, bitLen);
    if k / 8 == bitLen / 8 && bitLen % 8 != 0 {
      UpByBit(bytes[bitLen / 8], 8 - bitLen % 8, k % 8);
    } else {
      HighBytesAreZero(u, StorageBytes(bitLen), bitLen, k / 8);
      ProbeBit(0, k % 8);
    }
  }

  /** What the stream returns for a number are the bytes that were written. */
  lemma PackedScalar(u: nat, bitLen: nat)
    requires 1 <= bitLen <= 64 && u < Pow2(bitLen)
    ensures Packed(ScalarBits(u, bitLen)) + ZeroBytes(StorageBytes(bitLen) - ByteLen(bitLen)) ==
            AlignUp(StoredBytes(u, bitLen), bitLen)
  {
    hide Packed, AlignUp, StoredBytes;
    var bytes := AlignUp(StoredBytes(u, bitLen), bitLen);
    var bits := ScalarBits(u, bitLen);
    var rest := ZeroBytes(StorageBytes(bitLen) - ByteLen(bitLen));
    var all := Packed(bits) + rest;
    forall k: nat | k < 8 * |all|
      ensures Bit(all, k) == Bit(bytes, k)
    {
      hide BitAt;
      if k < 8 * ByteLen(bitLen) {
        PackedBit(bits, k);
      } else {
        ProbeBit(0, k % 8);
      }
      if k >= bitLen {
        AlignedTailIsZero(u, bitLen, k);
      }
    }
    SameBitsSameBytes(all, bytes);
  }

  /** Every number that fits its bit length comes back. */
  lemma ScalarRoundTrip(u: nat, bitLen: nat)
    requires 1 <= bitLen <= 64 && u < Pow2(bitLen)
    ensures ScalarValue(ScalarBits(u, bitLen)) == u
  {
    hide Packed, ToBytes, UpBy, DownBy, Pow2, FromBytes, ScalarBits, ValueOf;
    var bytes := StoredBytes(u, bitLen);
    PackedScalar(u, bitLen);
    if bitLen % 8 != 0 {
      HighBytesAreZero(u, StorageBytes(bitLen), bitLen, bitLen / 8);
      DownOfUp(bytes[bitLen / 8], bitLen % 8);
    }
    assert AlignDown(AlignUp(bytes, bitLen), bitLen) == bytes;
    Pow2IsMonotone(bitLen, 8 * StorageBytes(bitLen));
    FromBytesOfToBytes(u, StorageBytes(bitLen));
  }

  // ----- The format -----

  lemma {:induction false} ToBytesAt(u: nat, n: nat, i: nat)
    requires i < n
    ensures ToBytes(u, n)[i] == BitsOf(u / Pow2(8 * i) % 256)
    decreases n
  {
    assert Pow2(0) == 1;
    hide BitsOf, Pow2;
    if i > 0 {
      ToBytesAt(u / 256, n - 1, i - 1);
      Pow2Of8More(8 * (i - 1));
      DivTwice(u, 256, Pow2(8 * (i - 1)));
    }
  }

  lemma HalfOfByte(b: Byte)
    ensures ValueOf(Down(b)) == ValueOf(b) / 2
  {
  }

  lemma LastBit(b: Byte)
    ensures BitAt(b, 7) == (ValueOf(b) % 2 == 1)
  {
  }

  /** The bits of a byte, most significant first. */
  lemma {:induction false} DigitOfByte(b: Byte, p: int)
    requires 0 <= p < 8 && ValueOf(b) >= 0
    ensures BitAt(b, p) == Digit(ValueOf(b), 7 - p)
    decreases 7 - p
  {
    hide BitAt, ValueOf, Digit, Down;
    if p == 7 {
      LastBit(b);
      assert Digit(ValueOf(b), 0) == (ValueOf(b) % 2 == 1) by { LastDigit(ValueOf(b)); }
    } else {
      HalfOfByte(b);
      DownBit(b, p + 1);
      DigitOfByte(Down(b), p + 1);
      DigitOfHalf(ValueOf(b), 7 - p);
    }
  }

  /** Which digit of a number of `bitLen` bits is sent at position `k`. */
  function WeightAt(bitLen: nat, k: nat): nat
    requires k < bitLen
  {
    var first := k / 8 * 8;
    first + (if first + 8 <= bitLen then 8 else bitLen - first) - 1 - k % 8
  }

  /**
    * The order on the wire: the bytes from the least significant one on, and in each of them, the last one included,
    * the most significant bit first.
    */
  lemma ScalarBitAt(u: nat, bitLen: nat, k: nat)
    requires 1 <= bitLen <= 64 && u < Pow2(bitLen) && k < bitLen
    ensures ScalarBits(u, bitLen)[k] == Digit(u, WeightAt(bitLen, k))
  {
    hide BitAt, ToBytes, UpBy, Pow2, BitsOf, Digit;
    var bytes, i := StoredBytes(u, bitLen), k / 8;
    var p := if i == bitLen / 8 then k % 8 + 8 - bitLen % 8 else k % 8;
    if i == bitLen / 8 {
      UpByBit(bytes[i], 8 - bitLen % 8, k % 8);
    }
    assert ScalarBits(u, bitLen)[k] == BitAt(bytes[i], p);
    ToBytesAt(u, StorageBytes(bitLen), i);
    ValueOfBits(u / Pow2(8 * i) % 256);
    DigitOfByte(bytes[i], p);
    DigitOfPart(u, 8 * i, 7 - p);
  }

  lemma DigitOfPart(u: nat, from: nat, w: nat)
    requires w < 8
    ensures Digit(u / Pow2(from) % 256, w) == Digit(u, from + w)
  {
    hide Digit, Pow2;
    ByteHasEightBits();
    LowDigit(Quotient(u, Pow2(from)), 8, w);
    ShiftedDigit(u, from, w);
  }

  lemma ByteHasEightBits()
    ensures Pow2(8) == 256
  {
    Pow2Of8More(0);
  }

  lemma ShiftedDigit(u: nat, from: nat, w: nat)
    ensures Digit(Quotient(u, Pow2(from)), w) == Digit(u, from + w)
  {
    hide Pow2;
    Pow2Sum(from, w);
    DivTwice(u, Pow2(from), Pow2(w));
  }

  lemma {:induction false} LowDigit(v: nat, n: nat, w: nat)
    requires w < n
    ensures Digit(v % Pow2(n), w) == Digit(v, w)
    decreases w
  {
    var m := Pow2(n - 1);
    HalfOfRest(v, m);
    if w == 0 {
      LastDigit(v);
      LastDigit(v % Pow2(n));
    } else {
      hide Digit;
      LowDigit(v / 2, n - 1, w - 1);
      DigitOfHalf(v, w);
      DigitOfHalf(v % Pow2(n), w);
    }
  }

  lemma HalfOfRest(v: nat, m: nat)
    requires m > 0
    ensures v % (2 * m) / 2 == v / 2 % m && v % (2 * m) % 2 == v % 2
  {
    var q, r := v / (2 * m), v % (2 * m);
    assert v == (2 * m) * q + r == 2 * (m * q) + r;
    assert v / 2 == m * q + r / 2;
    DivMod(q, m, r / 2);
  }

  lemma {:induction false} Pow2Sum(m: nat, n: nat)
    ensures Pow2(m + n) == Pow2(m) * Pow2(n)
    decreases n
  {
    if n > 0 {
      Pow2Sum(m, n - 1);
    }
  }

  // ----- Values -----

  /** The value as the encoder sees it, with bits beyond the bit length cleared. */
  function Unsigned(v: int, bitLen: nat): (u: nat)
    ensures u < Pow2(bitLen)
  {
    v % Pow2(bitLen)
  }

  /** The value as the decoder makes it out of the bits. */
  function Extended(u: nat, spec: IntegerSpec): int
    requires IsSpec(spec)
  {
    if spec.signed && u >= Pow2(spec.bitLen - 1) then u - Pow2(spec.bitLen) else u
  }

  function Cast(v: int, spec: IntegerSpec): int
    requires IsSpec(spec)
  {
    if !spec.saturate then Unsigned(v, spec.bitLen)
    else if v > MaxValue(spec) then MaxValue(spec)
    else if v <= MinValue(spec) then MinValue(spec)
    else v
  }

  function ValueBits(v: int, spec: IntegerSpec): (bits: seq<bool>)
    requires IsSpec(spec)
    ensures |bits| == spec.bitLen
  {
    ScalarBits(Unsigned(Cast(v, spec), spec.bitLen), spec.bitLen)
  }

  function BitsValue(bits: seq<bool>, spec: IntegerSpec): int
    requires IsSpec(spec) && |bits| == spec.bitLen
  {
    Extended(ScalarValue(bits), spec)
  }

  /** The range of a type: `2^bitLen` numbers, from zero or from half of them below zero on. */
  lemma RangeOfType(spec: IntegerSpec)
    requires IsSpec(spec)
    ensures MinValue(spec) == if spec.signed then 0 - Pow2(spec.bitLen - 1) else 0
    ensures MaxValue(spec) == MinValue(spec) + Pow2(spec.bitLen) - 1
  {
  }

  /** The closest value in range. */
  function Clamped(v: int, spec: IntegerSpec): int
    requires IsSpec(spec)
  {
    Max(MinValue(spec), Min(v, MaxValue(spec)))
  }

  lemma UnsignedInRange(v: int, spec: IntegerSpec)
    requires IsSpec(spec) && InRange(v, spec)
    ensures Extended(Unsigned(v, spec.bitLen), spec) == v
  {
    var m := Pow2(spec.bitLen);
    assert spec.signed ==> m == 2 * Pow2(spec.bitLen - 1);
    if v < 0 {
      DivMod(-1, m, v + m);
    } else {
      DivMod(0, m, v);
    }
  }

  predicate AreCongruent(a: int, b: int, bitLen: nat) { (a - b) % Pow2(bitLen) == 0 }

  lemma TruncationIsModular(v: int, spec: IntegerSpec)
    requires IsSpec(spec)
    ensures
      var u := Unsigned(v, spec.bitLen);
      var r := Extended(u, spec);
      Unsigned(u, spec.bitLen) == u && AreCongruent(r, v, spec.bitLen) && InRange(r, spec)
  {
    var m := Pow2(spec.bitLen);
    var q, u := v / m, v % m;
    assert spec.signed ==> m == 2 * Pow2(spec.bitLen - 1);
    DivMod(0, m, u);
    DivMod(-q, m, 0);
    DivMod(-q - 1, m, 0);
    hide Pow2;
    assert u - v == m * -q;
    assert u - m - v == m * (-q - 1);
  }

  /**
    * What is decoded is the value in range that was meant: the closest one when saturating, and otherwise the one equal
    * modulo the power of two. A value in range is unchanged either way.
    */
  lemma ValueRoundTrip(v: int, spec: IntegerSpec)
    requires IsSpec(spec)
    ensures
      var r := BitsValue(ValueBits(v, spec), spec);
      var lo := if spec.signed then 0 - Pow2(spec.bitLen - 1) else 0;
      var hi := lo + Pow2(spec.bitLen) - 1;
      && lo <= r <= hi && (lo <= v <= hi ==> r == v)
      && (if spec.saturate then r == (if v < lo then lo else if v > hi then hi else v)
          else AreCongruent(r, v, spec.bitLen))
  {
    hide BitsValue, ValueBits, Pow2, MaxValue, MinValue, AreCongruent;
    ValueIsClampedOrCongruent(v, spec);
    RangeOfType(spec);
  }

  lemma ValueIsClampedOrCongruent(v: int, spec: IntegerSpec)
    requires IsSpec(spec)
    ensures
      var r := BitsValue(ValueBits(v, spec), spec);
      && InRange(r, spec) && (InRange(v, spec) ==> r == v)
      && (if spec.saturate then r == Clamped(v, spec) else AreCongruent(r, v, spec.bitLen))
  {
    var c := Cast(v, spec);
    hide ScalarBits, ScalarValue, Pow2, Unsigned, Extended, AreCongruent, MaxValue, MinValue;
    ScalarRoundTrip(Unsigned(c, spec.bitLen), spec.bitLen);
    RangeIsNotEmpty(spec);
    if spec.saturate {
      UnsignedInRange(c, spec);
    } else {
      TruncationIsModular(v, spec);
      if InRange(v, spec) {
        UnsignedInRange(v, spec);
      }
    }
  }

  lemma RangeIsNotEmpty(spec: IntegerSpec)
    requires IsSpec(spec)
    ensures MinValue(spec) <= 0 <= MaxValue(spec)
  {
  }

  // ----- The codec -----

  /** A stream has room for `bitLen` more bits: in the buffer, and in the memory it is granted for this write. */
  predicate HasRoom(stream: BitStream, bitLen: nat, granted: nat)
    reads stream
  {
    ByteLen(stream.bitOffset + bitLen) <= stream.maxSize && ByteLen(stream.bitOffset % 8 + bitLen) <= granted
  }

  method EncodeBytes(stream: BitStream, bytes: array<Byte>, bitLen: nat, granted: nat, ghost written: seq<bool>)
    returns (res: int)
    requires 1 <= bitLen <= 64 && bytes.Length == StorageBytes(bitLen) && stream.HasWritten(written)
    modifies stream, bytes
    ensures res == if old(HasRoom(stream, bitLen, granted)) then RESULT_OK else RESULT_OUT_OF_BUFFER
    ensures res == RESULT_OK ==> stream.HasWritten(written + BitsFrom(AlignUp(old(bytes[..]), bitLen), 0, bitLen))
  {
    hide Packed, CacheOf, Merged, FlatWrite, BitsFrom, UpBy;
    if bitLen % 8 != 0 {
      bytes[bitLen / 8] := UpBy(bytes[bitLen / 8], 8 - bitLen % 8);
    }
    assert bytes[..] == AlignUp(old(bytes[..]), bitLen);
    res := stream.Write(bytes, bitLen, granted, written);
  }

  /** Appends a value to the stream, saturated or truncated as its type says. */
  method Encode(stream: BitStream, v: int, spec: IntegerSpec, granted: nat, ghost written: seq<bool>)
    returns (res: int)
    requires IsSpec(spec) && stream.HasWritten(written)
    modifies stream
    ensures res == if old(HasRoom(stream, spec.bitLen, granted)) then RESULT_OK else RESULT_OUT_OF_BUFFER
    ensures res == RESULT_OK ==> stream.HasWritten(written + ValueBits(v, spec))
  {
    hide ToBytes, BitsFrom, Packed, CacheOf, Unsigned;
    var value := v;
    if spec.saturate {
      if value > MaxValue(spec) {
        value := MaxValue(spec);
      } else if value <= MinValue(spec) {
        value := MinValue(spec);
      }
    } else {
      value := Unsigned(value, spec.bitLen);
    }
    var stored := StoredBytes(Unsigned(value, spec.bitLen), spec.bitLen);
    var bytes := new Byte[|stored|](i requires 0 <= i < |stored| => stored[i]);
    assert bytes[..] == stored;
    res := EncodeBytes(stream, bytes, spec.bitLen, granted, written);
  }

  method DecodeBytes(stream: BitStream, bytes: array<Byte>, bitLen: nat) returns (res: int)
    requires 1 <= bitLen <= 64 && bytes.Length == StorageBytes(bitLen)
    requires forall i | 0 <= i < bytes.Length :: bytes[i] == 0
    modifies stream, bytes
    ensures stream.buffer == old(stream.buffer)
    ensures res == if old(stream.bitOffset) + bitLen <= 8 * |stream.buffer| then RESULT_OK else RESULT_OUT_OF_BUFFER
    ensures res == RESULT_OK ==>
      && stream.bitOffset == old(stream.bitOffset) + bitLen
      && bytes[..] == ReadBytes(BitsFrom(stream.buffer, old(stream.bitOffset), bitLen))
    ensures res != RESULT_OK ==> stream.bitOffset == old(stream.bitOffset)
  {
    hide Packed, BitsFrom, DownBy;
    res := stream.Read(bytes, bitLen);
    if res > 0 {
      ghost var packed := Packed(BitsFrom(stream.buffer, old(stream.bitOffset), bitLen));
      ghost var read := bytes[..];
      assert read == packed + ZeroBytes(StorageBytes(bitLen) - ByteLen(bitLen));
      if bitLen % 8 != 0 {
        bytes[bitLen / 8] := DownBy(bytes[bitLen / 8], 8 - bitLen % 8);
      }
      assert bytes[..] == AlignDown(read, bitLen);
    }
  }

  /** Takes a value from the stream; the value is meaningless unless the result is positive. */
  method Decode(stream: BitStream, spec: IntegerSpec) returns (res: int, v: int)
    requires IsSpec(spec)
    modifies stream
    ensures stream.buffer == old(stream.buffer)
    ensures res ==
      if old(stream.bitOffset) + spec.bitLen <= 8 * |stream.buffer| then RESULT_OK else RESULT_OUT_OF_BUFFER
    ensures res == RESULT_OK ==>
      && stream.bitOffset == old(stream.bitOffset) + spec.bitLen
      && v == BitsValue(BitsFrom(stream.buffer, old(stream.bitOffset), spec.bitLen), spec)
    ensures res != RESULT_OK ==> stream.bitOffset == old(stream.bitOffset)
  {
    hide ReadBytes, BitsFrom, FromBytes;
    var bytes := new Byte[StorageBytes(spec.bitLen)](_ => 0);
    res := DecodeBytes(stream, bytes, spec.bitLen);
    v := 0;
    if res > 0 {
      v := Extended(FromBytes(bytes[..]), spec);
    }
  }
}
