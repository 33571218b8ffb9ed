/** CRC-16-CCITT (polynomial 0x1021, no reflection) in the two forms the library builds. */
module TransferCrc {
  import opened Transfer

  const INITIAL_VALUE: bv16 := 0xFFFF

  // Exclusive or and doubling under names of their own, so that equal operands give equal results by congruence.
  function Xor(a: bv16, b: bv16): bv16 { a ^ b }

  function Up(v: bv16): bv16 { v << 1 }

  function LowByte(v: bv16): Byte { (v & 0xFF) as bv8 }

  function HighByte(v: bv16): Byte { (v >> 8) as bv8 }

  // ----- The shift register: the reference form -----

  function Shift(v: bv16): bv16
  {
    if v & 0x8000 != 0 then (v << 1) ^ 0x1021 else v << 1
  }

  function ShiftBy(v: bv16, n: nat): bv16
    decreases n
  {
    if n == 0 then v else ShiftBy(Shift(v), n - 1)
  }

  function AddByte(v: bv16, b: Byte): bv16
  {
    ShiftBy(Xor(v, (b as bv16) << 8), 8)
  }

  /** The checksum of a byte string, continued from the register value `v`. */
  function Crc(v: bv16, bytes: seq<Byte>): bv16
  {
    if bytes == [] then v else AddByte(Crc(v, bytes[..|bytes| - 1]), bytes[|bytes| - 1])
  }

  // ----- The lookup table -----

  /** Entry `k` (taken from its low four bits) of a table row. */
  function Pick(k: bv8, v0: bv16, v1: bv16, v2: bv16, v3: bv16, v4: bv16, v5: bv16, v6: bv16, v7: bv16,
                v8: bv16, v9: bv16, vA: bv16, vB: bv16, vC: bv16, vD: bv16, vE: bv16, vF: bv16): bv16
  {
    if k & 8 == 0 then
      if k & 4 == 0 then
        if k & 2 == 0 then (if k & 1 == 0 then v0 else v1) else (if k & 1 == 0 then v2 else v3)
      else
        if k & 2 == 0 then (if k & 1 == 0 then v4 else v5) else (if k & 1 == 0 then v6 else v7)
    else
      if k & 4 == 0 then
        if k & 2 == 0 then (if k & 1 == 0 then v8 else v9) else (if k & 1 == 0 then vA else vB)
      else
        if k & 2 == 0 then (if k & 1 == 0 then vC else vD) else (if k & 1 == 0 then vE else vF)
  }

  function Table(index: bv8): bv16
  {
    match index >> 4
    case 0 => Pick(index, 0x0000, 0x1021, 0x2042, 0x3063, 0x4084, 0x50A5, 0x60C6, 0x70E7,
                   0x8108, 0x9129, 0xA14A, 0xB16B, 0xC18C, 0xD1AD, 0xE1CE, 0xF1EF)
    case 1 => Pick(index, 0x1231, 0x0210, 0x3273, 0x2252, 0x52B5, 0x4294, 0x72F7, 0x62D6,
                   0x9339, 0x8318, 0xB37B, 0xA35A, 0xD3BD, 0xC39C, 0xF3FF, 0xE3DE)
    case 2 => Pick(index, 0x2462, 0x3443, 0x0420, 0x1401, 0x64E6, 0x74C7, 0x44A4, 0x5485,
                   0xA56A, 0xB54B, 0x8528, 0x9509, 0xE5EE, 0xF5CF, 0xC5AC, 0xD58D)
    case 3 => Pick(index, 0x3653, 0x2672, 0x1611, 0x0630, 0x76D7, 0x66F6, 0x5695, 0x46B4,
                   0xB75B, 0xA77A, 0x9719, 0x8738, 0xF7DF, 0xE7FE, 0xD79D, 0xC7BC)
    case 4 => Pick(index, 0x48C4, 0x58E5, 0x6886, 0x78A7, 0x0840, 0x1861, 0x2802, 0x3823,
                   0xC9CC, 0xD9ED, 0xE98E, 0xF9AF, 0x8948, 0x9969, 0xA90A, 0xB92B)
    case 5 => Pick(index, 0x5AF5, 0x4AD4, 0x7AB7, 0x6A96, 0x1A71, 0x0A50, 0x3A33, 0x2A12,
                   0xDBFD, 0xCBDC, 0xFBBF, 0xEB9E, 0x9B79, 0x8B58, 0xBB3B, 0xAB1A)
    case 6 => Pick(index, 0x6CA6, 0x7C87, 0x4CE4, 0x5CC5, 0x2C22, 0x3C03, 0x0C60, 0x1C41,
                   0xEDAE, 0xFD8F, 0xCDEC, 0xDDCD, 0xAD2A, 0xBD0B, 0x8D68, 0x9D49)
    case 7 => Pick(index, 0x7E97, 0x6EB6, 0x5ED5, 0x4EF4, 0x3E13, 0x2E32, 0x1E51, 0x0E70,
                   0xFF9F, 0xEFBE, 0xDFDD, 0xCFFC, 0xBF1B, 0xAF3A, 0x9F59, 0x8F78)
    case 8 => Pick(index, 0x9188, 0x81A9, 0xB1CA, 0xA1EB, 0xD10C, 0xC12D, 0xF14E, 0xE16F,
                   0x1080, 0x00A1, 0x30C2, 0x20E3, 0x5004, 0x4025, 0x7046, 0x6067)
    case 9 => Pick(index, 0x83B9, 0x9398, 0xA3FB, 0xB3DA, 0xC33D, 0xD31C, 0xE37F, 0xF35E,
                   0x02B1, 0x1290, 0x22F3, 0x32D2, 0x4235, 0x5214, 0x6277, 0x7256)
    case 10 => Pick(index, 0xB5EA, 0xA5CB, 0x95A8, 0x8589, 0xF56E, 0xE54F, 0xD52C, 0xC50D,
                   0x34E2, 0x24C3, 0x14A0, 0x0481, 0x7466, 0x6447, 0x5424, 0x4405)
    case 11 => Pick(index, 0xA7DB, 0xB7FA, 0x8799, 0x97B8, 0xE75F, 0xF77E, 0xC71D, 0xD73C,
                   0x26D3, 0x36F2, 0x0691, 0x16B0, 0x6657, 0x7676, 0x4615, 0x5634)
    case 12 => Pick(index, 0xD94C, 0xC96D, 0xF90E, 0xE92F, 0x99C8, 0x89E9, 0xB98A, 0xA9AB,
                   0x5844, 0x4865, 0x7806, 0x6827, 0x18C0, 0x08E1, 0x3882, 0x28A3)
    case 13 => Pick(index, 0xCB7D, 0xDB5C, 0xEB3F, 0xFB1E, 0x8BF9, 0x9BD8, 0xABBB, 0xBB9A,
                   0x4A75, 0x5A54, 0x6A37, 0x7A16, 0x0AF1, 0x1AD0, 0x2AB3, 0x3A92)
    case 14 => Pick(index, 0xFD2E, 0xED0F, 0xDD6C, 0xCD4D, 0xBDAA, 0xAD8B, 0x9DE8, 0x8DC9,
                   0x7C26, 0x6C07, 0x5C64, 0x4C45, 0x3CA2, 0x2C83, 0x1CE0, 0x0CC1)
    case _ => Pick(index, 0xEF1F, 0xFF3E, 0xCF5D, 0xDF7C, 0xAF9B, 0xBFBA, 0x8FD9, 0x9FF8,
                   0x6E17, 0x7E36, 0x4E55, 0x5E74, 0x2E93, 0x3EB2, 0x0ED1, 0x1EF0)
  }

  function AddByteByTable(v: bv16, b: Byte): bv16
  {
    Xor(v << 8, Table(((v >> 8) as bv8) ^ b))
  }

  function EightShifts(v: bv16): bv16
  {
    Shift(Shift(Shift(Shift(Shift(Shift(Shift(Shift(v))))))))
  }

  lemma ShiftByEight(v: bv16)
    ensures ShiftBy(v, 8) == EightShifts(v)
  {
    var v2 := Shift(Shift(v));
    var v4 := Shift(Shift(v2));
    var v6 := Shift(Shift(v4));
    assert ShiftBy(v, 8) == ShiftBy(v2, 6);
    assert ShiftBy(v2, 6) == ShiftBy(v4, 4);
    assert ShiftBy(v4, 4) == ShiftBy(v6, 2);
    assert ShiftBy(v6, 2) == ShiftBy(Shift(v6), 1);
  }

  lemma LowerHalfOfTable(index: bv8)
    requires index & 0x80 == 0
    ensures Table(index) == EightShifts((index as bv16) << 8)
  {
  }

  lemma UpperHalfOfTable(index: bv8)
    requires index & 0x80 != 0
    ensures Table(index) == EightShifts((index as bv16) << 8)
  {
  }

  /** Every one of the 256 constants is the shift register's response to its index. */
  lemma TableIsShiftRegister(index: bv8)
    ensures Table(index) == ShiftBy((index as bv16) << 8, 8)
  {
    ShiftByEight((index as bv16) << 8);
    if index & 0x80 == 0 {
      LowerHalfOfTable(index);
    } else {
      UpperHalfOfTable(index);
    }
  }

  lemma ShiftWithFeedback(a: bv16, c: bv16)
    requires a & 0x8000 != 0 && c & 0x8000 == 0
    ensures Shift(Xor(a, c)) == Xor(Shift(a), Up(c))
  {
    assert (a ^ c) & 0x8000 != 0;
  }

  lemma ShiftWithoutFeedback(a: bv16, c: bv16)
    requires a & 0x8000 == 0 && c & 0x8000 == 0
    ensures Shift(Xor(a, c)) == Xor(Shift(a), Up(c))
  {
    assert (a ^ c) & 0x8000 == 0;
  }

  /** The shift is linear: bits below the feedback tap only move up. */
  lemma ShiftIsLinear(a: bv16, c: bv16)
    requires c & 0x8000 == 0
    ensures Shift(Xor(a, c)) == Xor(Shift(a), Up(c))
  {
    if a & 0x8000 == 0 {
      ShiftWithoutFeedback(a, c);
    } else {
      ShiftWithFeedback(a, c);
    }
  }

  /** No bit of `c` meets the feedback tap within `n` shifts. */
  predicate StaysBelowTap(c: bv16, n: nat)
    decreases n
  {
    n == 0 || (c & 0x8000 == 0 && StaysBelowTap(Up(c), n - 1))
  }

  function UpBy(c: bv16, n: nat): bv16
    decreases n
  {
    if n == 0 then c else UpBy(Up(c), n - 1)
  }

  lemma {:induction false} ShiftByIsLinear(a: bv16, c: bv16, n: nat)
    requires StaysBelowTap(c, n)
    ensures ShiftBy(Xor(a, c), n) == Xor(ShiftBy(a, n), UpBy(c, n))
    decreases n
  {
    if n > 0 {
      ShiftIsLinear(a, c);
      ShiftByIsLinear(Shift(a), Up(c), n - 1);
    }
  }

  lemma LowByteStaysBelowTap(v: bv16)
    ensures StaysBelowTap(v & 0xFF, 8) && UpBy(v & 0xFF, 8) == v << 8
  {
    var c2 := Up(Up(v & 0xFF));
    var c4 := Up(Up(c2));
    var c6 := Up(Up(c4));
    assert StaysBelowTap(c6, 2) && UpBy(c6, 2) == Up(Up(c6)) by {
      assert StaysBelowTap(Up(c6), 1) && UpBy(Up(c6), 1) == Up(Up(c6));
    }
    assert StaysBelowTap(c4, 4) && UpBy(c4, 4) == UpBy(c6, 2);
    assert StaysBelowTap(c2, 6) && UpBy(c2, 6) == UpBy(c4, 4);
  }

  lemma InputMeetsHighByte(v: bv16, b: Byte)
    ensures Xor(v, (b as bv16) << 8) == Xor(((((v >> 8) as bv8) ^ b) as bv16) << 8, v & 0xFF)
  {
  }

  lemma XorCommutes(a: bv16, b: bv16)
    ensures Xor(a, b) == Xor(b, a)
  {
  }

  /** The table form computes exactly the shift-register form, for every register value and byte. */
  lemma TableFormIsBitwiseForm(v: bv16, b: Byte)
    ensures AddByteByTable(v, b) == AddByte(v, b)
  {
    var index := ((v >> 8) as bv8) ^ b;
    InputMeetsHighByte(v, b);
    LowByteStaysBelowTap(v);
    ShiftByIsLinear((index as bv16) << 8, v & 0xFF, 8);
    TableIsShiftRegister(index);
    XorCommutes(Table(index), v << 8);
  }

  /** The register can be shifted back: the low bit tells whether there was feedback. */
  function Unshift(v: bv16): bv16
  {
    if v & 1 == 1 then ((v ^ 0x1021) >> 1) | 0x8000 else v >> 1
  }

  lemma UnshiftWithFeedback(v: bv16)
    requires v & 0x8000 != 0
    ensures Unshift(Shift(v)) == v
  {
    assert ((v << 1) ^ 0x1021) & 1 == 1;
  }

  lemma UnshiftWithoutFeedback(v: bv16)
    requires v & 0x8000 == 0
    ensures Unshift(Shift(v)) == v
  {
    assert (v << 1) & 1 == 0;
  }

  lemma UnshiftUndoesShift(v: bv16)
    ensures Unshift(Shift(v)) == v
  {
    if v & 0x8000 != 0 {
      UnshiftWithFeedback(v);
    } else {
      UnshiftWithoutFeedback(v);
    }
  }

  lemma {:induction false} ShiftByIsInjective(a: bv16, b: bv16, n: nat)
    requires a != b
    ensures ShiftBy(a, n) != ShiftBy(b, n)
    decreases n
  {
    hide Shift, Unshift;
    if n > 0 {
      UnshiftUndoesShift(a);
      UnshiftUndoesShift(b);
      ShiftByIsInjective(Shift(a), Shift(b), n - 1);
    }
  }

  lemma InputsDiffer(v: bv16, b: Byte, c: Byte)
    requires b != c
    ensures Xor(v, (b as bv16) << 8) != Xor(v, (c as bv16) << 8)
  {
  }

  /** Different bytes never lead to the same checksum. */
  lemma BytesAreTold(v: bv16, b: Byte, c: Byte)
    requires b != c
    ensures AddByte(v, b) != AddByte(v, c)
  {
    hide Xor, ShiftBy;
    InputsDiffer(v, b, c);
    ShiftByIsInjective(Xor(v, (b as bv16) << 8), Xor(v, (c as bv16) << 8), 8);
  }

  lemma StartsDiffer(v: bv16, w: bv16, b: Byte)
    requires v != w
    ensures Xor(v, (b as bv16) << 8) != Xor(w, (b as bv16) << 8)
  {
  }

  /** Different start values never lead to the same checksum of the same bytes. */
  lemma {:induction false} StartValuesAreTold(v: bv16, w: bv16, bytes: seq<Byte>)
    requires v != w
    ensures Crc(v, bytes) != Crc(w, bytes)
  {
    hide Xor, ShiftBy;
    if bytes != [] {
      var n := |bytes| - 1;
      StartValuesAreTold(v, w, bytes[..n]);
      var a, b := Crc(v, bytes[..n]), Crc(w, bytes[..n]);
      StartsDiffer(a, b, bytes[n]);
      ShiftByIsInjective(Xor(a, (bytes[n] as bv16) << 8), Xor(b, (bytes[n] as bv16) << 8), 8);
    }
  }

  lemma ShiftWasFedBack(v: bv16)
    requires v & 1 == 1
    ensures Shift(Unshift(v)) == v
  {
    assert (((v ^ 0x1021) >> 1) | 0x8000) & 0x8000 != 0;
  }

  lemma ShiftWasNotFedBack(v: bv16)
    requires v & 1 == 0
    ensures Shift(Unshift(v)) == v
  {
    assert (v >> 1) & 0x8000 == 0;
  }

  lemma ShiftUndoesUnshift(v: bv16)
    ensures Shift(Unshift(v)) == v
  {
    if v & 1 == 1 {
      ShiftWasFedBack(v);
    } else {
      assert v & 1 == 0;
      ShiftWasNotFedBack(v);
    }
  }

  /** Every register value is reached by `n` shifts from some other. */
  lemma {:induction false} ShiftByIsOnto(t: bv16, n: nat) returns (w: bv16)
    ensures ShiftBy(w, n) == t
    decreases n
  {
    hide Shift, Unshift;
    if n == 0 {
      w := t;
    } else {
      var u := ShiftByIsOnto(t, n - 1);
      w := Unshift(u);
      ShiftUndoesUnshift(u);
    }
  }

  /** The table index whose entry ends in the given byte. */
  function IndexEndingIn(low: Byte): Byte
  {
    var x := low ^ (low << 5);
    x ^ (x >> 4)
  }

  lemma LowPartsOfTable(low: Byte)
    ensures LowByte(EightShifts((IndexEndingIn(low) as bv16) << 8)) == low
  {
  }

  function Input(v: bv16, index: Byte): Byte { HighByte(v) ^ index }

  lemma InputSelectsIndex(v: bv16, index: Byte)
    ensures HighByte(v) ^ Input(v, index) == index
  {
  }

  lemma LowPartOfStep(v: bv16, entry: bv16)
    ensures LowByte(Xor(v << 8, entry)) == LowByte(entry)
  {
  }

  lemma EqualLowParts(u: bv16, w: bv16)
    requires LowByte(u) == LowByte(w)
    ensures Xor(u, (Input(u, HighByte(w)) as bv16) << 8) == w
  {
  }

  lemma StepByIndex(v: bv16, index: Byte)
    ensures LowByte(AddByte(v, Input(v, index))) == LowByte(EightShifts((index as bv16) << 8))
  {
    TableFormIsBitwiseForm(v, Input(v, index));
    InputSelectsIndex(v, index);
    TableIsShiftRegister(index);
    ShiftByEight((index as bv16) << 8);
    hide Table, AddByte, EightShifts, ShiftBy;
    LowPartOfStep(v, Table(index));
  }

  /** Two more bytes can bring the checksum to any value. */
  lemma TwoBytesReachAnyChecksum(v: bv16, t: bv16) returns (x: Byte, y: Byte)
    ensures AddByte(AddByte(v, x), y) == t
  {
    hide LowByte, HighByte, IndexEndingIn, EightShifts, Xor, ShiftBy, Input;
    var w := ShiftByIsOnto(t, 8);
    var index := IndexEndingIn(LowByte(w));
    x := Input(v, index);
    StepByIndex(v, index);
    LowPartsOfTable(LowByte(w));
    var u := AddByte(v, x);
    y := Input(u, HighByte(w));
    EqualLowParts(u, w);
  }

  /** Checksumming in pieces is checksumming the whole. */
  lemma {:induction false} CrcOfConcatenation(v: bv16, a: seq<Byte>, b: seq<Byte>)
    ensures Crc(v, a + b) == Crc(Crc(v, a), b)
  {
    if b == [] {
      assert a + b == a;
    } else {
      var n := |b| - 1;
      CrcOfConcatenation(v, a, b[..n]);
      assert (a + b)[..|a + b| - 1] == a + b[..n];
    }
  }

  // ----- The accumulator object -----

  class TransferCRC {
    var value: bv16

    constructor ()
      ensures value == INITIAL_VALUE
    {
      value := INITIAL_VALUE;
    }

    /** The form built for small targets: eight conditional shifts. */
    method AddBitwise(b: Byte)
      modifies this
      ensures value == AddByte(old(value), b)
    {
      value := Xor(value, (b as bv16) << 8);
      ghost var start := value;
      var bit := 8;
      while bit > 0
        invariant 0 <= bit <= 8
        invariant ShiftBy(value, bit) == ShiftBy(start, 8)
      {
        if value & 0x8000 != 0 {
          value := (value << 1) ^ 0x1021;
        } else {
          value := value << 1;
        }
        bit := bit - 1;
      }
    }

    /** The default form: one table access. */
    method AddTable(b: Byte)
      modifies this
      ensures value == AddByte(old(value), b)
    {
      value := Xor(value << 8, Table(((value >> 8) as bv8) ^ b));
      TableFormIsBitwiseForm(old(value), b);
    }

    method Add(bytes: seq<Byte>)
      modifies this
      ensures value == Crc(old(value), bytes)
    {
      var i := 0;
      while i < |bytes|
        invariant 0 <= i <= |bytes|
        invariant value == Crc(old(value), bytes[..i])
      {
        AddTable(bytes[i]);
        assert bytes[..i + 1][..i] == bytes[..i];
        i := i + 1;
      }
      assert bytes[..i] == bytes;
    }
  }
}
