/** Bytes as arrays of bits, the most significant bit first. */
module Bits {
  import opened Transfer
  import opened Arithmetic

  /** The single bit at position `p`. */
  function Probe(p: int): Byte
    requires 0 <= p < 8
  {
    match p
    case 0 => 0x80
    case 1 => 0x40
    case 2 => 0x20
    case 3 => 0x10
    case 4 => 0x08
    case 5 => 0x04
    case 6 => 0x02
    case _ => 0x01
  }

  function Not(b: Byte): Byte { !b }

  function And(a: Byte, b: Byte): Byte { a & b }

  function Or(a: Byte, b: Byte): Byte { a | b }

  predicate BitAt(b: Byte, p: int)
    requires 0 <= p < 8
  {
    And(b, Probe(p)) != 0
  }

  predicate IsProbe(m: Byte)
  {
    m == 0x80 || m == 0x40 || m == 0x20 || m == 0x10 || m == 0x08 || m == 0x04 || m == 0x02 || m == 0x01
  }

  lemma ProbesAreProbes(p: int)
    requires 0 <= p < 8
    ensures IsProbe(Probe(p))
  {
  }

  lemma OneBitOfNot(b: Byte, m: Byte)
    requires IsProbe(m)
    ensures And(Not(b), m) != 0 <==> And(b, m) == 0
  {
  }

  lemma OneBitOfAnd(a: Byte, b: Byte, m: Byte)
    requires IsProbe(m)
    ensures And(And(a, b), m) != 0 <==> And(a, m) != 0 && And(b, m) != 0
  {
  }

  lemma DeMorgan(a: Byte, b: Byte)
    ensures Or(a, b) == Not(And(Not(a), Not(b)))
  {
  }

  lemma OneBitOfOr(a: Byte, b: Byte, m: Byte)
    requires IsProbe(m)
    ensures And(Or(a, b), m) != 0 <==> And(a, m) != 0 || And(b, m) != 0
  {
    hide Not, And, Or, IsProbe;
    DeMorgan(a, b);
    OneBitOfNot(a, m);
    OneBitOfNot(b, m);
    OneBitOfAnd(Not(a), Not(b), m);
    OneBitOfNot(And(Not(a), Not(b)), m);
  }

  /** `old'` with the bits of `mask` replaced by those of `data`. */
  function Blended(old': Byte, data: Byte, mask: Byte): Byte { Or(And(old', Not(mask)), And(data, mask)) }

  lemma BlendedBit(old': Byte, data: Byte, mask: Byte, p: int)
    requires 0 <= p < 8
    ensures BitAt(Blended(old', data, mask), p) == if BitAt(mask, p) then BitAt(data, p) else BitAt(old', p)
  {
    hide Not, And, Or, Probe, IsProbe;
    var m := Probe(p);
    ProbesAreProbes(p);
    OneBitOfNot(mask, m);
    OneBitOfAnd(old', Not(mask), m);
    OneBitOfAnd(data, mask, m);
    OneBitOfOr(And(old', Not(mask)), And(data, mask), m);
  }

  lemma OrBit(a: Byte, b: Byte, p: int)
    requires 0 <= p < 8
    ensures BitAt(Or(a, b), p) == (BitAt(a, p) || BitAt(b, p))
  {
    hide And, Or, Probe, IsProbe;
    ProbesAreProbes(p);
    OneBitOfOr(a, b, Probe(p));
  }

  /** A byte is its bits. */
  lemma ByteIsItsBits(a: Byte, b: Byte)
    requires forall p | 0 <= p < 8 :: BitAt(a, p) == BitAt(b, p)
    ensures a == b
  {
    assert BitAt(a, 0) == BitAt(b, 0) && BitAt(a, 1) == BitAt(b, 1) && BitAt(a, 2) == BitAt(b, 2);
    assert BitAt(a, 3) == BitAt(b, 3) && BitAt(a, 4) == BitAt(b, 4) && BitAt(a, 5) == BitAt(b, 5);
    assert BitAt(a, 6) == BitAt(b, 6) && BitAt(a, 7) == BitAt(b, 7);
  }

  // ----- Shifts, as repeated shifts by one -----

  function Down(b: Byte): Byte { b >> 1 }

  function Up(b: Byte): Byte { b << 1 }

  function WideDown(w: bv16): bv16 { w >> 1 }

  function WideUp(w: bv16): bv16 { w << 1 }

  function Wide(b: Byte): bv16 { b as bv16 }

  function Low(w: bv16): Byte { (w & 0xFF) as bv8 }

  function DownBy(b: Byte, n: nat): Byte
    decreases n
  {
    if n == 0 then b else DownBy(Down(b), n - 1)
  }

  function UpBy(b: Byte, n: nat): Byte
    decreases n
  {
    if n == 0 then b else UpBy(Up(b), n - 1)
  }

  function WideDownBy(w: bv16, n: nat): bv16
    decreases n
  {
    if n == 0 then w else WideDownBy(WideDown(w), n - 1)
  }

  function WideUpBy(w: bv16, n: nat): bv16
    decreases n
  {
    if n == 0 then w else WideUpBy(WideUp(w), n - 1)
  }

  lemma DownBit(b: Byte, p: int)
    requires 0 <= p < 8
    ensures BitAt(Down(b), p) == (1 <= p && BitAt(b, p - 1))
  {
  }

  lemma UpBit(b: Byte, p: int)
    requires 0 <= p < 8
    ensures BitAt(Up(b), p) == (p < 7 && BitAt(b, p + 1))
  {
  }

  lemma LowOfWideUp(w: bv16)
    ensures Low(WideUp(w)) == Up(Low(w))
  {
  }

  lemma LowOfWide(b: Byte)
    ensures Low(Wide(b)) == b
  {
  }

  lemma LowOfWideDown(w: bv16, p: int)
    requires 1 <= p < 8
    ensures BitAt(Low(WideDown(w)), p) == BitAt(Low(w), p - 1)
  {
    assert Low(WideDown(w)) & 0x7F == Down(Low(w));
    DownBit(Low(w), p);
    var c := Low(WideDown(w));
    assert BitAt(c, p) == BitAt(c & 0x7F, p);
  }

  lemma {:induction false} DownByBit(b: Byte, n: nat, p: int)
    requires 0 <= p < 8
    ensures BitAt(DownBy(b, n), p) == (n <= p && BitAt(b, p - n))
    decreases n
  {
    hide BitAt, Down;
    if n > 0 {
      DownByBit(Down(b), n - 1, p);
      if n <= p + 1 {
        DownBit(b, p - n + 1);
      }
    }
  }

  lemma {:induction false} UpByBit(b: Byte, n: nat, p: int)
    requires 0 <= p < 8
    ensures BitAt(UpBy(b, n), p) == (p + n < 8 && BitAt(b, p + n))
    decreases n
  {
    hide BitAt, Up;
    if n > 0 {
      UpByBit(Up(b), n - 1, p);
      if p + n - 1 < 8 {
        UpBit(b, p + n - 1);
      }
    }
  }

  lemma {:induction false} LowOfWideUpBy(w: bv16, n: nat)
    ensures Low(WideUpBy(w, n)) == UpBy(Low(w), n)
    decreases n
  {
    hide Low, Up, WideUp;
    if n > 0 {
      LowOfWideUp(w);
      LowOfWideUpBy(WideUp(w), n - 1);
    }
  }

  lemma {:induction false} LowOfWideDownBy(w: bv16, n: nat, p: int)
    requires n <= p < 8
    ensures BitAt(Low(WideDownBy(w, n)), p) == BitAt(Low(w), p - n)
    decreases n
  {
    hide BitAt, Low, WideDown;
    if n > 0 {
      LowOfWideDown(w, p - n + 1);
      LowOfWideDownBy(WideDown(w), n - 1, p);
    }
  }

  /** A byte moved left and then right inside a wider word, as far as it is not covered by what was moved in. */
  lemma MovedBit(b: Byte, left: nat, right: nat, p: int)
    requires right <= p < 8 && p - right + left < 8
    ensures BitAt(Low(WideDownBy(WideUpBy(Wide(b), left), right)), p) == BitAt(b, p - right + left)
  {
    hide BitAt, Low, Wide;
    LowOfWideDownBy(WideUpBy(Wide(b), left), right, p);
    LowOfWideUpBy(Wide(b), left);
    LowOfWide(b);
    UpByBit(b, left, p - right);
  }

  // ----- Masks -----

  /** The first `n` bits. */
  function TopMask(n: nat): Byte { Low(WideDownBy(0xFF00, n)) }

  function MaskRow(n: nat): bv16
    requires n <= 8
  {
    match n
    case 0 => 0xFF00
    case 1 => 0x7F80
    case 2 => 0x3FC0
    case 3 => 0x1FE0
    case 4 => 0x0FF0
    case 5 => 0x07F8
    case 6 => 0x03FC
    case 7 => 0x01FE
    case _ => 0x00FF
  }

  lemma MaskRowStep(n: nat)
    requires n < 8
    ensures WideDown(MaskRow(n)) == MaskRow(n + 1)
  {
  }

  lemma {:induction false} MaskRowsAreShifts(m: nat, n: nat)
    requires m + n <= 8
    ensures WideDownBy(MaskRow(m), n) == MaskRow(m + n)
    decreases n
  {
    hide WideDown, MaskRow;
    if n > 0 {
      MaskRowStep(m);
      MaskRowsAreShifts(m + 1, n - 1);
    }
  }

  lemma MaskRowBit(n: nat, p: int)
    requires n <= 8 && 0 <= p < 8
    ensures BitAt(Low(MaskRow(n)), p) == (p < n)
  {
  }

  lemma TopMaskBit(n: nat, p: int)
    requires n <= 8 && 0 <= p < 8
    ensures BitAt(TopMask(n), p) == (p < n)
  {
    MaskRowsAreShifts(0, n);
    MaskRowBit(n, p);
  }

  // ----- Bit arrays -----

  predicate Bit(bytes: seq<Byte>, k: nat)
    requires k < 8 * |bytes|
  {
    BitAt(bytes[k / 8], k % 8)
  }

  lemma SameBitsSameBytes(a: seq<Byte>, b: seq<Byte>)
    requires |a| == |b| && forall k: nat | k < 8 * |a| :: Bit(a, k) == Bit(b, k)
    ensures a == b
  {
    hide BitAt;
    forall i | 0 <= i < |a|
      ensures a[i] == b[i]
    {
      forall p | 0 <= p < 8
        ensures BitAt(a[i], p) == BitAt(b[i], p)
      {
        assert Bit(a, 8 * i + p) == Bit(b, 8 * i + p);
      }
      ByteIsItsBits(a[i], b[i]);
    }
  }

  /** `after` is `before` with `len` bits from `srcOffset` on copied to `dstOffset`. */
  ghost predicate IsCopied(src: seq<Byte>, srcOffset: nat, len: nat, before: seq<Byte>, after: seq<Byte>,
                           dstOffset: nat)
    requires srcOffset + len <= 8 * |src|
  {
    && |after| == |before|
    && forall k: nat | k < 8 * |after| ::
         Bit(after, k) ==
           if dstOffset <= k < dstOffset + len then Bit(src, srcOffset + k - dstOffset) else Bit(before, k)
  }

  // ----- Packing -----

  function ByteOf(bits: seq<bool>): Byte
  {
    Collected(bits, 0)
  }

  /** The byte with the given bits from position `p` on. */
  function Collected(bits: seq<bool>, p: nat): Byte
    requires p <= 8
    decreases 8 - p
  {
    if p == 8 then 0
    else if p < |bits| && bits[p] then Or(Probe(p), Collected(bits, p + 1))
    else Collected(bits, p + 1)
  }

  lemma ProbeBit(p: int, q: int)
    requires 0 <= p < 8 && 0 <= q < 8
    ensures BitAt(Probe(p), q) == (p == q) && !BitAt(0, q)
  {
  }

  lemma {:induction false} CollectedBit(bits: seq<bool>, p: nat, q: int)
    requires p <= 8 && 0 <= q < 8
    ensures BitAt(Collected(bits, p), q) == (p <= q < |bits| && bits[q])
    decreases 8 - p
  {
    hide BitAt, Or, Probe;
    if p == 8 {
      ProbeBit(0, q);
    } else {
      CollectedBit(bits, p + 1, q);
      ProbeBit(p, q);
      OrBit(Probe(p), Collected(bits, p + 1), q);
    }
  }

  /** The number of bytes that hold `n` bits. */
  function ByteLen(n: nat): nat { (n + 7) / 8 }

  function Chunk(bits: seq<bool>, i: nat): seq<bool>
    requires 8 * i <= |bits|
  {
    bits[8 * i..Min(8 * i + 8, |bits|)]
  }

  /** The bits in as many bytes as needed, padded with zeros. */
  function Packed(bits: seq<bool>): (bytes: seq<Byte>)
    ensures |bytes| == ByteLen(|bits|)
  {
    seq(ByteLen(|bits|), i requires 0 <= i < ByteLen(|bits|) => ByteOf(Chunk(bits, i)))
  }

  lemma PackedBit(bits: seq<bool>, k: nat)
    requires k < 8 * ByteLen(|bits|)
    ensures Bit(Packed(bits), k) == (k < |bits| && bits[k])
  {
    hide BitAt, Collected;
    CollectedBit(Chunk(bits, k / 8), 0, k % 8);
  }

  /** Packing is the only byte string of its length with these bits and zero padding. */
  lemma PackedIsUnique(bits: seq<bool>, bytes: seq<Byte>)
    requires |bytes| == ByteLen(|bits|)
    requires forall k: nat | k < 8 * |bytes| :: Bit(bytes, k) == (k < |bits| && bits[k])
    ensures bytes == Packed(bits)
  {
    hide Bit, Packed;
    forall k: nat | k < 8 * |bytes|
      ensures Bit(bytes, k) == Bit(Packed(bits), k)
    {
      PackedBit(bits, k);
    }
    SameBitsSameBytes(bytes, Packed(bits));
  }

  /** `n` bits of a byte string from position `from` on. */
  function BitsFrom(bytes: seq<Byte>, from: nat, n: nat): (bits: seq<bool>)
    requires from + n <= 8 * |bytes|
    ensures |bits| == n
  {
    seq(n, k requires 0 <= k < n => Bit(bytes, from + k))
  }

  /** Reading bits back from a packed string. */
  lemma BitsFromPacked(bits: seq<bool>, from: nat, n: nat)
    requires from + n <= |bits|
    ensures BitsFrom(Packed(bits), from, n) == bits[from..from + n]
  {
    hide Bit, Packed;
    forall k: nat | k < n
      ensures BitsFrom(Packed(bits), from, n)[k] == bits[from + k]
    {
      PackedBit(bits, from + k);
    }
  }
}
