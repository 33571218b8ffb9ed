/** Copying unaligned bit arrays, up to a byte at a time. */
module BitArrayCopy {
  import opened Transfer
  import opened Arithmetic
  import opened Bits

  /** The destination byte after `n` bits have gone from position `from` of a source byte to position `to`. */
  function Transferred(old': Byte, src: Byte, from: nat, to: nat, n: nat): Byte
  {
    var writeMask := DownBy(TopMask(n), to);
    var srcData := Low(WideDownBy(WideUpBy(Wide(src), from), to));
    Blended(old', srcData, writeMask)
  }

  lemma TransferredBit(old': Byte, src: Byte, from: nat, to: nat, n: nat, p: int)
    requires from + n <= 8 && to + n <= 8 && 0 <= p < 8
    ensures BitAt(Transferred(old', src, from, to, n), p) ==
      if to <= p < to + n then BitAt(src, from + p - to) else BitAt(old', p)
  {
    hide BitAt, Blended, DownBy, TopMask, Low;
    var writeMask := DownBy(TopMask(n), to);
    BlendedBit(old', Low(WideDownBy(WideUpBy(Wide(src), from), to)), writeMask, p);
    DownByBit(TopMask(n), to, p);
    if to <= p {
      TopMaskBit(n, p - to);
      if p < to + n {
        MovedBit(src, from, to, p);
      }
    }
  }

  lemma SameByte(s: nat, j: nat)
    requires s % 8 + j < 8
    ensures (s + j) / 8 == s / 8 && (s + j) % 8 == s % 8 + j
  {
  }

  /** A single piece changes exactly the bits from `d` to `d + n`. */
  lemma PieceBit(src: seq<Byte>, s: nat, mid: seq<Byte>, d: nat, n: nat, k: nat)
    requires s + n <= 8 * |src| && d + n <= 8 * |mid| && n > 0 && s % 8 + n <= 8 && d % 8 + n <= 8 && k < 8 * |mid|
    ensures
      var after := mid[d / 8 := Transferred(mid[d / 8], src[s / 8], s % 8, d % 8, n)];
      Bit(after, k) == if d <= k < d + n then Bit(src, s + k - d) else Bit(mid, k)
  {
    hide BitAt, Transferred;
    if d <= k < d + n {
      SameByte(s, k - d);
      SameByte(d, k - d);
    }
    if k / 8 == d / 8 {
      TransferredBit(mid[d / 8], src[s / 8], s % 8, d % 8, n, k % 8);
    }
  }

  /** One more piece copied. */
  lemma CopyExtends(src: seq<Byte>, srcOffset: nat, done: nat, before: seq<Byte>, mid: seq<Byte>, dstOffset: nat,
                    n: nat)
    requires srcOffset + done + n <= 8 * |src| && dstOffset + done + n <= 8 * |before| && n > 0
    requires (srcOffset + done) % 8 + n <= 8 && (dstOffset + done) % 8 + n <= 8
    requires IsCopied(src, srcOffset, done, before, mid, dstOffset)
    ensures
      var s, d := srcOffset + done, dstOffset + done;
      var after := mid[d / 8 := Transferred(mid[d / 8], src[s / 8], s % 8, d % 8, n)];
      IsCopied(src, srcOffset, done + n, before, after, dstOffset)
  {
    hide Bit, Transferred;
    var s, d := srcOffset + done, dstOffset + done;
    var after := mid[d / 8 := Transferred(mid[d / 8], src[s / 8], s % 8, d % 8, n)];
    forall k: nat | k < 8 * |after|
      ensures Bit(after, k) ==
        if dstOffset <= k < d + n then Bit(src, srcOffset + k - dstOffset) else Bit(before, k)
    {
      PieceBit(src, s, mid, d, n, k);
      assert Bit(mid, k) == if dstOffset <= k < d then Bit(src, srcOffset + k - dstOffset) else Bit(before, k);
    }
  }

  /** Copies `len` bits and touches no other bit of the destination. */
  method CopyBits(src: array<Byte>, srcOffset: nat, len: nat, dst: array<Byte>, dstOffset: nat)
    requires src != dst
    requires srcOffset + len <= 8 * src.Length && dstOffset + len <= 8 * dst.Length
    modifies dst
    ensures IsCopied(src[..], srcOffset, len, old(dst[..]), dst[..], dstOffset)
  {
    hide IsCopied, Transferred;
    var s, d := srcOffset, dstOffset;
    var lastBit := srcOffset + len;
    assert IsCopied(src[..], srcOffset, 0, dst[..], dst[..], dstOffset) by {
      NothingCopied(src[..], srcOffset, dst[..], dstOffset);
    }
    while s < lastBit
      invariant srcOffset <= s <= lastBit && d - dstOffset == s - srcOffset
      invariant IsCopied(src[..], srcOffset, s - srcOffset, old(dst[..]), dst[..], dstOffset)
    {
      var maxOffset := Max(s % 8, d % 8);
      var copyBits := Min(lastBit - s, 8 - maxOffset);
      ghost var mid := dst[..];
      CopyExtends(src[..], srcOffset, s - srcOffset, old(dst[..]), mid, dstOffset, copyBits);
      dst[d / 8] := Transferred(dst[d / 8], src[s / 8], s % 8, d % 8, copyBits);
      assert dst[..] == mid[d / 8 := Transferred(mid[d / 8], src[..][s / 8], s % 8, d % 8, copyBits)];
      s := s + copyBits;
      d := d + copyBits;
    }
  }

  lemma NothingCopied(src: seq<Byte>, srcOffset: nat, dst: seq<Byte>, dstOffset: nat)
    requires srcOffset <= 8 * |src|
    ensures IsCopied(src, srcOffset, 0, dst, dst, dstOffset)
  {
  }
}
