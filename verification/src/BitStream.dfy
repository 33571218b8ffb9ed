/** A transfer buffer written and read as a string of bits. */
module BitStreams {
  import opened Transfer
  import opened Arithmetic
  import opened Bits
  import opened BitArrayCopy
  import opened TransferBuffer

  const MAX_BYTES_PER_RW := 16
  const RESULT_OUT_OF_BUFFER := 0
  const RESULT_OK := 1

  function Zeros(n: nat): seq<bool> { seq(n, _ => false) }

  function WithFirst(bytes: seq<Byte>, cache: Byte): seq<Byte>
  {
    if bytes == [] then [] else bytes[0 := Or(bytes[0], cache)]
  }

  /** The bytes a write puts into the buffer: `skipped` bits come from the cache, then the new ones, then zeros. */
  function Merged(cache: Byte, skipped: nat, bits: seq<bool>): (bytes: seq<Byte>)
    ensures |bytes| == ByteLen(skipped + |bits|)
  {
    WithFirst(Packed(Zeros(skipped) + bits), cache)
  }

  /** The last byte if it is incomplete. */
  function CacheOf(bits: seq<bool>): Byte
  {
    if |bits| % 8 == 0 then 0 else Packed(bits)[|bits| / 8]
  }

  lemma CacheBit(bits: seq<bool>, p: int)
    requires 0 <= p < 8
    ensures BitAt(CacheOf(bits), p) == (p < |bits| % 8 && bits[|bits| / 8 * 8 + p])
  {
    hide BitAt, Packed;
    if |bits| % 8 == 0 {
      ProbeBit(0, p);
    } else {
      PackedBit(bits, |bits| / 8 * 8 + p);
    }
  }

  lemma MergedBit(bits: seq<bool>, more: seq<bool>, k: nat)
    requires k < 8 * ByteLen(|bits| % 8 + |more|) && more != []
    ensures
      var base := |bits| / 8 * 8;
      Bit(Merged(CacheOf(bits), |bits| % 8, more), k) == (base + k < |bits + more| && (bits + more)[base + k])
  {
    hide BitAt, Packed, Or, CacheOf;
    var r := |bits| % 8;
    var padded := Zeros(r) + more;
    PackedBit(padded, k);
    if k < 8 {
      CacheBit(bits, k);
      OrBit(Packed(padded)[0], CacheOf(bits), k);
    }
  }

  /** Rewriting the incomplete last byte together with new bits appends them. */
  lemma WriteAppends(bits: seq<bool>, more: seq<bool>)
    requires more != []
    ensures Packed(bits)[..|bits| / 8] + Merged(CacheOf(bits), |bits| % 8, more) == Packed(bits + more)
  {
    hide Bit, Packed, Merged, CacheOf;
    var base := |bits| / 8;
    var head, tail := Packed(bits)[..base], Merged(CacheOf(bits), |bits| % 8, more);
    var all := head + tail;
    forall k: nat | k < 8 * |all|
      ensures Bit(all, k) == (k < |bits + more| && (bits + more)[k])
    {
      if k < 8 * base {
        PackedBit(bits, k);
        BitInHead(Packed(bits), tail, base, k);
      } else {
        MergedBit(bits, more, k - 8 * base);
        BitInTail(head, tail, k - 8 * base);
      }
    }
    PackedIsUnique(bits + more, all);
  }

  lemma BitInHead(bytes: seq<Byte>, tail: seq<Byte>, n: nat, k: nat)
    requires n <= |bytes| && k < 8 * n
    ensures Bit(bytes[..n] + tail, k) == Bit(bytes, k)
  {
    hide BitAt;
  }

  lemma BitInTail(head: seq<Byte>, tail: seq<Byte>, k: nat)
    requires k < 8 * |tail|
    ensures Bit(head + tail, 8 * |head| + k) == Bit(tail, k)
  {
    hide BitAt;
  }

  lemma CacheIsLastByte(bits: seq<bool>)
    ensures
      var bytes := Packed(bits);
      |bits| % 8 != 0 ==> bytes != [] && CacheOf(bits) == bytes[|bytes| - 1]
  {
    hide Packed;
  }

  /** The cached byte is the last one written, if incomplete. */
  lemma CacheAfterWrite(bits: seq<bool>, more: seq<bool>)
    requires more != []
    ensures
      var tmp := Merged(CacheOf(bits), |bits| % 8, more);
      CacheOf(bits + more) == if |bits + more| % 8 != 0 then tmp[|tmp| - 1] else 0
  {
    if |bits + more| % 8 != 0 {
      hide Packed, Merged, CacheOf;
      WriteAppends(bits, more);
      CacheIsLastByte(bits + more);
      LastOfConcatenation(Packed(bits)[..|bits| / 8], Merged(CacheOf(bits), |bits| % 8, more));
    }
  }

  lemma LastOfConcatenation(head: seq<Byte>, tail: seq<Byte>)
    requires tail != []
    ensures (head + tail)[|head + tail| - 1] == tail[|tail| - 1]
  {
  }

  // ----- Failed writes -----

  /** The stream stands behind these bits: they are in the buffer, and the cache is their incomplete last byte. */
  ghost predicate Carries(buffer: seq<Byte>, bitOffset: nat, byteCache: Byte, bits: seq<bool>)
  {
    && bitOffset == |bits| <= 8 * |buffer| && byteCache == CacheOf(bits)
    && forall k: nat | k < |bits| :: Bit(buffer, k) == bits[k]
  }

  lemma BitOfFlatWrite(contents: seq<Byte>, maxSize: nat, offset: nat, data: seq<Byte>, granted: nat, k: nat)
    requires offset <= |contents| && k < 8 * |FlatWrite(contents, maxSize, offset, data, granted)|
    ensures
      var n := WriteLength(maxSize, offset, |data|, granted);
      Bit(FlatWrite(contents, maxSize, offset, data, granted), k) ==
        if 8 * offset <= k < 8 * (offset + n) then Bit(data, k - 8 * offset) else k < 8 * |contents| && Bit(contents, k)
  {
    hide BitAt;
    var n := WriteLength(maxSize, offset, |data|, granted);
    var w := FlatWrite(contents, maxSize, offset, data, granted);
    var i := k / 8;
    assert w[i] == if offset <= i < offset + n then data[i - offset] else contents[i];
  }

  /** A write, complete or not, leaves the bits before it in place. */
  lemma WriteKeepsBits(buffer: seq<Byte>, maxSize: nat, bits: seq<bool>, more: seq<bool>, granted: nat, k: nat)
    requires |bits| <= 8 * |buffer| && (forall i: nat | i < |bits| :: Bit(buffer, i) == bits[i]) && more != []
    requires k < |bits + more|
    ensures
      var tmp := Merged(CacheOf(bits), |bits| % 8, more);
      var n := WriteLength(maxSize, |bits| / 8, |tmp|, granted);
      var after := FlatWrite(buffer, maxSize, |bits| / 8, tmp, granted);
      k < |bits| || k < 8 * (|bits| / 8 + n) ==> k < 8 * |after| && Bit(after, k) == (bits + more)[k]
  {
    hide Bit, Merged, CacheOf, FlatWrite, WriteLength;
    var tmp := Merged(CacheOf(bits), |bits| % 8, more);
    var n := WriteLength(maxSize, |bits| / 8, |tmp|, granted);
    var base := |bits| / 8 * 8;
    if k < |bits| || k < base + 8 * n {
      WriteLengthIsBounded(maxSize, |bits| / 8, |tmp|, granted);
      BitOfFlatWrite(buffer, maxSize, |bits| / 8, tmp, granted, k);
      if base <= k < base + 8 * n {
        MergedBit(bits, more, k - base);
      }
    }
  }

  lemma WriteLengthIsBounded(maxSize: nat, offset: nat, len: nat, granted: nat)
    ensures 0 <= WriteLength(maxSize, offset, len, granted) <= len
  {
  }

  /**
    * A successful write carries on. A failed one leaves a stream that still stands behind what was written if and only
    * if the write would have left the same incomplete byte.
    */
  lemma CarriesAfterWrite(buffer: seq<Byte>, maxSize: nat, bits: seq<bool>, more: seq<bool>, granted: nat,
                          byteCache: Byte)
    requires Carries(buffer, |bits|, CacheOf(bits), bits) && more != [] && byteCache == CacheOf(bits + more)
    ensures
      var tmp := Merged(CacheOf(bits), |bits| % 8, more);
      var after := FlatWrite(buffer, maxSize, |bits| / 8, tmp, granted);
      && (WriteLength(maxSize, |bits| / 8, |tmp|, granted) == |tmp| ==>
           Carries(after, |bits + more|, byteCache, bits + more))
      && (Carries(after, |bits|, byteCache, bits) <==> CacheOf(bits + more) == CacheOf(bits))
  {
    hide Bit, Merged, CacheOf, FlatWrite, WriteLength;
    var tmp := Merged(CacheOf(bits), |bits| % 8, more);
    var after := FlatWrite(buffer, maxSize, |bits| / 8, tmp, granted);
    forall k: nat | k < |bits + more|
      ensures
        (k < |bits| || k < 8 * (|bits| / 8 + WriteLength(maxSize, |bits| / 8, |tmp|, granted))) ==>
          k < 8 * |after| && Bit(after, k) == (bits + more)[k]
    {
      WriteKeepsBits(buffer, maxSize, bits, more, granted, k);
    }
    BytesCoverBits(|bits|, |more|, 0);
    FlatWriteIsLong(buffer, maxSize, |bits| / 8, tmp, granted);
  }

  lemma FlatWriteIsLong(contents: seq<Byte>, maxSize: nat, offset: nat, data: seq<Byte>, granted: nat)
    requires offset <= |contents|
    ensures
      var after := FlatWrite(contents, maxSize, offset, data, granted);
      |contents| <= |after| && offset + WriteLength(maxSize, offset, |data|, granted) <= |after|
  {
  }

  ghost predicate IsWritten(buffer: seq<Byte>, bitOffset: nat, byteCache: Byte, bits: seq<bool>)
  {
    buffer == Packed(bits) && bitOffset == |bits| && byteCache == CacheOf(bits)
  }

  /** What a write does to a stream of which it is known what was written before. */
  lemma WriteIsAccounted(buffer: seq<Byte>, maxSize: nat, bitOffset: nat, byteCache: Byte, more: seq<bool>,
                         granted: nat, bits: seq<bool>)
    requires more != [] && bitOffset / 8 <= |buffer|
    ensures
      var tmp := Merged(byteCache, bitOffset % 8, more);
      var after := FlatWrite(buffer, maxSize, bitOffset / 8, tmp, granted);
      var cache := if (bitOffset + |more|) % 8 != 0 then tmp[|tmp| - 1] else 0;
      var complete := WriteLength(maxSize, bitOffset / 8, |tmp|, granted) == |tmp|;
      && (IsWritten(buffer, bitOffset, byteCache, bits) && complete ==>
           IsWritten(after, bitOffset + |more|, cache, bits + more))
      && (Carries(buffer, bitOffset, byteCache, bits) && complete ==>
           Carries(after, bitOffset + |more|, cache, bits + more))
      && (Carries(buffer, bitOffset, byteCache, bits) ==>
           (Carries(after, bitOffset, cache, bits) <==> CacheOf(bits + more) == CacheOf(bits)))
  {
    hide Packed, CacheOf, Merged, FlatWrite, Carries;
    var tmp := Merged(byteCache, bitOffset % 8, more);
    if IsWritten(buffer, bitOffset, byteCache, bits) && WriteLength(maxSize, bitOffset / 8, |tmp|, granted) == |tmp| {
      BytesCoverBits(bitOffset, |more|, 0);
      FullWriteReplacesTail(buffer, maxSize, bitOffset / 8, tmp, granted);
      WriteAppends(bits, more);
      CacheAfterWrite(bits, more);
    }
    if Carries(buffer, bitOffset, byteCache, bits) {
      CarriedIsAt(buffer, bitOffset, byteCache, bits);
      CacheAfterWrite(bits, more);
      CarriesAfterWrite(buffer, maxSize, bits, more, granted, CacheOf(bits + more));
    }
  }

  lemma CarriedIsAt(buffer: seq<Byte>, bitOffset: nat, byteCache: Byte, bits: seq<bool>)
    requires Carries(buffer, bitOffset, byteCache, bits)
    ensures bitOffset == |bits| && byteCache == CacheOf(bits)
  {
  }

  lemma MergedZeros(cache: Byte, skipped: nat)
    requires skipped < 8
    ensures Merged(cache, skipped, Zeros(8 - skipped)) == [cache]
  {
    hide BitAt, Packed, Or;
    assert Zeros(skipped) + Zeros(8 - skipped) == Zeros(8);
    assert Zeros(8)[0..8] == Zeros(8);
    forall p | 0 <= p < 8
      ensures BitAt(Or(Packed(Zeros(8))[0], cache), p) == BitAt(cache, p)
    {
      PackedBit(Zeros(8), p);
      OrBit(Packed(Zeros(8))[0], cache, p);
    }
    ByteIsItsBits(Or(Packed(Zeros(8))[0], cache), cache);
  }

  /** Otherwise some later write stores wrong bits: what it stores depends on nothing but the cache. */
  lemma FailedWriteIsHarmlessIff(bits: seq<bool>, more: seq<bool>)
    ensures CacheOf(bits + more) == CacheOf(bits) <==>
      forall later: seq<bool> ::
        Merged(CacheOf(bits + more), |bits| % 8, later) == Merged(CacheOf(bits), |bits| % 8, later)
  {
    hide Merged, CacheOf;
    MergedZeros(CacheOf(bits), |bits| % 8);
    MergedZeros(CacheOf(bits + more), |bits| % 8);
  }

  // ----- Reading -----

  lemma BitsOfSlice(bytes: seq<Byte>, from: nat, to: nat, k: nat)
    requires from <= to <= |bytes| && k < 8 * (to - from)
    ensures Bit(bytes[from..to], k) == Bit(bytes, 8 * from + k)
  {
    hide BitAt;
  }

  /** The result of copying bits into cleared bytes. */
  lemma CopiedIntoZeros(src: seq<Byte>, srcOffset: nat, len: nat, before: seq<Byte>, after: seq<Byte>, dstOffset: nat)
    requires srcOffset + len <= 8 * |src| && |before| == ByteLen(dstOffset + len)
    requires forall i | 0 <= i < |before| :: before[i] == 0
    requires IsCopied(src, srcOffset, len, before, after, dstOffset)
    ensures after == Packed(Zeros(dstOffset) + BitsFrom(src, srcOffset, len))
  {
    hide BitAt, Packed;
    var bits := Zeros(dstOffset) + BitsFrom(src, srcOffset, len);
    forall k: nat | k < 8 * |after|
      ensures Bit(after, k) == (k < |bits| && bits[k])
    {
      ProbeBit(0, k % 8);
    }
    PackedIsUnique(bits, after);
  }

  lemma CopiedIntoCleared(src: seq<Byte>, srcOffset: nat, len: nat, before: seq<Byte>, after: seq<Byte>)
    requires srcOffset + len <= 8 * |src| && ByteLen(len) <= |before|
    requires forall i | 0 <= i < ByteLen(len) :: before[i] == 0
    requires IsCopied(src, srcOffset, len, before, after, 0)
    ensures after[..ByteLen(len)] == Packed(BitsFrom(src, srcOffset, len))
    ensures after[ByteLen(len)..] == before[ByteLen(len)..]
  {
    hide Bit, Packed;
    var n := ByteLen(len);
    forall k: nat | k < 8 * n
      ensures Bit(after[..n], k) == if k < len then Bit(src, srcOffset + k) else Bit(before[..n], k)
    {
      BitsOfSlice(after, 0, n, k);
      BitsOfSlice(before, 0, n, k);
    }
    CopiedIntoZeros(src, srcOffset, len, before[..n], after[..n], 0);
    assert Zeros(0) + BitsFrom(src, srcOffset, len) == BitsFrom(src, srcOffset, len);
    forall k: nat | k < 8 * (|after| - n)
      ensures Bit(after[n..], k) == Bit(before[n..], k)
    {
      assert after[n..] == after[n..|after|] && before[n..] == before[n..|after|];
      BitsOfSlice(after, n, |after|, k);
      BitsOfSlice(before, n, |after|, k);
    }
    SameBitsSameBytes(after[n..], before[n..]);
  }

  lemma BytesCoverBits(from: nat, bitlen: nat, len: nat)
    ensures from / 8 + ByteLen(bitlen + from % 8) <= len <==> from + bitlen <= 8 * len
    ensures from % 8 + bitlen <= 8 * ByteLen(bitlen + from % 8)
    ensures bitlen <= 8 * ByteLen(bitlen) && (bitlen > 0 ==> ByteLen(bitlen + from % 8) > 0)
    ensures ByteLen(from) <= from / 8 + ByteLen(bitlen + from % 8)
  {
  }

  lemma ReadIsShortIff(buffer: seq<Byte>, from: nat, n: nat)
    requires n > 0
    ensures |FlatRead(buffer, from, n)| < n <==> from + n > |buffer|
    ensures from + n <= |buffer| ==> FlatRead(buffer, from, n) == buffer[from..from + n]
  {
  }

  lemma BitsOfRead(buffer: seq<Byte>, from: nat, bytelen: nat, offset: nat, bitlen: nat)
    requires from + bytelen <= |buffer| && offset + bitlen <= 8 * bytelen
    ensures BitsFrom(buffer[from..from + bytelen], offset, bitlen) == BitsFrom(buffer, 8 * from + offset, bitlen)
  {
    hide Bit;
    var read := buffer[from..from + bytelen];
    forall k: nat | k < bitlen
      ensures BitsFrom(read, offset, bitlen)[k] == BitsFrom(buffer, 8 * from + offset, bitlen)[k]
    {
      BitsOfSlice(buffer, from, from + bytelen, offset + k);
    }
  }

  lemma FullWriteReplacesTail(contents: seq<Byte>, maxSize: nat, offset: nat, data: seq<Byte>, granted: nat)
    requires offset <= |contents| <= offset + |data| && WriteLength(maxSize, offset, |data|, granted) == |data|
    ensures FlatWrite(contents, maxSize, offset, data, granted) == contents[..offset] + data
  {
  }

  /** The new bits behind the cached ones, as the bytes to be written. */
  method MergeWithCache(bytes: array<Byte>, bitlen: nat, offset: nat, cache: Byte) returns (tmp: array<Byte>)
    requires 0 < bitlen <= 8 * bytes.Length && offset < 8
    ensures fresh(tmp) && tmp[..] == Merged(cache, offset, BitsFrom(bytes[..], 0, bitlen))
  {
    hide Packed, IsCopied, Or, BitsFrom;
    tmp := new Byte[ByteLen(bitlen + offset)](_ => 0);
    ghost var cleared := tmp[..];
    CopyBits(bytes, 0, bitlen, tmp, offset);
    CopiedIntoZeros(bytes[..], 0, bitlen, cleared, tmp[..], offset);
    ghost var copied := tmp[..];
    tmp[0] := Or(tmp[0], cache);
    assert tmp[..] == copied[0 := Or(copied[0], cache)];
    assert Zeros(offset) + BitsFrom(bytes[..], 0, bitlen) != [];
  }

  method FillZeros(bytes: array<Byte>, n: nat)
    requires n <= bytes.Length
    modifies bytes
    ensures forall i | 0 <= i < bytes.Length :: bytes[i] == if i < n then 0 else old(bytes[i])
  {
    for i := 0 to n
      invariant forall k | 0 <= k < bytes.Length :: bytes[k] == if k < i then 0 else old(bytes[k])
    {
      bytes[i] := 0;
    }
  }

  /** `len` bits from `offset` on, moved to the start of cleared bytes. */
  method ExtractBits(tmp: array<Byte>, offset: nat, len: nat, bytes: array<Byte>)
    requires tmp != bytes && offset + len <= 8 * tmp.Length && len <= 8 * bytes.Length
    modifies bytes
    ensures bytes[..ByteLen(len)] == Packed(BitsFrom(tmp[..], offset, len))
    ensures bytes[ByteLen(len)..] == old(bytes[ByteLen(len)..])
  {
    hide Packed, IsCopied, BitsFrom;
    FillZeros(bytes, ByteLen(len));
    ghost var cleared := bytes[..];
    CopyBits(tmp, offset, len, bytes, 0);
    CopiedIntoCleared(tmp[..], offset, len, cleared, bytes[..]);
  }

  class BitStream {
    /** What the buffer holds, up to the highest position written. */
    var buffer: seq<Byte>
    const maxSize: nat
    var bitOffset: nat
    var byteCache: Byte

    constructor (buffer: seq<Byte>, maxSize: nat)
      ensures this.buffer == buffer && this.maxSize == maxSize && bitOffset == 0 && byteCache == 0
      ensures buffer == [] ==> HasWritten([])
    {
      this.buffer, this.maxSize, bitOffset, byteCache := buffer, maxSize, 0, 0;
    }

    /** Exactly these bits have been written since the start, and the buffer is these bits, padded with zeros. */
    ghost predicate HasWritten(bits: seq<bool>)
      reads this
    {
      IsWritten(buffer, bitOffset, byteCache, bits)
    }

    /**
      * Appends the first `bitlen` bits of `bytes`. `granted` is the memory the buffer can get for this; without room
      * for the whole write it fails. `written` are the bits written so far, if there were only successful writes.
      */
    method Write(bytes: array<Byte>, bitlen: nat, granted: nat, ghost written: seq<bool>) returns (res: int)
      requires 0 < bitlen <= 8 * bytes.Length && ByteLen(bitlen + bitOffset % 8) <= MAX_BYTES_PER_RW
      requires bitOffset / 8 <= |buffer|
      modifies this
      ensures
        var tmp := Merged(old(byteCache), old(bitOffset) % 8, BitsFrom(bytes[..], 0, bitlen));
        && buffer == FlatWrite(old(buffer), maxSize, old(bitOffset) / 8, tmp, granted)
        && res == (if WriteLength(maxSize, old(bitOffset) / 8, |tmp|, granted) == |tmp| then RESULT_OK
                   else RESULT_OUT_OF_BUFFER)
        && byteCache == (if (old(bitOffset) + bitlen) % 8 != 0 then tmp[|tmp| - 1] else 0)
      ensures bitOffset == if res == RESULT_OK then old(bitOffset) + bitlen else old(bitOffset)
      ensures old(HasWritten(written)) && res == RESULT_OK ==> HasWritten(written + BitsFrom(bytes[..], 0, bitlen))
      ensures old(Carries(buffer, bitOffset, byteCache, written)) ==>
        var all := written + BitsFrom(bytes[..], 0, bitlen);
        && (res == RESULT_OK ==> Carries(buffer, bitOffset, byteCache, all))
        && (res != RESULT_OK ==> (Carries(buffer, bitOffset, byteCache, written) <==> CacheOf(all) == CacheOf(written)))
    {
      hide Packed, CacheOf, Merged, BitsFrom, FlatWrite, ByteLen;
      BytesCoverBits(bitOffset, bitlen, 0);
      var bytelen := ByteLen(bitlen + bitOffset % 8);
      ghost var bits := BitsFrom(bytes[..], 0, bitlen);
      var tmp := MergeWithCache(bytes, bitlen, bitOffset % 8, byteCache);
      hide Carries, IsWritten;
      WriteIsAccounted(buffer, maxSize, bitOffset, byteCache, bits, granted, written);
      var newBitOffset := bitOffset + bitlen;
      byteCache := if newBitOffset % 8 != 0 then tmp[bytelen - 1] else 0;
      var n := WriteLength(maxSize, bitOffset / 8, bytelen, granted);
      buffer := FlatWrite(buffer, maxSize, bitOffset / 8, tmp[..], granted);
      if n < bytelen {
        return RESULT_OUT_OF_BUFFER;
      }
      bitOffset := newBitOffset;
      return RESULT_OK;
    }

    /** Takes the next `bitlen` bits into cleared bytes, if the buffer has them. */
    method Read(bytes: array<Byte>, bitlen: nat) returns (res: int)
      requires 0 < bitlen <= 8 * bytes.Length && ByteLen(bitlen + bitOffset % 8) <= MAX_BYTES_PER_RW
      modifies this, bytes
      ensures buffer == old(buffer) && byteCache == old(byteCache)
      ensures res == if old(bitOffset) + bitlen <= 8 * |buffer| then RESULT_OK else RESULT_OUT_OF_BUFFER
      ensures res == RESULT_OK ==>
        && bitOffset == old(bitOffset) + bitlen
        && bytes[..ByteLen(bitlen)] == Packed(BitsFrom(buffer, old(bitOffset), bitlen))
        && bytes[ByteLen(bitlen)..] == old(bytes[ByteLen(bitlen)..])
      ensures res != RESULT_OK ==> bitOffset == old(bitOffset) && bytes[..] == old(bytes[..])
    {
      hide Packed, BitsFrom, ByteLen, FlatRead;
      var offset := bitOffset % 8;
      var bytelen := ByteLen(bitlen + offset);
      BytesCoverBits(bitOffset, bitlen, |buffer|);
      var data := FlatRead(buffer, bitOffset / 8, bytelen);
      ReadIsShortIff(buffer, bitOffset / 8, bytelen);
      if |data| < bytelen {
        return RESULT_OUT_OF_BUFFER;
      }
      var tmp := new Byte[bytelen](i requires 0 <= i < |data| => data[i]);
      assert tmp[..] == data;
      ExtractBits(tmp, offset, bitlen, bytes);
      BitsOfRead(buffer, bitOffset / 8, bytelen, offset, bitlen);
      bitOffset := bitOffset + bitlen;
      return RESULT_OK;
    }
  }

  // ----- Sequences of writes and reads -----

  const MAX_BITS_PER_PIECE := 8 * MAX_BYTES_PER_RW - 7

  /** A piece that a single write or read can handle at any offset. */
  predicate IsPiece(bits: seq<bool>) { 0 < |bits| <= MAX_BITS_PER_PIECE }

  function Joined(pieces: seq<seq<bool>>): seq<bool>
  {
    if pieces == [] then [] else Joined(pieces[..|pieces| - 1]) + pieces[|pieces| - 1]
  }

  lemma JoinedNext(pieces: seq<seq<bool>>, i: nat)
    requires i < |pieces|
    ensures Joined(pieces[..i + 1]) == Joined(pieces[..i]) + pieces[i]
  {
    assert pieces[..i + 1][..i] == pieces[..i];
  }

  lemma {:induction false} JoinedPrefix(pieces: seq<seq<bool>>, i: nat)
    requires i <= |pieces|
    ensures Joined(pieces[..i]) <= Joined(pieces)
    decreases |pieces| - i
  {
    if i < |pieces| {
      JoinedNext(pieces, i);
      JoinedPrefix(pieces, i + 1);
    } else {
      assert pieces[..i] == pieces;
    }
  }

  /**
    * Writes the pieces one after the other; on success the buffer is all their bits, padded with zeros. With memory to
    * spare it fails only if they do not fit.
    */
  method WriteAll(stream: BitStream, pieces: seq<seq<bool>>, granted: nat) returns (res: int)
    requires stream.HasWritten([]) && forall p | p in pieces :: IsPiece(p)
    modifies stream
    ensures res in {RESULT_OK, RESULT_OUT_OF_BUFFER}
    ensures res == RESULT_OK ==> stream.HasWritten(Joined(pieces)) && stream.buffer == Packed(Joined(pieces))
    ensures granted >= MAX_BYTES_PER_RW && ByteLen(|Joined(pieces)|) <= stream.maxSize ==> res == RESULT_OK
  {
    hide Packed, CacheOf, Merged, FlatWrite, BitsFrom;
    assert pieces[..0] == [];
    for i := 0 to |pieces|
      invariant stream.HasWritten(Joined(pieces[..i]))
    {
      assert pieces[i] in pieces;
      var bytes := Packed(pieces[i]);
      var tmp := new Byte[|bytes|](k requires 0 <= k < |bytes| => bytes[k]);
      assert tmp[..] == bytes;
      BitsFromPacked(pieces[i], 0, |pieces[i]|);
      assert pieces[i][0..|pieces[i]|] == pieces[i];
      JoinedNext(pieces, i);
      JoinedPrefix(pieces, i + 1);
      res := stream.Write(tmp, |pieces[i]|, granted, Joined(pieces[..i]));
      if res <= 0 {
        return;
      }
    }
    assert pieces[..|pieces|] == pieces;
    res := RESULT_OK;
  }

  lemma PieceComesBack(bytes: seq<Byte>, piece: seq<bool>)
    requires bytes == Packed(piece)
    ensures BitsFrom(bytes, 0, |piece|) == piece
  {
    BitsFromPacked(piece, 0, |piece|);
    assert piece[0..|piece|] == piece;
  }

  /** Reading back with the lengths of the writes returns what was written, piece by piece. */
  method ReadAll(stream: BitStream, lengths: seq<nat>, ghost pieces: seq<seq<bool>>)
    returns (res: int, read: seq<seq<bool>>)
    requires stream.buffer == Packed(Joined(pieces)) && stream.bitOffset == 0
    requires |lengths| == |pieces| && forall i | 0 <= i < |pieces| :: IsPiece(pieces[i]) && lengths[i] == |pieces[i]|
    modifies stream
    ensures stream.buffer == old(stream.buffer)
    ensures res == RESULT_OK && read == pieces
  {
    hide Packed, BitsFrom;
    read := [];
    assert pieces[..0] == [];
    for i := 0 to |lengths|
      invariant stream.buffer == old(stream.buffer)
      invariant stream.bitOffset == |Joined(pieces[..i])| && read == pieces[..i]
    {
      JoinedNext(pieces, i);
      JoinedPrefix(pieces, i + 1);
      ghost var all, from := Joined(pieces), |Joined(pieces[..i])|;
      var bytes := new Byte[ByteLen(lengths[i])];
      BitsFromPacked(all, from, lengths[i]);
      assert all[from..from + lengths[i]] == pieces[i] by { assert Joined(pieces[..i + 1]) <= all; }
      res := stream.Read(bytes, lengths[i]);
      PieceComesBack(bytes[..], pieces[i]);
      read := read + [BitsFrom(bytes[..], 0, lengths[i])];
    }
    res := RESULT_OK;
  }
}
