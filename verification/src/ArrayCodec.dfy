/** Arrays of integers in a bit stream, with a size in front or, for the last field of a message, without one. */
module ArrayCodecs {
  import opened Transfer
  import opened Arithmetic
  import opened Bits
  import opened BitStreams
  import opened ScalarCodecs

  const ERR_INVALID_MARSHAL_DATA := 6

  datatype ArraySpec = ArraySpec(element: IntegerSpec, maxSize: nat)

  /** The least number of bits that represent `n`. */
  function IntegerBitLen(n: nat): (len: nat)
    ensures n < Pow2(len) && (n > 0 ==> len > 0 && Pow2(len - 1) <= n)
  {
    if n == 0 then 0 else 1 + IntegerBitLen(n / 2)
  }

  predicate IsArraySpec(spec: ArraySpec)
  {
    IsSpec(spec.element) && spec.maxSize > 0 && IntegerBitLen(spec.maxSize) <= 64
  }

  function SizeSpec(spec: ArraySpec): (size: IntegerSpec)
    requires IsArraySpec(spec)
    ensures IsSpec(size)
  {
    IntegerSpec(IntegerBitLen(spec.maxSize), false, true)
  }

  /** Elements of a byte or more need no size in front of them if nothing follows. */
  predicate IsOptimizedTail(spec: ArraySpec, last: bool) { spec.element.bitLen >= 8 && last }

  function ElementBits(xs: seq<int>, element: IntegerSpec): seq<bool>
    requires IsSpec(element)
  {
    if xs == [] then [] else ValueBits(xs[0], element) + ElementBits(xs[1..], element)
  }

  function ArrayBits(xs: seq<int>, spec: ArraySpec, last: bool): seq<bool>
    requires IsArraySpec(spec)
  {
    (if IsOptimizedTail(spec, last) then [] else ValueBits(|xs|, SizeSpec(spec))) + ElementBits(xs, spec.element)
  }

  // ----- Decoding -----

  datatype Decoding = Decoding(res: int, values: seq<int>, offset: nat)

  predicate HasBits(buffer: seq<Byte>, offset: nat, n: nat) { offset + n <= 8 * |buffer| }

  function ElementAt(buffer: seq<Byte>, offset: nat, element: IntegerSpec): int
    requires IsSpec(element) && HasBits(buffer, offset, element.bitLen)
  {
    BitsValue(BitsFrom(buffer, offset, element.bitLen), element)
  }

  /** `n` elements, of which `got` are there already; what is missing is left at zero. */
  function DecodedElements(buffer: seq<Byte>, offset: nat, element: IntegerSpec, n: nat, got: seq<int>): Decoding
    requires IsSpec(element) && |got| <= n
    decreases n - |got|
  {
    if |got| == n then Decoding(RESULT_OK, got, offset)
    else if !HasBits(buffer, offset, element.bitLen) then
      Decoding(RESULT_OUT_OF_BUFFER, got + seq(n - |got|, _ => 0), offset)
    else
      DecodedElements(buffer, offset + element.bitLen, element, n, got + [ElementAt(buffer, offset, element)])
  }

  /** Elements up to the end of the buffer. */
  function DecodedTail(buffer: seq<Byte>, offset: nat, spec: ArraySpec, got: seq<int>): Decoding
    requires IsArraySpec(spec)
    decreases 8 * |buffer| - offset
  {
    if !HasBits(buffer, offset, spec.element.bitLen) then Decoding(RESULT_OK, got, offset)
    else if |got| == spec.maxSize then Decoding(-ERR_INVALID_MARSHAL_DATA, got, offset + spec.element.bitLen)
    else
      DecodedTail(buffer, offset + spec.element.bitLen, spec, got + [ElementAt(buffer, offset, spec.element)])
  }

  function DecodedArray(buffer: seq<Byte>, offset: nat, spec: ArraySpec, last: bool): Decoding
    requires IsArraySpec(spec)
  {
    if IsOptimizedTail(spec, last) then DecodedTail(buffer, offset, spec, [])
    else
      var size := SizeSpec(spec);
      if !HasBits(buffer, offset, size.bitLen) then Decoding(RESULT_OUT_OF_BUFFER, [], offset)
      else
        var n := ElementAt(buffer, offset, size);
        if n < 0 || n > spec.maxSize then Decoding(-ERR_INVALID_MARSHAL_DATA, [], offset + size.bitLen)
        else DecodedElements(buffer, offset + size.bitLen, spec.element, n, [])
  }

  // ----- The format -----

  lemma {:induction false} ElementBitsAt(xs: seq<int>, element: IntegerSpec, i: nat)
    requires IsSpec(element)
    ensures |ElementBits(xs, element)| == |xs| * element.bitLen
    ensures i < |xs| ==>
      0 <= i * element.bitLen <= (i + 1) * element.bitLen <= |ElementBits(xs, element)|
      && ElementBits(xs, element)[i * element.bitLen..(i + 1) * element.bitLen] == ValueBits(xs[i], element)
  {
    hide ValueBits;
    var b := element.bitLen;
    if xs != [] {
      var rest := ElementBits(xs[1..], element);
      ElementBitsAt(xs[1..], element, if i > 0 then i - 1 else 0);
      MulByOneMore(|xs| - 1, b);
      if 0 < i < |xs| {
        MulByOneMore(i - 1, b);
        MulByOneMore(i, b);
        assert ElementBits(xs, element)[i * b..(i + 1) * b] == rest[(i - 1) * b..i * b];
      }
    }
  }

  lemma MulByOneMore(n: nat, b: nat)
    ensures (n + 1) * b == n * b + b >= b
  {
  }

  /**
    * The layout. The elements follow each other without gaps. The last field of a message, with elements of a byte or
    * more, consists of nothing else; any other array begins with its size, in as many bits as the maximum size needs.
    */
  lemma ArrayLayout(xs: seq<int>, spec: ArraySpec, last: bool)
    requires IsArraySpec(spec)
    ensures
      var bits, elements := ArrayBits(xs, spec, last), ElementBits(xs, spec.element);
      && |elements| == |xs| * spec.element.bitLen
      && if last && spec.element.bitLen >= 8 then bits == elements
         else
           var n := IntegerBitLen(spec.maxSize);
           && |bits| == n + |elements| && bits[n..] == elements
           && (|xs| <= spec.maxSize ==> ScalarValue(bits[..n]) == |xs|)
  {
    hide ValueBits, ElementBits, ScalarValue;
    ElementBitsAt(xs, spec.element, 0);
    if |xs| <= spec.maxSize {
      SizeIsWritten(|xs|, spec);
    }
  }

  lemma SizeIsWritten(n: nat, spec: ArraySpec)
    requires IsArraySpec(spec) && n <= spec.maxSize
    ensures ScalarValue(ValueBits(n, SizeSpec(spec))) == n
  {
    hide ScalarBits, ScalarValue;
    var len := IntegerBitLen(spec.maxSize);
    SmallMod(n, Pow2(len));
    ScalarRoundTrip(n, len);
  }

  lemma SmallMod(n: nat, m: nat)
    requires n < m
    ensures n % m == n
  {
  }

  lemma {:induction false} TailCount(buffer: seq<Byte>, offset: nat, spec: ArraySpec, got: seq<int>, m: nat, rest: nat)
    requires IsArraySpec(spec) && |got| <= spec.maxSize && rest < spec.element.bitLen
    requires 8 * |buffer| - offset == m * spec.element.bitLen + rest
    ensures
      var d := DecodedTail(buffer, offset, spec, got);
      if |got| + m <= spec.maxSize then d.res == RESULT_OK && |d.values| == |got| + m && got <= d.values
      else d.res == -ERR_INVALID_MARSHAL_DATA && |d.values| == spec.maxSize
    decreases m
  {
    hide ElementAt;
    if m > 0 {
      MulByOneMore(m - 1, spec.element.bitLen);
      if |got| < spec.maxSize {
        TailCount(buffer, offset + spec.element.bitLen, spec, got + [ElementAt(buffer, offset, spec.element)], m - 1,
                  rest);
      }
    }
  }

  lemma {:induction false} ElementsAreResized(buffer: seq<Byte>, offset: nat, element: IntegerSpec, n: nat,
                                              got: seq<int>)
    requires IsSpec(element) && |got| <= n
    ensures
      var d := DecodedElements(buffer, offset, element, n, got);
      && |d.values| == n && got <= d.values
      && (forall k | |got| <= k < n && offset + (k + 1 - |got|) * element.bitLen > 8 * |buffer| :: d.values[k] == 0)
      && d.res == if offset + (n - |got|) * element.bitLen <= 8 * |buffer| || |got| == n then RESULT_OK
                  else RESULT_OUT_OF_BUFFER
    decreases n - |got|
  {
    hide ElementAt;
    if |got| < n {
      MulByOneMore(n - |got| - 1, element.bitLen);
      if HasBits(buffer, offset, element.bitLen) {
        var got' := got + [ElementAt(buffer, offset, element)];
        ElementsAreResized(buffer, offset + element.bitLen, element, n, got');
        var d := DecodedElements(buffer, offset, element, n, got);
        forall k | |got| <= k < n && offset + (k + 1 - |got|) * element.bitLen > 8 * |buffer|
          ensures d.values[k] == 0
        {
          MulByOneMore(k - |got|, element.bitLen);
        }
      }
    }
  }

  /**
    * What is accepted. Without a size, `m` elements and less than another one are left in the buffer, and it is an
    * error if they are more than the maximum size. Otherwise it is an error if the size is; and the buffer is at an end
    * exactly if size or elements do not fit into it.
    */
  lemma ArrayIsAcceptedIff(buffer: seq<Byte>, offset: nat, spec: ArraySpec, last: bool, m: nat, rest: nat)
    requires IsArraySpec(spec) && rest < spec.element.bitLen
    requires 8 * |buffer| - offset == m * spec.element.bitLen + rest
    ensures
      var d := DecodedArray(buffer, offset, spec, last);
      if last && spec.element.bitLen >= 8 then
        if m <= spec.maxSize then d.res == RESULT_OK && |d.values| == m else d.res == -ERR_INVALID_MARSHAL_DATA
      else
        var n := IntegerBitLen(spec.maxSize);
        if offset + n > 8 * |buffer| then d.res == RESULT_OUT_OF_BUFFER && d.values == []
        else
          var size := ScalarValue(BitsFrom(buffer, offset, n));
          if size > spec.maxSize then d.res == -ERR_INVALID_MARSHAL_DATA && d.values == []
          else
            && |d.values| == size
            && d.res == if offset + n + size * spec.element.bitLen <= 8 * |buffer| || size == 0 then RESULT_OK
                        else RESULT_OUT_OF_BUFFER
  {
    hide ScalarValue, DecodedElements, DecodedTail, BitsFrom;
    if last && spec.element.bitLen >= 8 {
      TailCount(buffer, offset, spec, [], m, rest);
    } else {
      var n := IntegerBitLen(spec.maxSize);
      if offset + n <= 8 * |buffer| {
        var size := ScalarValue(BitsFrom(buffer, offset, n));
        if size <= spec.maxSize {
          ElementsAreResized(buffer, offset + n, spec.element, size, []);
        }
      }
    }
  }

  // ----- Round trip -----

  /** What a value of this type becomes on the wire. */
  function Delivered(v: int, element: IntegerSpec): int
    requires IsSpec(element)
  {
    BitsValue(ValueBits(v, element), element)
  }

  function DeliveredAll(xs: seq<int>, element: IntegerSpec): seq<int>
    requires IsSpec(element)
  {
    if xs == [] then [] else [Delivered(xs[0], element)] + DeliveredAll(xs[1..], element)
  }

  /** In range, nothing changes. */
  lemma {:induction false} DeliveredInRange(xs: seq<int>, element: IntegerSpec)
    requires IsSpec(element)
    requires forall x | x in xs :: InRange(x, element)
    ensures DeliveredAll(xs, element) == xs
  {
    hide BitsValue, ValueBits, InRange, AreCongruent;
    if xs != [] {
      ValueIsClampedOrCongruent(xs[0], element);
      DeliveredInRange(xs[1..], element);
    }
  }

  /** A value is read back from where it was written. */
  lemma ReadsElement(prefix: seq<bool>, v: int, element: IntegerSpec, suffix: seq<bool>)
    requires IsSpec(element)
    ensures
      var buffer := Packed(prefix + (ValueBits(v, element) + suffix));
      HasBits(buffer, |prefix|, element.bitLen) && ElementAt(buffer, |prefix|, element) == Delivered(v, element)
  {
    hide ValueBits, Packed, BitsFrom, BitsValue;
    var all := prefix + (ValueBits(v, element) + suffix);
    BitsFromPacked(all, |prefix|, element.bitLen);
    assert all[|prefix|..|prefix| + element.bitLen] == ValueBits(v, element);
  }

  lemma {:induction false} ElementsRoundTrip(prefix: seq<bool>, xs: seq<int>, element: IntegerSpec, suffix: seq<bool>,
                                             n: nat, got: seq<int>)
    requires IsSpec(element) && |got| + |xs| == n
    ensures
      var bits := ElementBits(xs, element);
      DecodedElements(Packed(prefix + (bits + suffix)), |prefix|, element, n, got) ==
        Decoding(RESULT_OK, got + DeliveredAll(xs, element), |prefix| + |bits|)
    decreases |xs|
  {
    hide Packed, ValueBits, Delivered, ElementAt;
    var bits := ElementBits(xs, element);
    if xs == [] {
      assert got + DeliveredAll(xs, element) == got;
    } else {
      var first, rest := ValueBits(xs[0], element), ElementBits(xs[1..], element);
      var x := Delivered(xs[0], element);
      assert prefix + (bits + suffix) == prefix + (first + (rest + suffix)) == (prefix + first) + (rest + suffix);
      ReadsElement(prefix, xs[0], element, rest + suffix);
      ElementsRoundTrip(prefix + first, xs[1..], element, suffix, n, got + [x]);
      assert got + DeliveredAll(xs, element) == (got + [x]) + DeliveredAll(xs[1..], element);
    }
  }

  lemma {:induction false} TailGrows(buffer: seq<Byte>, offset: nat, spec: ArraySpec, got: seq<int>)
    requires IsArraySpec(spec)
    ensures |DecodedTail(buffer, offset, spec, got).values| >= |got|
    decreases 8 * |buffer| - offset
  {
    hide ElementAt;
    if HasBits(buffer, offset, spec.element.bitLen) && |got| != spec.maxSize {
      TailGrows(buffer, offset + spec.element.bitLen, spec, got + [ElementAt(buffer, offset, spec.element)]);
    }
  }

  lemma TailEndsIff(buffer: seq<Byte>, offset: nat, spec: ArraySpec, got: seq<int>)
    requires IsArraySpec(spec) && |got| <= spec.maxSize
    ensures DecodedTail(buffer, offset, spec, got) == Decoding(RESULT_OK, got, offset) <==>
      !HasBits(buffer, offset, spec.element.bitLen)
  {
    hide ElementAt;
    if HasBits(buffer, offset, spec.element.bitLen) && |got| < spec.maxSize {
      TailGrows(buffer, offset + spec.element.bitLen, spec, got + [ElementAt(buffer, offset, spec.element)]);
    }
  }

  lemma TailStep(buffer: seq<Byte>, offset: nat, spec: ArraySpec, got: seq<int>)
    requires IsArraySpec(spec) && |got| < spec.maxSize && HasBits(buffer, offset, spec.element.bitLen)
    ensures DecodedTail(buffer, offset, spec, got) ==
      DecodedTail(buffer, offset + spec.element.bitLen, spec, got + [ElementAt(buffer, offset, spec.element)])
  {
  }

  /** Unused bits at the end of a packed string. */
  function Padding(bits: seq<bool>): nat { 8 * ByteLen(|bits|) - |bits| }

  /**
    * Without a size in front, the elements come back exactly if the padding is too short for another one. For elements
    * of a byte or more it always is.
    */
  lemma {:induction false} TailRoundTripIff(prefix: seq<bool>, xs: seq<int>, spec: ArraySpec, got: seq<int>)
    requires IsArraySpec(spec) && |got| + |xs| <= spec.maxSize
    ensures
      var bits := ElementBits(xs, spec.element);
      var d := DecodedTail(Packed(prefix + bits), |prefix|, spec, got);
      d == Decoding(RESULT_OK, got + DeliveredAll(xs, spec.element), |prefix| + |bits|) <==>
        Padding(prefix + bits) < spec.element.bitLen
    decreases |xs|
  {
    hide Packed, ValueBits, Delivered, ElementAt;
    var element := spec.element;
    var bits := ElementBits(xs, element);
    var buffer := Packed(prefix + bits);
    if xs == [] {
      assert got + DeliveredAll(xs, element) == got && prefix + bits == prefix;
      TailEndsIff(buffer, |prefix|, spec, got);
    } else {
      hide DecodedTail;
      var first, rest := ValueBits(xs[0], element), ElementBits(xs[1..], element);
      var x := Delivered(xs[0], element);
      assert prefix + bits == prefix + (first + rest) == (prefix + first) + rest;
      ReadsElement(prefix, xs[0], element, rest);
      TailStep(buffer, |prefix|, spec, got);
      TailRoundTripIff(prefix + first, xs[1..], spec, got + [x]);
      assert got + DeliveredAll(xs, element) == (got + [x]) + DeliveredAll(xs[1..], element);
    }
  }

  lemma SizeRoundTrips(n: nat, spec: ArraySpec)
    requires IsArraySpec(spec) && n <= spec.maxSize
    ensures Delivered(n, SizeSpec(spec)) == n
  {
    hide BitsValue, ValueBits, AreCongruent;
    ValueIsClampedOrCongruent(n, SizeSpec(spec));
  }

  lemma SizedRoundTrip(prefix: seq<bool>, xs: seq<int>, spec: ArraySpec, last: bool, suffix: seq<bool>)
    requires IsArraySpec(spec) && |xs| <= spec.maxSize && !IsOptimizedTail(spec, last)
    ensures
      var bits := ArrayBits(xs, spec, last);
      DecodedArray(Packed(prefix + (bits + suffix)), |prefix|, spec, last) ==
        Decoding(RESULT_OK, DeliveredAll(xs, spec.element), |prefix| + |bits|)
  {
    hide Packed, ValueBits, Delivered, ElementAt, ElementBits, DeliveredAll, DecodedElements, Pow2, IsSpec;
    var elements, bits := ElementBits(xs, spec.element), ArrayBits(xs, spec, last);
    var size := ValueBits(|xs|, SizeSpec(spec));
    assert prefix + (bits + suffix) == prefix + (size + (elements + suffix)) == (prefix + size) + (elements + suffix);
    ReadsElement(prefix, |xs|, SizeSpec(spec), elements + suffix);
    SizeRoundTrips(|xs|, spec);
    ElementsRoundTrip(prefix + size, xs, spec.element, suffix, |xs|, []);
    assert [] + DeliveredAll(xs, spec.element) == DeliveredAll(xs, spec.element);
  }

  /**
    * Any list up to the maximum size comes back, at any bit offset, with or without a size in front; in the latter
    * case nothing may follow.
    */
  lemma ArrayRoundTrip(prefix: seq<bool>, xs: seq<int>, spec: ArraySpec, last: bool, suffix: seq<bool>)
    requires IsArraySpec(spec) && |xs| <= spec.maxSize
    requires last && spec.element.bitLen >= 8 ==> suffix == []
    ensures
      var bits := ArrayBits(xs, spec, last);
      DecodedArray(Packed(prefix + (bits + suffix)), |prefix|, spec, last) ==
        Decoding(RESULT_OK, DeliveredAll(xs, spec.element), |prefix| + |bits|)
  {
    hide Packed, ValueBits, Delivered, ElementAt, ElementBits, DeliveredAll;
    if IsOptimizedTail(spec, last) {
      var elements := ElementBits(xs, spec.element);
      assert ArrayBits(xs, spec, last) + suffix == elements == ArrayBits(xs, spec, last);
      TailRoundTripIff(prefix, xs, spec, []);
      assert [] + DeliveredAll(xs, spec.element) == DeliveredAll(xs, spec.element);
    } else {
      SizedRoundTrip(prefix, xs, spec, last, suffix);
    }
  }

  // ----- Encoding and decoding -----

  lemma {:induction false} ElementBitsAppend(xs: seq<int>, element: IntegerSpec, i: nat)
    requires IsSpec(element) && i < |xs|
    ensures ElementBits(xs[..i + 1], element) == ElementBits(xs[..i], element) + ValueBits(xs[i], element)
    decreases i
  {
    hide ValueBits;
    if i > 0 {
      ElementBitsAppend(xs[1..], element, i - 1);
      assert xs[..i + 1][1..] == xs[1..][..i] && xs[..i][1..] == xs[1..][..i - 1];
    }
  }

  lemma {:induction false} ElementBitsGrow(xs: seq<int>, element: IntegerSpec, i: nat)
    requires IsSpec(element) && i <= |xs|
    ensures |ElementBits(xs[..i], element)| <= |ElementBits(xs, element)|
    decreases |xs| - i
  {
    hide ValueBits, ElementBits;
    if i < |xs| {
      ElementBitsAppend(xs, element, i);
      ElementBitsGrow(xs, element, i + 1);
    } else {
      assert xs[..i] == xs;
    }
  }

  /** All elements in order; with memory to spare it fails only if the buffer is too short for all of them. */
  method EncodeElements(stream: BitStream, xs: seq<int>, element: IntegerSpec, granted: nat, ghost written: seq<bool>)
    returns (res: int)
    requires IsSpec(element) && stream.HasWritten(written)
    modifies stream
    ensures res in {RESULT_OK, RESULT_OUT_OF_BUFFER}
    ensures res == RESULT_OK ==> stream.HasWritten(written + ElementBits(xs, element))
    ensures granted >= MAX_BYTES_PER_RW && ByteLen(|written| + |ElementBits(xs, element)|) <= stream.maxSize ==>
      res == RESULT_OK
  {
    hide ValueBits, ElementBits, Packed, CacheOf;
    assert written + ElementBits(xs[..0], element) == written by { NoElements(element); }
    for i := 0 to |xs|
      invariant stream.HasWritten(written + ElementBits(xs[..i], element))
    {
      ElementBitsAppend(xs, element, i);
      ElementBitsGrow(xs, element, i + 1);
      ghost var sofar := written + ElementBits(xs[..i], element);
      res := Encode(stream, xs[i], element, granted, sofar);
      if res <= 0 {
        return;
      }
      assert sofar + ValueBits(xs[i], element) == written + ElementBits(xs[..i + 1], element);
    }
    assert xs[..|xs|] == xs;
    res := RESULT_OK;
  }

  lemma NoElements(element: IntegerSpec)
    requires IsSpec(element)
    ensures ElementBits([], element) == []
  {
  }

  method EncodeArray(stream: BitStream, xs: seq<int>, spec: ArraySpec, last: bool, granted: nat,
                     ghost written: seq<bool>)
    returns (res: int)
    requires IsArraySpec(spec) && |xs| <= spec.maxSize && stream.HasWritten(written)
    modifies stream
    ensures res in {RESULT_OK, RESULT_OUT_OF_BUFFER}
    ensures res == RESULT_OK ==> stream.HasWritten(written + ArrayBits(xs, spec, last))
    ensures granted >= MAX_BYTES_PER_RW && ByteLen(|written| + |ArrayBits(xs, spec, last)|) <= stream.maxSize ==>
      res == RESULT_OK
  {
    hide ValueBits, ElementBits, Packed, CacheOf;
    ghost var size := [];
    if !IsOptimizedTail(spec, last) {
      size := ValueBits(|xs|, SizeSpec(spec));
      res := Encode(stream, |xs|, SizeSpec(spec), granted, written);
      if res <= 0 {
        return;
      }
    }
    assert written + [] == written;
    assert (written + size) + ElementBits(xs, spec.element) == written + ArrayBits(xs, spec, last);
    if |xs| == 0 {
      NoElements(spec.element);
      assert written + size == written + ArrayBits(xs, spec, last);
      return RESULT_OK;
    }
    res := EncodeElements(stream, xs, spec.element, granted, written + size);
  }

  method DecodeElements(stream: BitStream, element: IntegerSpec, n: nat) returns (res: int, xs: seq<int>)
    requires IsSpec(element)
    modifies stream
    ensures stream.buffer == old(stream.buffer)
    ensures Decoding(res, xs, stream.bitOffset) == DecodedElements(stream.buffer, old(stream.bitOffset), element, n, [])
  {
    hide BitsValue, BitsFrom;
    xs := [];
    while |xs| < n
      invariant |xs| <= n && stream.buffer == old(stream.buffer)
      invariant DecodedElements(stream.buffer, stream.bitOffset, element, n, xs) ==
        DecodedElements(stream.buffer, old(stream.bitOffset), element, n, [])
    {
      var v;
      res, v := Decode(stream, element);
      if res <= 0 {
        xs := xs + seq(n - |xs|, _ => 0);
        return;
      }
      xs := xs + [v];
    }
    res := RESULT_OK;
  }

  method DecodeTail(stream: BitStream, spec: ArraySpec) returns (res: int, xs: seq<int>)
    requires IsArraySpec(spec)
    modifies stream
    ensures stream.buffer == old(stream.buffer)
    ensures Decoding(res, xs, stream.bitOffset) == DecodedTail(stream.buffer, old(stream.bitOffset), spec, [])
  {
    hide BitsValue, BitsFrom;
    xs := [];
    while true
      invariant stream.buffer == old(stream.buffer)
      invariant DecodedTail(stream.buffer, stream.bitOffset, spec, xs) ==
        DecodedTail(stream.buffer, old(stream.bitOffset), spec, [])
      decreases 8 * |stream.buffer| - stream.bitOffset
    {
      var v;
      res, v := Decode(stream, spec.element);
      if res == RESULT_OUT_OF_BUFFER {
        return RESULT_OK, xs;
      }
      if |xs| == spec.maxSize {
        return -ERR_INVALID_MARSHAL_DATA, xs;
      }
      xs := xs + [v];
    }
  }

  method DecodeArray(stream: BitStream, spec: ArraySpec, last: bool) returns (res: int, xs: seq<int>)
    requires IsArraySpec(spec)
    modifies stream
    ensures stream.buffer == old(stream.buffer)
    ensures Decoding(res, xs, stream.bitOffset) == DecodedArray(stream.buffer, old(stream.bitOffset), spec, last)
  {
    hide BitsValue, BitsFrom, DecodedElements, DecodedTail, IsSpec, Pow2;
    if IsOptimizedTail(spec, last) {
      res, xs := DecodeTail(stream, spec);
    } else {
      var n;
      res, n := Decode(stream, SizeSpec(spec));
      if res <= 0 {
        return res, [];
      }
      if n < 0 || n > spec.maxSize {
        return -ERR_INVALID_MARSHAL_DATA, [];
      }
      res, xs := DecodeElements(stream, spec.element, n);
    }
  }
}
