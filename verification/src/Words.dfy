/** Identifier words as bit vectors, byte by byte, and the number of bits set in them. */
module Words {
  import opened Transfer
  import opened Can

  function BitsOf(n: int): Byte
    requires 0 <= n < 256
  {
    n as bv8
  }

  function ValueOf(b: Byte): int { b as int }

  lemma BitsOfValue(b: Byte)
    ensures 0 <= ValueOf(b) < 256 && BitsOf(ValueOf(b)) == b
  {
  }

  function Next(b: Byte): Byte { b + 1 }

  lemma NextValue(b: Byte)
    requires ValueOf(b) < 255
    ensures ValueOf(Next(b)) == ValueOf(b) + 1
  {
  }

  lemma {:induction false} SomeByteHasValue(n: int) returns (b: Byte)
    requires 0 <= n < 256
    ensures ValueOf(b) == n
    decreases n
  {
    if n == 0 {
      b := 0;
    } else {
      hide ValueOf, Next;
      var c := SomeByteHasValue(n - 1);
      NextValue(c);
      b := Next(c);
    }
  }

  lemma ValueOfBits(n: int)
    requires 0 <= n < 256
    ensures ValueOf(BitsOf(n)) == n
  {
    hide BitsOf, ValueOf;
    var b := SomeByteHasValue(n);
    BitsOfValue(b);
  }

  lemma BitsAreInjective(m: int, n: int)
    requires 0 <= m < 256 && 0 <= n < 256
    ensures BitsOf(m) == BitsOf(n) <==> m == n
  {
    hide BitsOf, ValueOf;
    ValueOfBits(m);
    ValueOfBits(n);
  }

  /** A byte with its top bit set. */
  function Marked(b: Byte): Byte { b | 0x80 }

  lemma MarkedValue(b: Byte)
    requires b & 0x80 == 0
    ensures ValueOf(Marked(b)) == 128 + ValueOf(b)
  {
  }

  lemma SmallBits(n: int)
    requires 0 <= n < 128
    ensures BitsOf(n) & 0x80 == 0
  {
  }

  lemma MarkedBits(n: int)
    requires 0 <= n < 128
    ensures BitsOf(n) & 0x80 == 0 && BitsOf(128 + n) == Marked(BitsOf(n))
  {
    hide BitsOf, ValueOf, Marked;
    SmallBits(n);
    MarkedValue(BitsOf(n));
    ValueOfBits(n);
    BitsOfValue(Marked(BitsOf(n)));
  }

  lemma TopBits(n: int)
    requires 0 <= n < 32
    ensures BitsOf(128 + n) & 0xE0 == 0x80
  {
  }

  function Join(b3: Byte, b2: Byte, b1: Byte, b0: Byte): bv32
  {
    ((b3 as bv32) << 24) | ((b2 as bv32) << 16) | ((b1 as bv32) << 8) | (b0 as bv32)
  }

  function Split(w: bv32): (Byte, Byte, Byte, Byte)
  {
    ((w >> 24) as bv8, ((w >> 16) & 0xFF) as bv8, ((w >> 8) & 0xFF) as bv8, (w & 0xFF) as bv8)
  }

  lemma SplitOfJoin(b3: Byte, b2: Byte, b1: Byte, b0: Byte)
    ensures Split(Join(b3, b2, b1, b0)) == (b3, b2, b1, b0)
  {
  }

  function Masked(w: bv32, mask: bv32): bv32 { w & mask }

  function MaskedByte(b: Byte, mask: Byte): Byte { b & mask }

  lemma MaskingIsBytewise(b3: Byte, b2: Byte, b1: Byte, b0: Byte, m3: Byte, m2: Byte, m1: Byte, m0: Byte)
    ensures Masked(Join(b3, b2, b1, b0), Join(m3, m2, m1, m0)) ==
      Join(MaskedByte(b3, m3), MaskedByte(b2, m2), MaskedByte(b1, m1), MaskedByte(b0, m0))
  {
  }

  /** The bits of an identifier word. */
  function Word(id: CanId): bv32
  {
    Join(BitsOf(id / 0x100_0000), BitsOf(id / 0x1_0000 % 256), BitsOf(id / 0x100 % 256), BitsOf(id % 256))
  }

  // ----- Population count -----

  predicate IsOdd(n: bv32) { n & 1 == 1 }

  function Halved(n: bv32): bv32 { n >> 1 }

  lemma HalvedIsLess(n: bv32)
    requires n != 0
    ensures Halved(n) < n
    ensures !IsOdd(n) ==> Halved(n) != 0
  {
  }

  /** The number of bits set in a word. */
  function Ones(n: bv32): nat
    decreases n
  {
    if n == 0 then 0 else
      HalvedIsLess(n);
      (if IsOdd(n) then 1 else 0) + Ones(Halved(n))
  }

  lemma {:induction false} NonzeroHasOnes(n: bv32)
    requires n != 0
    ensures Ones(n) > 0
    decreases n
  {
    hide IsOdd, Halved;
    HalvedIsLess(n);
    if !IsOdd(n) {
      NonzeroHasOnes(Halved(n));
    }
  }

  /** Without the least significant bit set. */
  function Cleared(n: bv32): bv32 { n & (n - 1) }

  lemma ClearedOfOdd(n: bv32)
    requires IsOdd(n)
    ensures !IsOdd(Cleared(n)) && Halved(Cleared(n)) == Halved(n)
  {
  }

  lemma ClearedOfEven(n: bv32)
    requires !IsOdd(n) && n != 0
    ensures !IsOdd(Cleared(n)) && Halved(Cleared(n)) == Cleared(Halved(n))
  {
  }

  lemma OnesOfEven(n: bv32)
    requires !IsOdd(n)
    ensures Ones(n) == Ones(Halved(n))
  {
    if n == 0 {
      assert Halved(0) == 0;
    }
  }

  /** Clearing the least significant bit leaves one bit fewer. */
  lemma {:induction false} ClearedHasOneLess(n: bv32)
    requires n != 0
    ensures Ones(Cleared(n)) + 1 == Ones(n)
    decreases n
  {
    hide IsOdd, Halved, Cleared;
    HalvedIsLess(n);
    if IsOdd(n) {
      ClearedOfOdd(n);
      OnesOfEven(Cleared(n));
    } else {
      ClearedOfEven(n);
      ClearedHasOneLess(Halved(n));
      OnesOfEven(Cleared(n));
    }
  }

  method CountBits(word: bv32) returns (c: nat)
    ensures c == Ones(word)
  {
    hide Cleared, Ones;
    c := 0;
    var n := word;
    assert Ones(0) == 0 by { NoOnesInZero(); }
    while n != 0
      invariant c + Ones(n) == Ones(word)
      decreases Ones(n)
    {
      ClearedHasOneLess(n);
      n := Cleared(n);
      c := c + 1;
    }
  }

  lemma NoOnesInZero()
    ensures Ones(0) == 0
  {
  }

  /** All bits of `a` are bits of `b`. */
  predicate Within(a: bv32, b: bv32) { a & b == a }

  lemma WithinHalves(a: bv32, b: bv32)
    requires Within(a, b)
    ensures Within(Halved(a), Halved(b)) && (IsOdd(a) ==> IsOdd(b))
    ensures b == 0 ==> a == 0
    ensures IsOdd(a) == IsOdd(b) && Halved(a) == Halved(b) ==> a == b
  {
  }

  lemma OnesUnfold(n: bv32)
    ensures Ones(n) == (if IsOdd(n) then 1 else 0) + Ones(Halved(n))
  {
    if n == 0 {
      assert !IsOdd(0) && Halved(0) == 0;
    }
  }

  /** Dropping bits lowers the count, strictly unless none was dropped. */
  lemma {:induction false} OnesAreMonotone(a: bv32, b: bv32)
    requires Within(a, b)
    ensures Ones(a) <= Ones(b)
    ensures a != b ==> Ones(a) < Ones(b)
    decreases b
  {
    hide IsOdd, Halved, Within, Ones;
    WithinHalves(a, b);
    if b != 0 {
      HalvedIsLess(b);
      OnesAreMonotone(Halved(a), Halved(b));
      OnesUnfold(a);
      OnesUnfold(b);
    }
  }
}
