/** Facts about positional notation shared by the codecs. */
module Arithmetic {

  function Min(a: int, b: int): int { if a <= b then a else b }

  function Max(a: int, b: int): int { if a >= b then a else b }

  /** Two to the power `n`. */
  function Pow2(n: nat): (p: nat)
    ensures p > 0
  {
    if n == 0 then 1 else 2 * Pow2(n - 1)
  }

  lemma MulKeepsOrder(d: nat, a: int, b: int)
    requires a <= b
    ensures d * a <= d * b
  {
  }

  lemma DivMod(q: int, d: nat, r: int)
    requires 0 <= r < d
    ensures (d * q + r) / d == q && (d * q + r) % d == r
  {
    var a := (d * q + r) / d;
    if a < q {
      MulKeepsOrder(d, a + 1, q);
    } else if a > q {
      MulKeepsOrder(d, q + 1, a);
    }
  }

  /** Bits `offset` .. `offset + width - 1` of a number, given the powers of two `2^offset` and `2^width`. */
  function Unpack(n: nat, offsetPower: nat, widthPower: nat): (v: nat)
    requires offsetPower > 0 && widthPower > 0
    ensures v < widthPower
  {
    (n / offsetPower) % widthPower
  }

  lemma FieldIsUnpacked(low: nat, v: nat, high: nat, offset: nat, width: nat)
    requires low < offset && v < width
    ensures Unpack(low + offset * (v + width * high), offset, width) == v
  {
    DivMod(v + width * high, offset, low);
    DivMod(high, width, v);
  }

  lemma Regroup(a: nat, b: nat, q: nat, r: nat)
    ensures a * (b * q + r) == (a * b) * q + a * r
  {
  }

  lemma QuotientOfDigits(high: nat, mid: nat, low: nat, a: nat, b: nat)
    requires mid < b && low < a
    ensures a * b > 0 && ((a * b) * high + (a * mid + low)) / (a * b) == high
  {
    MulKeepsOrder(a, 1, b);
    MulKeepsOrder(a, mid + 1, b);
    DivMod(high, a * b, a * mid + low);
  }

  lemma SplitQuotient(n: nat, a: nat, b: nat)
    requires a > 0 && b > 0
    ensures a * b > 0 && n / (a * b) == (n / a) / b
    ensures n / a == Unpack(n, a, b) + b * (n / (a * b))
    ensures n == n % a + a * Unpack(n, a, b) + (a * b) * (n / (a * b))
  {
    var q, low := n / a, n % a;
    var high, mid := q / b, q % b;
    assert q == b * high + mid && n == a * q + low;
    Regroup(a, b, high, mid);
    assert n == (a * b) * high + (a * mid + low);
    QuotientOfDigits(high, mid, low, a, b);
  }

  // ----- Binary digits -----

  function Quotient(u: nat, d: nat): nat
    requires d > 0
  {
    u / d
  }

  /** The binary digit of weight `2^w`. */
  predicate Digit(u: nat, w: nat) { Quotient(u, Pow2(w)) % 2 == 1 }

  lemma DivTwice(u: nat, a: nat, b: nat)
    requires a > 0 && b > 0
    ensures a * b > 0 && u / a / b == u / (a * b)
  {
    SplitQuotient(u, a, b);
  }

  lemma DigitOfHalf(u: nat, w: nat)
    requires w > 0
    ensures Digit(u / 2, w - 1) == Digit(u, w)
  {
    DivTwice(u, 2, Pow2(w - 1));
  }

  lemma LastDigit(u: nat)
    ensures Digit(u, 0) == (u % 2 == 1)
  {
  }
}
