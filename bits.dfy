/**
 * Powers of two, Euclidean division facts and the bitwise AND / OR of
 * non-negative integers, computed bit by bit.  The address arithmetic of the
 * scanner (masking an IPv4 address, forming the broadcast address) is stated
 * with these.
 */
module Bits {

  function Pow2(n: nat): (r: nat)
    ensures r >= 1
  {
    if n == 0 then 1 else 2 * Pow2(n - 1)
  }

  lemma {:induction false} Pow2Add(a: nat, b: nat)
    ensures Pow2(a + b) == Pow2(a) * Pow2(b)
  {
    if a > 0 {
      Pow2Add(a - 1, b);
    }
  }

  lemma Pow2Split(a: nat, b: nat, n: nat)
    requires a + b == n
    ensures Pow2(n) == Pow2(a) * Pow2(b)
  {
    Pow2Add(a, b);
  }

  /** One more byte multiplies the range by 256. */
  lemma Pow2Byte(n: nat)
    ensures Pow2(8 * (n + 1)) == Pow2(8 * n) * 256
  {
    Pow2Split(8 * n, 8, 8 * (n + 1));
    Pow2Eight();
  }

  lemma {:induction false} Pow2Monotone(a: nat, b: nat)
    requires a <= b
    ensures Pow2(a) <= Pow2(b)
  {
    if a < b {
      Pow2Monotone(a, b - 1);
    }
  }

  /** Division is determined by quotient and remainder. */
  lemma DivUnique(x: int, d: int, q: int, r: int)
    requires d > 0 && 0 <= r < d && x == q * d + r
    ensures x / d == q && x % d == r
  {
    var q0, r0 := x / d, x % d;
    assert x == q0 * d + r0;
    assert q > q0 ==> q * d >= (q0 + 1) * d;
    assert q < q0 ==> q0 * d >= (q + 1) * d;
  }

  lemma ModSmall(x: nat, d: nat)
    requires x < d
    ensures x % d == x
  {
    DivUnique(x, d, 0, x);
  }

  lemma ModSelf(d: nat)
    requires d > 0
    ensures d % d == 0
  {
    DivUnique(d, d, 1, 0);
  }

  /** x / d == q exactly when x lies in [q * d, q * d + d). */
  lemma DivBounds(x: nat, d: nat, q: int)
    requires d > 0
    ensures x / d == q <==> q * d <= x < q * d + d
  {
    if q * d <= x < q * d + d {
      DivUnique(x, d, q, x - q * d);
    }
  }

  lemma DivAddMul(c: nat, d: nat, b: nat)
    requires d > 0
    ensures (c * d + b) / d == c + b / d
  {
    DivUnique(c * d + b, d, c + b / d, b % d);
  }

  lemma DivDiv(x: nat, p: nat, q: nat)
    requires p > 0 && q > 0
    ensures x / (p * q) == x / p / q
  {
    var a, ra := x / p, x % p;
    var b, rb := a / q, a % q;
    assert x == a * p + ra;
    assert a == b * q + rb;
    MulDistrib(b * q, rb, p);
    MulRearrange(b, q, p);
    assert x == b * (p * q) + (rb * p + ra);
    MulMonotone(rb, q - 1, p);
    MulDistrib(q, -1, p);
    assert rb * p + ra < p * q;
    DivUnique(x, p * q, b, rb * p + ra);
  }

  lemma Double(a: int, b: int)
    ensures a * (2 * b) == 2 * (a * b)
  {
  }

  lemma MulAssoc(a: int, b: int, c: int)
    ensures a * (b * c) == (a * b) * c
  {
  }

  lemma MulDistrib(a: int, b: int, c: int)
    ensures (a + b) * c == a * c + b * c
  {
  }

  lemma MulRearrange(a: int, b: int, c: int)
    ensures (a * b) * c == a * (c * b)
  {
  }

  lemma MulMonotone(a: int, b: int, c: nat)
    requires a <= b
    ensures a * c <= b * c
  {
  }

  lemma HalfBelow(x: nat, n: nat)
    requires n > 0 && x < Pow2(n)
    ensures x / 2 < Pow2(n - 1)
  {
    DivUnique(x, 2, x / 2, x % 2);
  }

  /** The AND of the n low bits of x and y. */
  function AndBits(x: nat, y: nat, n: nat): nat
  {
    if n == 0 then 0
    else 2 * AndBits(x / 2, y / 2, n - 1) + (if x % 2 == 1 && y % 2 == 1 then 1 else 0)
  }

  /** The OR of the n low bits of x and y. */
  function OrBits(x: nat, y: nat, n: nat): nat
  {
    if n == 0 then 0
    else 2 * OrBits(x / 2, y / 2, n - 1) + (if x % 2 == 1 || y % 2 == 1 then 1 else 0)
  }

  /** The AND and the OR of n bits fit in n bits. */
  lemma {:induction false} BitsBound(x: nat, y: nat, n: nat)
    ensures AndBits(x, y, n) < Pow2(n) && OrBits(x, y, n) < Pow2(n)
  {
    if n > 0 {
      BitsBound(x / 2, y / 2, n - 1);
    }
  }

  /** ANDing twice with the same y changes nothing more. */
  lemma {:induction false} AndBitsIdempotent(x: nat, y: nat, n: nat)
    ensures AndBits(AndBits(x, y, n), y, n) == AndBits(x, y, n)
  {
    if n > 0 {
      var r, r' := AndBits(x, y, n), AndBits(x / 2, y / 2, n - 1);
      var bit := if x % 2 == 1 && y % 2 == 1 then 1 else 0;
      DivUnique(r, 2, r', bit);
      AndBitsIdempotent(x / 2, y / 2, n - 1);
      assert AndBits(r, y, n) == 2 * AndBits(r', y / 2, n - 1) + bit;
    }
  }

  /** ANDing with 0 clears every bit. */
  lemma {:induction false} AndBitsZero(x: nat, n: nat)
    ensures AndBits(x, 0, n) == 0
  {
    if n > 0 {
      AndBitsZero(x / 2, n - 1);
    }
  }

  /** The n-bit value whose n - h high bits are set and whose h low bits are clear. */
  function HighOnes(n: nat, h: nat): nat
    requires h <= n
  {
    if h > 0 then 2 * HighOnes(n - 1, h - 1)
    else if n == 0 then 0
    else 2 * HighOnes(n - 1, 0) + 1
  }

  lemma {:induction false} HighOnesValue(n: nat, h: nat)
    requires h <= n
    ensures HighOnes(n, h) == Pow2(n) - Pow2(h)
  {
    if h > 0 {
      HighOnesValue(n - 1, h - 1);
    } else if n > 0 {
      HighOnesValue(n - 1, 0);
    }
  }

  /** Rounding x / 2 down to a multiple of p, doubled, rounds x down to a multiple of 2p. */
  lemma HalveRound(x: nat, p: nat)
    requires p > 0
    ensures 2 * (x / 2 / p * p) == x / (2 * p) * (2 * p)
  {
    DivDiv(x, 2, p);
    Double(x / 2 / p, p);
  }

  lemma AndAllStep(x: nat, n: nat)
    requires n > 0
    requires AndBits(x / 2, HighOnes(n - 1, 0), n - 1) == x / 2
    ensures AndBits(x, HighOnes(n, 0), n) == x / Pow2(0) * Pow2(0)
  {
    var m, m' := HighOnes(n, 0), HighOnes(n - 1, 0);
    DivUnique(m, 2, m', 1);
    DivUnique(x, 2, x / 2, x % 2);
    DivUnique(x, 1, x, 0);
    assert AndBits(x, m, n) == 2 * AndBits(x / 2, m', n - 1) + x % 2;
  }

  lemma AndHighStep(x: nat, n: nat, h: nat)
    requires 0 < h <= n
    requires AndBits(x / 2, HighOnes(n - 1, h - 1), n - 1) == x / 2 / Pow2(h - 1) * Pow2(h - 1)
    ensures AndBits(x, HighOnes(n, h), n) == x / Pow2(h) * Pow2(h)
  {
    var m, m' := HighOnes(n, h), HighOnes(n - 1, h - 1);
    DivUnique(m, 2, m', 0);
    assert AndBits(x, m, n) == 2 * AndBits(x / 2, m', n - 1);
    HalveRound(x, Pow2(h - 1));
  }

  /**
   * ANDing an n-bit value with HighOnes(n, h) clears its h low bits: the
   * result is x rounded down to a multiple of 2^h.
   */
  lemma {:induction false} AndHighOnes(x: nat, n: nat, h: nat)
    requires x < Pow2(n) && h <= n
    ensures AndBits(x, HighOnes(n, h), n) == x / Pow2(h) * Pow2(h)
  {
    if n == 0 {
      assert x == 0 && h == 0;
      DivUnique(0, Pow2(0), 0, 0);
    } else {
      HalfBelow(x, n);
      if h == 0 {
        AndHighOnes(x / 2, n - 1, 0);
        AndAllStep(x, n);
      } else {
        AndHighOnes(x / 2, n - 1, h - 1);
        AndHighStep(x, n, h);
      }
    }
  }

  lemma OrNoneStep(x: nat, n: nat)
    requires n > 0
    requires OrBits(x / 2, 0, n - 1) == x / 2
    ensures OrBits(x, Pow2(0) - 1, n) == x
  {
    DivUnique(x, 2, x / 2, x % 2);
    assert OrBits(x, 0, n) == 2 * OrBits(x / 2, 0, n - 1) + x % 2;
  }

  /** Halving a multiple of 2^h, h > 0, leaves a multiple of 2^(h - 1). */
  lemma HalfMultiple(x: nat, h: nat, q: int)
    requires h > 0 && x == q * Pow2(h)
    ensures x / 2 == q * Pow2(h - 1) && x % 2 == 0
  {
    var p := Pow2(h - 1);
    assert Pow2(h) == 2 * p;
    Double(q, p);
    DivUnique(x, 2, q * p, 0);
  }

  lemma OrLowStep(x: nat, n: nat, h: nat)
    requires 0 < h <= n && x % 2 == 0
    requires OrBits(x / 2, Pow2(h - 1) - 1, n - 1) == x / 2 + Pow2(h - 1) - 1
    ensures OrBits(x, Pow2(h) - 1, n) == x + Pow2(h) - 1
  {
    var p := Pow2(h - 1);
    var y := Pow2(h) - 1;
    assert y == 2 * (p - 1) + 1;
    DivUnique(y, 2, p - 1, 1);
    DivUnique(x, 2, x / 2, 0);
    assert OrBits(x, y, n) == 2 * OrBits(x / 2, p - 1, n - 1) + 1;
  }

  /**
   * ORing an n-bit multiple of 2^h with 2^h - 1 (the h low bits set) adds
   * exactly 2^h - 1.
   */
  lemma {:induction false} OrLowOnes(x: nat, n: nat, h: nat, q: int)
    requires x < Pow2(n) && h <= n && x == q * Pow2(h)
    ensures OrBits(x, Pow2(h) - 1, n) == x + Pow2(h) - 1
  {
    if n == 0 {
      assert x == 0 && Pow2(h) == 1;
    } else {
      HalfBelow(x, n);
      if h == 0 {
        assert x / 2 == (x / 2) * Pow2(0);
        OrLowOnes(x / 2, n - 1, 0, x / 2);
        OrNoneStep(x, n);
      } else {
        HalfMultiple(x, h, q);
        OrLowOnes(x / 2, n - 1, h - 1, q);
        OrLowStep(x, n, h);
      }
    }
  }

  lemma Pow2Eight()
    ensures Pow2(8) == 256
  {
  }

  /** The size of the IPv4 address space. */
  lemma Pow2ThirtyTwo()
    ensures Pow2(32) == 0x1_0000_0000
  {
    Pow2Eight();
    Pow2Split(8, 8, 16);
    Pow2Split(16, 16, 32);
  }
}
