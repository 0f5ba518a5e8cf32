/**
 The brightness of a LED, `(int)((float)channel / 255.0f * 48.0f)`, computed as
 single-precision hardware does: both results rounded to 24 significant bits,
 to nearest and ties to even. It is floor(48 * channel / 255) for every channel.
 */
module LedScale {
  import opened CTypes
  import opened Division

  const BITS23: int := 0x80_0000
  const BITS24: int := 0x100_0000

  // ----- rounding -----

  /** A fraction to the nearest integer, ties to even. */
  function Nearest(num: nat, den: nat): nat
    requires den > 0
  {
    var q, rest := num / den, num % den;
    if 2 * rest < den || (2 * rest == den && q % 2 == 0) then q else q + 1
  }

  lemma NearestIsClose(num: nat, den: nat)
    requires den > 0
    ensures 0 - den <= 2 * (den * Nearest(num, den) - num) <= den
  {
    DivMod(num, den);
    assert den * (num / den + 1) == den * (num / den) + den;
  }

  /** The distance of two neighbouring floats with 24 significant bits at an integer. */
  function Unit(n: nat): (u: nat)
    ensures u > 0
  {
    if n < BITS24 then 1 else 2 * Unit(n / 2)
  }

  function RoundTo24(n: nat): nat { Unit(n) * Nearest(n, Unit(n)) }

  /** The k for which channel / 255 * 2^k has 24 bits. */
  function Exponent(channel: nat): nat
    requires channel > 0
    decreases 255 - channel
  {
    if channel >= 255 then 23 else 1 + Exponent(2 * channel)
  }

  /** The quotient is Mantissa / 2^Exponent. */
  function Mantissa(channel: nat): nat
    requires channel > 0
  {
    Nearest(channel * Pow2(Exponent(channel)), 255)
  }

  function Truncated(n: nat, k: nat): nat
    requires k > 0
  {
    n / k
  }

  /** What is written to the brightness node. */
  function Scaled(channel: nat): nat {
    if channel == 0 then 0 else Truncated(RoundTo24(48 * Mantissa(channel)), Pow2(Exponent(channel)))
  }

  // ----- how far the rounded product is from the exact one -----

  lemma Powers()
    ensures Pow2(6) == 64 && Pow2(23) == BITS23 && Pow2(24) == BITS24 && Pow2(25) == 0x200_0000
  {
    assert Pow2(3) == 8 && Pow2(6) == 64 && Pow2(9) == 512;
    assert Pow2(12) == 4096 && Pow2(15) == 0x8000;
    assert Pow2(18) == 0x4_0000 && Pow2(21) == 0x20_0000;
  }

  lemma {:induction false} ExponentFits(channel: nat)
    requires 0 < channel < 510
    ensures Pow2(Exponent(channel)) >= BITS23
    ensures 255 * BITS23 <= channel * Pow2(Exponent(channel)) < 255 * BITS24
    decreases 255 - channel
  {
    if channel >= 255 {
      Powers();
    } else {
      ExponentFits(2 * channel);
      DoubledProduct(channel, Pow2(Exponent(2 * channel)));
    }
  }

  lemma DoubledProduct(a: int, b: int)
    ensures a * (2 * b) == 2 * a * b
  {
  }

  lemma {:induction false} UnitIsSmall(n: nat, j: nat)
    requires n < BITS24 * Pow2(j)
    ensures Unit(n) <= Pow2(j)
  {
    if n >= BITS24 {
      assert j > 0 && Pow2(j) == 2 * Pow2(j - 1);
      UnitIsSmall(n / 2, j - 1);
    }
  }

  lemma ProductIsClose(n: nat)
    requires n < BITS24 * 64
    ensures -32 <= RoundTo24(n) - n <= 32
  {
    Powers();
    UnitIsSmall(n, 6);
    NearestIsClose(n, Unit(n));
  }

  lemma ScaledIsClose(channel: nat)
    requires 0 < channel <= 255
    ensures var n, exact := RoundTo24(48 * Mantissa(channel)), 48 * (channel * Pow2(Exponent(channel)));
      -22440 <= 255 * n - exact <= 22440
  {
    ExponentFits(channel);
    NearestIsClose(channel * Pow2(Exponent(channel)), 255);
    ProductIsClose(48 * Mantissa(channel));
  }

  // ----- the floor -----

  lemma SplitProduct(a: int, k: int, q: int, r: int)
    requires 48 * a == 255 * q + r
    ensures 48 * (a * k) == 255 * (k * q) + r * k
  {
    assert (48 * a) * k == 48 * (a * k) && (255 * q + r) * k == 255 * (k * q) + r * k;
  }

  lemma AtLeast(r: int, k: nat)
    requires 1 <= r <= 254
    ensures k <= r * k <= 254 * k
  {
  }

  /** No rounding moves a product across an integer, and the four exact ones are met. */
  lemma ScaledIsFloor(channel: nat)
    requires channel <= 255
    ensures Scaled(channel) == 48 * channel / 255
  {
    var q, r := 48 * channel / 255, 48 * channel % 255;
    if r == 0 {
      ExactScales(channel);
    } else {
      InexactScales(channel, q, r);
    }
  }

  lemma InexactScales(channel: nat, q: nat, r: nat)
    requires 0 < channel <= 255 && 48 * channel == 255 * q + r && 1 <= r <= 254
    ensures Scaled(channel) == q
  {
    var k, n := Pow2(Exponent(channel)), RoundTo24(48 * Mantissa(channel));
    ExponentFits(channel);
    ScaledIsClose(channel);
    SplitProduct(channel, k, q, r);
    AtLeast(r, k);
    CloseHasFloor(n, k, q, 48 * (channel * k), r * k);
  }

  lemma CloseHasFloor(n: int, k: int, q: int, exact: int, excess: int)
    requires k > 22440 && exact == 255 * (k * q) + excess && k <= excess <= 254 * k
    requires -22440 <= 255 * n - exact <= 22440
    ensures n / k == q
  {
    DivisionIsUnique(n, k, q, n - k * q);
  }

  /** Two thirds and a third have the same mantissa; 48 times it is rounded down to a power of two. */
  lemma ExactProducts()
    ensures RoundTo24(48 * 11184811) == 0x2000_0000 && RoundTo24(48 * BITS23) == 48 * BITS23
  {
    assert Unit(8388608) == 1 && Unit(16777216) == 2 && Unit(67108866) == 8 && Unit(536870928) == 64;
    assert Unit(12582912) == 1 && Unit(100663296) == 8 && Unit(402653184) == 32;
    assert Nearest(536870928, 64) == 8388608 && Nearest(402653184, 32) == 12582912;
  }

  lemma ExactExponents()
    ensures Exponent(85) == 25 && Exponent(170) == 24 && Exponent(255) == 23
  {
  }

  lemma ExactMantissas()
    ensures Mantissa(85) == Mantissa(170) == 11184811 && Mantissa(255) == BITS23
  {
    Powers();
    ExactExponents();
    assert Nearest(85 * 0x200_0000, 255) == Nearest(170 * BITS24, 255) == 11184811;
    assert Nearest(255 * BITS23, 255) == BITS23;
  }

  lemma ScaledFrom(channel: nat, mantissa: nat, n: nat, k: nat, r: nat)
    requires channel > 0 && Mantissa(channel) == mantissa && RoundTo24(48 * mantissa) == n
    requires Pow2(Exponent(channel)) == k && n == k * r
    ensures Scaled(channel) == r
  {
    DivisionIsUnique(n, k, r, 0);
  }

  lemma ExactScales(channel: nat)
    requires channel in {0, 85, 170, 255}
    ensures Scaled(channel) == 48 * channel / 255
  {
    Powers();
    ExactExponents();
    ExactMantissas();
    ExactProducts();
    if channel == 85 {
      ScaledFrom(85, 11184811, 0x2000_0000, 0x200_0000, 16);
    } else if channel == 170 {
      ScaledFrom(170, 11184811, 0x2000_0000, BITS24, 32);
    } else if channel == 255 {
      ScaledFrom(255, BITS23, 48 * BITS23, BITS23, 48);
    }
  }
}
