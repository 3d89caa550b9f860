/** The integer compensation of the pressure sensor (rust/src/meteo/bmp085.rs, Bmp085::measure).
    Every intermediate value is an i32 or u32; a value outside its type is an overflow. */
module Bmp085 {

  import opened Options

  const I32_MAX := 0x7FFF_FFFF
  const I32_MIN := -0x8000_0000
  const U32_LIMIT: nat := 0x1_0000_0000

  predicate FitsI32(x: int) {
    I32_MIN <= x <= I32_MAX
  }

  /** The division of i32 and u32, which truncates toward zero. */
  function Div(a: int, b: int): int
    requires b != 0
  {
    if (a >= 0) == (b > 0) then Magnitude(a) / Magnitude(b) else -(Magnitude(a) / Magnitude(b))
  }

  function Magnitude(a: int): nat {
    if a < 0 then -a else a
  }

  /** The arithmetic shift to the right. */
  function Shr15(a: int): int { a / 32768 }
  function Shr4(a: int): int { a / 16 }

  // -------------------------------------------------------------- temperature

  /** The calibration values that the temperature depends on. */
  datatype Calibration = Calibration(ac5: int, ac6: int, mc: int, md: int)

  /** b5, or None when an intermediate value overflows or the divisor is zero. */
  function B5(c: Calibration, ut: int): Option<int> {
    var product := (ut - c.ac6) * c.ac5;
    if !FitsI32(ut - c.ac6) || !FitsI32(product) then None
    else
      var x1 := Shr15(product);
      var numerator := c.mc * 2048;
      if !FitsI32(numerator) || !FitsI32(x1 + c.md) || x1 + c.md == 0 then None
      else
        var x2 := Div(numerator, x1 + c.md);
        if !FitsI32(x2) || !FitsI32(x1 + x2) then None else Some(x1 + x2)
  }

  /** The temperature in tenths of a degree. */
  function Temperature(c: Calibration, ut: int): Option<int> {
    match B5(c, ut)
    case None => None
    case Some(b5) => if FitsI32(b5 + 8) then Some(Shr4(b5 + 8)) else None
  }

  /** The formula in inequalities. x1 is the scaled reading, rounded down; x2 is the quotient of the
      two other calibration values, rounded toward zero; the temperature is their sum in sixteenths,
      rounded to the nearest, up in the middle. */
  ghost predicate Compensates(c: Calibration, ut: int, x1: int, x2: int, t: int) {
    && x1 * 32768 <= (ut - c.ac6) * c.ac5 < x1 * 32768 + 32768
    && x1 + c.md != 0
    && Magnitude(x2) * Magnitude(x1 + c.md) <= Magnitude(c.mc * 2048)
       < Magnitude(x2) * Magnitude(x1 + c.md) + Magnitude(x1 + c.md)
    && (x2 > 0 ==> c.mc != 0 && (c.mc > 0) == (x1 + c.md > 0))
    && (x2 < 0 ==> (c.mc > 0) != (x1 + c.md > 0))
    && t * 16 <= x1 + x2 + 8 < t * 16 + 16
  }

  /** The temperature that is computed is the one of the formula. */
  lemma TemperatureCompensates(c: Calibration, ut: int, t: int) returns (x1: int, x2: int)
    requires Temperature(c, ut) == Some(t)
    ensures Compensates(c, ut, x1, x2, t)
  {
    x1 := Shr15((ut - c.ac6) * c.ac5);
    x2 := Div(c.mc * 2048, x1 + c.md);
    QuotientIs(c.mc * 2048, x1 + c.md, x2);
  }

  /** Division that truncates toward zero. */
  lemma QuotientIs(n: int, d: int, q: int)
    requires d != 0 && q == Div(n, d)
    ensures Magnitude(q) * Magnitude(d) <= Magnitude(n) < Magnitude(q) * Magnitude(d) + Magnitude(d)
    ensures q > 0 ==> n != 0 && (n > 0) == (d > 0)
    ensures q < 0 ==> (n > 0) != (d > 0)
  {
    QuotientBounds(Magnitude(n), Magnitude(d), Magnitude(n) / Magnitude(d));
  }

  /** With 16-bit calibration values and readings nothing overflows, as long as ac5 stays below 2^15;
      a division by zero is then the only thing that can go wrong. */
  lemma SixteenBitsAreEnough(c: Calibration, ut: int)
    requires 0 <= ut <= 0xffff && 0 <= c.ac6 <= 0xffff && 0 <= c.ac5 <= 0x7fff
    requires -0x8000 <= c.mc <= 0x7fff && -0x8000 <= c.md <= 0x7fff
    ensures Temperature(c, ut).Some? <==> Shr15((ut - c.ac6) * c.ac5) + c.md != 0
  {
    var product := (ut - c.ac6) * c.ac5;
    ProductGrows(-0xffff, ut - c.ac6, c.ac5);
    ProductGrows(ut - c.ac6, 0xffff, c.ac5);
    assert -0xffff * 0x7fff <= product <= 0xffff * 0x7fff;
    var d := Shr15(product) + c.md;
    if d != 0 {
      QuotientIsSmaller(c.mc * 2048, d);
    }
  }

  lemma QuotientIsSmaller(n: int, d: int)
    requires d != 0
    ensures Magnitude(Div(n, d)) <= Magnitude(n)
  {
    SmallerQuotient(Magnitude(n), 1, Magnitude(d));
  }

  /** A quotient of a non-positive number grows with the divisor. */
  lemma QuotientGrows(n: int, d: int, e: int)
    requires n <= 0 && 0 < d <= e
    ensures Div(n, d) <= Div(n, e)
  {
    var m := -n;
    assert Div(n, d) == -(m / d) && Div(n, e) == -(m / e);
    SmallerQuotient(m, d, e);
  }

  lemma SmallerQuotient(m: nat, d: int, e: int)
    requires 0 < d <= e
    ensures m / e <= m / d
  {
    var q := m / e;
    QuotientBounds(m, e, q);
    ProductGrows(d, e, q);
    QuotientIsLargest(m, d, q);
  }

  lemma QuotientBounds(m: nat, d: int, q: int)
    requires d > 0 && q == m / d
    ensures q >= 0 && q * d <= m < q * d + d
  {
  }

  /** The quotient is the largest factor that fits. */
  lemma QuotientIsLargest(m: nat, d: int, q: nat)
    requires d > 0 && q * d <= m
    ensures q <= m / d
  {
    QuotientBounds(m, d, m / d);
    CancelFactor(q, m / d + 1, d);
  }

  lemma CancelFactor(p: int, q: int, d: int)
    requires d > 0 && p * d < q * d
    ensures p < q
  {
  }

  lemma ProductGrows(a: int, b: int, f: int)
    requires a <= b && f >= 0
    ensures a * f <= b * f
  {
  }

  /** A warmer reading never gives a lower temperature, for calibrations with ac5 >= 0 and mc <= 0, as
      long as the divisor stays positive and nothing overflows. */
  lemma TemperatureIsMonotone(c: Calibration, ut: int, warmer: int)
    requires c.ac5 >= 0 && c.mc <= 0 && ut <= warmer
    ensures Shr15((ut - c.ac6) * c.ac5) + c.md > 0
            && Temperature(c, ut).Some? && Temperature(c, warmer).Some?
            ==> Temperature(c, ut).value <= Temperature(c, warmer).value
  {
    ProductGrows(ut - c.ac6, warmer - c.ac6, c.ac5);
    var x1, x1' := Shr15((ut - c.ac6) * c.ac5), Shr15((warmer - c.ac6) * c.ac5);
    assert x1 <= x1';
    if x1 + c.md > 0 {
      QuotientGrows(c.mc * 2048, x1 + c.md, x1' + c.md);
    }
  }

  // ------------------------------------------------------------------ pressure

  /** p1 before the cast to i32: the quotient of b7 and b4, doubled on the side where doubling first
      would lose a bit. Shifts of a u32 drop the bits that leave it. */
  function Quotient(b7: nat, b4: nat): nat
    requires b4 > 0
  {
    if b7 < 0x8000_0000 then Wrap(b7 * 2) / b4 else Wrap((b7 / b4) * 2)
  }

  /** What a u32 keeps of a number. */
  function Wrap(n: nat): (r: nat)
    ensures n < U32_LIMIT ==> r == n
  {
    n % U32_LIMIT
  }

  /** Neither shift loses a bit, and the cast to i32 keeps the value. */
  ghost predicate Exact(b7: nat, b4: nat)
    requires b4 > 0
  {
    && (if b7 < 0x8000_0000 then b7 * 2 < U32_LIMIT else (b7 / b4) * 2 < U32_LIMIT)
    && Quotient(b7, b4) <= I32_MAX
  }

  /** The doubled quotient misses the quotient of the double by at most one. */
  lemma DoubledQuotient(b7: nat, b4: nat)
    requires b4 > 0
    ensures (b7 / b4) * 2 <= (b7 * 2) / b4 <= (b7 / b4) * 2 + 1
  {
    var q, p := b7 / b4, (b7 * 2) / b4;
    QuotientBounds(b7, b4, q);
    assert b7 < (q + 1) * b4;
    assert (q * 2) * b4 == 2 * (q * b4) && (q * 2 + 2) * b4 == 2 * ((q + 1) * b4);
    QuotientIsLargest(b7 * 2, b4, q * 2);
    QuotientBounds(b7 * 2, b4, p);
    CancelFactor(p, q * 2 + 2, b4);
  }

  /** For every 32-bit b7 and every b4 from 4 on, the two-branch quotient is exact and within one of
      the rounded-down value of 2 * b7 / b4. */
  lemma QuotientIsAccurate(b7: nat, b4: nat)
    requires b7 < U32_LIMIT && b4 >= 4
    ensures Exact(b7, b4)
    ensures Quotient(b7, b4) <= (b7 * 2) / b4 <= Quotient(b7, b4) + 1
  {
    DoubledQuotient(b7, b4);
    QuotientBelow(b7, b4);
    if b7 < 0x8000_0000 {
      QuotientBelow(b7 * 2, b4);
    }
  }

  lemma QuotientBelow(n: nat, b4: nat)
    requires n < U32_LIMIT && b4 >= 4
    ensures n / b4 < 0x4000_0000
  {
    SmallerQuotient(n, 4, b4);
  }

  /** Four is the exact limit: with a smaller b4 some b7 overflows. */
  lemma ExactIff(b4: nat)
    requires b4 > 0
    ensures (forall b7: nat :: b7 < U32_LIMIT ==> Exact(b7, b4)) <==> b4 >= 4
  {
    if b4 >= 4 {
      forall b7: nat | b7 < U32_LIMIT
        ensures Exact(b7, b4)
      {
        QuotientIsAccurate(b7, b4);
      }
    } else {
      assert !Exact(0xFFFF_FFFF, b4);
    }
  }
}
