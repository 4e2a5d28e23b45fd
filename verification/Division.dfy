/** Division through a correctly rounded quotient: `Decimal` keeps 28 significant decimal digits
    and Python's float division a 53-bit significand. Both round half to even and the handlers
    then truncate. The result is the true integer quotient whenever the dividend is short enough. */
module Division {
  import opened Words

  function Power(base: nat, e: nat): (p: nat)
    requires base >= 2
    ensures p >= 1
  {
    if e == 0 then 1 else base * Power(base, e - 1)
  }

  /** The integer nearest to num/den; a tie goes to the even neighbour. */
  function RoundHalfEven(num: nat, den: nat): (m: nat)
    requires den > 0
    ensures 2 * num - den <= 2 * (m * den) <= 2 * num + den
    ensures 2 * (m * den) == 2 * num + den || 2 * (m * den) == 2 * num - den ==> m % 2 == 0
  {
    var q, r := Quot(num, den), Rem(num, den);
    QuotRem(num, den);
    Distribute(q, 1, den);
    if 2 * r < den || (2 * r == den && q % 2 == 0) then q else q + 1
  }

  /** Places the quotient must be scaled up by, for its integer part to show `p` digits. */
  function ScaleUp(num: nat, den: nat, base: nat, p: nat): (s: nat)
    requires num > 0 && den > 0 && base >= 2 && p >= 1
    decreases den * Power(base, p - 1) - num
  {
    if num >= den * Power(base, p - 1) then 0
    else
      MulMono(2, base, num);
      1 + ScaleUp(num * base, den, base, p)
  }

  /** Places the quotient must be scaled down by, for its integer part to show at most `p` digits. */
  function ScaleDown(num: nat, den: nat, base: nat, p: nat): (t: nat)
    requires den > 0 && base >= 2
    decreases num - den * Power(base, p)
  {
    if num < den * Power(base, p) then 0
    else
      ScaledDenominator(den, base, Power(base, p));
      1 + ScaleDown(num, den * base, base, p)
  }

  lemma ScaledDenominator(den: nat, base: nat, q: nat)
    requires den > 0 && base >= 2 && q >= 1
    ensures den * base > 0 && den * base * q > den * q
  {
    MulMono(2, base, den);
    MulMono(2 * den, den * base, q);
    assert den * q >= 1 by {
      MulMono(1, den, q);
    }
  }

  /** int(num/den) where the quotient is first rounded to `p` significant digits in `base`. */
  function TruncatedRoundedQuotient(num: nat, den: nat, base: nat, p: nat): nat
    requires den > 0 && base >= 2 && p >= 1
  {
    if num == 0 then 0
    else if num < den * Power(base, p) then
      var scale := Power(base, ScaleUp(num, den, base, p));
      Quot(RoundHalfEven(num * scale, den), scale)
    else
      var scale := Power(base, ScaleDown(num, den, base, p));
      ScaledPositive(den, scale);
      RoundHalfEven(num, den * scale) * scale
  }

  lemma ScaledPositive(a: nat, b: nat)
    requires a > 0 && b > 0
    ensures a * b > 0
  {
    MulMono(1, a, b);
  }

  /** The scaled quotient has a p-digit integer part, so rounding it is rounding to p digits. */
  lemma {:induction false} ScaleUpGivesDigits(num: nat, den: nat, base: nat, p: nat)
    requires num > 0 && den > 0 && base >= 2 && p >= 1
    requires num < den * Power(base, p)
    ensures var scale := Power(base, ScaleUp(num, den, base, p));
            den * Power(base, p - 1) <= num * scale < den * Power(base, p)
    decreases den * Power(base, p - 1) - num
  {
    var low := den * Power(base, p - 1);
    if num < low {
      MulMono(2, base, num);
      NextPower(den, base, p);
      BelowAfterScaling(num, low, base);
      ScaleUpGivesDigits(num * base, den, base, p);
      MulAssoc(num, base, Power(base, ScaleUp(num * base, den, base, p)));
    }
  }

  lemma NextPower(den: nat, base: nat, p: nat)
    requires base >= 2 && p >= 1
    ensures den * Power(base, p - 1) * base == den * Power(base, p)
  {
    MulSwap(den, Power(base, p - 1), base);
    MulAssoc(den, base, Power(base, p - 1));
  }

  lemma BelowAfterScaling(num: nat, low: nat, base: nat)
    requires num < low && base >= 1
    ensures num * base < low * base
  {
    MulMono(num, low - 1, base);
    Distribute(low, 1, base);
  }

  /** Truncating the rounded quotient is exact while the dividend is below 2 * base^(p-1):
      the quotient then lies farther than half a unit in the last place from the next integer. */
  lemma {:induction false} TruncationExact(num: nat, den: nat, base: nat, p: nat)
    requires den > 0 && base >= 2 && p >= 1
    requires num < 2 * Power(base, p - 1)
    ensures TruncatedRoundedQuotient(num, den, base, p) == Quot(num, den)
  {
    if num > 0 {
      MulMono(2, base, Power(base, p - 1));
      MulMono(1, den, Power(base, p));
      ScaleUpGivesDigits(num, den, base, p);
      var scale := Power(base, ScaleUp(num, den, base, p));
      ScaleBeatsHalfDivisor(num, den, scale, Power(base, p - 1));
      RoundedStaysBelow(num, den, scale);
    }
  }

  lemma ScaleBeatsHalfDivisor(num: nat, den: nat, scale: nat, top: nat)
    requires den * top <= num * scale && num < 2 * top && scale > 0
    ensures den < 2 * scale
  {
    if den >= 2 * scale {
      MulMono(2 * scale, den, top);
      BelowAfterScaling(num, 2 * top, scale);
      MulSwap(2, scale, top);
    }
  }

  lemma RoundBetween(n: nat, den: nat, lo: nat, hi: nat)
    requires den > 0 && lo * den <= n && 2 * n + den < 2 * (hi * den)
    ensures lo <= RoundHalfEven(n, den) < hi
  {
    var m := RoundHalfEven(n, den);
    if m < lo {
      MulMono(m, lo - 1, den);
      Distribute(lo, 1, den);
    }
    if m >= hi {
      MulMono(hi, m, den);
    }
  }

  lemma RoundedStaysBelow(num: nat, den: nat, scale: nat)
    requires den > 0 && 0 < scale && den < 2 * scale
    ensures Quot(RoundHalfEven(num * scale, den), scale) == Quot(num, den)
  {
    hide Quot, Rem, RoundHalfEven;
    var k, t := Quot(num, den), Rem(num, den);
    QuotRem(num, den);
    Distribute(k * den, t, scale);
    MulSwap(k, den, scale);
    MulMono(t, den - 1, scale);
    Distribute(den, 1, scale);
    Distribute(k, 1, scale);
    Distribute(k * scale, scale, den);
    RoundBetween(num * scale, den, k * scale, (k + 1) * scale);
    var m := RoundHalfEven(num * scale, den);
    QuotUnique(m, scale, k);
  }

  // ------------------------------------------------------------ the two uses in the handlers

  const DECIMAL_DIGITS := 28
  const FLOAT_BITS := 53

  /** trunc(Decimal(a) / b) for magnitudes. */
  function DecimalQuotient(a: nat, b: nat): nat
    requires b > 0
  {
    TruncatedRoundedQuotient(a, b, 10, DECIMAL_DIGITS)
  }

  /** trunc(a / b) with float division, for magnitudes. */
  function FloatQuotient(a: nat, b: nat): nat
    requires b > 0
  {
    TruncatedRoundedQuotient(a, b, 2, FLOAT_BITS)
  }

  lemma PowerValues()
    ensures Power(10, 27) == 1_000_000_000_000_000_000_000_000_000
    ensures Power(2, 52) == 0x10_0000_0000_0000
  {
    PowerTen();
    PowerTwo();
  }

  lemma PowerTen()
    ensures Power(10, 27) == 1_000_000_000_000_000_000_000_000_000
  {
    assert Power(10, 3) == 1000;
    PowerAdd(10, 3, 3);
    PowerAdd(10, 6, 3);
    PowerAdd(10, 9, 9);
    PowerAdd(10, 18, 9);
  }

  lemma PowerTwo()
    ensures Power(2, 52) == 0x10_0000_0000_0000
  {
    assert Power(2, 4) == 16;
    PowerAdd(2, 4, 4);
    PowerAdd(2, 8, 5);
    PowerAdd(2, 13, 13);
    PowerAdd(2, 26, 26);
  }

  lemma PowerAdd(base: nat, a: nat, b: nat)
    requires base >= 2
    ensures Power(base, a + b) == Power(base, a) * Power(base, b)
  {
    if a > 0 {
      PowerAdd(base, a - 1, b);
      MulAssoc(base, Power(base, a - 1), Power(base, b));
    }
  }

  lemma DecimalQuotientExact(a: nat, b: nat)
    requires b > 0 && a <= TWO64
    ensures DecimalQuotient(a, b) == Quot(a, b)
  {
    PowerValues();
    TruncationExact(a, b, 10, DECIMAL_DIGITS);
  }

  lemma FloatQuotientExact(a: nat, b: nat)
    requires b > 0 && a <= TWO31
    ensures FloatQuotient(a, b) == Quot(a, b)
  {
    PowerValues();
    TruncationExact(a, b, 2, FLOAT_BITS);
  }

  // ------------------------------------------------------------ signed division

  function Abs(x: int): nat { if x < 0 then -x else x }

  /** Quotient truncated toward zero. */
  function TruncDiv(x: int, y: int): int
    requires y != 0
  {
    var q: int := Quot(Abs(x), Abs(y));
    if (x < 0) == (y < 0) then q else -q
  }

  /** Remainder with the dividend's sign; a zero divisor leaves the dividend. */
  function TruncRem(x: int, y: int): int
  {
    if y == 0 then x
    else
      var r: int := Rem(Abs(x), Abs(y));
      if x >= 0 then r else -r
  }

  lemma TruncDivRem(x: int, y: int)
    requires y != 0
    ensures y * TruncDiv(x, y) + TruncRem(x, y) == x
    ensures Abs(TruncRem(x, y)) < Abs(y)
    ensures TruncRem(x, y) != 0 ==> (TruncRem(x, y) < 0 <==> x < 0)
  {
    QuotRem(Abs(x), Abs(y));
    NegatedProducts(Abs(y), Quot(Abs(x), Abs(y)));
  }

  lemma NegatedProducts(b: int, q: int)
    ensures -b * q == -(b * q) && b * -q == -(b * q) && -b * -q == b * q
  {}
}
