/** The conversions between BigRational and decimal, a 96-bit mantissa with a decimal
    scale of 0 to 28. */
module RationalDecimal {
  import opened Integers
  import opened BigRational
  import opened RationalArithmetic

  const DECIMAL_MAX: int := 79228162514264337593543950335
  const MAX_SCALE: nat := 28

  function Pow10(n: nat): (p: int)
    ensures p > 0
  {
    if n == 0 then 1 else 10 * Pow10(n - 1)
  }

  /** SafeCastToDecimal. */
  predicate Fits(v: int) {
    -DECIMAL_MAX <= v <= DECIMAL_MAX
  }

  /** A decimal, or how the conversion ends otherwise. Two parts that both fit are divided by the
      library. */
  datatype Decimal = LibraryQuotient(n: int, d: int) | Decimal(mantissa: int, scale: nat)

  /** The fraction scaled by a power of ten and cut to an integer. */
  function Mantissa(v: Rational, scale: nat): int
    requires v.den > 0
  {
    TruncDiv(v.num * Pow10(scale), v.den)
  }

  /** Dividing the scaled integer by ten takes the scale down by one. */
  lemma MantissaStep(v: Rational, scale: nat)
    requires v.den > 0
    ensures TruncDiv(Mantissa(v, scale + 1), 10) == Mantissa(v, scale)
  {
    hide TruncDiv;
    var n, p := v.num * Pow10(scale + 1), v.num * Pow10(scale);
    TruncTwice(n, v.den, 10);
    Regroup(v.num, Pow10(scale));
    TruncScale(p, v.den, 10);
    assert v.den * 10 == 10 * v.den;
  }

  lemma Regroup(x: int, p: int)
    ensures x * (10 * p) == 10 * (x * p)
  {
  }

  /** A mantissa that fits at one scale fits at every lower scale. */
  lemma {:induction false} FitsBelow(v: Rational, low: nat, high: nat)
    requires v.den > 0 && low <= high && Fits(Mantissa(v, high))
    ensures Fits(Mantissa(v, low))
  {
    hide Mantissa;
    if low < high {
      MantissaStep(v, high - 1);
      TenthIsSmaller(Mantissa(v, high));
      FitsBelow(v, low, high - 1);
    }
  }

  lemma TenthIsSmaller(m: int)
    requires Fits(m)
    ensures Fits(TruncDiv(m, 10))
  {
    TruncFacts(m, 10);
  }

  /** At scale zero the mantissa is the whole part. */
  lemma WholeMantissa(v: Rational)
    requires v.den > 0
    ensures Mantissa(v, 0) == v.WholePart()
  {
  }

  /** The largest scale whose mantissa fits. */
  ghost predicate LargestScale(v: Rational, scale: nat)
    requires v.den > 0
  {
    && scale <= MAX_SCALE && Fits(Mantissa(v, scale))
    && forall s :: scale < s <= MAX_SCALE ==> !Fits(Mantissa(v, s))
  }

  /** The conversion to decimal. When the parts do not both fit, it returns zero if nothing is left at
      the largest scale, and otherwise the fraction cut off at the largest scale whose mantissa fits;
      it throws exactly when the whole part does not fit. */
  method ToDecimal(v: Rational) returns (r: Result<Decimal>)
    requires v.Canonical()
    ensures Fits(v.num) && Fits(v.den) <==> r.Ok? && r.value.LibraryQuotient?
    ensures r.Ok? && r.value.LibraryQuotient? ==> r.value == LibraryQuotient(v.num, v.den)
    ensures !(Fits(v.num) && Fits(v.den)) ==>
      && (r == Overflow <==> !Fits(v.WholePart()))
      && (r != Overflow ==>
            && r.Ok? && r.value.Decimal?
            && if Mantissa(v, MAX_SCALE) == 0 then r.value == Decimal(0, 0)
               else LargestScale(v, r.value.scale) && r.value.mantissa == Mantissa(v, r.value.scale))
  {
    hide Coprime, TruncDiv, Pow10;
    if Fits(v.num) && Fits(v.den) {
      return Ok(LibraryQuotient(v.num, v.den));
    }
    var denormalized := TruncDiv(v.num * Pow10(MAX_SCALE), v.den);
    assert denormalized == Mantissa(v, MAX_SCALE);
    WholeMantissa(v);
    hide Mantissa;
    if denormalized == 0 {
      FitsBelow(v, 0, MAX_SCALE);
      return Ok(Decimal(0, 0));
    }
    var scale := MAX_SCALE as int;
    while scale >= 0
      invariant -1 <= scale <= MAX_SCALE
      invariant scale >= 0 ==> denormalized == Mantissa(v, scale)
      invariant forall s :: scale < s <= MAX_SCALE ==> !Fits(Mantissa(v, s))
    {
      if !Fits(denormalized) {
        if scale > 0 {
          MantissaStep(v, scale - 1);
        }
        denormalized := TruncDiv(denormalized, 10);
      } else {
        FitsBelow(v, 0, scale);
        return Ok(Decimal(denormalized, scale));
      }
      scale := scale - 1;
    }
    r := Overflow;
  }

  /** The error of cutting off: less than one unit of the last place, and toward zero. */
  lemma CutOffError(v: Rational, scale: nat)
    requires v.den > 0
    ensures
      var m := Mantissa(v, scale) as real / Pow10(scale) as real;
      && AbsReal(v.Value() - m) < 1.0 / Pow10(scale) as real
      && AbsReal(m) <= AbsReal(v.Value())
  {
    hide TruncDiv;
    var p := Pow10(scale);
    var q, r := TruncDiv(v.num * p, v.den), TruncRem(v.num * p, v.den);
    TruncFacts(v.num * p, v.den);
    assert v.num * p == q * v.den + r;
    var m := q as real / p as real;
    assert m * p as real == q as real;
    ErrorOf(v.Value(), m, v.num, v.den, p, q, r);
    SameSide(v.num * p, v.den, q, r);
    OrderOf(v.Value(), m, v.num, v.den, p, q, r);
  }

  lemma ErrorOf(x: real, m: real, n: int, d: int, p: int, q: int, r: int)
    requires d > 0 && p > 0 && n * p == q * d + r && AbsInt(r) < d
    requires x == n as real / d as real && m * p as real == q as real
    ensures AbsReal(x - m) < 1.0 / p as real
  {
    assert x * d as real == n as real;
    Gap(x, m, n, d, p, q, r);
    var e := (x - m) * p as real;
    SmallQuotient(e, d, r);
    UnitQuotient(x - m, p as real);
  }

  lemma Gap(x: real, m: real, n: int, d: int, p: int, q: int, r: int)
    requires n * p == q * d + r
    requires x * d as real == n as real && m * p as real == q as real
    ensures (x - m) * p as real * d as real == r as real
  {
    assert x * p as real * d as real == (x * d as real) * p as real;
    assert (n * p) as real == n as real * p as real && (q * d) as real == q as real * d as real;
    assert (x - m) * p as real * d as real == x * p as real * d as real - (m * p as real) * d as real;
  }

  lemma SmallQuotient(e: real, d: int, r: int)
    requires d > 0 && e * d as real == r as real && AbsInt(r) < d
    ensures AbsReal(e) < 1.0
  {
    TimesOrder(1.0, e, d as real);
    TimesOrder(e, -1.0, d as real);
  }

  lemma UnitQuotient(y: real, p: real)
    requires p > 0.0 && AbsReal(y * p) < 1.0
    ensures AbsReal(y) < 1.0 / p
  {
    var u := 1.0 / p;
    assert u * p == 1.0;
    assert (-u) * p == -(u * p);
    TimesOrder(u, y, p);
    TimesOrder(y, -u, p);
  }

  lemma TimesOrder(a: real, b: real, d: real)
    requires d > 0.0
    ensures a <= b <==> a * d <= b * d
  {
    SignFromProduct(b - a, d);
    assert (b - a) * d == b * d - a * d;
  }

  lemma SameSide(a: int, d: int, q: int, r: int)
    requires d > 0 && a == q * d + r && AbsInt(r) < d
    requires (a >= 0 ==> r >= 0) && (a <= 0 ==> r <= 0)
    ensures (a >= 0 ==> q >= 0) && (a <= 0 ==> q <= 0)
  {
    assert q >= 1 ==> q * d >= d;
    assert q <= -1 ==> q * d <= -d;
  }

  lemma OrderOf(x: real, m: real, n: int, d: int, p: int, q: int, r: int)
    requires d > 0 && p > 0 && n * p == q * d + r
    requires (n * p >= 0 ==> r >= 0 && q >= 0) && (n * p <= 0 ==> r <= 0 && q <= 0)
    requires x == n as real / d as real && m * p as real == q as real
    ensures AbsReal(m) <= AbsReal(x)
  {
    assert x * d as real == n as real;
    Gap(x, m, n, d, p, q, r);
    SignFromProduct(m, p as real);
    SignFromProduct(x - m, p as real);
    SignFromProduct((x - m) * p as real, d as real);
  }

  // ----- from decimal -----

  /** new BigRational(decimal): the signed mantissa over the power of ten. */
  function FromDecimal(mantissa: int, scale: nat): Rational {
    if mantissa == 0 then Zero() else Simplified(mantissa, Pow10(scale))
  }

  lemma FromDecimalIsExact(mantissa: int, scale: nat)
    ensures
      var r := FromDecimal(mantissa, scale);
      r.Canonical() && r.Value() == mantissa as real / Pow10(scale) as real
  {
    hide Simplified, Coprime, Pow10;
    OneIsCanonical();
    if mantissa == 0 {
      RealQuotient(0, Pow10(scale), 0.0);
      RealQuotient(0, 1, 0.0);
    } else {
      MakeIsExact(mantissa, Pow10(scale));
      assert Make(mantissa, Pow10(scale)) == Ok(Simplified(mantissa, Pow10(scale)));
    }
  }
}
