/** The operators of BigRational.cs, powers, the whole-plus-fraction constructor and
    the conversion to decimal. */
module RationalArithmetic {
  import opened Integers
  import opened BigRational

  function Zero(): Rational { Rational(0, 1) }
  function One(): Rational { Rational(1, 1) }

  function Add(x: Rational, y: Rational): Result<Rational> {
    Make(x.num * y.den + x.den * y.num, x.den * y.den)
  }

  function Subtract(x: Rational, y: Rational): Result<Rational> {
    Make(x.num * y.den - x.den * y.num, x.den * y.den)
  }

  function Multiply(x: Rational, y: Rational): Result<Rational> {
    Make(x.num * y.num, x.den * y.den)
  }

  function Divide(x: Rational, y: Rational): Result<Rational> {
    Make(x.num * y.den, x.den * y.num)
  }

  function Negate(x: Rational): Result<Rational> {
    Make(-x.num, x.den)
  }

  function Invert(x: Rational): Result<Rational> {
    Make(x.den, x.num)
  }

  /** The remainder of the two integers throws when the divisor is zero. */
  function Remainder(x: Rational, y: Rational): Result<Rational> {
    if x.den * y.num == 0 then DivideByZero
    else Make(TruncRem(x.num * y.den, x.den * y.num), x.den * y.den)
  }

  // ----- the operators denote the arithmetic of the numbers -----

  lemma QuotientRules(a: int, b: int, c: int, d: int)
    requires b != 0 && d != 0
    ensures b * d != 0
    ensures (a * d + b * c) as real / (b * d) as real == a as real / b as real + c as real / d as real
    ensures (a * d - b * c) as real / (b * d) as real == a as real / b as real - c as real / d as real
    ensures (a * c) as real / (b * d) as real == (a as real / b as real) * (c as real / d as real)
  {
    QuotientSum(a, b, c, d);
    QuotientSum(a, b, -c, d);
    NegatedQuotient(c, d);
    NegateProduct(b, c);
    assert a * d + b * (-c) == a * d - b * c;
    QuotientProduct(a, b, c, d);
  }

  lemma QuotientSum(a: int, b: int, c: int, d: int)
    requires b != 0 && d != 0
    ensures b * d != 0
    ensures (a * d + b * c) as real / (b * d) as real == a as real / b as real + c as real / d as real
  {
    NonZeroProduct(b, d);
    var x, y, e, f := a as real / b as real, c as real / d as real, b as real, d as real;
    assert x * e == a as real && y * f == c as real;
    SumRule(x, y, e, f);
    RealQuotient(a * d + b * c, b * d, x + y);
  }

  lemma NegatedQuotient(c: int, d: int)
    requires d != 0
    ensures (-c) as real / d as real == -(c as real / d as real)
  {
    var y := c as real / d as real;
    assert y * d as real == c as real && (-y) * d as real == -(y * d as real);
    RealQuotient(-c, d, -y);
  }

  lemma QuotientProduct(a: int, b: int, c: int, d: int)
    requires b != 0 && d != 0
    ensures b * d != 0
    ensures (a * c) as real / (b * d) as real == (a as real / b as real) * (c as real / d as real)
  {
    NonZeroProduct(b, d);
    var x, y, e, f := a as real / b as real, c as real / d as real, b as real, d as real;
    assert x * e == a as real && y * f == c as real;
    ProductRule(x, y, e, f);
    RealQuotient(a * c, b * d, x * y);
  }

  lemma SumRule(x: real, y: real, e: real, f: real)
    ensures (x + y) * (e * f) == (x * e) * f + e * (y * f)
  {
  }

  lemma ProductRule(x: real, y: real, e: real, f: real)
    ensures (x * y) * (e * f) == (x * e) * (y * f)
  {
  }

  /** Sum, difference and product never throw, are in lowest terms and denote the exact result. */
  lemma RingOperationsAreExact(x: Rational, y: Rational)
    requires x.Canonical() && y.Canonical()
    ensures Add(x, y).Ok? && Add(x, y).value.Canonical() && Add(x, y).value.Value() == x.Value() + y.Value()
    ensures Subtract(x, y).Ok? && Subtract(x, y).value.Canonical()
    ensures Subtract(x, y).value.Value() == x.Value() - y.Value()
    ensures Multiply(x, y).Ok? && Multiply(x, y).value.Canonical()
    ensures Multiply(x, y).value.Value() == x.Value() * y.Value()
  {
    hide Make, Coprime;
    QuotientRules(x.num, x.den, y.num, y.den);
    MakeIsExact(x.num * y.den + x.den * y.num, x.den * y.den);
    MakeIsExact(x.num * y.den - x.den * y.num, x.den * y.den);
    MakeIsExact(x.num * y.num, x.den * y.den);
  }

  lemma ValueIsZero(y: Rational)
    requires y.Canonical()
    ensures y.Value() == 0.0 <==> y.num == 0
  {
    RealQuotient(y.num, y.den, 0.0);
  }

  /** Division throws exactly for a zero divisor and denotes the exact quotient otherwise; Invert is
      division of one. */
  lemma DivisionIsExact(x: Rational, y: Rational)
    requires x.Canonical() && y.Canonical()
    ensures Divide(x, y).DivideByZero? <==> y.num == 0
    ensures y.num != 0 ==>
      Divide(x, y).Ok? && Divide(x, y).value.Canonical() && y.Value() != 0.0
      && Divide(x, y).value.Value() == x.Value() / y.Value()
    ensures Invert(y) == Divide(One(), y)
  {
    hide Make, Coprime;
    MakeIsExact(x.num * y.den, x.den * y.num);
    ValueIsZero(y);
    if y.num != 0 {
      NonZeroProduct(x.den, y.num);
      QuotientOfQuotients(x.num, x.den, y.num, y.den);
    }
  }

  lemma QuotientOfQuotients(a: int, b: int, c: int, d: int)
    requires b != 0 && c != 0 && d != 0
    ensures b * c != 0 && c as real / d as real != 0.0
    ensures (a * d) as real / (b * c) as real == (a as real / b as real) / (c as real / d as real)
  {
    NonZeroProduct(b, c);
    RealQuotient(c, d, 0.0);
    var x, y := a as real / b as real, c as real / d as real;
    var q := x / y;
    assert x * b as real == a as real && y * d as real == c as real && q * y == x;
    Chain(q, y, b as real, d as real);
    RealQuotient(a * d, b * c, q);
  }

  lemma Chain(q: real, y: real, b: real, d: real)
    ensures q * (b * (y * d)) == ((q * y) * b) * d
  {
  }

  lemma NegationIsExact(x: Rational)
    requires x.Canonical()
    ensures Negate(x).Ok? && Negate(x).value.Canonical() && Negate(x).value.Value() == -x.Value()
  {
    hide Make, Coprime;
    MakeIsExact(-x.num, x.den);
    NegatedQuotient(x.num, x.den);
  }

  // ----- division with remainder -----

  /** The whole part of a normalised fraction is the truncated quotient it was made from. */
  lemma WholePartOfMake(n: int, d: int)
    requires d != 0
    ensures Make(n, d).Ok? && Make(n, d).value.den != 0 && Make(n, d).value.WholePart() == TruncDiv(n, d)
  {
    hide Make, Coprime, TruncDiv;
    MakeIsExact(n, d);
    var r := Make(n, d).value;
    TruncScale(r.num, r.den, d);
    TruncScale(n, d, r.den);
    Commute(d, r.num);
    Commute(n, r.den);
    Commute(d, r.den);
  }

  ghost function AbsReal(x: real): real {
    if x < 0.0 then -x else x
  }

  /** x is the whole part of x / y times y, plus x % y; the remainder is smaller than y and has the sign
      of x. */
  lemma DivisionWithRemainder(x: Rational, y: Rational)
    requires x.Canonical() && y.Canonical()
    ensures Remainder(x, y).DivideByZero? <==> y.num == 0
    ensures y.num != 0 ==>
      && Divide(x, y).Ok? && Divide(x, y).value.den != 0 && Remainder(x, y).Ok? && Remainder(x, y).value.Canonical()
      && var r := Remainder(x, y).value.Value();
      && x.Value() == Divide(x, y).value.WholePart() as real * y.Value() + r
      && AbsReal(r) < AbsReal(y.Value())
      && (x.Value() >= 0.0 ==> r >= 0.0) && (x.Value() <= 0.0 ==> r <= 0.0)
  {
    hide Make, Coprime, TruncDiv;
    if y.num != 0 {
      NonZeroProduct(x.den, y.num);
      NonZeroProduct(x.den, y.den);
      var n, m, e := x.num * y.den, x.den * y.num, x.den * y.den;
      TruncFacts(n, m);
      var t, s := TruncDiv(n, m), TruncRem(n, m);
      WholePartOfMake(n, m);
      MakeIsExact(s, e);
      assert e > 0;
      RemainderValue(x, y, t, s);
      RemainderSize(x, y, s);
    }
  }

  lemma RemainderValue(x: Rational, y: Rational, t: int, s: int)
    requires x.den > 0 && y.den > 0 && x.num * y.den == t * (x.den * y.num) + s
    ensures x.den * y.den != 0
    ensures x.Value() == t as real * y.Value() + s as real / (x.den * y.den) as real
  {
    QuotientRules(x.num, x.den, t * y.num, y.den);
    assert x.num * y.den - x.den * (t * y.num) == s;
    var v := y.Value();
    assert v * y.den as real == y.num as real;
    assert (t * y.num) as real == (t as real * v) * y.den as real;
    RealQuotient(t * y.num, y.den, t as real * v);
  }

  lemma RemainderSize(x: Rational, y: Rational, s: int)
    requires x.den > 0 && y.den > 0 && AbsInt(s) < AbsInt(x.den * y.num)
    requires (x.num * y.den >= 0 ==> s >= 0) && (x.num * y.den <= 0 ==> s <= 0)
    ensures x.den * y.den > 0
    ensures
      var r := s as real / (x.den * y.den) as real;
      && AbsReal(r) < AbsReal(y.Value())
      && (x.Value() >= 0.0 ==> r >= 0.0) && (x.Value() <= 0.0 ==> r <= 0.0)
  {
    assert x.den * y.den > 0;
    RemainderMagnitude(x.den, y.num, y.den, s);
    SignOfQuotient(x.num, x.den);
    SignOfProduct(x.num, y.den);
    SignOfQuotient(s, x.den * y.den);
  }

  lemma RemainderMagnitude(b: int, c: int, d: int, s: int)
    requires b > 0 && d > 0 && AbsInt(s) < AbsInt(b * c)
    ensures b * d != 0 && AbsReal(s as real / (b * d) as real) < AbsReal(c as real / d as real)
  {
    NonZeroProduct(b, d);
    assert b * d > 0;
    var e, r, v := (b * d) as real, s as real / (b * d) as real, c as real / d as real;
    assert r * e == s as real;
    assert v * d as real == c as real;
    ScaledBy(v, b, c, d);
    SizesFollow(r, v, e, s, b * c);
  }

  lemma ScaledBy(v: real, b: int, c: int, d: int)
    requires v * d as real == c as real
    ensures v * (b * d) as real == (b * c) as real
  {
    assert v * (b * d) as real == b as real * (v * d as real);
  }

  lemma SizesFollow(r: real, v: real, e: real, s: int, m: int)
    requires e > 0.0 && r * e == s as real && v * e == m as real && AbsInt(s) < AbsInt(m)
    ensures AbsReal(r) < AbsReal(v)
  {
    hide AbsReal, AbsInt;
    AbsTimes(r, e, s);
    AbsTimes(v, e, m);
    OrderCancels(AbsReal(r), AbsReal(v), e, AbsInt(s) as real, AbsInt(m) as real);
  }

  lemma AbsTimes(r: real, e: real, s: int)
    requires e > 0.0 && r * e == s as real
    ensures AbsReal(r) * e == AbsInt(s) as real
  {
    SignFromProduct(r, e);
    assert (-r) * e == -(r * e);
  }

  lemma OrderCancels(x: real, y: real, e: real, p: real, q: real)
    requires e > 0.0 && x * e == p && y * e == q && p < q
    ensures x < y
  {
    SignFromProduct(y - x, e);
    assert (y - x) * e == y * e - x * e;
  }

  lemma SignFromProduct(r: real, e: real)
    requires e > 0.0
    ensures (r < 0.0 <==> r * e < 0.0) && (r > 0.0 <==> r * e > 0.0)
  {
    if r < 0.0 { assert r * e < 0.0; }
    if r > 0.0 { assert r * e > 0.0; }
  }

  lemma SignOfQuotient(n: int, d: int)
    requires d > 0
    ensures n as real / d as real >= 0.0 <==> n >= 0
    ensures n as real / d as real <= 0.0 <==> n <= 0
  {
    var q := n as real / d as real;
    assert q * d as real == n as real;
    SignFromProduct(q, d as real);
  }

  lemma SignOfProduct(n: int, d: int)
    requires d > 0
    ensures (n * d >= 0 <==> n >= 0) && (n * d <= 0 <==> n <= 0)
  {
    if n > 0 { assert n * d > 0; }
    if n < 0 { assert n * d < 0; }
  }

  // ----- powers -----

  ghost function RealPow(x: real, n: nat): real {
    if n == 0 then 1.0 else RealPow(x, n - 1) * x
  }

  /** Pow, for any integer exponent: repeated multiplication, of the inverse when the exponent is
      negative. It throws exactly for a negative power of zero. */
  method Pow(base: Rational, exponent: int) returns (r: Result<Rational>)
    requires base.Canonical()
    ensures r.Ok? <==> !(base.num == 0 && exponent < 0)
    ensures !r.Ok? ==> r == InvalidArgument
    ensures r.Ok? ==> r.value.Canonical()
    ensures exponent >= 0 ==> r.value.Value() == RealPow(base.Value(), exponent)
    ensures exponent < 0 && r.Ok? ==> base.Value() != 0.0 && r.value.Value() == RealPow(1.0 / base.Value(), -exponent)
  {
    hide Make, Coprime;
    if exponent == 0 {
      OneIsCanonical();
      return Ok(One());
    }
    var b, e := base, exponent;
    if exponent < 0 {
      OneIsCanonical();
      EqualityCoincides(base, Zero());
      ZeroWhenNumeratorIs(base);
      if Compare(base, Zero()) == 0 {
        return InvalidArgument;
      }
      DivisionIsExact(One(), base);
      b := Invert(base).value;
      e := -exponent;
    }
    ghost var n := e;
    var result := b;
    assert RealPow(b.Value(), 1) == RealPow(b.Value(), 0) * b.Value() == b.Value();
    while e > 1
      invariant 1 <= e <= n && result.Canonical()
      invariant result.Value() == RealPow(b.Value(), n - e + 1)
    {
      RingOperationsAreExact(result, b);
      result := Multiply(result, b).value;
      e := e - 1;
    }
    r := Ok(result);
  }

  lemma OneIsCanonical()
    ensures One().Canonical() && Zero().Canonical() && One().Value() == 1.0
  {
    assert 1 * 0 + 1 * 1 == 1 && 0 * 0 + 1 * 1 == 1;
    CombinationIsCoprime(1, 1, 0, 1);
    CombinationIsCoprime(0, 1, 0, 1);
  }

  lemma ZeroWhenNumeratorIs(x: Rational)
    requires x.Canonical()
    ensures x == Zero() <==> x.num == 0
  {
    OneIsCanonical();
    EqualityCoincides(x, Zero());
  }

  // ----- the constructor from a whole number and a fraction -----

  /** new BigRational(whole, numerator, denominator). For a negative denominator the whole part is
      negated together with the numerator, although it is multiplied by the already negated
      denominator. */
  function MakeMixed(whole: int, n: int, d: int): Result<Rational> {
    if d == 0 then DivideByZero
    else if n == 0 && whole == 0 then Make(0, 1)
    else if d < 0 then Make((-whole) * (-d) + (-n), -d)
    else Make(whole * d + n, d)
  }

  /** It denotes whole + numerator / denominator if and only if the denominator is positive or the whole
      part is zero. */
  lemma MixedIsExactWhen(whole: int, n: int, d: int)
    requires d != 0
    ensures MakeMixed(whole, n, d).Ok? && MakeMixed(whole, n, d).value.Canonical()
    ensures MakeMixed(whole, n, d).value.Value() == whole as real + n as real / d as real <==> d > 0 || whole == 0
  {
    hide Make, Coprime;
    if n == 0 && whole == 0 {
      MakeIsExact(0, 1);
      RealQuotient(0, d, 0.0);
    } else if d < 0 {
      MixedNegative(whole, n, d);
    } else {
      MixedPositive(whole, n, d);
    }
  }

  lemma MixedPositive(whole: int, n: int, d: int)
    requires d > 0
    ensures
      var r := Make(whole * d + n, d);
      r.Ok? && r.value.Canonical() && r.value.Value() == whole as real + n as real / d as real
  {
    hide Make, Coprime;
    MakeIsExact(whole * d + n, d);
    Shifted(whole, n, d, n as real / d as real);
    RealQuotient(whole * d + n, d, whole as real + n as real / d as real);
  }

  lemma MixedNegative(whole: int, n: int, d: int)
    requires d < 0
    ensures
      var r := Make((-whole) * (-d) + (-n), -d);
      r.Ok? && r.value.Canonical() && r.value.Value() == (-whole) as real + n as real / d as real
  {
    hide Make, Coprime;
    MixedPositive(-whole, -n, -d);
    SameQuotient(-n, -d, n, d);
    NegateProduct(n, d);
  }

  lemma Shifted(whole: int, n: int, d: int, q: real)
    requires q * d as real == n as real
    ensures (whole * d + n) as real == (whole as real + q) * d as real
  {
    assert (whole * d) as real == whole as real * d as real;
  }
}
