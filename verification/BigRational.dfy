/** BigRational.cs: exact fractions in lowest terms. */
module BigRational {
  import opened Integers

  /** The value of an operation, or the exception it throws. */
  datatype Result<+T> = Ok(value: T) | DivideByZero | InvalidArgument | Overflow

  /** m_numerator and Denominator. */
  datatype Rational = Rational(num: int, den: int) {

    /** Lowest terms with a positive denominator. */
    ghost predicate Canonical() {
      den > 0 && Coprime(num, den)
    }

    /** The number it denotes. */
    ghost function Value(): real
      requires den != 0
    {
      num as real / den as real
    }

    /** GetWholePart. */
    function WholePart(): int
      requires den != 0
    {
      TruncDiv(num, den)
    }
  }

  // ----- real quotients and cross products -----

  lemma RealQuotient(n: int, d: int, q: real)
    requires d != 0
    ensures n as real / d as real == q <==> n as real == q * d as real
  {
    var x := n as real / d as real;
    assert x * d as real == n as real;
    if n as real == q * d as real {
      assert (x - q) * d as real == 0.0;
    }
  }

  /** Two fractions denote the same number exactly when their cross products agree. */
  lemma SameQuotient(n: int, d: int, m: int, e: int)
    requires d != 0 && e != 0
    ensures n as real / d as real == m as real / e as real <==> n * e == m * d
  {
    var x, y := n as real / d as real, m as real / e as real;
    assert x * d as real == n as real && y * e as real == m as real;
    assert (n * e) as real == x * (d as real * e as real);
    assert (m * d) as real == y * (d as real * e as real);
    NonZeroProduct(d, e);
    if n * e == m * d {
      assert (x - y) * (d as real * e as real) == 0.0;
    }
  }

  lemma NonZeroProduct(d: int, e: int)
    requires d != 0 && e != 0
    ensures d * e != 0 && d as real * e as real != 0.0
  {
    assert (d * e) as real == d as real * e as real;
  }

  // ----- Simplify and the two-argument constructor -----

  /** Simplify: divides both by their greatest common divisor. */
  function Simplified(n: int, d: int): Rational
    requires d > 0
  {
    var den := if n == 0 then 1 else d;
    var g := Gcd(AbsInt(n), den);
    if g > 1 then Rational(TruncDiv(n, g), TruncDiv(den, g)) else Rational(n, den)
  }

  function Make(n: int, d: int): Result<Rational> {
    if d == 0 then DivideByZero
    else if n == 0 then Ok(Simplified(0, 1))
    else if d < 0 then Ok(Simplified(-n, -d))
    else Ok(Simplified(n, d))
  }

  /** What Simplify leaves is in lowest terms, and multiplied by one positive number gives back what it
      was given. */
  lemma SimplifiedFacts(n: int, d: int) returns (g: int)
    requires d > 0
    ensures Simplified(n, d).Canonical()
    ensures g > 0 && n == g * Simplified(n, d).num && (n != 0 ==> d == g * Simplified(n, d).den)
  {
    hide Gcd, Coprime, TruncDiv, AbsInt;
    var den := if n == 0 then 1 else d;
    g := Gcd(AbsInt(n), den);
    var s, q := ReducedParts(n, den);
    ReducedCoprime(n, den, s, q);
    assert Simplified(n, d) == Rational(s, q);
    Commute(s, g);
    Commute(q, g);
  }

  lemma Commute(x: int, y: int)
    ensures x * y == y * x
    ensures y == 1 ==> x * y == x
  {
  }

  /** The quotients by the greatest common divisor, which are exact. */
  lemma ReducedParts(n: int, den: int) returns (s: int, q: int)
    requires den > 0
    ensures
      var g := Gcd(AbsInt(n), den);
      g > 0 && n == s * g && den == q * g && q > 0 && s == TruncDiv(n, g) && q == TruncDiv(den, g)
  {
    var g := Gcd(AbsInt(n), den);
    GcdDivides(AbsInt(n), den);
    var p: int :| AbsInt(n) == p * g;
    q :| den == q * g;
    s := if n < 0 then -p else p;
    NegateProduct(p, g);
    PositiveFactor(q, g);
    TruncUnique(n, g, s, 0);
    TruncUnique(den, g, q, 0);
  }

  lemma ReducedCoprime(n: int, den: int, s: int, q: int)
    requires den > 0
    requires
      var g := Gcd(AbsInt(n), den);
      g > 0 && n == s * g && den == q * g
    ensures Coprime(s, q)
  {
    var g := Gcd(AbsInt(n), den);
    var p := if n < 0 then -s else s;
    NegateProduct(s, g);
    var x, y := Bezout(AbsInt(n), den);
    ReducedBezout(AbsInt(n), den, p, q, g, x, y);
    if n < 0 {
      NegateProduct(s, x);
      CombinationIsCoprime(s, q, -x, y);
    } else {
      CombinationIsCoprime(s, q, x, y);
    }
  }

  lemma PositiveFactor(q: int, g: int)
    requires g > 0 && q * g > 0
    ensures q > 0
  {
  }

  lemma ReducedBezout(a: int, b: int, p: int, q: int, g: int, x: int, y: int)
    requires g > 0 && a == p * g && b == q * g && a * x + b * y == g
    ensures p * x + q * y == 1
  {
    assert (p * x + q * y) * g == g;
    assert (p * x + q * y - 1) * g == 0;
  }

  /** The constructor throws exactly on a zero denominator; otherwise the result is in lowest terms and
      denotes n / d. */
  lemma MakeIsExact(n: int, d: int)
    ensures Make(n, d).DivideByZero? <==> d == 0
    ensures d != 0 ==> var r := Make(n, d);
      r.Ok? && r.value.Canonical() && r.value.num * d == n * r.value.den
    ensures d != 0 ==> Make(n, d).value.Value() == n as real / d as real
  {
    if d != 0 {
      var r := Make(n, d).value;
      var m, e := if d < 0 then -n else n, if d < 0 then -d else d;
      var g := SimplifiedFacts(if n == 0 then 0 else m, if n == 0 then 1 else e);
      if n == 0 {
        assert g * r.num == 0;
        ZeroFactor(g, r.num);
      } else {
        CrossByFactor(r.num, r.den, g);
        NegateProduct(r.num, e);
        NegateProduct(m, r.den);
      }
      SameQuotient(r.num, r.den, n, d);
    }
  }

  lemma ZeroFactor(g: int, x: int)
    requires g > 0 && g * x == 0
    ensures x == 0
  {
  }

  lemma CrossByFactor(x: int, y: int, g: int)
    ensures x * (g * y) == (g * x) * y
  {
  }

  // ----- equality and order -----

  function Compare(x: Rational, y: Rational): int {
    var a, b := x.num * y.den, y.num * x.den;
    if a < b then -1 else if a > b then 1 else 0
  }

  /** Equals(BigRational). */
  predicate Equals(x: Rational, y: Rational) {
    if x.den == y.den then x.num == y.num else x.num * y.den == x.den * y.num
  }

  /** A number has one fraction in lowest terms. */
  lemma CanonicalUnique(x: Rational, y: Rational)
    requires x.Canonical() && y.Canonical() && x.num * y.den == y.num * x.den
    ensures x == y
  {
    IsMultiple(x.num * y.den, x.den, y.num);
    Gauss(x.num, x.den, y.den);
    IsMultiple(y.num * x.den, y.den, x.num);
    Gauss(y.num, y.den, x.den);
    MutualMultiples(x.den, y.den);
    CancelFactor(x.num, y.num, x.den);
  }

  lemma CancelFactor(m: int, n: int, d: int)
    requires d != 0 && m * d == n * d
    ensures m == n
  {
    assert (m - n) * d == 0;
  }

  /** Equals, a comparison result of zero, equal numbers and equal components are one and the same. */
  lemma EqualityCoincides(x: Rational, y: Rational)
    requires x.Canonical() && y.Canonical()
    ensures Equals(x, y) <==> x == y
    ensures Compare(x, y) == 0 <==> x == y
    ensures x.Value() == y.Value() <==> x == y
  {
    SameQuotient(x.num, x.den, y.num, y.den);
    if x.num * y.den == y.num * x.den {
      CanonicalUnique(x, y);
    }
    assert x.den * y.num == y.num * x.den;
  }

  /** Compare orders fractions as the numbers they denote. */
  lemma CompareOrders(x: Rational, y: Rational)
    requires x.den > 0 && y.den > 0
    ensures Compare(x, y) < 0 <==> x.Value() < y.Value()
    ensures Compare(x, y) > 0 <==> x.Value() > y.Value()
  {
    var u, v := x.Value(), y.Value();
    var p := x.den as real * y.den as real;
    assert u * x.den as real == x.num as real && v * y.den as real == y.num as real;
    assert (x.num * y.den) as real == u * p && (y.num * x.den) as real == v * p;
    assert p > 0.0;
    if u < v { assert (v - u) * p > 0.0; }
    if u > v { assert (u - v) * p > 0.0; }
  }
}
