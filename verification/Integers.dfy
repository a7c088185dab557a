/** Unbounded integers as BigInteger offers them: truncating division and the
    greatest common divisor. */
module Integers {

  function AbsInt(x: int): nat {
    if x < 0 then -x else x
  }

  /** BigInteger.Divide: rounds toward zero. */
  function TruncDiv(a: int, b: int): int
    requires b != 0
  {
    var q := AbsInt(a) / AbsInt(b);
    if (a >= 0) == (b > 0) then q else -q
  }

  /** BigInteger.Remainder: takes the sign of the dividend. */
  function TruncRem(a: int, b: int): int
    requires b != 0
  {
    a - TruncDiv(a, b) * b
  }

  function Gcd(a: nat, b: nat): (g: nat)
    ensures (a > 0 || b > 0) ==> g > 0
    decreases b
  {
    if b == 0 then a else Gcd(b, a % b)
  }

  /** m is a multiple of k. */
  ghost predicate Multiple(m: int, k: int) {
    exists q :: m == q * k
  }

  lemma IsMultiple(m: int, k: int, q: int)
    requires m == q * k
    ensures Multiple(m, k)
  {
  }

  lemma SumMultiple(m: int, n: int, k: int, u: int, v: int)
    requires Multiple(m, k) && Multiple(n, k)
    ensures Multiple(u * m + v * n, k)
  {
    var p :| m == p * k;
    var q :| n == q * k;
    Distribute(u, v, p, q, k);
    IsMultiple(u * m + v * n, k, u * p + v * q);
  }

  lemma Distribute(u: int, v: int, p: int, q: int, k: int)
    ensures u * (p * k) + v * (q * k) == (u * p + v * q) * k
  {
  }

  /** The greatest common divisor is a combination of its arguments. */
  lemma {:induction false} Bezout(a: nat, b: nat) returns (x: int, y: int)
    ensures a * x + b * y == Gcd(a, b)
    decreases b
  {
    if b == 0 {
      x, y := 1, 0;
    } else {
      var q, r := a / b, a % b;
      var u, v := Bezout(b, r);
      Combine(a, b, u, v, q, r);
      x, y := v, u - q * v;
    }
  }

  lemma Combine(a: nat, b: nat, u: int, v: int, q: nat, r: nat)
    requires a == q * b + r
    ensures a * v + b * (u - q * v) == b * u + r * v
  {
    assert a * v == q * b * v + r * v;
    assert b * (q * v) == q * b * v;
  }

  /** It divides both. */
  lemma {:induction false} GcdDivides(a: nat, b: nat)
    ensures Multiple(a, Gcd(a, b)) && Multiple(b, Gcd(a, b))
    decreases b
  {
    var g := Gcd(a, b);
    if b == 0 {
      IsMultiple(a, a, 1);
      IsMultiple(0, a, 0);
    } else {
      GcdDivides(b, a % b);
      SumMultiple(b, a % b, g, a / b, 1);
      assert a / b * b + 1 * (a % b) == a;
    }
  }

  /** No number above one divides both. */
  ghost predicate Coprime(a: int, b: int) {
    forall k :: k > 1 ==> !(Multiple(a, k) && Multiple(b, k))
  }

  /** Coprime numbers combine to one. */
  lemma CoprimeBezout(a: int, b: int) returns (x: int, y: int)
    requires Coprime(a, b) && b > 0
    ensures a * x + b * y == 1
  {
    var g := Gcd(AbsInt(a), b);
    GcdDivides(AbsInt(a), b);
    if a < 0 {
      var q: int :| -a == q * g;
      NegateProduct(q, g);
      IsMultiple(a, g, -q);
    }
    assert g == 1;
    x, y := Bezout(AbsInt(a), b);
    if a < 0 {
      NegateProduct(x, a);
      x := -x;
    }
  }

  lemma NegateProduct(x: int, y: int)
    ensures (-x) * y == -(x * y) == x * (-y) && (-x) * (-y) == x * y
    ensures y * (-x) == -(x * y) && (-y) * x == -(x * y)
  {
  }

  /** A common factor that leaves a combination to one can only be one. */
  lemma CombinationIsCoprime(a: int, b: int, x: int, y: int)
    requires a * x + b * y == 1
    ensures Coprime(a, b)
  {
    forall k | k > 1 && Multiple(a, k) && Multiple(b, k)
      ensures false
    {
      SumMultiple(a, b, k, x, y);
      var q :| x * a + y * b == q * k;
      OneIsNoMultiple(q, k);
    }
  }

  lemma OneIsNoMultiple(q: int, k: int)
    requires k > 1
    ensures q * k != 1
  {
    if q >= 1 {
      assert q * k >= k;
    } else {
      assert q * k <= 0;
    }
  }

  /** If b divides a * c and has nothing in common with a, it divides c. */
  lemma Gauss(a: int, b: int, c: int)
    requires Coprime(a, b) && b > 0 && Multiple(a * c, b)
    ensures Multiple(c, b)
  {
    var x, y := CoprimeBezout(a, b);
    IsMultiple(b * c, b, c);
    SumMultiple(a * c, b * c, b, x, y);
    GaussAlgebra(a, b, c, x, y);
  }

  lemma GaussAlgebra(a: int, b: int, c: int, x: int, y: int)
    requires a * x + b * y == 1
    ensures x * (a * c) + y * (b * c) == c
  {
    assert x * (a * c) + y * (b * c) == (a * x + b * y) * c;
  }

  lemma MutualMultiples(m: int, n: int)
    requires m > 0 && n > 0 && Multiple(m, n) && Multiple(n, m)
    ensures m == n
  {
    var p :| m == p * n;
    var q :| n == q * m;
    FactorBound(p, n);
    FactorBound(q, m);
  }

  lemma FactorBound(p: int, n: int)
    requires n > 0 && p * n > 0
    ensures p * n >= n
  {
    assert p >= 1;
  }

  // ----- truncating division -----

  /** Quotient and remainder of truncating division are determined by their signs and sizes. */
  lemma TruncUnique(a: int, b: int, q: int, r: int)
    requires b != 0 && a == q * b + r && AbsInt(r) < AbsInt(b)
    requires (a >= 0 ==> r >= 0) && (a <= 0 ==> r <= 0)
    ensures TruncDiv(a, b) == q && TruncRem(a, b) == r
  {
    var x, y := AbsInt(a), AbsInt(b);
    var p := if (a >= 0) == (b > 0) then q else -q;
    SignedProduct(a, b, q, r);
    assert x == p * y + AbsInt(r);
    QuotientIs(x, y, p, AbsInt(r));
  }

  lemma SignedProduct(a: int, b: int, q: int, r: int)
    requires b != 0 && a == q * b + r
    requires (a >= 0 ==> r >= 0) && (a <= 0 ==> r <= 0)
    ensures AbsInt(a) == (if (a >= 0) == (b > 0) then q else -q) * AbsInt(b) + AbsInt(r)
  {
    assert (-q) * b == -(q * b) && q * (-b) == -(q * b) && (-q) * (-b) == q * b;
  }

  lemma QuotientIs(x: int, y: int, p: int, r: int)
    requires y > 0 && x == p * y + r && 0 <= r < y
    ensures x / y == p
  {
    var p', r' := x / y, x % y;
    assert x == p' * y + r';
    assert (p - p') * y == r' - r;
    assert p - p' >= 1 ==> (p - p') * y >= y;
    assert p - p' <= -1 ==> (p - p') * y <= -y;
  }

  lemma TruncFacts(a: int, b: int)
    requires b != 0
    ensures a == TruncDiv(a, b) * b + TruncRem(a, b)
    ensures AbsInt(TruncRem(a, b)) < AbsInt(b)
    ensures (a >= 0 ==> TruncRem(a, b) >= 0) && (a <= 0 ==> TruncRem(a, b) <= 0)
  {
    var x, y := AbsInt(a), AbsInt(b);
    var q, r := x / y, x % y;
    assert x == q * y + r;
    NegateProduct(q, y);
  }

  /** A common factor cancels. */
  lemma TruncScale(a: int, b: int, k: int)
    requires b != 0 && k != 0
    ensures k * b != 0 && TruncDiv(k * a, k * b) == TruncDiv(a, b)
  {
    TruncFacts(a, b);
    var q, r := TruncDiv(a, b), TruncRem(a, b);
    ScaleAlgebra(a, b, k, q, r);
    SignScale(a, r, k);
    BoundScale(r, b, k);
    TruncUnique(k * a, k * b, q, k * r);
  }

  lemma ScaleAlgebra(a: int, b: int, k: int, q: int, r: int)
    requires a == q * b + r && b != 0 && k != 0
    ensures k * a == q * (k * b) + k * r && k * b != 0
  {
    assert k * (q * b) == q * (k * b);
  }

  lemma SignScale(a: int, r: int, k: int)
    requires (a >= 0 ==> r >= 0) && (a <= 0 ==> r <= 0) && k != 0
    ensures (k * a >= 0 ==> k * r >= 0) && (k * a <= 0 ==> k * r <= 0)
  {
    if k > 0 {
      assert (a > 0 ==> k * a > 0) && (a < 0 ==> k * a < 0) && (r >= 0 ==> k * r >= 0) && (r <= 0 ==> k * r <= 0);
    } else {
      assert (a > 0 ==> k * a < 0) && (a < 0 ==> k * a > 0) && (r >= 0 ==> k * r <= 0) && (r <= 0 ==> k * r >= 0);
    }
  }

  lemma BoundScale(r: int, b: int, k: int)
    requires AbsInt(r) < AbsInt(b) && k != 0
    ensures AbsInt(k * r) < AbsInt(k * b)
  {
    AbsProduct(k, r);
    AbsProduct(k, b);
    TimesLess(AbsInt(k), AbsInt(r), AbsInt(b));
  }

  lemma TimesLess(u: int, v: int, w: int)
    requires v < w && u > 0
    ensures u * v < u * w
  {
  }

  lemma AbsProduct(x: int, y: int)
    ensures AbsInt(x * y) == AbsInt(x) * AbsInt(y)
  {
    if x >= 0 && y >= 0 {
    } else if x >= 0 {
      assert x * (-y) == -(x * y) && x * (-y) >= 0;
    } else if y >= 0 {
      assert (-x) * y == -(x * y) && (-x) * y >= 0;
    } else {
      assert (-x) * (-y) == x * y && (-x) * (-y) >= 0;
    }
  }

  /** Dividing twice is dividing by the product. */
  lemma TruncTwice(a: int, b: int, c: int)
    requires b > 0 && c > 0
    ensures b * c > 0 && TruncDiv(TruncDiv(a, b), c) == TruncDiv(a, b * c)
  {
    hide TruncDiv, TruncRem;
    TruncFacts(a, b);
    var q, r := TruncDiv(a, b), TruncRem(a, b);
    TruncFacts(q, c);
    var p, s := TruncDiv(q, c), TruncRem(q, c);
    TwiceAlgebra(a, b, c, q, r, p, s);
    TruncUnique(a, b * c, p, s * b + r);
  }

  lemma TwiceAlgebra(a: int, b: int, c: int, q: int, r: int, p: int, s: int)
    requires b > 0 && c > 0 && a == q * b + r && q == p * c + s
    requires AbsInt(r) < b && AbsInt(s) < c
    requires (a >= 0 ==> r >= 0) && (a <= 0 ==> r <= 0) && (q >= 0 ==> s >= 0) && (q <= 0 ==> s <= 0)
    requires (a >= 0 ==> q >= 0) && (a <= 0 ==> q <= 0)
    ensures a == p * (b * c) + (s * b + r) && b * c > 0
    ensures AbsInt(s * b + r) < b * c
    ensures (a >= 0 ==> s * b + r >= 0) && (a <= 0 ==> s * b + r <= 0)
  {
    TwiceSum(b, c, p, s);
    assert b * c > 0;
    RoomFor(AbsInt(s), b, c);
    AbsProduct(s, b);
    SignTimes(s, b);
  }

  lemma TwiceSum(b: int, c: int, p: int, s: int)
    ensures (p * c + s) * b == p * (b * c) + s * b
  {
  }

  lemma RoomFor(t: int, b: int, c: int)
    requires 0 <= t < c && b > 0
    ensures t * b + b <= b * c
  {
    assert b * c == t * b + b + (c - 1 - t) * b;
  }

  lemma SignTimes(s: int, b: int)
    requires b > 0
    ensures (s >= 0 ==> s * b >= 0) && (s <= 0 ==> s * b <= 0)
  {
  }
}
