/** Which rows LYRA2 visits: the windows of the Setup phase and the passes of the
    Wandering phase. */
module Lyra2Schedule {
  import opened Bits

  // ----- arithmetic modulo n -----

  lemma ModTimes(x: nat, y: nat, n: nat)
    requires n > 0
    ensures (x % n) * y % n == x * y % n
  {
    var q, r := x / n, x % n;
    assert x * y == q * n * y + r * y;
    assert q * n * y == (q * y) * n;
    AddMultiple(r * y, q * y, n);
  }

  lemma ModStep(x: nat, y: nat, n: nat)
    requires n > 0
    ensures (x % n + y) % n == (x + y) % n
  {
    assert x + y == (x % n + y) + (x / n) * n;
    AddMultiple(x % n + y, x / n, n);
  }

  lemma MultipleIsZero(k: nat, n: nat)
    requires n > 0
    ensures k * n % n == 0
  {
    DivModUnique(k * n, n, k, 0);
  }

  /** Multiplying by s and then by its inverse t comes back. */
  lemma TimesInverse(x: nat, s: nat, t: nat, n: nat)
    requires n > 0 && s * t % n == 1 % n
    ensures (x * s % n) * t % n == x % n
  {
    ModTimes(x * s, t, n);
    assert x * s * t == (s * t) * x;
    ModTimes(s * t, x, n);
    ModTimes(1, x, n);
  }

  // ----- Setup -----

  /** The stride in the window of size 2^e. */
  function Stride(e: nat): (s: nat)
    requires e >= 1
    ensures s >= 1
  {
    if e == 1 then 1 else if e % 2 == 0 then Pow2(e - 1) + 1 else Pow2(e - 1) - 1
  }

  lemma StrideIsOdd(e: nat)
    requires e >= 1
    ensures Stride(e) % 2 == 1
  {
    if e >= 2 {
      var u := Pow2(e - 2);
      assert Pow2(e - 1) == 2 * u;
      hide Pow2;
      OddNeighbours(u);
    }
  }

  lemma OddNeighbours(u: nat)
    requires u >= 1
    ensures (2 * u + 1) % 2 == 1 && (2 * u - 1) % 2 == 1
  {
  }

  /** A stride is its own inverse. */
  lemma StrideSquared(e: nat)
    requires e >= 1
    ensures Stride(e) * Stride(e) % Pow2(e) == 1 % Pow2(e)
  {
    if e >= 2 {
      var u := Pow2(e - 2);
      assert Pow2(e - 1) == 2 * u && Pow2(e) == 4 * u;
      assert Stride(e) == 2 * u + 1 || Stride(e) == 2 * u - 1;
      SquareOf(Stride(e), u, Pow2(e));
    }
  }

  lemma SquareOf(s: nat, u: nat, w: nat)
    requires u >= 1 && w == 4 * u && (s == 2 * u + 1 || s == 2 * u - 1)
    ensures s * s % w == 1 % w
  {
    SquareNearHalf(u);
  }

  lemma SquareNearHalf(u: nat)
    requires u >= 1
    ensures (2 * u + 1) * (2 * u + 1) % (4 * u) == 1 % (4 * u)
    ensures (2 * u - 1) * (2 * u - 1) % (4 * u) == 1 % (4 * u)
  {
    assert (2 * u + 1) * (2 * u + 1) == 1 + (u + 1) * (4 * u);
    AddMultiple(1, u + 1, 4 * u);
    assert (2 * u - 1) * (2 * u - 1) == 1 + (u - 1) * (4 * u);
    AddMultiple(1, u - 1, 4 * u);
  }

  /** The exponent of the window that row belongs to. */
  function WindowExponent(row: nat): (e: nat)
    requires row >= 2
    ensures e >= 1 && Pow2(e) <= row < Pow2(e + 1)
  {
    if row < 4 then 1 else WindowExponent(row / 2) + 1
  }

  /** The row that is revisited while `row` is computed. */
  function RowA(row: nat): (a: nat)
    requires row >= 2
    ensures a < Pow2(WindowExponent(row)) <= row
  {
    var e := WindowExponent(row);
    (row - Pow2(e)) * Stride(e) % Pow2(e)
  }

  /** The window exponent is the only one that brackets the row. */
  lemma WindowUnique(row: nat, e: nat)
    requires row >= 2 && Pow2(e) <= row < Pow2(e + 1)
    ensures e == WindowExponent(row)
  {
    var d := WindowExponent(row);
    if e < d {
      Pow2Mono(e + 1, d);
    } else if d < e {
      Pow2Mono(d + 1, e);
    }
  }

  /** Rows read during Setup are already computed, and the three rows of a step differ. */
  lemma SetupRowsDistinct(row: nat)
    requires row >= 2
    ensures RowA(row) < row && RowA(row) != row - 1
  {
    var e := WindowExponent(row);
    var w := Pow2(e);
    assert w >= 2;
    if row == w {
      assert 0 * Stride(e) % w == 0;
    }
  }

  /** The row of a window during which `a` is revisited. */
  function Revisitor(e: nat, a: nat): (row: nat)
    requires e >= 1
    ensures Pow2(e) <= row < 2 * Pow2(e)
  {
    Pow2(e) + a * Stride(e) % Pow2(e)
  }

  /** Each window revisits every row below it exactly once: RowA and Revisitor are inverse. */
  lemma WindowCoversOnce(e: nat, a: nat, row: nat)
    requires e >= 1 && a < Pow2(e) && Pow2(e) <= row < Pow2(e + 1)
    ensures RowA(Revisitor(e, a)) == a
    ensures RowA(row) == a <==> row == Revisitor(e, a)
  {
    StrideSquared(e);
    RowAIn(e, row);
    RowAIn(e, Revisitor(e, a));
    hide Stride, Pow2, RowA;
    var w, s, k := Pow2(e), Stride(e), row - Pow2(e);
    Swap(k, a, s, w);
    Swap(Revisitor(e, a) - w, a, s, w);
  }

  lemma RowAIn(e: nat, row: nat)
    requires e >= 1 && Pow2(e) <= row < 2 * Pow2(e)
    ensures row >= 2 && RowA(row) == (row - Pow2(e)) * Stride(e) % Pow2(e)
  {
    assert Pow2(e + 1) == 2 * Pow2(e) && Pow2(e) == 2 * Pow2(e - 1);
    hide Pow2, Stride;
    WindowUnique(row, e);
  }

  /** Multiplying by a number that is its own inverse is its own inverse. */
  lemma Swap(k: nat, a: nat, s: nat, w: nat)
    requires w > 0 && s * s % w == 1 % w && k < w && a < w
    ensures k * s % w == a <==> k == a * s % w
  {
    TimesInverse(k, s, s, w);
    TimesInverse(a, s, s, w);
    SmallMod(k, w);
    SmallMod(a, w);
  }

  lemma SmallMod(k: nat, w: nat)
    requires k < w
    ensures k % w == k
  {
  }

  /** In the running form: the index wraps to zero exactly when the window is used up. */
  lemma WrapsAtWindowEnd(e: nat, k: nat)
    requires e >= 1 && k < Pow2(e)
    ensures (k * Stride(e) % Pow2(e) + Stride(e)) % Pow2(e) == (k + 1) * Stride(e) % Pow2(e)
    ensures (k + 1) * Stride(e) % Pow2(e) == 0 <==> k + 1 == Pow2(e)
  {
    StrideSquared(e);
    hide Stride, Pow2;
    NextMultiple(k, Stride(e), Pow2(e));
    ZeroAt(k + 1, Stride(e), Pow2(e));
  }

  lemma NextMultiple(k: nat, s: nat, w: nat)
    requires w > 0
    ensures (k * s % w + s) % w == (k + 1) * s % w
  {
    ModStep(k * s, s, w);
    assert k * s + s == (k + 1) * s;
  }

  lemma ZeroAt(j: nat, s: nat, w: nat)
    requires 1 <= j <= w && s * s % w == 1 % w
    ensures j * s % w == 0 <==> j == w
  {
    if j == w {
      WholeMultiple(s, w);
    } else {
      Swap(j, 0, s, w);
      NoMultiple(s, w);
    }
  }

  lemma WholeMultiple(s: nat, w: nat)
    requires w > 0
    ensures w * s % w == 0
  {
    MultipleIsZero(s, w);
    assert w * s == s * w;
  }

  lemma NoMultiple(s: nat, w: nat)
    requires w > 0
    ensures 0 * s % w == 0
  {
  }

  // ----- Wandering -----

  const TWO64: nat := 0x1_0000_0000_0000_0000

  /** The next row of a pass: a signed sum, taken modulo nRows after conversion to 64 unsigned bits.
      The step is nRows / 2 - 1 in odd passes and -1 in even ones. */
  function NextRow(n: nat, odd: bool, row: nat): (r: nat)
    requires n >= 3 && row < n
    ensures r < n
  {
    var x := if odd then row + (n / 2 - 1) else row - 1;
    (if x < 0 then x + TWO64 else x) % n
  }

  /** Row number i of a pass that is never stopped. */
  function Visit(n: nat, odd: bool, i: nat): (r: nat)
    requires n >= 3
    ensures r < n
  {
    if i == 0 then 0 else NextRow(n, odd, Visit(n, odd, i - 1))
  }

  /** A number of steps after which a pass is back at row 0. */
  function Period(n: nat, odd: bool): (p: nat)
    requires n >= 3
    ensures 1 <= p <= n
  {
    if odd then n else (TWO64 - 1) % n + 1
  }

  lemma {:induction false} OddVisit(n: nat, i: nat)
    requires n >= 3
    ensures Visit(n, true, i) == i * (n / 2 - 1) % n
  {
    var s := n / 2 - 1;
    if i == 0 {
      assert 0 * s == 0;
    } else {
      OddVisit(n, i - 1);
      ModStep((i - 1) * s, s, n);
      assert (i - 1) * s + s == i * s;
    }
  }

  lemma {:induction false} EvenVisit(n: nat, i: nat)
    requires n >= 3 && 1 <= i <= Period(n, false)
    ensures Visit(n, false, i) == Period(n, false) - i
  {
    if i > 1 {
      EvenVisit(n, i - 1);
      var row := Period(n, false) - (i - 1);
      DivModUnique(row - 1, n, 0, row - 1);
    } else {
      assert Visit(n, false, 0) == 0;
    }
  }

  lemma PeriodReturns(n: nat, odd: bool)
    requires n >= 3
    ensures Visit(n, odd, Period(n, odd)) == 0
  {
    if odd {
      OddVisit(n, n);
      assert n * (n / 2 - 1) == (n / 2 - 1) * n;
      MultipleIsZero(n / 2 - 1, n);
    } else {
      EvenVisit(n, Period(n, false));
    }
  }

  /** The first return to row 0 at or after step i: where the do-while loop stops. */
  function FirstReturn(n: nat, odd: bool, i: nat): (l: nat)
    requires n >= 3 && i <= Period(n, odd)
    ensures i <= l <= Period(n, odd) && Visit(n, odd, l) == 0
    ensures forall j :: i <= j < l ==> Visit(n, odd, j) != 0
    decreases Period(n, odd) - i
  {
    PeriodReturns(n, odd);
    if Visit(n, odd, i) == 0 then i else FirstReturn(n, odd, i + 1)
  }

  /** The number of rows a pass processes. */
  function PassLength(n: nat, odd: bool): (l: nat)
    requires n >= 3
    ensures 1 <= l <= n
  {
    FirstReturn(n, odd, 1)
  }

  lemma StartRow(n: nat, odd: bool)
    requires n >= 3
    ensures Visit(n, odd, 0) == 0
  {
  }

  /** A pass goes on exactly until it is back at row 0. */
  lemma PassContinues(n: nat, odd: bool, i: nat)
    requires n >= 3 && i < PassLength(n, odd)
    ensures Visit(n, odd, i + 1) == NextRow(n, odd, Visit(n, odd, i))
    ensures Visit(n, odd, i + 1) == 0 <==> i + 1 == PassLength(n, odd)
  {
    hide NextRow;
  }

  ghost predicate Visited(n: nat, odd: bool, r: nat)
    requires n >= 3
  {
    exists i :: 0 <= i < n && Visit(n, odd, i) == r
  }

  /** A pass processes every row exactly once. */
  ghost predicate FullPass(n: nat, odd: bool)
    requires n >= 3
  {
    && PassLength(n, odd) == n
    && (forall r :: 0 <= r < n ==> Visited(n, odd, r))
    && (forall i, j :: 0 <= i < j < n ==> Visit(n, odd, i) != Visit(n, odd, j))
  }

  // ----- odd passes -----

  lemma UndoVisit(n: nat, t: nat, i: nat)
    requires n >= 3 && (n / 2 - 1) * t % n == 1 && i < n
    ensures Visit(n, true, i) * t % n == i
  {
    hide Visit;
    OddVisit(n, i);
    UndoProduct(n, n / 2 - 1, t, i);
  }

  lemma UndoProduct(n: nat, s: nat, t: nat, i: nat)
    requires n >= 2 && s * t % n == 1 && i < n
    ensures (i * s % n) * t % n == i
  {
    DivModUnique(1, n, 0, 1);
    TimesInverse(i, s, t, n);
    DivModUnique(i, n, 0, i);
  }

  lemma ReachRow(n: nat, t: nat, r: nat)
    requires n >= 3 && (n / 2 - 1) * t % n == 1 && r < n
    ensures Visited(n, true, r)
  {
    hide Visit;
    var s := n / 2 - 1;
    OddVisit(n, r * t % n);
    assert t * s == s * t;
    UndoProduct(n, t, s, r);
  }

  /** With a step that has an inverse modulo n, an odd pass is full. */
  lemma InvertibleIsFull(n: nat, t: nat)
    requires n >= 3 && (n / 2 - 1) * t % n == 1
    ensures FullPass(n, true)
  {
    hide Visit, Visited, PassLength;
    forall r | 0 <= r < n
      ensures Visited(n, true, r)
    {
      ReachRow(n, t, r);
    }
    forall i, j | 0 <= i < j < n
      ensures Visit(n, true, i) != Visit(n, true, j)
    {
      UndoVisit(n, t, i);
      UndoVisit(n, t, j);
    }
    NoEarlyReturn(n, t);
  }

  lemma NoEarlyReturn(n: nat, t: nat)
    requires n >= 3 && (n / 2 - 1) * t % n == 1
    ensures PassLength(n, true) == n
  {
    hide Visit;
    var l := FirstReturn(n, true, 1);
    if l < n {
      VisitNotZero(n, t, l);
    }
  }

  lemma VisitNotZero(n: nat, t: nat, i: nat)
    requires n >= 3 && (n / 2 - 1) * t % n == 1 && 1 <= i < n
    ensures Visit(n, true, i) != 0
  {
    hide Visit;
    UndoVisit(n, t, i);
    NonZeroFactor(Visit(n, true, i), t, n, i);
  }

  lemma NonZeroFactor(v: nat, t: nat, n: nat, i: nat)
    requires n > 0 && v * t % n == i && i >= 1
    ensures v != 0
  {
    assert v == 0 ==> v * t == 0;
  }

  /** Stopping early rules a full pass out. */
  lemma EarlyReturn(n: nat, odd: bool, i: nat)
    requires n >= 3 && 1 <= i < n && Visit(n, odd, i) == 0
    ensures !FullPass(n, odd)
  {
    assert Visit(n, odd, 0) == 0;
  }

  /** An odd pass processes every row exactly once if and only if nRows is a multiple of four, or odd
      and not a multiple of three. */
  lemma OddPassFull(n: nat)
    requires n >= 3
    ensures FullPass(n, true) <==> n % 4 == 0 || (n % 2 == 1 && n % 3 != 0)
  {
    hide FullPass;
    if n % 2 == 0 {
      EvenRows(n / 2);
    } else {
      OddRows(n, n / 3, n % 3, n / 2);
    }
  }

  lemma EvenRows(h: nat)
    requires h >= 2
    ensures FullPass(2 * h, true) <==> 2 * h % 4 == 0
  {
    hide FullPass;
    if h % 2 == 0 {
      FourDivides(h / 2);
    } else {
      TwiceOdd(h / 2);
    }
  }

  lemma OddRows(n: nat, m: nat, r: nat, half: nat)
    requires n >= 3 && n == 3 * m + r && r < 3 && n == 2 * half + 1
    ensures FullPass(n, true) <==> r != 0
  {
    hide FullPass;
    if r == 0 {
      assert m % 2 == 1 by { assert m == 2 * (half - m) + 1; }
      assert n == 3 * m;
      ThreeDivides(m);
    } else if r == 1 {
      assert m % 2 == 0 by { assert m == 2 * (half - m); }
      assert n == 3 * m + 1;
      OneModThree(m);
    } else {
      assert m % 2 == 1 by { assert m == 2 * (half - m - 1) + 1; }
      assert n == 3 * m + 2;
      TwoModThree(m);
    }
  }

  lemma FourDivides(q: nat)
    requires q >= 1
    ensures FullPass(4 * q, true)
  {
    var s, n := 2 * q - 1, 4 * q;
    assert s * s == 1 + (q - 1) * n;
    AddMultiple(1, q - 1, n);
    DivModUnique(1, n, 0, 1);
    InvertibleIsFull(n, s);
  }

  lemma TwiceOdd(q: nat)
    requires q >= 1
    ensures !FullPass(4 * q + 2, true)
  {
    var n, i := 4 * q + 2, 2 * q + 1;
    OddVisit(n, i);
    assert i * (2 * q) == q * n;
    MultipleIsZero(q, n);
    EarlyReturn(n, true, i);
  }

  lemma ThreeDivides(m: nat)
    requires m % 2 == 1
    ensures !FullPass(3 * m, true)
  {
    var n, k := 3 * m, (m - 1) / 2;
    assert n / 2 - 1 == 3 * k;
    OddVisit(n, m);
    assert m * (3 * k) == k * n;
    MultipleIsZero(k, n);
    EarlyReturn(n, true, m);
  }

  lemma OneModThree(a: nat)
    requires a >= 1 && a % 2 == 0
    ensures FullPass(3 * a + 1, true)
  {
    var n, u := 3 * a + 1, a / 2;
    assert n / 2 - 1 == 3 * u - 1;
    assert (3 * u - 1) * (2 * a) == 1 + (a - 1) * n;
    AddMultiple(1, a - 1, n);
    DivModUnique(1, n, 0, 1);
    InvertibleIsFull(n, 2 * a);
  }

  lemma TwoModThree(a: nat)
    requires a % 2 == 1
    ensures FullPass(3 * a + 2, true)
  {
    var n, u := 3 * a + 2, (a - 1) / 2;
    assert n / 2 - 1 == 3 * u + 1;
    assert (3 * u + 1) * a == 1 + u * n;
    AddMultiple(1, u, n);
    DivModUnique(1, n, 0, 1);
    InvertibleIsFull(n, a);
  }

  // ----- even passes -----

  lemma CountdownIsFull(n: nat)
    requires n >= 3 && Period(n, false) == n
    ensures FullPass(n, false)
  {
    hide Visit, Visited, FirstReturn;
    forall i | 1 <= i <= n
      ensures Visit(n, false, i) == n - i
    {
      EvenVisit(n, i);
    }
    StartRow(n, false);
    forall r | 0 <= r < n
      ensures Visited(n, false, r)
    {
      ReachDown(n, r);
    }
  }

  lemma ReachDown(n: nat, r: nat)
    requires n >= 3 && Period(n, false) == n && r < n
    ensures Visited(n, false, r)
  {
    hide Visit;
    StartRow(n, false);
    var i := if r == 0 then 0 else n - r;
    if r > 0 {
      EvenVisit(n, i);
    }
    assert Visit(n, false, i) == r;
  }

  /** An even pass processes every row exactly once if and only if nRows divides 2^64. */
  lemma EvenPassFull(n: nat)
    requires n >= 3
    ensures FullPass(n, false) <==> TWO64 % n == 0
  {
    hide FullPass, Visit;
    var p := Period(n, false);
    ModStep(TWO64 - 1, 1, n);
    if p == n {
      DivModUnique(n, n, 1, 0);
      CountdownIsFull(n);
    } else {
      DivModUnique(p, n, 0, p);
      PeriodReturns(n, false);
      EarlyReturn(n, false, p);
    }
  }

  /** For a power of two of at least four rows every pass is full. */
  lemma PowerOfTwoIsFull(k: nat, odd: bool)
    requires 2 <= k <= 64
    ensures Pow2(k) >= 3 && FullPass(Pow2(k), odd)
  {
    hide FullPass;
    Pow2Values();
    Pow2Add(64 - k, k);
    MultipleIsZero(Pow2(64 - k), Pow2(k));
    assert Pow2(k) == 4 * Pow2(k - 2);
    OddPassFull(Pow2(k));
    EvenPassFull(Pow2(k));
  }
}
