/** What the definitions behind LYRA2 give where they can be written out. */
module Lyra2Laws {
  import opened Bits
  import opened Memory
  import opened Words
  import opened Lyra2Schedule
  import opened Lyra2Padding
  import opened Lyra2

  lemma EncodedLong(x: nat)
    requires x < 0x1_0000_0000_0000_0000
    ensures LittleEndianOctets(Le64(x)) == x
  {
    var b, c, d := x / 0x100, x / 0x1_0000, x / 0x100_0000;
    var e, f, g, h := x / 0x1_0000_0000, x / 0x100_0000_0000, x / 0x1_0000_0000_0000, x / 0x100_0000_0000_0000;
    assert c == b / 0x100 && d == c / 0x100 && e == d / 0x100;
    assert f == e / 0x100 && g == f / 0x100 && h == g / 0x100;
    hide LittleEndianOctets;
    EightDigits(x, b, c, d, e, f, g, h);
  }

  lemma EightDigits(a: nat, b: nat, c: nat, d: nat, e: nat, f: nat, g: nat, h: nat)
    requires b == a / 0x100 && c == b / 0x100 && d == c / 0x100 && e == d / 0x100
    requires f == e / 0x100 && g == f / 0x100 && h == g / 0x100 && h < 0x100
    ensures LittleEndianOctets([a % 0x100, b % 0x100, c % 0x100, d % 0x100, e % 0x100, f % 0x100, g % 0x100, h]) == a
  {
    hide LittleEndianOctets;
    LittleEndianOfEight(a % 0x100, b % 0x100, c % 0x100, d % 0x100, e % 0x100, f % 0x100, g % 0x100, h);
    LittleEndianOfFour(a % 0x100, b % 0x100, c % 0x100, d % 0x100);
    LittleEndianOfFour(e % 0x100, f % 0x100, g % 0x100, h);
  }

  /** The number that stands in eight octets of the input. */
  function NumberAt(p: seq<byte>, at: nat): nat
    requires at + 8 <= |p|
  {
    LittleEndianOctets(p[at..at + 8])
  }

  lemma BasilAt(x: Arguments, at: nat)
    requires at <= 40
    ensures
      var p, n := PaddedInput(x), |x.pwd| + |x.salt|;
      n + 48 < |p| && p[n + at..n + at + 8] == x.Basil()[at..at + 8]
  {
    hide Pad, Arguments.Basil;
    PadBytes(x.Data());
    var p, d, n := PaddedInput(x), x.Data(), |x.pwd| + |x.salt|;
    SliceBehind(x.pwd + x.salt, x.Basil(), at);
    assert p[..|d|] == d;
    assert p[n + at..n + at + 8] == p[..|d|][n + at..n + at + 8];
  }

  lemma SliceBehind(a: seq<byte>, b: seq<byte>, at: nat)
    requires at + 8 <= |b|
    ensures (a + b)[|a| + at..|a| + at + 8] == b[at..at + 8]
  {
  }

  /** The padded input begins with the password, then the salt, then the six numbers of the interface in order. */
  lemma InputOrder(x: Arguments)
    requires x.Fits()
    ensures
      var p, m, n := PaddedInput(x), |x.pwd|, |x.pwd| + |x.salt|;
      && n + 48 < |p| && p[..m] == x.pwd && p[m..n] == x.salt
      && NumberAt(p, n) == x.kLen && NumberAt(p, n + 8) == |x.pwd| && NumberAt(p, n + 16) == |x.salt|
      && NumberAt(p, n + 24) == x.timeCost && NumberAt(p, n + 32) == x.nRows && NumberAt(p, n + 40) == x.nCols
  {
    hide Le64, LittleEndianOctets, Pad;
    PadBytes(x.Data());
    BasilParts(x);
    var p, d, n := PaddedInput(x), x.Data(), |x.pwd| + |x.salt|;
    assert p[..|d|] == d;
    BasilAt(x, 0); BasilAt(x, 8); BasilAt(x, 16); BasilAt(x, 24); BasilAt(x, 32); BasilAt(x, 40);
    assert p[..|x.pwd|] == d[..|x.pwd|] && p[|x.pwd|..n] == d[|x.pwd|..n];
    EncodedLong(x.kLen); EncodedLong(|x.pwd|); EncodedLong(|x.salt|);
    EncodedLong(x.timeCost); EncodedLong(x.nRows); EncodedLong(x.nCols);
  }

  // ----- the first rows of the schedule -----

  lemma RowAInWindow(e: nat, w: nat, s: nat, k: nat)
    requires e >= 1 && w == Pow2(e) && s == Stride(e) && k < w
    ensures w + k >= 2 && RowA(w + k) == k * s % w
  {
    assert Pow2(e + 1) == 2 * w && w == 2 * Pow2(e - 1);
    hide Pow2;
    WindowUnique(w + k, e);
  }

  lemma FirstWindows()
    ensures RowA(2) == 0 && RowA(3) == 1
    ensures RowA(4) == 0 && RowA(5) == 3 && RowA(6) == 2 && RowA(7) == 1
  {
    assert Pow2(1) == 2 && Pow2(2) == 4 && Stride(1) == 1 && Stride(2) == 3;
    hide RowA, Pow2, Stride;
    RowAInWindow(1, 2, 1, 0); RowAInWindow(1, 2, 1, 1);
    RowAInWindow(2, 4, 3, 0); RowAInWindow(2, 4, 3, 1); RowAInWindow(2, 4, 3, 2); RowAInWindow(2, 4, 3, 3);
  }

  lemma StrideOfThree()
    ensures Pow2(3) == 8 && Stride(3) == 3
  {
  }

  lemma ThirdWindow()
    ensures RowA(8) == 0 && RowA(9) == 3 && RowA(10) == 6 && RowA(11) == 1
    ensures RowA(12) == 4 && RowA(13) == 7 && RowA(14) == 2 && RowA(15) == 5
  {
    hide RowA, Pow2, Stride;
    StrideOfThree();
    RowAInWindow(3, 8, 3, 0); RowAInWindow(3, 8, 3, 1); RowAInWindow(3, 8, 3, 2); RowAInWindow(3, 8, 3, 3);
    RowAInWindow(3, 8, 3, 4); RowAInWindow(3, 8, 3, 5); RowAInWindow(3, 8, 3, 6); RowAInWindow(3, 8, 3, 7);
  }

  /** The rows that rows 2 to 15 revisit. */
  lemma FirstRowas(row: nat)
    requires 2 <= row < 16
    ensures RowA(row) == [0, 1, 0, 3, 2, 1, 0, 3, 6, 1, 4, 7, 2, 5][row - 2]
  {
    hide RowA;
    FirstWindows();
    ThirdWindow();
  }

  // ----- the order of the passes -----

  /** The first pass takes the long step and the second one counts down. */
  lemma FirstPasses<S, Row>(sp: Sponge<S, Row>, w: Walk<S, Row>)
    requires |w.config.rows| >= 3 && w.rowa < |w.config.rows|
    ensures
      var n := |w.config.rows|;
      var one := WanderSteps(sp, w, true, PassLength(n, true));
      Wander(sp, w, 1) == one && Wander(sp, w, 2) == WanderSteps(sp, one, false, PassLength(n, false))
  {
    hide WanderSteps, PassLength;
    assert Wander(sp, w, 0) == w;
  }
}
