/** LYRA2: the sponge is driven over the memory matrix by the row schedules. */
module Lyra2 {
  import opened Bits
  import opened Memory
  import opened Lyra2Schedule
  import opened Lyra2Padding

  /** The sponge operations, each with the rows it reads and the rows it returns. In the Wandering
      phase the three rows may coincide, so that operation sees the whole matrix and the indices. */
  datatype Sponge<!S, !Row> = Sponge(
    initial: S,
    absorbInput: (S, seq<byte>) -> S,
    squeezeRow0: S -> (S, Row),
    duplexRow1: (S, Row) -> (S, Row),
    duplexSetup: (S, Row, Row) -> (S, Row, Row),
    duplexWander: (S, seq<Row>, nat, nat, nat) -> (S, Row, Row),
    pick: S -> nat,
    absorbRow: (S, Row) -> S,
    squeeze: (S, nat) -> seq<byte>)

  datatype Config<S, Row> = Config(state: S, rows: seq<Row>)
  datatype Walk<S, Row> = Walk(config: Config<S, Row>, prev: nat, rowa: nat)

  // ----- specification -----

  /** The input block by block. */
  function AbsorbAll<S, Row>(sp: Sponge<S, Row>, s: S, padded: seq<byte>): S
    requires |padded| % 64 == 0
    decreases |padded|
  {
    if padded == [] then s else AbsorbAll(sp, sp.absorbInput(s, padded[..64]), padded[64..])
  }

  /** Computes row number `row` from its predecessor and the row that the schedule revisits. */
  function SetupStep<S, Row>(sp: Sponge<S, Row>, c: Config<S, Row>, row: nat): (d: Config<S, Row>)
    requires 2 <= row < |c.rows|
    ensures |d.rows| == |c.rows|
  {
    var (s, a, r) := sp.duplexSetup(c.state, c.rows[row - 1], c.rows[RowA(row)]);
    Config(s, c.rows[RowA(row) := a][row := r])
  }

  /** Rows 2 to n - 1. */
  function SetupRows<S, Row>(sp: Sponge<S, Row>, c: Config<S, Row>, n: nat): (d: Config<S, Row>)
    requires 2 <= n <= |c.rows|
    ensures |d.rows| == |c.rows|
  {
    if n == 2 then c else SetupStep(sp, SetupRows(sp, c, n - 1), n - 1)
  }

  function WanderStep<S, Row>(sp: Sponge<S, Row>, w: Walk<S, Row>, row: nat): (v: Walk<S, Row>)
    requires row < |w.config.rows|
    ensures |v.config.rows| == |w.config.rows| && v.prev == row && v.rowa < |v.config.rows|
  {
    var a := sp.pick(w.config.state) % |w.config.rows|;
    var (s, x, r) := sp.duplexWander(w.config.state, w.config.rows, w.prev, a, row);
    Walk(Config(s, w.config.rows[row := r][a := x]), row, a)
  }

  /** The first i steps of a pass. */
  function WanderSteps<S, Row>(sp: Sponge<S, Row>, w: Walk<S, Row>, odd: bool, i: nat): (v: Walk<S, Row>)
    requires |w.config.rows| >= 3 && w.rowa < |w.config.rows|
    ensures |v.config.rows| == |w.config.rows| && v.rowa < |v.config.rows|
  {
    if i == 0 then w
    else WanderStep(sp, WanderSteps(sp, w, odd, i - 1), Visit(|w.config.rows|, odd, i - 1))
  }

  /** Passes 1 to tau, odd and even in turn. */
  function Wander<S, Row>(sp: Sponge<S, Row>, w: Walk<S, Row>, tau: nat): (v: Walk<S, Row>)
    requires |w.config.rows| >= 3 && w.rowa < |w.config.rows|
    ensures |v.config.rows| == |w.config.rows| && v.rowa < |v.config.rows|
  {
    if tau == 0 then w
    else WanderSteps(sp, Wander(sp, w, tau - 1), tau % 2 == 1, PassLength(|w.config.rows|, tau % 2 == 1))
  }

  /** The first two rows, before the loop of the Setup phase. */
  function FirstRows<S, Row>(sp: Sponge<S, Row>, s: S, rows: seq<Row>): (c: Config<S, Row>)
    requires |rows| >= 3
    ensures |c.rows| == |rows|
  {
    var (s0, row0) := sp.squeezeRow0(s);
    var (s1, row1) := sp.duplexRow1(s0, row0);
    Config(s1, rows[0 := row0][1 := row1])
  }

  /** Everything before the loop of the Setup phase. */
  function Seeded<S, Row>(sp: Sponge<S, Row>, padded: seq<byte>, rows: seq<Row>): (c: Config<S, Row>)
    requires |rows| >= 3 && |padded| % 64 == 0
    ensures |c.rows| == |rows|
  {
    FirstRows(sp, AbsorbAll(sp, sp.initial, padded), rows)
  }

  /** The state of the walk after the Setup phase. */
  function SetUp<S, Row>(sp: Sponge<S, Row>, c: Config<S, Row>): (w: Walk<S, Row>)
    requires |c.rows| >= 3
    ensures |w.config.rows| == |c.rows| && w.rowa < |c.rows|
  {
    RowAInRange(|c.rows|);
    Walk(SetupRows(sp, c, |c.rows|), |c.rows| - 1, RowA(|c.rows|))
  }

  /** Absorbs the last row* and squeezes the key. */
  function WrapUp<S, Row>(sp: Sponge<S, Row>, w: Walk<S, Row>, kLen: nat): seq<byte>
    requires w.rowa < |w.config.rows|
  {
    sp.squeeze(sp.absorbRow(w.config.state, w.config.rows[w.rowa]), kLen)
  }

  function Derive<S, Row>(sp: Sponge<S, Row>, x: Arguments, rows: seq<Row>): seq<byte>
    requires |rows| == x.nRows >= 3
  {
    WrapUp(sp, Wander(sp, SetUp(sp, Seeded(sp, PaddedInput(x), rows)), x.timeCost), x.kLen)
  }

  lemma RowAInRange(n: nat)
    requires n >= 3
    ensures RowA(n) < n
  {
    SetupRowsDistinct(n);
  }

  // ----- what was in the matrix does not matter -----

  /** Setup writes row `n` before it reads it: the computed rows do not depend on the old contents. */
  lemma {:induction false} SetupOverwrites<S, Row>(sp: Sponge<S, Row>, c: Config<S, Row>, d: Config<S, Row>, n: nat)
    requires 2 <= n <= |c.rows| == |d.rows|
    requires c.state == d.state && c.rows[..2] == d.rows[..2]
    ensures SetupRows(sp, c, n).state == SetupRows(sp, d, n).state
    ensures SetupRows(sp, c, n).rows[..n] == SetupRows(sp, d, n).rows[..n]
  {
    if n > 2 {
      SetupOverwrites(sp, c, d, n - 1);
      var u, v := SetupRows(sp, c, n - 1), SetupRows(sp, d, n - 1);
      SameStep(sp, u, v, n - 1);
    }
  }

  lemma SameStep<S, Row>(sp: Sponge<S, Row>, u: Config<S, Row>, v: Config<S, Row>, row: nat)
    requires 2 <= row < |u.rows| == |v.rows| && u.state == v.state && u.rows[..row] == v.rows[..row]
    ensures SetupStep(sp, u, row).state == SetupStep(sp, v, row).state
    ensures SetupStep(sp, u, row).rows[..row + 1] == SetupStep(sp, v, row).rows[..row + 1]
  {
    var a := RowA(row);
    SetupRowsDistinct(row);
    hide RowA;
    assert u.rows[..row][row - 1] == u.rows[row - 1] && v.rows[..row][row - 1] == v.rows[row - 1];
    assert u.rows[..row][a] == u.rows[a] && v.rows[..row][a] == v.rows[a];
    var x, y := SetupStep(sp, u, row).rows, SetupStep(sp, v, row).rows;
    forall i | 0 <= i < row + 1
      ensures x[i] == y[i]
    {
      if i < row {
        assert u.rows[..row][i] == u.rows[i] && v.rows[..row][i] == v.rows[i];
      }
    }
  }

  /** The derived key does not depend on what the matrix held before. */
  lemma DeriveIgnoresMatrix<S, Row>(sp: Sponge<S, Row>, x: Arguments, rows: seq<Row>, rows': seq<Row>)
    requires |rows| == |rows'| == x.nRows >= 3
    ensures Derive(sp, x, rows) == Derive(sp, x, rows')
  {
    hide AbsorbAll, PaddedInput;
    var c, d := Seeded(sp, PaddedInput(x), rows), Seeded(sp, PaddedInput(x), rows');
    assert c.rows[..2] == d.rows[..2];
    SetupOverwrites(sp, c, d, x.nRows);
    var u, v := SetupRows(sp, c, x.nRows), SetupRows(sp, d, x.nRows);
    assert u.rows == u.rows[..x.nRows] && v.rows == v.rows[..x.nRows];
  }

  // ----- the running schedule -----

  /** Row k of the window of size 2^e: what the loop variables of the Setup phase hold. */
  ghost predicate ScheduleAt(row: nat, e: nat, k: nat, rowa: nat, step: int, window: int, gap: int) {
    && e >= 1 && k < Pow2(e) && row == Pow2(e) + k
    && window == Pow2(e) && step == Stride(e)
    && gap == (if e % 2 == 1 then 1 else -1)
    && rowa == k * Stride(e) % Pow2(e)
  }

  lemma ScheduleStarts()
    ensures ScheduleAt(2, 1, 0, 0, 1, 2, 1)
  {
    assert Pow2(1) == 2;
  }

  /** The running index is the scheduled one. */
  lemma ScheduleMeansRowA(row: nat, e: nat, k: nat, rowa: nat, step: int, window: int, gap: int)
    requires ScheduleAt(row, e, k, rowa, step, window, gap)
    ensures row >= 2 && rowa == RowA(row) && step >= 1 && 2 <= window <= row
  {
    assert Pow2(e) >= 2;
    WindowUnique(row, e);
  }

  /** One turn of the loop: the masked sum wraps to zero exactly at the end of the window. */
  lemma ScheduleAdvances(row: nat, e: nat, k: nat, rowa: nat, step: nat, window: nat, gap: int)
    requires ScheduleAt(row, e, k, rowa, step, window, gap)
    ensures window >= 1
    ensures
      var next := And(rowa + step, window - 1);
      if next == 0 then ScheduleAt(row + 1, e + 1, 0, 0, window + gap, window * 2, -gap)
      else ScheduleAt(row + 1, e, k + 1, next, step, window, gap)
  {
    MaskIsMod(rowa + step, e);
    WrapsAtWindowEnd(e, k);
    var next := And(rowa + step, window - 1);
    if next == 0 {
      assert 0 * Stride(e + 1) == 0;
      NextStride(e, gap);
    }
  }

  lemma NextStride(e: nat, gap: int)
    requires e >= 1 && gap == (if e % 2 == 1 then 1 else -1)
    ensures Stride(e + 1) == Pow2(e) + gap
  {
  }

  // ----- the code -----

  /** The three pointers passed to reducedDuplexRowSetup are those of different rows. */
  method DuplexSetup<S, Row>(sp: Sponge<S, Row>, state: S, memMatrix: array<Row>, prev: nat, rowa: nat, row: nat)
    returns (next: S)
    requires 2 <= row < memMatrix.Length && prev == row - 1 && rowa == RowA(row)
    modifies memMatrix
    ensures Config(next, memMatrix[..]) == SetupStep(sp, Config(state, old(memMatrix[..])), row)
  {
    SetupRowsDistinct(row);
    hide RowA;
    var (s, a, r) := sp.duplexSetup(state, memMatrix[prev], memMatrix[rowa]);
    memMatrix[rowa] := a;
    memMatrix[row] := r;
    next := s;
  }

  /** The loop of the Setup phase, with its running row, window, step and gap. */
  method Setup<S, Row>(sp: Sponge<S, Row>, start: S, memMatrix: array<Row>) returns (state: S, prev: nat, rowa: nat)
    requires memMatrix.Length >= 3
    modifies memMatrix
    ensures Config(state, memMatrix[..]) == SetupRows(sp, Config(start, old(memMatrix[..])), memMatrix.Length)
    ensures prev == memMatrix.Length - 1 && rowa == RowA(memMatrix.Length)
  {
    hide RowA, SetupStep, ScheduleAt;
    var nRows := memMatrix.Length;
    ghost var c := Config(start, memMatrix[..]);
    state, prev, rowa := start, 1, 0;
    var row, step, window, gap := 2, 1, 2, 1;
    ghost var e, k := 1, 0;
    ScheduleStarts();
    while true
      invariant 2 <= row < nRows && prev == row - 1
      invariant ScheduleAt(row, e, k, rowa, step, window, gap)
      invariant Config(state, memMatrix[..]) == SetupRows(sp, c, row)
      decreases nRows - row
    {
      ScheduleMeansRowA(row, e, k, rowa, step, window, gap);
      ScheduleAdvances(row, e, k, rowa, step, window, gap);
      state := DuplexSetup(sp, state, memMatrix, prev, rowa, row);
      rowa := And(rowa + step, window - 1);
      prev := row;
      row := row + 1;
      k := k + 1;
      if rowa == 0 {
        step := window + gap;
        window := window * 2;
        gap := -gap;
        e, k := e + 1, 0;
      }
      if row >= nRows {
        break;
      }
    }
    ScheduleMeansRowA(row, e, k, rowa, step, window, gap);
  }

  /** row = (row + step) % nRows, with the signed sum converted to 64 unsigned bits first. */
  method Advance(nRows: nat, row: nat, step: int, ghost odd: bool) returns (next: nat)
    requires nRows >= 3 && row < nRows && step == if odd then nRows / 2 - 1 else -1
    ensures next == NextRow(nRows, odd, row)
  {
    var sum := row + step;
    next := (if sum < 0 then sum + TWO64 else sum) % nRows;
  }

  /** One pass of the Wandering phase: a do-while loop that ends when it is back at row 0. */
  method Pass<S, Row>(sp: Sponge<S, Row>, start: S, memMatrix: array<Row>, before: nat, rowa0: nat, tau: nat)
    returns (state: S, prev: nat, rowa: nat)
    requires memMatrix.Length >= 3 && rowa0 < memMatrix.Length
    modifies memMatrix
    ensures
      var odd := tau % 2 == 1;
      Walk(Config(state, memMatrix[..]), prev, rowa)
        == WanderSteps(sp, Walk(Config(start, old(memMatrix[..])), before, rowa0), odd,
                       PassLength(memMatrix.Length, odd))
  {
    hide WanderStep, NextRow, PassLength, Visit;
    var nRows := memMatrix.Length;
    ghost var odd := tau % 2 == 1;
    ghost var w := Walk(Config(start, memMatrix[..]), before, rowa0);
    ghost var i, length := 0, PassLength(nRows, odd);
    var step := if tau % 2 == 0 then -1 else nRows / 2 - 1;
    state, prev, rowa := start, before, rowa0;
    var row := 0;
    StartRow(nRows, odd);
    while true
      invariant 0 <= i < length && row == Visit(nRows, odd, i)
      invariant Walk(Config(state, memMatrix[..]), prev, rowa) == WanderSteps(sp, w, odd, i)
      decreases length - i
    {
      state, rowa := DuplexWander(sp, state, memMatrix, prev, rowa, row);
      prev := row;
      PassContinues(nRows, odd, i);
      row := Advance(nRows, row, step, odd);
      i := i + 1;
      if row == 0 {
        break;
      }
    }
    assert i == length;
  }

  /** Picks row* from the state and duplexes; row* may be any row. */
  method DuplexWander<S, Row>(sp: Sponge<S, Row>, state: S, memMatrix: array<Row>, prev: nat, rowa: nat, row: nat)
    returns (next: S, picked: nat)
    requires row < memMatrix.Length
    modifies memMatrix
    ensures Walk(Config(next, memMatrix[..]), row, picked)
      == WanderStep(sp, Walk(Config(state, old(memMatrix[..])), prev, rowa), row)
  {
    picked := sp.pick(state) % memMatrix.Length;
    var (s, x, r) := sp.duplexWander(state, memMatrix[..], prev, picked, row);
    memMatrix[row] := r;
    memMatrix[picked] := x;
    next := s;
  }

  /** The passes of the Wandering phase. */
  method Passes<S, Row>(sp: Sponge<S, Row>, start: S, memMatrix: array<Row>, prev0: nat, rowa0: nat, timeCost: nat)
    returns (state: S, prev: nat, rowa: nat)
    requires memMatrix.Length >= 3 && rowa0 < memMatrix.Length
    modifies memMatrix
    ensures Walk(Config(state, memMatrix[..]), prev, rowa)
      == Wander(sp, Walk(Config(start, old(memMatrix[..])), prev0, rowa0), timeCost)
  {
    hide WanderSteps, PassLength;
    ghost var w := Walk(Config(start, memMatrix[..]), prev0, rowa0);
    state, prev, rowa := start, prev0, rowa0;
    var tau := 1;
    while tau <= timeCost
      invariant 1 <= tau <= timeCost + 1
      invariant Walk(Config(state, memMatrix[..]), prev, rowa) == Wander(sp, w, tau - 1)
    {
      state, prev, rowa := Pass(sp, state, memMatrix, prev, rowa, tau);
      tau := tau + 1;
    }
  }

  /** The first two rows. */
  method Seed<S, Row>(sp: Sponge<S, Row>, s: S, memMatrix: array<Row>) returns (state: S)
    requires memMatrix.Length >= 3
    modifies memMatrix
    ensures Config(state, memMatrix[..]) == FirstRows(sp, s, old(memMatrix[..]))
  {
    var (s0, row0) := sp.squeezeRow0(s);
    memMatrix[0] := row0;
    var (s1, row1) := sp.duplexRow1(s0, memMatrix[0]);
    memMatrix[1] := row1;
    state := s1;
  }

  /** LYRA2 from the laid-out input on: `blocks` blocks at the start of the memory. The matrix has at least
      three rows: the Setup loop runs before it tests. */
  method Run<S, Row>(sp: Sponge<S, Row>, x: Arguments, memory: array<byte>, blocks: nat, memMatrix: array<Row>)
    returns (K: seq<byte>)
    requires 64 * blocks <= memory.Length && memory[..64 * blocks] == PaddedInput(x)
    requires memMatrix.Length == x.nRows >= 3 && (memory as object) != memMatrix
    modifies memMatrix
    ensures K == Derive(sp, x, old(memMatrix[..]))
  {
    hide PaddedInput, SetupRows, RowA, Wander, AbsorbAll, FirstRows;
    RowAInRange(x.nRows);
    var s := Absorb(sp, memory, blocks);
    s := Seed(sp, s, memMatrix);
    var prev: nat, rowa: nat;
    s, prev, rowa := Setup(sp, s, memMatrix);
    s, prev, rowa := Passes(sp, s, memMatrix, prev, rowa, x.timeCost);
    K := sp.squeeze(sp.absorbRow(s, memMatrix[rowa]), x.kLen);
  }

  /** Absorbs the padded input from the memory, eight words at a time. */
  method Absorb<S, Row>(sp: Sponge<S, Row>, memory: array<byte>, blocks: nat) returns (state: S)
    requires 64 * blocks <= memory.Length
    ensures state == AbsorbAll(sp, sp.initial, memory[..64 * blocks])
  {
    state := sp.initial;
    var i := 0;
    while i < blocks
      invariant 0 <= i <= blocks
      invariant AbsorbAll(sp, state, memory[64 * i..64 * blocks]) == AbsorbAll(sp, sp.initial, memory[..64 * blocks])
    {
      var rest := memory[64 * i..64 * blocks];
      assert rest[..64] == memory[64 * i..64 * i + 64] && rest[64..] == memory[64 * (i + 1)..64 * blocks];
      state := sp.absorbInput(state, memory[64 * i..64 * i + 64]);
      i := i + 1;
    }
  }

  /** LYRA2. The memory first holds the padded input and then the rows: `rows` says how its bytes read as rows,
      which makes no difference to the key. */
  method Hash<S, Row>(sp: Sponge<S, Row>, x: Arguments, memory: array<byte>, rows: seq<byte> -> seq<Row>)
    returns (K: seq<byte>)
    requires 64 * Blocks(|x.Data()|) <= memory.Length
    requires x.nRows >= 3 && forall m :: |m| == memory.Length ==> |rows(m)| == x.nRows
    modifies memory
    ensures forall any :: |any| == x.nRows ==> K == Derive(sp, x, any)
  {
    hide Derive, PaddedInput, Arguments.Data;
    Erase(memory, 0, memory.Length);
    var nBlocksInput := LayOutInput(memory, x);
    var m := rows(memory[..]);
    var memMatrix := new Row[x.nRows](i requires 0 <= i < |m| => m[i]);
    assert memMatrix[..] == m;
    K := Run(sp, x, memory, nBlocksInput, memMatrix);
    forall any: seq<Row> | |any| == x.nRows
      ensures K == Derive(sp, x, any)
    {
      DeriveIgnoresMatrix(sp, x, m, any);
    }
  }
}
