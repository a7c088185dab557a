/** The vardiff controller as a function of its context, and what holds over every
    run of updates and applied changes. */
module VarDiffSpec {
  import opened Common
  import opened CircularBuffer

  // ----- doubles, as far as one division can leave the finite range -----

  datatype Double = Finite(value: real) | PosInf | NegInf | NaN

  function Divide(x: real, y: real): Double {
    if y != 0.0 then Finite(x / y) else if x > 0.0 then PosInf else if x < 0.0 then NegInf else NaN
  }

  /** x > y for a finite y; no comparison with NaN holds. */
  predicate Above(x: Double, y: real) {
    x.PosInf? || (x.Finite? && x.value > y)
  }

  predicate Below(x: Double, y: real) {
    x.NegInf? || (x.Finite? && x.value < y)
  }

  // ----- configuration and context -----

  /** `largest` is the largest finite double, which stands in for a missing maximum. */
  datatype Config = Config(
    minDiff: real, maxDiff: Option<real>, maxDelta: Option<real>,
    targetTime: real, retargetTime: real, variancePercent: real, largest: real)
  {
    function Variance(): real { targetTime * (variancePercent / 100.0) }
    function TMin(): real { targetTime - Variance() }
    function TMax(): real { targetTime + Variance() }

    function Ceiling(): real {
      match maxDiff
      case Some(m) => m
      case None => if minDiff > largest then minDiff else largest
    }

    /** A maximum step is configured. */
    predicate Limits() {
      maxDelta.Some? && maxDelta.value > 0.0
    }

    predicate Sane() {
      && 0.0 <= minDiff <= Ceiling()
      && targetTime > 0.0 && retargetTime > 0.0 && variancePercent >= 0.0
    }
  }

  const BUFFER_SIZE: nat := 10

  datatype Context = Context(lastTs: Option<real>, lastRtc: real, times: seq<real>, lastUpdate: Option<real>)

  // ----- one update -----

  function SinceLast(c: Context, ts: real): real
    requires c.lastTs.Some?
  {
    ts - c.lastTs.value
  }

  /** The average interval, counting the one that is still open. */
  function AverageInterval(c: Context, ts: real): real
    requires c.lastTs.Some?
  {
    (Total(c.times) + SinceLast(c, ts)) / (|c.times| + 1) as real
  }

  /** A share closes the open interval; an idle update does not. */
  function Recorded(c: Context, ts: real, idle: bool): Context
    requires c.lastTs.Some?
  {
    if idle then c
    else
      c.(times := (if |c.times| >= BUFFER_SIZE then c.times[1..] else c.times) + [SinceLast(c, ts)],
         lastTs := Some(ts))
  }

  predicate Retargets(cfg: Config, c: Context, ts: real)
    requires c.lastTs.Some?
  {
    !(ts - c.lastRtc < cfg.retargetTime || cfg.TMin() <= AverageInterval(c, ts) <= cfg.TMax())
  }

  /** Cuts a step that is longer than the configured maximum. From an infinite proposal the maximum is
      infinity minus infinity. */
  function Limited(cfg: Config, difficulty: real, proposed: Double): Double {
    if !cfg.Limits() then proposed
    else match proposed
      case NaN => NaN
      case PosInf => NaN
      case NegInf => NaN
      case Finite(v) =>
        var delta := Abs(v - difficulty);
        if delta <= cfg.maxDelta.value then proposed
        else if v > difficulty then Finite(v - (delta - cfg.maxDelta.value))
        else Finite(v + (delta - cfg.maxDelta.value))
  }

  function Clamped(cfg: Config, d: Double): Double {
    var low := if Below(d, cfg.minDiff) then Finite(cfg.minDiff) else d;
    if Above(low, cfg.Ceiling()) then Finite(cfg.Ceiling()) else low
  }

  /** The difficulty that would have met the target. */
  function Ideal(difficulty: real, targetTime: real, average: real): Double {
    Divide(difficulty * targetTime, average)
  }

  function Proposed(cfg: Config, difficulty: real, average: real): Double {
    Clamped(cfg, Limited(cfg, difficulty, Ideal(difficulty, cfg.targetTime, average)))
  }

  /** Update: the new context and the new difficulty, if there is one. */
  function Updated(cfg: Config, c: Context, difficulty: real, ts: real, idle: bool, now: real)
    : (Context, Option<real>)
  {
    if c.lastTs.None? then
      (c.(lastTs := Some(ts), lastRtc := ts, times := []), None)
    else
      var next := Recorded(c, ts, idle);
      if !Retargets(cfg, c, ts) then (next, None)
      else
        var d := Proposed(cfg, difficulty, AverageInterval(c, ts));
        if Below(d, difficulty) || Above(d, difficulty) then
          (next.(lastRtc := ts, lastUpdate := Some(now), times := []),
           Some(if d.Finite? then d.value else difficulty))
        else (next, None)
  }

  // ----- laws of one update -----

  /** A change stays in the configured range and moves no further than the maximum step. */
  lemma ChangeIsBounded(cfg: Config, c: Context, difficulty: real, ts: real, idle: bool, now: real)
    requires cfg.Sane() && cfg.minDiff <= difficulty <= cfg.Ceiling()
    ensures
      var r := Updated(cfg, c, difficulty, ts, idle, now).1;
      r.Some? ==>
        && cfg.minDiff <= r.value <= cfg.Ceiling() && r.value != difficulty
        && (cfg.Limits() ==> Abs(r.value - difficulty) <= cfg.maxDelta.value)
  {
    hide AverageInterval, Retargets, Recorded, Ideal;
  }

  /** The difficulty rises only when shares come too fast and falls only when they come too slowly. */
  lemma ChangeHasReason(cfg: Config, c: Context, difficulty: real, ts: real, idle: bool, now: real)
    requires cfg.Sane() && cfg.minDiff <= difficulty <= cfg.Ceiling()
    requires c.lastTs.Some? && AverageInterval(c, ts) >= 0.0
    ensures
      var r := Updated(cfg, c, difficulty, ts, idle, now).1;
      r.Some? ==>
        && (r.value > difficulty ==> AverageInterval(c, ts) < cfg.TMin())
        && (r.value < difficulty ==> AverageInterval(c, ts) > cfg.TMax())
  {
    VarianceIsNotNegative(cfg);
    hide AverageInterval, Recorded, Proposed, Config.TMin, Config.TMax;
    if Retargets(cfg, c, ts) {
      ProposalHasReason(cfg, difficulty, AverageInterval(c, ts), cfg.TMin(), cfg.TMax());
    }
  }

  lemma ProposalHasReason(cfg: Config, difficulty: real, avg: real, tMin: real, tMax: real)
    requires cfg.Sane() && cfg.minDiff <= difficulty <= cfg.Ceiling()
    requires avg >= 0.0 && tMin <= cfg.targetTime <= tMax && !(tMin <= avg <= tMax)
    ensures
      var d := Proposed(cfg, difficulty, avg);
      (Above(d, difficulty) ==> avg < tMin) && (Below(d, difficulty) ==> avg > tMax)
  {
    hide Ideal, Clamped, Limited;
    IdealHasReason(difficulty, cfg.targetTime, avg);
    FollowsProposal(cfg, difficulty, Ideal(difficulty, cfg.targetTime, avg));
  }

  lemma IdealHasReason(d: real, t: real, avg: real)
    requires d >= 0.0 && t > 0.0 && avg >= 0.0
    ensures
      var q := Ideal(d, t, avg);
      && !q.NegInf? && (q.PosInf? ==> avg == 0.0)
      && (Above(q, d) ==> avg < t) && (Below(q, d) ==> avg > t)
  {
    Product(d, t);
    if avg > 0.0 {
      QuotientAgainst(d, t, avg, d * t, d * t / avg);
    }
  }

  lemma VarianceIsNotNegative(cfg: Config)
    requires cfg.Sane()
    ensures cfg.TMin() <= cfg.targetTime <= cfg.TMax()
  {
    assert cfg.variancePercent / 100.0 >= 0.0;
    Product(cfg.targetTime, cfg.variancePercent / 100.0);
  }

  lemma Product(x: real, y: real)
    requires x >= 0.0 && y >= 0.0
    ensures x * y >= 0.0
  {
  }

  lemma QuotientAgainst(d: real, t: real, avg: real, p: real, q: real)
    requires d >= 0.0 && t > 0.0 && avg > 0.0 && p == d * t && q == p / avg
    ensures q > d ==> avg < t
    ensures q < d ==> avg > t
  {
    assert q * avg == p;
    if avg >= t {
      Product(d, avg - t);
      if q > d { Stretch(q, d, avg); }
    }
    if avg <= t {
      Product(d, t - avg);
      if q < d { Stretch(d, q, avg); }
    }
  }

  lemma Stretch(x: real, y: real, s: real)
    requires x > y && s > 0.0
    ensures x * s > y * s
  {
  }

  /** Limiting and clamping keep the direction of a proposal. */
  lemma FollowsProposal(cfg: Config, difficulty: real, q: Double)
    requires cfg.Sane() && cfg.minDiff <= difficulty <= cfg.Ceiling()
    ensures
      var d := Clamped(cfg, Limited(cfg, difficulty, q));
      (Above(d, difficulty) ==> Above(q, difficulty)) && (Below(d, difficulty) ==> Below(q, difficulty))
  {
  }

  /** An average of zero divides by zero: with a maximum step configured nothing changes, without one
      the difficulty goes to its ceiling. */
  lemma ZeroAverage(cfg: Config, c: Context, difficulty: real, ts: real, idle: bool, now: real)
    requires cfg.Sane() && cfg.minDiff <= difficulty <= cfg.Ceiling() && difficulty > 0.0
    requires c.lastTs.Some? && Retargets(cfg, c, ts) && AverageInterval(c, ts) == 0.0
    ensures Updated(cfg, c, difficulty, ts, idle, now).1
         == if !cfg.Limits() && difficulty < cfg.Ceiling() then Some(cfg.Ceiling()) else None
  {
    hide AverageInterval, Retargets, Recorded;
    Stretch(difficulty, 0.0, cfg.targetTime);
  }

  // ----- what one update does -----

  /** `x`, or the end of the range it lies beyond. */
  function Cut(x: real, low: real, high: real): real {
    if x < low then low else if x > high then high else x
  }

  /** The tolerated averages lie around the target, on both sides by the configured percentage. */
  lemma ToleranceBand(cfg: Config)
    ensures cfg.TMin() + cfg.TMax() == 2.0 * cfg.targetTime
    ensures cfg.TMax() - cfg.targetTime == cfg.targetTime * cfg.variancePercent / 100.0
  {
  }

  /** The first update only starts the clocks. */
  lemma FirstUpdate(cfg: Config, c: Context, difficulty: real, ts: real, idle: bool, now: real)
    requires c.lastTs.None?
    ensures Updated(cfg, c, difficulty, ts, idle, now) == (Context(Some(ts), ts, [], c.lastUpdate), None)
  {
  }

  /** Every other update, in numbers. When the retarget time has passed and the average is outside the tolerance,
      the difficulty that would have met the target is brought within the maximum step and then within the range. */
  lemma UpdateInNumbers(cfg: Config, c: Context, difficulty: real, ts: real, idle: bool, now: real)
    requires cfg.Sane() && cfg.minDiff <= difficulty <= cfg.Ceiling()
    requires c.lastTs.Some? && AverageInterval(c, ts) > 0.0
    ensures
      var (next, r) := Updated(cfg, c, difficulty, ts, idle, now);
      var avg := AverageInterval(c, ts);
      var ideal := difficulty * cfg.targetTime / avg;
      var near := if cfg.maxDelta.Some? && cfg.maxDelta.value > 0.0
        then Cut(ideal, difficulty - cfg.maxDelta.value, difficulty + cfg.maxDelta.value) else ideal;
      var v := Cut(near, cfg.minDiff, cfg.Ceiling());
      && r == (if ts - c.lastRtc >= cfg.retargetTime && (avg < cfg.TMin() || avg > cfg.TMax()) && v != difficulty
               then Some(v) else None)
      && next.lastTs == (if idle then c.lastTs else Some(ts))
      && next.lastRtc == (if r.Some? then ts else c.lastRtc)
      && next.lastUpdate == (if r.Some? then Some(now) else c.lastUpdate)
  {
    hide AverageInterval, Config.TMin, Config.TMax;
    ProposedInNumbers(cfg, difficulty, AverageInterval(c, ts));
    hide Proposed, Cut;
  }

  lemma ProposedInNumbers(cfg: Config, difficulty: real, avg: real)
    requires cfg.Sane() && cfg.minDiff <= difficulty <= cfg.Ceiling() && avg > 0.0
    ensures
      var ideal := difficulty * cfg.targetTime / avg;
      var near := if cfg.maxDelta.Some? && cfg.maxDelta.value > 0.0
        then Cut(ideal, difficulty - cfg.maxDelta.value, difficulty + cfg.maxDelta.value) else ideal;
      Proposed(cfg, difficulty, avg) == Finite(Cut(near, cfg.minDiff, cfg.Ceiling()))
  {
    hide Limited, Clamped, Cut, Config.Ceiling;
    var ideal := difficulty * cfg.targetTime / avg;
    assert Ideal(difficulty, cfg.targetTime, avg) == Finite(ideal);
    StepIsCut(cfg, difficulty, ideal);
  }

  lemma StepIsCut(cfg: Config, difficulty: real, ideal: real)
    requires cfg.minDiff <= cfg.Ceiling()
    ensures
      var near := if cfg.maxDelta.Some? && cfg.maxDelta.value > 0.0
        then Cut(ideal, difficulty - cfg.maxDelta.value, difficulty + cfg.maxDelta.value) else ideal;
      Clamped(cfg, Limited(cfg, difficulty, Finite(ideal))) == Finite(Cut(near, cfg.minDiff, cfg.Ceiling()))
  {
    hide Config.Ceiling;
  }
}
