/** Runs of a worker: updates by shares and by the idle timer, and the moments when
    a pending difficulty is applied. */
module VarDiffRuns {
  import opened Common
  import opened CircularBuffer
  import opened VarDiffSpec

  datatype Worker = Worker(context: Context, difficulty: real, previous: Option<real>, pending: Option<real>)

  datatype Event = Update(ts: real, idle: bool, now: real) | Apply

  /** A worker with three things recorded beside it: since when the buffer has been collecting, how many
      intervals were pushed since, and when the intervals at hand opened, the last one being still open. */
  datatype State = State(worker: Worker, anchor: real, pushes: nat, marks: seq<real>)

  function Result(cfg: Config, w: Worker, ts: real, idle: bool, now: real): (Context, Option<real>) {
    Updated(cfg, w.context, w.difficulty, ts, idle, now)
  }

  /** An update queues the new difficulty; applying makes it current. */
  function WorkerStep(cfg: Config, w: Worker, e: Event): Worker {
    match e
    case Update(ts, idle, now) =>
      var (c, r) := Result(cfg, w, ts, idle, now);
      w.(context := c, pending := if r.Some? then r else w.pending)
    case Apply =>
      if w.pending.Some? then w.(difficulty := w.pending.value, previous := Some(w.difficulty), pending := None) else w
  }

  predicate Changes(cfg: Config, w: Worker, e: Event) {
    e.Update? && Result(cfg, w, e.ts, e.idle, e.now).1.Some?
  }

  function Step(cfg: Config, s: State, e: Event): State {
    var w := WorkerStep(cfg, s.worker, e);
    if e.Apply? then s.(worker := w)
    else if s.worker.context.lastTs.None? || Changes(cfg, s.worker, e) then
      var since := if w.context.lastTs.Some? then w.context.lastTs.value else e.ts;
      State(w, since, 0, [since])
    else if e.idle then s.(worker := w)
    else State(w, s.anchor, s.pushes + 1, Marked(s.marks, e.ts))
  }

  /** A share opens an interval; the oldest one goes when the buffer is full. */
  function Marked(marks: seq<real>, ts: real): seq<real> {
    (if |marks| > BUFFER_SIZE then marks[1..] else marks) + [ts]
  }

  /** A worker as Init leaves it, in a pool with variable difficulty. */
  function Fresh(difficulty: real): State {
    State(Worker(Context(None, 0.0, [], None), difficulty, None, None), 0.0, 0, [])
  }

  function Run(cfg: Config, difficulty: real, events: seq<Event>): State {
    if events == [] then Fresh(difficulty)
    else Step(cfg, Run(cfg, difficulty, events[..|events| - 1]), events[|events| - 1])
  }

  /** Time does not run backwards. */
  predicate Timely(events: seq<Event>) {
    forall i, j :: 0 <= i < j < |events| && events[i].Update? && events[j].Update? ==> events[i].ts <= events[j].ts
  }

  predicate InRange(cfg: Config, d: real) {
    cfg.minDiff <= d <= cfg.Ceiling()
  }

  // ----- range and step size -----

  ghost predicate Bounded(cfg: Config, w: Worker) {
    && InRange(cfg, w.difficulty)
    && (w.pending.Some? ==>
          && InRange(cfg, w.pending.value)
          && (cfg.Limits() ==> Abs(w.pending.value - w.difficulty) <= cfg.maxDelta.value))
  }

  /** The current and the pending difficulty stay in the configured range, and the pending one is at
      most the maximum step away: so is what Apply makes of it. */
  lemma {:induction false} AlwaysBounded(cfg: Config, difficulty: real, events: seq<Event>)
    requires cfg.Sane() && InRange(cfg, difficulty)
    ensures Bounded(cfg, Run(cfg, difficulty, events).worker)
  {
    hide Updated;
    if events != [] {
      var n := |events| - 1;
      AlwaysBounded(cfg, difficulty, events[..n]);
      var w, e := Run(cfg, difficulty, events[..n]).worker, events[n];
      if e.Update? {
        ChangeIsBounded(cfg, w.context, w.difficulty, e.ts, e.idle, e.now);
      }
    }
  }

  /** Every applied change moves the difficulty by at most the maximum step. */
  lemma AppliedStepIsBounded(cfg: Config, difficulty: real, events: seq<Event>)
    requires cfg.Sane() && InRange(cfg, difficulty) && cfg.Limits()
    ensures
      var w := Run(cfg, difficulty, events).worker;
      Abs(WorkerStep(cfg, w, Apply).difficulty - w.difficulty) <= cfg.maxDelta.value
  {
    AlwaysBounded(cfg, difficulty, events);
  }

  // ----- spacing of changes -----

  /** After a change at ts, the retarget clock never goes back behind ts. */
  lemma {:induction false} ClockAfterChange(cfg: Config, difficulty: real, events: seq<Event>, i: nat)
    requires Timely(events) && i < |events|
    requires Changes(cfg, Run(cfg, difficulty, events[..i]).worker, events[i])
    ensures Run(cfg, difficulty, events).worker.context.lastRtc >= events[i].ts
  {
    hide AverageInterval, Retargets, Proposed;
    var n := |events| - 1;
    if i < n {
      assert events[..n][..i] == events[..i];
      ClockAfterChange(cfg, difficulty, events[..n], i);
    }
  }

  /** Two changes are at least the retarget time apart. */
  lemma ChangesAreSpaced(cfg: Config, difficulty: real, events: seq<Event>, i: nat, j: nat)
    requires Timely(events) && i < j < |events|
    requires Changes(cfg, Run(cfg, difficulty, events[..i]).worker, events[i])
    requires Changes(cfg, Run(cfg, difficulty, events[..j]).worker, events[j])
    ensures events[j].ts - events[i].ts >= cfg.retargetTime
  {
    assert events[..j][..i] == events[..i] && events[..j][i] == events[i];
    ClockAfterChange(cfg, difficulty, events[..j], i);
    hide AverageInterval, Proposed;
  }

  // ----- what the buffer measures -----

  /** At time `clock`: the stored intervals are the gaps between the marks, the last mark is the last share,
      and the marks are in order. As long as no interval was pushed out the first mark is the anchor. */
  ghost predicate Telescopes(s: State, clock: real) {
    var c := s.worker.context;
    c.lastTs.Some? ==>
      && s.anchor <= c.lastRtc <= clock && c.lastTs.value <= clock
      && |s.marks| == |c.times| + 1 && s.marks[|c.times|] == c.lastTs.value
      && (forall k :: 0 <= k < |c.times| ==> s.marks[k] <= s.marks[k + 1] && c.times[k] == s.marks[k + 1] - s.marks[k])
      && |c.times| == (if s.pushes <= BUFFER_SIZE then s.pushes else BUFFER_SIZE)
      && (s.pushes <= BUFFER_SIZE ==> s.marks[0] == s.anchor)
  }

  ghost predicate Until(events: seq<Event>, clock: real) {
    forall i :: 0 <= i < |events| && events[i].Update? ==> events[i].ts <= clock
  }

  lemma TelescopesStep(cfg: Config, s: State, e: Event, before: real, clock: real)
    requires Telescopes(s, before) && before <= clock
    requires e.Update? ==> before <= e.ts <= clock
    ensures Telescopes(Step(cfg, s, e), clock)
  {
    hide AverageInterval, Retargets, Proposed;
    if e.Update? && !e.idle && s.worker.context.lastTs.Some? && !Changes(cfg, s.worker, e) {
      ShareTelescopes(cfg, s, e, before, clock);
    }
  }

  lemma ShareTelescopes(cfg: Config, s: State, e: Event, before: real, clock: real)
    requires Telescopes(s, before) && before <= clock && s.worker.context.lastTs.Some?
    requires e.Update? && !e.idle && before <= e.ts <= clock && !Changes(cfg, s.worker, e)
    ensures Telescopes(Step(cfg, s, e), clock)
  {
    hide AverageInterval, Retargets, Proposed;
  }

  lemma {:induction false} AlwaysTelescopes(cfg: Config, difficulty: real, events: seq<Event>, clock: real)
    requires Timely(events) && Until(events, clock)
    ensures Telescopes(Run(cfg, difficulty, events), clock)
  {
    hide Step, Telescopes;
    if events == [] {
      FreshTelescopes(difficulty, clock);
    } else {
      var n := |events| - 1;
      var e := events[n];
      var before := if e.Update? then e.ts else clock;
      AlwaysTelescopes(cfg, difficulty, events[..n], before);
      TelescopesStep(cfg, Run(cfg, difficulty, events[..n]), e, before, clock);
    }
  }

  lemma FreshTelescopes(difficulty: real, clock: real)
    ensures Telescopes(Fresh(difficulty), clock)
  {
  }

  /** Gaps between marks add up to the way from the first mark to the last. */
  lemma {:induction false} GapsAddUp(marks: seq<real>, times: seq<real>)
    requires |marks| == |times| + 1
    requires forall k :: 0 <= k < |times| ==> marks[k] <= marks[k + 1] && times[k] == marks[k + 1] - marks[k]
    ensures Total(times) == marks[|times|] - marks[0] && marks[0] <= marks[|times|]
  {
    if times != [] {
      var n := |times| - 1;
      GapsAddUp(marks[..n + 1], times[..n]);
    }
  }

  /** In every run the average is the time since the oldest stored interval opened over the number of
      intervals: never negative, and positive exactly when that interval opened before now. */
  lemma AverageOverRun(cfg: Config, difficulty: real, events: seq<Event>, ts: real)
    requires Timely(events) && Until(events, ts)
    requires Run(cfg, difficulty, events).worker.context.lastTs.Some?
    ensures
      var s := Run(cfg, difficulty, events);
      var c := s.worker.context;
      && |s.marks| == |c.times| + 1 && s.marks[0] <= ts
      && Total(c.times) + SinceLast(c, ts) == ts - s.marks[0]
      && AverageInterval(c, ts) == (ts - s.marks[0]) / |s.marks| as real
      && AverageInterval(c, ts) >= 0.0
      && (AverageInterval(c, ts) > 0.0 <==> s.marks[0] < ts)
  {
    AlwaysTelescopes(cfg, difficulty, events, ts);
    var s := Run(cfg, difficulty, events);
    hide Run;
    GapsAddUp(s.marks, s.worker.context.times);
    Quotient(ts - s.marks[0], |s.marks|);
  }

  /** While no interval has been pushed out, the oldest one opened at the anchor, no later than the last change
      of the difficulty: the average is positive once the retarget time has passed, even though idle updates move
      the retarget clock and not the last share. */
  lemma PositiveBeforeOverflow(cfg: Config, difficulty: real, events: seq<Event>, ts: real)
    requires Timely(events) && Until(events, ts)
    requires
      var s := Run(cfg, difficulty, events);
      && s.worker.context.lastTs.Some? && s.pushes <= BUFFER_SIZE
      && cfg.retargetTime > 0.0 && ts - s.worker.context.lastRtc >= cfg.retargetTime
    ensures
      var s := Run(cfg, difficulty, events);
      && |s.marks| >= 1 && s.marks[0] == s.anchor <= s.worker.context.lastRtc
      && AverageInterval(s.worker.context, ts) > 0.0
  {
    AlwaysTelescopes(cfg, difficulty, events, ts);
    AverageOverRun(cfg, difficulty, events, ts);
    hide Run, AverageInterval;
  }

  lemma Quotient(x: real, n: nat)
    requires x >= 0.0 && n >= 1
    ensures x / n as real >= 0.0 && (x / n as real > 0.0 <==> x > 0.0)
  {
  }

  /** In every run a change is a rise only when shares came too fast and a fall only when they came too
      slowly. */
  lemma ChangesHaveReasons(cfg: Config, difficulty: real, events: seq<Event>, ts: real, idle: bool, now: real)
    requires cfg.Sane() && InRange(cfg, difficulty) && Timely(events) && Until(events, ts)
    requires Changes(cfg, Run(cfg, difficulty, events).worker, Update(ts, idle, now))
    ensures
      var w := Run(cfg, difficulty, events).worker;
      var next := Result(cfg, w, ts, idle, now).1.value;
      && w.context.lastTs.Some?
      && (next > w.difficulty ==> AverageInterval(w.context, ts) < cfg.TMin())
      && (next < w.difficulty ==> AverageInterval(w.context, ts) > cfg.TMax())
  {
    var w := Run(cfg, difficulty, events).worker;
    assert w.context.lastTs.Some?;
    AlwaysBounded(cfg, difficulty, events);
    AverageOverRun(cfg, difficulty, events, ts);
    hide Run, AverageInterval, Updated;
    ChangeHasReason(cfg, w.context, w.difficulty, ts, idle, now);
  }

  // ----- what an overflowing buffer can do -----

  function Pool(maxDelta: Option<real>): Config {
    Config(1.0, Some(10.0), maxDelta, 15.0, 90.0, 30.0, 1000000.0)
  }

  /** A first share at time 0 and k shares at time 165. */
  function Burst(k: nat): seq<Event> {
    [Update(0.0, false, 0.0)] + seq(k, _ => Update(165.0, false, 0.0))
  }

  function Intervals(k: nat): seq<real>
    requires 1 <= k <= 11
  {
    if k == 11 then seq(10, _ => 0.0) else [165.0] + seq(k - 1, _ => 0.0)
  }

  lemma TotalOfIntervals(k: nat)
    requires 1 <= k <= 11
    ensures Total(Intervals(k)) == if k == 11 then 0.0 else 165.0
  {
    if k == 11 {
      TotalOfZeros(10);
    } else {
      TotalAppend([165.0], seq(k - 1, _ => 0.0));
      TotalOfZeros(k - 1);
      assert Total([165.0]) == Total([]) + 165.0;
    }
  }

  /** The context after k shares of the burst. */
  function BurstContext(k: nat): Context
    requires k <= 11
  {
    if k == 0 then Context(Some(0.0), 0.0, [], None) else Context(Some(165.0), 0.0, Intervals(k), None)
  }

  lemma BurstStep(k: nat)
    requires 1 <= k <= 11
    ensures Recorded(BurstContext(k - 1), 165.0, false) == BurstContext(k)
    ensures AverageInterval(BurstContext(k - 1), 165.0) >= 15.0
  {
    if k > 1 {
      TotalOfIntervals(k - 1);
      AtLeastFifteen(k);
    }
  }

  lemma AtLeastFifteen(k: nat)
    requires 1 <= k <= 11
    ensures 165.0 / k as real >= 15.0
  {
    var x := k as real;
    assert 165.0 >= 15.0 * x;
    assert 165.0 / x * x == 165.0;
  }

  /** While the long first interval is still in the buffer, nothing changes; the eleventh push drops it. */
  lemma {:induction false} DuringBurst(maxDelta: Option<real>, k: nat)
    requires k <= 11
    ensures Run(Pool(maxDelta), 1.0, Burst(k)).worker == Worker(BurstContext(k), 1.0, None, None)
  {
    hide Updated, Recorded, AverageInterval, Intervals;
    if k == 0 {
      BeforeBurst(maxDelta);
    } else {
      DuringBurst(maxDelta, k - 1);
      assert Burst(k)[..k] == Burst(k - 1);
      BurstStep(k);
      NothingToDo(Pool(maxDelta), BurstContext(k - 1));
      hide BurstContext, Pool;
    }
  }

  lemma BeforeBurst(maxDelta: Option<real>)
    ensures Run(Pool(maxDelta), 1.0, Burst(0)).worker == Worker(BurstContext(0), 1.0, None, None)
  {
    assert Burst(0)[..0] == [];
  }

  /** Shares that come too slowly at the lowest difficulty change nothing. */
  lemma NothingToDo(cfg: Config, c: Context)
    requires cfg.minDiff == 1.0 && cfg.Sane() && cfg.TMin() <= 15.0
    requires c.lastTs.Some? && AverageInterval(c, 165.0) >= 15.0
    ensures Updated(cfg, c, 1.0, 165.0, false, 0.0) == (Recorded(c, 165.0, false), None)
  {
    ChangeIsBounded(cfg, c, 1.0, 165.0, false, 0.0);
    ChangeHasReason(cfg, c, 1.0, 165.0, false, 0.0);
    hide AverageInterval, Recorded, Retargets, Proposed;
  }

  /** Once an interval was pushed out, the average can be zero although the retarget time has passed:
      the next share then sends the difficulty to its ceiling, or leaves it alone where a maximum step
      is configured. */
  lemma OverflowLosesTime(maxDelta: Option<real>)
    ensures
      var s := Run(Pool(maxDelta), 1.0, Burst(11));
      var c := s.worker.context;
      && Timely(Burst(11)) && c.lastTs.Some?
      && 165.0 - c.lastRtc >= Pool(maxDelta).retargetTime && AverageInterval(c, 165.0) == 0.0
      && Result(Pool(maxDelta), s.worker, 165.0, false, 0.0).1
         == if maxDelta.Some? && maxDelta.value > 0.0 then None else Some(10.0)
  {
    hide Run, Updated, AverageInterval;
    DuringBurst(maxDelta, 11);
    BurstAverage(maxDelta);
    ZeroAverage(Pool(maxDelta), BurstContext(11), 1.0, 165.0, false, 0.0);
  }

  lemma BurstAverage(maxDelta: Option<real>)
    ensures AverageInterval(BurstContext(11), 165.0) == 0.0 && Retargets(Pool(maxDelta), BurstContext(11), 165.0)
  {
    TotalOfIntervals(11);
    hide Intervals;
  }
}
