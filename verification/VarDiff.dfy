/** VarDiffManager.cs and WorkerContextBase.cs: the controller and the worker whose
    difficulty it steers, updated in place. */
module VarDiff {
  import opened Common
  import opened CircularBuffer
  import opened VarDiffSpec
  import opened VarDiffRuns

  /** VarDiffContext. The buffer is created by the first update. */
  class VarDiffContext {
    var LastTs: Option<real>
    var LastRtc: real
    var TimeBuffer: Buffer?<real>
    var LastUpdate: Option<real>

    constructor ()
      ensures Valid() && Value() == Context(None, 0.0, [], None) && TimeBuffer == null
    {
      LastTs, LastRtc, TimeBuffer, LastUpdate := None, 0.0, null, None;
    }

    ghost function Repr(): set<object>
      reads this
    {
      if TimeBuffer == null then {this} else {this, TimeBuffer, TimeBuffer.buffer}
    }

    ghost predicate Valid()
      reads this, Repr()
    {
      && (LastTs.Some? ==> TimeBuffer != null)
      && (TimeBuffer != null ==>
            TimeBuffer.Valid() && TimeBuffer.dflt == 0.0 && TimeBuffer.buffer.Length == BUFFER_SIZE)
    }

    ghost function Value(): Context
      requires Valid()
      reads this, Repr()
    {
      Context(LastTs, LastRtc, if TimeBuffer == null then [] else TimeBuffer.Contents(), LastUpdate)
    }
  }

  class VarDiffManager {
    const options: Config
    const tMin: real
    const tMax: real

    ghost predicate Valid() {
      tMin == options.TMin() && tMax == options.TMax()
    }

    constructor (options: Config)
      ensures Valid() && this.options == options
    {
      var variance := options.targetTime * (options.variancePercent / 100.0);
      this.options := options;
      tMin := options.targetTime - variance;
      tMax := options.targetTime + variance;
    }

    /** The maximum step. */
    method Limit(difficulty: real, proposed: Double) returns (newDiff: Double)
      ensures newDiff == Limited(options, difficulty, proposed)
    {
      newDiff := proposed;
      if options.maxDelta.Some? && options.maxDelta.value > 0.0 {
        var limit := options.maxDelta.value;
        match newDiff {
          case Finite(v) =>
            var delta := Abs(v - difficulty);
            if delta > limit {
              if v > difficulty {
                newDiff := Finite(v - (delta - limit));
              } else if v < difficulty {
                newDiff := Finite(v + (delta - limit));
              }
            }
          case _ => newDiff := NaN;
        }
      }
    }

    /** The part of Update that computes on numbers only. */
    method Propose(difficulty: real, avg: real) returns (newDiff: Double)
      ensures newDiff == Proposed(options, difficulty, avg)
    {
      hide Ideal, Limited;
      newDiff := Limit(difficulty, Ideal(difficulty, options.targetTime, avg));
      if Below(newDiff, options.minDiff) {
        newDiff := Finite(options.minDiff);
      }
      if Above(newDiff, options.Ceiling()) {
        newDiff := Finite(options.Ceiling());
      }
    }

    /** Update: `ts` is the wall clock in seconds, `now` what the master clock says. */
    method Update(ctx: VarDiffContext, difficulty: real, isIdleUpdate: bool, ts: real, now: real)
      returns (r: Option<real>)
      requires Valid() && ctx.Valid()
      modifies ctx.Repr()
      ensures ctx.Valid() && fresh(ctx.Repr() - old(ctx.Repr()))
      ensures (ctx.Value(), r) == Updated(options, old(ctx.Value()), difficulty, ts, isIdleUpdate, now)
    {
      hide Proposed, Total, Abs;
      if ctx.LastTs.None? {
        ctx.LastRtc := ts;
        ctx.LastTs := Some(ts);
        ctx.TimeBuffer := new Buffer(0.0, BUFFER_SIZE, []);
        return None;
      }
      ghost var c := ctx.Value();
      var sinceLast := ts - ctx.LastTs.value;
      var timeTotal := Sum(ctx.TimeBuffer);
      var timeCount := ctx.TimeBuffer.size;
      var avg := (timeTotal + sinceLast) / (timeCount + 1) as real;
      assert avg == AverageInterval(c, ts);

      if !isIdleUpdate {
        ctx.TimeBuffer.PushBack(sinceLast);
        ctx.LastTs := Some(ts);
      }
      assert ctx.Value() == Recorded(c, ts, isIdleUpdate);
      hide AverageInterval, Recorded;

      if ts - ctx.LastRtc < options.retargetTime || (avg >= tMin && avg <= tMax) {
        return None;
      }
      var newDiff := Propose(difficulty, avg);
      if Below(newDiff, difficulty) || Above(newDiff, difficulty) {
        ctx.LastRtc := ts;
        ctx.LastUpdate := Some(now);
        ctx.TimeBuffer := new Buffer(0.0, BUFFER_SIZE, []);
        return Some(if newDiff.Finite? then newDiff.value else difficulty);
      }
      return None;
    }
  }

  /** WorkerContextBase, as far as the difficulty is concerned. */
  class WorkerContext {
    var Difficulty: real
    var PreviousDifficulty: Option<real>
    var pendingDifficulty: Option<real>
    const VarDiff: VarDiffContext

    ghost predicate Valid()
      reads this, VarDiff, VarDiff.Repr()
    {
      VarDiff.Valid()
    }

    ghost function Value(): Worker
      requires Valid()
      reads this, VarDiff, VarDiff.Repr()
    {
      Worker(VarDiff.Value(), Difficulty, PreviousDifficulty, pendingDifficulty)
    }

    /** Init with a vardiff configuration. */
    constructor (difficulty: real)
      ensures Valid() && Value() == Fresh(difficulty).worker
      ensures fresh(VarDiff) && fresh(VarDiff.Repr())
    {
      Difficulty, PreviousDifficulty, pendingDifficulty := difficulty, None, None;
      VarDiff := new VarDiffContext();
    }

    method EnqueueNewDifficulty(difficulty: real)
      modifies this`pendingDifficulty
      ensures pendingDifficulty == Some(difficulty)
    {
      pendingDifficulty := Some(difficulty);
    }

    method SetDifficulty(difficulty: real)
      modifies this`Difficulty, this`PreviousDifficulty
      ensures Difficulty == difficulty && PreviousDifficulty == Some(old(Difficulty))
    {
      PreviousDifficulty := Some(Difficulty);
      Difficulty := difficulty;
    }

    method ApplyPendingDifficulty() returns (applied: bool)
      requires Valid()
      modifies this
      ensures Valid() && applied == old(pendingDifficulty).Some? && pendingDifficulty == None
      ensures Difficulty == if applied then old(pendingDifficulty).value else old(Difficulty)
      ensures PreviousDifficulty == if applied then Some(old(Difficulty)) else old(PreviousDifficulty)
      ensures forall cfg :: Value() == WorkerStep(cfg, old(Value()), Apply)
    {
      applied := pendingDifficulty.Some?;
      if applied {
        SetDifficulty(pendingDifficulty.value);
        pendingDifficulty := None;
      }
    }
  }

  /** PoolBase.UpdateVarDiffAsync and OnVarDiffUpdateAsync: one update event. */
  method UpdateVarDiff(manager: VarDiffManager, worker: WorkerContext, isIdleUpdate: bool, ts: real, now: real)
    requires manager.Valid() && worker.Valid()
    requires (worker as object) !in worker.VarDiff.Repr()
    modifies worker, worker.VarDiff.Repr()
    ensures worker.Valid() && fresh(worker.VarDiff.Repr() - old(worker.VarDiff.Repr()))
    ensures worker.Difficulty == old(worker.Difficulty) && worker.PreviousDifficulty == old(worker.PreviousDifficulty)
    ensures worker.Value() == WorkerStep(manager.options, old(worker.Value()), Update(ts, isIdleUpdate, now))
  {
    hide Updated;
    var newDiff := manager.Update(worker.VarDiff, worker.Difficulty, isIdleUpdate, ts, now);
    if newDiff.Some? {
      worker.EnqueueNewDifficulty(newDiff.value);
    }
  }
}
