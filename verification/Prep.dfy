/** `ccf.prep.pipeline.advance` and `ccf.prep.jobs._drive_one`: what a worker of the preparation queue can report. */
module PrepPipeline {
  import opened Nulls
  import JobQueue

  datatype StageState = Pending | Running | Complete | Failed | Skipped

  datatype RunStatus = NotStarted | InProgress | Completed | Broken | Unsupported | Orphaned

  const STAGES := ["parse", "screen", "expand", "classify", "embed"]

  /** The keys of `_STAGE_RUNNERS`. */
  const REGISTERED := {"parse", "screen", "expand", "classify", "embed"}

  /** A preparation run; `stages` follows the order of `STAGES`. */
  datatype PrepRun = PrepRun(status: RunStatus, stages: seq<StageState>)

  type Run = r: PrepRun | |r.stages| == 5 witness PrepRun(NotStarted, [Pending, Pending, Pending, Pending, Pending])

  /** A stage runner; `None` is an exception. */
  type Runner = Run -> Option<Run>

  predicate Through(s: StageState) {
    s == Complete || s == Skipped
  }

  predicate Stopped(status: RunStatus) {
    status == Broken || status == Unsupported || status == Orphaned
  }

  /** The first stage that is neither complete nor skipped. */
  function FirstOpen(stages: seq<StageState>): (k: Option<nat>)
    ensures k == None <==> forall i :: 0 <= i < |stages| ==> Through(stages[i])
    ensures k.Some? ==> k.value < |stages| && !Through(stages[k.value])
    ensures k.Some? ==> forall i :: 0 <= i < k.value ==> Through(stages[i])
  {
    if stages == [] then None
    else if !Through(stages[0]) then Some(0)
    else match FirstOpen(stages[1..])
      case None => None
      case Some(k) => Some(k + 1)
  }

  method NextStage(run: Run) returns (k: Option<nat>)
    ensures k == FirstOpen(run.stages)
  {
    for i := 0 to |STAGES|
      invariant forall j :: 0 <= j < i ==> Through(run.stages[j])
    {
      if !Through(run.stages[i]) {
        return Some(i);
      }
    }
    return None;
  }

  function OpenCount(stages: seq<StageState>): nat {
    if stages == [] then 0 else (if Through(stages[0]) then 0 else 1) + OpenCount(stages[1..])
  }

  lemma {:induction false} OpenCountDrops(before: seq<StageState>, after: seq<StageState>, k: nat)
    requires k < |before| == |after| && !Through(before[k]) && Through(after[k])
    requires forall i :: 0 <= i < |before| && i != k ==> after[i] == before[i]
    ensures OpenCount(after) == OpenCount(before) - 1
  {
    if k == 0 {
      assert after[1..] == before[1..];
    } else {
      OpenCountDrops(before[1..], after[1..], k - 1);
    }
  }

  /**
   * What every runner does when it returns: it stops the run, or it finishes its own stage and no other; calling the
   * whole run completed is not its business.
   */
  predicate Delivers(before: Run, k: nat, after: Run)
    requires k < 5
  {
    Stopped(after.status)
    || (after.status != Completed && Through(after.stages[k])
        && forall i :: 0 <= i < 5 && i != k ==> after.stages[i] == before.stages[i])
  }

  ghost predicate AllDeliver(runners: map<string, Runner>) {
    forall k: nat, run: Run :: k < 5 && STAGES[k] in runners && runners[STAGES[k]](run).Some? ==>
      Delivers(run, k, runners[STAGES[k]](run).value)
  }

  /** `_reconcile_organization` when the source is gone. */
  function Orphan(run: Run): Run {
    PrepRun(Orphaned, if run.stages[0] == Complete then run.stages else run.stages[0 := Skipped])
  }

  /** The run as `advance` leaves it; `None` is an exception from a runner. */
  function Advanced(runners: map<string, Runner>, found: Run -> bool, run: Run): Option<Run>
    requires AllDeliver(runners)
    decreases OpenCount(run.stages)
  {
    match FirstOpen(run.stages)
    case None => Some(run.(status := Completed))
    case Some(k) =>
      if STAGES[k] !in runners then Some(run)
      else if !found(run) then Some(Orphan(run))
      else match runners[STAGES[k]](run)
        case None => None
        case Some(next) =>
          if Stopped(next.status) then Some(next)
          else
            assert Delivers(run, k, next);
            OpenCountDrops(run.stages, next.stages, k);
            Advanced(runners, found, next)
  }

  method Advance(runners: map<string, Runner>, found: Run -> bool, run: Run) returns (r: Option<Run>)
    requires AllDeliver(runners)
    ensures r == Advanced(runners, found, run)
  {
    var current: Run := run;
    var stage := NextStage(current);
    while stage.Some?
      invariant stage == FirstOpen(current.stages)
      invariant Advanced(runners, found, current) == Advanced(runners, found, run)
      decreases OpenCount(current.stages)
    {
      if STAGES[stage.value] !in runners {
        break;
      }
      if !found(current) {
        return Some(Orphan(current));
      }
      var next := runners[STAGES[stage.value]](current);
      if next == None {
        return None;
      }
      if Stopped(next.value.status) {
        return next;
      }
      assert Delivers(current, stage.value, next.value);
      OpenCountDrops(current.stages, next.value.stages, stage.value);
      current := next.value;
      stage := NextStage(current);
    }
    if stage == None {
      current := current.(status := Completed);
    }
    return Some(current);
  }

  /** What the worker makes of it; an exception is recorded as a failure. */
  function Reported(ending: Option<Run>): JobQueue.Verdict {
    match ending
    case None => JobQueue.GaveUp
    case Some(run) =>
      match run.status
      case Completed => JobQueue.Finished
      case Unsupported => JobQueue.Finished
      case Orphaned => JobQueue.Finished
      case Broken => JobQueue.GaveUp
      case _ => JobQueue.MoreStages
  }

  ghost predicate NeverHandsBack(runners: map<string, Runner>)
    requires AllDeliver(runners)
  {
    forall found: Run -> bool, run: Run :: Reported(Advanced(runners, found, run)) != JobQueue.MoreStages
  }

  predicate EveryStageHasRunner(runners: map<string, Runner>) {
    forall k :: 0 <= k < 5 ==> STAGES[k] in runners
  }

  lemma {:induction false} RegisteredRunsEnd(runners: map<string, Runner>, found: Run -> bool, run: Run)
    requires AllDeliver(runners) && EveryStageHasRunner(runners)
    ensures Reported(Advanced(runners, found, run)) != JobQueue.MoreStages
    decreases OpenCount(run.stages)
  {
    var stage := FirstOpen(run.stages);
    if stage.Some? && found(run) {
      var next := runners[STAGES[stage.value]](run);
      if next.Some? && !Stopped(next.value.status) {
        assert Delivers(run, stage.value, next.value);
        OpenCountDrops(run.stages, next.value.stages, stage.value);
        RegisteredRunsEnd(runners, found, next.value);
      }
    }
  }

  /** The run that waits at stage `k`, with every earlier stage complete. */
  function WaitingAt(k: nat): Run {
    PrepRun(InProgress, seq(5, i => if i < k then Complete else Pending))
  }

  /**
   * A worker hands a run back for another claim only for want of a stage runner: whatever the sources, the runs and
   * the runners' own failures, it never does exactly when every stage has one.
   */
  lemma HandsBackIffUnregistered(runners: map<string, Runner>)
    requires AllDeliver(runners)
    ensures NeverHandsBack(runners) <==> EveryStageHasRunner(runners)
  {
    if EveryStageHasRunner(runners) {
      forall found: Run -> bool, run: Run
        ensures Reported(Advanced(runners, found, run)) != JobQueue.MoreStages
      {
        RegisteredRunsEnd(runners, found, run);
      }
    } else {
      var k: nat :| k < 5 && STAGES[k] !in runners;
      var run := WaitingAt(k);
      var found: Run -> bool := r => true;
      assert !Through(run.stages[k]) && forall i :: 0 <= i < k ==> Through(run.stages[i]);
      assert FirstOpen(run.stages) == Some(k);
      assert Reported(Advanced(runners, found, run)) == JobQueue.MoreStages;
    }
  }

  /** The five runners that ship cover the five stages, so no job is handed back and no run passes the cap. */
  lemma ShippedQueueStaysWithinCap(runners: map<string, Runner>, found: Run -> bool, runs: seq<Run>,
                                   q: JobQueue.Queue, steps: seq<JobQueue.Step>, cap: nat)
    requires AllDeliver(runners) && runners.Keys == REGISTERED
    requires JobQueue.LocksDisjoint(q) && JobQueue.AllWithinCap(q, cap) && |runs| == |steps|
    requires forall i :: 0 <= i < |steps| && steps[i].Report? ==>
      steps[i].verdict == Reported(Advanced(runners, found, runs[i])) || steps[i].verdict == JobQueue.GaveUp
    ensures JobQueue.AlwaysWithinCap(q, steps, cap)
    ensures JobQueue.ActedOver(q, steps, cap) <= JobQueue.Total(q.jobs, cap)
  {
    forall k | 0 <= k < 5 ensures STAGES[k] in runners {
      assert STAGES[k] in REGISTERED;
    }
    forall i | 0 <= i < |steps| && steps[i].Report? ensures steps[i].verdict != JobQueue.MoreStages {
      RegisteredRunsEnd(runners, found, runs[i]);
    }
    JobQueue.NoHandBacksNeverOverdraw(q, steps, cap);
    JobQueue.QueueComesToRest(q, steps, cap);
    JobQueue.CapHoldsIffNeverOverdrawn(q, steps, cap);
  }

  // ---- what the outcomes mean ----

  predicate AllThrough(run: Run) {
    forall k :: 0 <= k < 5 ==> run.stages[k] == Complete || run.stages[k] == Skipped
  }

  /**
   * A run ends completed only with every stage complete or skipped. The worker reports it finished exactly when it is
   * completed, unsupported or orphaned, and gives up exactly when a runner raised or broke it.
   */
  lemma {:induction false} OutcomesMean(runners: map<string, Runner>, found: Run -> bool, run: Run)
    requires AllDeliver(runners) && (run.status == Completed ==> AllThrough(run))
    ensures var ending := Advanced(runners, found, run);
      && (ending.Some? && ending.value.status == Completed ==> AllThrough(ending.value))
      && (Reported(ending) == JobQueue.Finished
          <==> ending.Some? && ending.value.status in {Completed, Unsupported, Orphaned})
      && (Reported(ending) == JobQueue.GaveUp <==> ending == None || ending.value.status == Broken)
    decreases OpenCount(run.stages)
  {
    var stage := FirstOpen(run.stages);
    if stage.Some? && STAGES[stage.value] in runners && found(run) {
      var next := runners[STAGES[stage.value]](run);
      if next.Some? && !Stopped(next.value.status) {
        assert Delivers(run, stage.value, next.value);
        OpenCountDrops(run.stages, next.value.stages, stage.value);
        OutcomesMean(runners, found, next.value);
      }
    }
  }

  /**
   * The next stage is the first open one. If the source is gone the run is orphaned without its runner being called;
   * if the runner raises, or stops the run, that is how the run ends.
   */
  lemma FirstOpenDecides(runners: map<string, Runner>, found: Run -> bool, run: Run, k: nat)
    requires AllDeliver(runners) && k < 5 && STAGES[k] in runners
    requires !Through(run.stages[k]) && forall i :: 0 <= i < k ==> Through(run.stages[i])
    ensures !found(run) ==>
      var ending := Advanced(runners, found, run);
      ending.Some? && ending.value.status == Orphaned && ending.value.stages[1..] == run.stages[1..]
    ensures found(run) && runners[STAGES[k]](run) == None ==> Advanced(runners, found, run) == None
    ensures found(run) && runners[STAGES[k]](run).Some? && Stopped(runners[STAGES[k]](run).value.status) ==>
      Advanced(runners, found, run) == runners[STAGES[k]](run)
  {
    assert FirstOpen(run.stages) == Some(k);
  }

  /** Every runner returns and stops nothing. */
  ghost predicate AllHealthy(runners: map<string, Runner>) {
    forall k: nat, run: Run :: k < 5 && STAGES[k] in runners ==>
      runners[STAGES[k]](run).Some? && !Stopped(runners[STAGES[k]](run).value.status)
  }

  /** With a runner for every stage, a source that stays, and runners that do not fail, every run is completed. */
  lemma {:induction false} HealthyRunCompletes(runners: map<string, Runner>, found: Run -> bool, run: Run)
    requires AllDeliver(runners) && EveryStageHasRunner(runners) && AllHealthy(runners)
    requires forall r: Run :: found(r)
    ensures var ending := Advanced(runners, found, run);
      ending.Some? && ending.value.status == Completed && AllThrough(ending.value)
    decreases OpenCount(run.stages)
  {
    var stage := FirstOpen(run.stages);
    if stage.Some? {
      assert STAGES[stage.value] in runners;
      var next := runners[STAGES[stage.value]](run);
      assert Delivers(run, stage.value, next.value);
      OpenCountDrops(run.stages, next.value.stages, stage.value);
      HealthyRunCompletes(runners, found, next.value);
    }
  }
}
