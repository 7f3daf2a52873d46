/**
 * `run_once` of both job queues (`ccf.assessment.engine.jobs`, `ccf.prep.jobs`): a batch of claimed jobs on one
 * session, each clamped to its own organization and each committed on its own.
 */
module Worker {
  import opened Nulls
  import opened Connections
  import opened Sessions

  datatype JobOutcome = Done | Failed | Pending

  /**
   * A claimed job: reading its row, its organization, the code that drives it with what that code returns when it
   * does not raise, and the direct UPDATE that records a failure.
   */
  datatype Job<!W> = Job(load: W -> W, organization: OrgId, drive: seq<Cmd<W>>, reports: JobOutcome, record: W -> W)

  /** The job's code in its savepoint, and the record of its failure outside it. */
  function Guard<W>(job: Job<W>): Cmd<W> {
    Try([Nested(job.drive)], [Do(job.record)])
  }

  /** The tenant is bound before the savepoint opens and cleared after the job's outcome commits. */
  function JobProgram<W>(job: Job<W>): seq<Cmd<W>> {
    [Do(job.load), Rebind(Some(job.organization)), Guard(job), CommitNow, Rebind(None)]
  }

  /** A session between jobs: healthy, in no savepoint, and if it holds a connection, unscoped. */
  predicate Idle<W>(c: Conn<W>) {
    !c.aborted && |c.frames| <= 1 && (c.frames != [] ==> ActsFor(c.settings, None))
  }

  /** The job's row loaded and its tenant bound. */
  function BoundTo<W>(job: Job<W>, c: Conn<W>): Conn<W>
    requires Idle(c)
  {
    var r := Ready(c);
    Bind(r.(work := job.load(r.work), log := r.log + [r.settings]), Some(job.organization))
  }

  /**
   * The read of a job's row comes before its tenant is bound. It runs unscoped after another job; right after the
   * claim was committed it runs under whatever binding the next connection was left with.
   */
  lemma LoadRunsAs<W>(job: Job<W>, c: Conn<W>)
    requires Idle(c)
    ensures BoundTo(job, c).log == c.log + [if c.frames == [] then c.pool.handsOut(c.pool.served) else c.settings]
    ensures ActsFor(BoundTo(job, c).log[|c.log|], None)
      <==> c.frames != [] || ActsFor(c.pool.handsOut(c.pool.served), None)
  {
  }

  /** Where the job's own code starts: inside its savepoint. */
  function DriveStart<W>(job: Job<W>, c: Conn<W>): Conn<W>
    requires Idle(c)
  {
    PushSavepoint(BoundTo(job, c))
  }

  /** The code raised, or left the transaction aborted. */
  predicate DriveFails<W>(job: Job<W>, c: Conn<W>)
    requires Idle(c)
  {
    var o := Exec(job.drive, DriveStart(job, c), 1);
    o.raised || o.conn.aborted
  }

  function AfterJob<W>(job: Job<W>, c: Conn<W>): Conn<W> {
    Exec(JobProgram(job), c, 0).conn
  }

  lemma ExecFirst<W>(first: Cmd<W>, rest: seq<Cmd<W>>, c: Conn<W>, depth: nat)
    ensures Exec([first] + rest, c, depth)
      == if ExecOne(first, c, depth).raised then ExecOne(first, c, depth)
         else Exec(rest, ExecOne(first, c, depth).conn, depth)
  {
    assert ([first] + rest)[1..] == rest;
  }

  lemma ExecSingle<W>(cmd: Cmd<W>, c: Conn<W>, depth: nat)
    ensures Exec([cmd], c, depth) == ExecOne(cmd, c, depth)
  {
    ExecFirst(cmd, [], c, depth);
    assert [cmd] + [] == [cmd];
  }

  /** The savepoint block around any code fails exactly when the code does, and leaves a session that works. */
  lemma BlockIsSurvived<W>(drive: seq<Cmd<W>>, c: Conn<W>)
    requires !c.aborted && |c.frames| == 1
    ensures var driven := Exec(drive, PushSavepoint(c), 1);
      var o := ExecOne(Nested(drive), c, 0);
      && o.raised == (driven.raised || driven.conn.aborted)
      && !o.conn.aborted && |o.conn.frames| <= 1 && o.conn.log == driven.conn.log
  {
    ExecKeepsOrEnds(drive, PushSavepoint(c), 1);
  }

  /** Whatever the job's code does, the bracket around it does not raise. */
  lemma GuardIsSurvived<W>(job: Job<W>, c: Conn<W>)
    requires !c.aborted && |c.frames| == 1
    ensures var driven := Exec(job.drive, PushSavepoint(c), 1);
      var nested := ExecOne(Nested(job.drive), c, 0);
      var o := ExecOne(Guard(job), c, 0);
      && !o.raised && !o.conn.aborted && |o.conn.frames| <= 1
      && o == if driven.raised || driven.conn.aborted then ExecOne(Do(job.record), nested.conn, 0) else nested
  {
    BlockIsSurvived(job.drive, c);
    ExecSingle(Nested(job.drive), c, 0);
    ExecSingle(Do(job.record), ExecOne(Nested(job.drive), c, 0).conn, 0);
  }

  /** The bracket around code that leaves the transaction alone, from the state where its tenant has been bound. */
  lemma GuardedDrive<W>(job: Job<W>, c: Conn<W>)
    requires !c.aborted && |c.frames| == 1 && NeverEnds(job.drive)
    ensures var driven := Exec(job.drive, PushSavepoint(c), 1);
      var o := ExecOne(Guard(job), c, 0);
      if driven.raised || driven.conn.aborted
      then o.conn.work == job.record(c.work) && o.conn.settings == c.settings
        && o.conn.log == driven.conn.log + [c.settings]
      else o.conn.work == driven.conn.work && o.conn.log == driven.conn.log
    ensures SameTransaction(c, ExecOne(Guard(job), c, 0).conn)
  {
    GuardIsSurvived(job, c);
    ExecKeepsTransaction(job.drive, PushSavepoint(c), 1);
  }

  /** The program of a job, step by step. */
  lemma JobSteps<W>(job: Job<W>, c: Conn<W>)
    requires Idle(c)
    ensures var tried := ExecOne(Guard(job), BoundTo(job, c), 0).conn;
      !tried.aborted && Exec(JobProgram(job), c, 0) == Outcome(Bind(Ready(Commit(tried)), None), false)
  {
    var c1 := ExecOne(Do(job.load), c, 0).conn;
    var c2 := BoundTo(job, c);
    GuardIsSurvived(job, c2);
    var c3 := ExecOne(Guard(job), c2, 0).conn;
    var p2 := [Guard(job)] + ([CommitNow] + [Rebind(None)]);
    assert JobProgram(job) == [Do(job.load)] + ([Rebind(Some(job.organization))] + p2);
    ExecFirst(Do(job.load), [Rebind(Some(job.organization))] + p2, c, 0);
    ExecFirst(Rebind(Some(job.organization)), p2, c1, 0);
    ExecFirst(Guard(job), [CommitNow] + [Rebind(None)], c2, 0);
    ExecFirst(CommitNow, [Rebind(None)], c3, 0);
    ExecSingle(Rebind(None), Commit(c3), 0);
  }

  /**
   * Whatever a job's code does, raising, aborting the transaction, rebinding the tenant, even committing or rolling
   * back the whole session, the worker survives it and ends unscoped; and whatever connections the pool hands out,
   * the code starts under the job's own tenant.
   */
  lemma JobIsSurvived<W>(job: Job<W>, c: Conn<W>)
    requires Idle(c)
    ensures !Exec(JobProgram(job), c, 0).raised && Idle(AfterJob(job, c)) && AfterJob(job, c).frames != []
    ensures ActsFor(DriveStart(job, c).settings, Some(job.organization))
  {
    BoundActsFor(Some(job.organization));
    BoundActsFor(None);
    GuardIsSurvived(job, BoundTo(job, c));
    JobSteps(job, c);
  }

  /**
   * If the code neither commits nor rolls back the session and fails, all its writes are gone and the failure is
   * recorded by a statement that runs under the job's own tenant; if it succeeds, its writes are kept. Either way
   * that is what the job's one commit makes durable.
   */
  lemma JobIsContained<W>(job: Job<W>, c: Conn<W>)
    requires Idle(c) && NeverEnds(job.drive)
    ensures var driven := Exec(job.drive, DriveStart(job, c), 1).conn;
      var after := AfterJob(job, c);
      if DriveFails(job, c)
      then after.work == job.record(job.load(c.work))
        && |after.log| > 0 && after.log[..|after.log| - 1] == driven.log
        && ActsFor(after.log[|after.log| - 1], Some(job.organization))
      else after.work == driven.work && after.log == driven.log
    ensures var after := AfterJob(job, c);
      && |after.commits| == |c.commits| + 1 && after.commits[..|c.commits|] == c.commits
      && after.commits[|c.commits|].work == after.work
  {
    BoundActsFor(Some(job.organization));
    GuardedDrive(job, BoundTo(job, c));
    JobSteps(job, c);
  }

  /**
   * The documented hazard: bound inside the savepoint, a failing job's recovery write would run under the binding from
   * before it, between jobs unscoped.
   */
  lemma BindingInsideSavepointIsLost<W>(job: Job<W>, c: Conn<W>)
    requires Idle(c) && NeverEnds(job.drive)
    requires Exec([Rebind(Some(job.organization))] + job.drive, PushSavepoint(Ready(c)), 1).raised
    ensures var o := ExecOne(Try([Nested([Rebind(Some(job.organization))] + job.drive)], [Do(job.record)]), c, 0);
      |o.conn.log| > 0 && o.conn.log[|o.conn.log| - 1] == Ready(c).settings
      && (c.frames != [] ==> ActsFor(o.conn.log[|o.conn.log| - 1], None))
  {
    var body := [Rebind(Some(job.organization))] + job.drive;
    assert body[1..] == job.drive;
    RecordAfterBlock(body, job.record, c);
  }

  /** A failed block that did not end the transaction leaves the binding from before it. */
  lemma RecordAfterBlock<W>(body: seq<Cmd<W>>, record: W -> W, c: Conn<W>)
    requires Idle(c) && NeverEnds(body) && Exec(body, PushSavepoint(Ready(c)), 1).raised
    ensures var o := ExecOne(Try([Nested(body)], [Do(record)]), c, 0);
      |o.conn.log| > 0 && o.conn.log[|o.conn.log| - 1] == Ready(c).settings
  {
    ExecKeepsTransaction(body, PushSavepoint(Ready(c)), 1);
    ExecSingle(Nested(body), c, 0);
    ExecSingle(Do(record), ExecOne(Nested(body), c, 0).conn, 0);
  }

  /**
   * The documented trap: a bare `session.rollback()` is not savepoint-scoped. Code that calls it and then fails gives
   * the job's connection back with everything since its transaction began undone, and the failure is recorded under
   * whatever binding the next connection was left with.
   */
  lemma SessionRollbackLosesBinding<W>(job: Job<W>, c: Conn<W>)
    requires Idle(c) && job.drive == [RollbackNow] + [Raise]
    ensures var bound := BoundTo(job, c);
      var o := ExecOne(Guard(job), bound, 0);
      && o.conn.log == bound.log + [bound.pool.handsOut(bound.pool.served)]
      && o.conn.work == job.record(bound.frames[0].work) && o.conn.commits == bound.commits
  {
    var start := DriveStart(job, c);
    ExecFirst(RollbackNow, [Raise], start, 1);
    ExecSingle(Raise, RollBack(start), 1);
    GuardIsSurvived(job, BoundTo(job, c));
  }

  /** A job that leaves its binding alone gives its connection back bound to its organization. */
  lemma ConnectionReturnsBound<W>(job: Job<W>, c: Conn<W>)
    requires Idle(c) && job.drive == []
    ensures var after := AfterJob(job, c);
      |after.commits| == |c.commits| + 1 && after.commits[|c.commits|].settings == Bound(Some(job.organization))
  {
    JobSteps(job, c);
    GuardIsSurvived(job, BoundTo(job, c));
  }

  /**
   * So on a pool that hands a job's connection out again, the failure of the next job that falls into the trap is
   * recorded as the previous job's organization, whose policies decide which rows the UPDATE finds.
   */
  lemma SecondJobRecordsAsFirst<W>(one: Job<W>, two: Job<W>, c: Conn<W>)
    requires Idle(c) && one.drive == [] && two.drive == [RollbackNow] + [Raise]
    requires var after := AfterJob(one, c);
      |after.commits| > 0
      && after.pool.handsOut(after.pool.served) == after.commits[|after.commits| - 1].settings
    ensures Idle(AfterJob(one, c))
    ensures var o := ExecOne(Guard(two), BoundTo(two, AfterJob(one, c)), 0);
      |o.conn.log| > 0 && ActsFor(o.conn.log[|o.conn.log| - 1], Some(one.organization))
  {
    JobIsSurvived(one, c);
    ConnectionReturnsBound(one, c);
    SessionRollbackLosesBinding(two, AfterJob(one, c));
    BoundActsFor(Some(one.organization));
  }

  /** The session after a batch of jobs, one by one. */
  function AfterJobs<W>(jobs: seq<Job<W>>, c: Conn<W>): Conn<W>
    decreases |jobs|
  {
    if jobs == [] then c else AfterJobs(jobs[1..], AfterJob(jobs[0], c))
  }

  /** However the jobs of a batch end, the session is unscoped and healthy after each of them. */
  lemma {:induction false} JobsAreSurvived<W>(jobs: seq<Job<W>>, c: Conn<W>)
    requires Idle(c)
    ensures Idle(AfterJobs(jobs, c))
    decreases |jobs|
  {
    if jobs != [] {
      JobIsSurvived(jobs[0], c);
      JobsAreSurvived(jobs[1..], AfterJob(jobs[0], c));
    }
  }

  /** What `run_once` counts a job as; code that failed counts as failed whatever it would have returned. */
  function OutcomeOf<W>(job: Job<W>, c: Conn<W>): JobOutcome
    requires Idle(c)
  {
    if DriveFails(job, c) then Failed else job.reports
  }

  function Count<W>(jobs: seq<Job<W>>, c: Conn<W>, outcome: JobOutcome): nat
    requires Idle(c)
    decreases |jobs|
  {
    if jobs == [] then 0
    else
      JobIsSurvived(jobs[0], c);
      (if OutcomeOf(jobs[0], c) == outcome then 1 else 0) + Count(jobs[1..], AfterJob(jobs[0], c), outcome)
  }

  /** Every claimed job is counted once: finished, failed, or neither. */
  lemma {:induction false} CountsAddUp<W>(jobs: seq<Job<W>>, c: Conn<W>)
    requires Idle(c)
    ensures Count(jobs, c, Done) + Count(jobs, c, Failed) + Count(jobs, c, Pending) == |jobs|
    decreases |jobs|
  {
    if jobs != [] {
      JobIsSurvived(jobs[0], c);
      CountsAddUp(jobs[1..], AfterJob(jobs[0], c));
    }
  }

  method DriveJob<W>(session: Session<W>, job: Job<W>) returns (outcome: JobOutcome)
    requires Idle(session.State())
    modifies session
    ensures session.State() == AfterJob(job, old(session.State())) && Idle(session.State())
    ensures outcome == OutcomeOf(job, old(session.State()))
  {
    ghost var before := session.State();
    JobIsSurvived(job, before);
    JobSteps(job, before);
    var raised := session.RunCommand(Do(job.load), 0);
    var ok := session.SetSessionTenant(Some(job.organization), 0);
    ghost var bound := session.State();
    assert bound == BoundTo(job, before);
    GuardIsSurvived(job, bound);
    BlockIsSurvived(job.drive, bound);
    raised := session.BeginNested(job.drive, 0);
    if raised {
      var error := session.RunCommand(Do(job.record), 0);
      outcome := Failed;
    } else {
      outcome := job.reports;
    }
    assert session.State() == ExecOne(Guard(job), bound, 0).conn;
    session.CommitTransaction();
    ok := session.SetSessionTenant(None, 0);
  }

  lemma BatchStep<W>(jobs: seq<Job<W>>, i: nat, c: Conn<W>, outcome: JobOutcome)
    requires i < |jobs| && Idle(c)
    ensures Idle(AfterJob(jobs[i], c))
    ensures AfterJobs(jobs[i..], c) == AfterJobs(jobs[i + 1..], AfterJob(jobs[i], c))
    ensures Count(jobs[i..], c, outcome)
      == (if OutcomeOf(jobs[i], c) == outcome then 1 else 0) + Count(jobs[i + 1..], AfterJob(jobs[i], c), outcome)
  {
    JobIsSurvived(jobs[i], c);
    assert jobs[i..][0] == jobs[i] && jobs[i..][1..] == jobs[i + 1..];
  }

  /** The loop over a claimed batch. */
  method DriveBatch<W>(session: Session<W>, jobs: seq<Job<W>>) returns (finished: nat, failed: nat)
    requires Idle(session.State())
    modifies session
    ensures Idle(session.State()) && session.State() == AfterJobs(jobs, old(session.State()))
    ensures finished == Count(jobs, old(session.State()), Done)
    ensures failed == Count(jobs, old(session.State()), Failed)
  {
    ghost var start := session.State();
    finished, failed := 0, 0;
    var i := 0;
    while i < |jobs|
      invariant 0 <= i <= |jobs|
      invariant Idle(session.State())
      invariant AfterJobs(jobs[i..], session.State()) == AfterJobs(jobs, start)
      invariant finished + Count(jobs[i..], session.State(), Done) == Count(jobs, start, Done)
      invariant failed + Count(jobs[i..], session.State(), Failed) == Count(jobs, start, Failed)
    {
      BatchStep(jobs, i, session.State(), Done);
      BatchStep(jobs, i, session.State(), Failed);
      var outcome := DriveJob(session, jobs[i]);
      if outcome == Done {
        finished := finished + 1;
      } else if outcome == Failed {
        failed := failed + 1;
      }
      i := i + 1;
    }
  }

  /** Claims a batch, commits the claim before any work starts, then drives the jobs one after another. */
  method RunOnce<W>(session: Session<W>, claim: W -> W, jobs: seq<Job<W>>)
    returns (claimed: nat, finished: nat, failed: nat)
    requires Idle(session.State())
    modifies session
    ensures Idle(session.State())
    ensures var start := Commit(ExecOne(Do(claim), old(session.State()), 0).conn);
      && Idle(start)
      && session.State() == AfterJobs(jobs, start)
      && claimed == |jobs|
      && finished == Count(jobs, start, Done)
      && failed == Count(jobs, start, Failed)
  {
    var raised := session.RunCommand(Do(claim), 0);
    session.CommitTransaction();
    finished, failed := DriveBatch(session, jobs);
    claimed := |jobs|;
  }
}
