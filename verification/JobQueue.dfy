/** `ccf.queue`: claiming, crash recovery and dead-lettering, shared by both job queues. */
module JobQueue {
  import opened Nulls

  datatype Status = Pending | Claimed | Done | Failed

  datatype Job = Job(status: Status, attempts: nat, claimedBy: Option<int>, claimedAt: Option<int>, created: int,
                     deadLettered: bool)

  /** Job ids are positions. `locks` are the rows a worker's open claim transaction has selected FOR UPDATE. */
  datatype Queue = Queue(jobs: seq<Job>, locks: map<int, set<int>>)

  // ---- reaping ----

  /** Held since before the threshold, by a worker presumed dead. */
  predicate Stale(j: Job, now: int, olderThan: int) {
    j.status == Claimed && j.claimedAt.Some? && j.claimedAt.value <= now - (if olderThan > 1 then olderThan else 1)
  }

  function Requeue(j: Job): Job {
    j.(status := Pending, claimedBy := None, claimedAt := None)
  }

  function DeadLetter(j: Job): Job {
    j.(status := Failed, claimedBy := None, claimedAt := None, deadLettered := true)
  }

  /** Below the cap a stale job goes back to the queue; at or above it, it is dead-lettered. */
  function Reaped(j: Job, now: int, olderThan: int, cap: nat): Job {
    if !Stale(j, now, olderThan) then j
    else if j.attempts < cap then Requeue(j)
    else DeadLetter(j)
  }

  function Count(jobs: seq<Job>, p: Job -> bool): nat {
    if jobs == [] then 0 else (if p(jobs[0]) then 1 else 0) + Count(jobs[1..], p)
  }

  class JobTable {
    var jobs: seq<Job>

    constructor (jobs: seq<Job>)
      ensures this.jobs == jobs
    {
      this.jobs := jobs;
    }

    /** `reap_stale_jobs`: two UPDATEs, one after the other, and their row counts. */
    method ReapStaleJobs(now: int, olderThan: int, cap: nat) returns (requeued: nat, deadLettered: nat)
      modifies this
      ensures |jobs| == |old(jobs)|
      ensures forall i :: 0 <= i < |jobs| ==> jobs[i] == Reaped(old(jobs)[i], now, olderThan, cap)
      ensures requeued == Count(old(jobs), j => Stale(j, now, olderThan) && j.attempts < cap)
      ensures deadLettered == Count(old(jobs), j => Stale(j, now, olderThan) && j.attempts >= cap)
    {
      var rows := jobs;
      requeued := Count(rows, j => Stale(j, now, olderThan) && j.attempts < cap);
      var first := seq(|rows|, i requires 0 <= i < |rows| =>
        if Stale(rows[i], now, olderThan) && rows[i].attempts < cap then Requeue(rows[i]) else rows[i]);
      SecondUpdateCount(rows, first, now, olderThan, cap);
      deadLettered := Count(first, j => Stale(j, now, olderThan) && j.attempts >= cap);
      jobs := seq(|first|, i requires 0 <= i < |first| =>
        if Stale(first[i], now, olderThan) && first[i].attempts >= cap then DeadLetter(first[i]) else first[i]);
    }
  }

  /** The first UPDATE takes no row away from the second. */
  lemma {:induction false} SecondUpdateCount(jobs: seq<Job>, first: seq<Job>, now: int, olderThan: int, cap: nat)
    requires |first| == |jobs|
    requires forall i :: 0 <= i < |jobs| ==>
      first[i] == if Stale(jobs[i], now, olderThan) && jobs[i].attempts < cap then Requeue(jobs[i]) else jobs[i]
    ensures Count(first, j => Stale(j, now, olderThan) && j.attempts >= cap)
      == Count(jobs, j => Stale(j, now, olderThan) && j.attempts >= cap)
  {
    if jobs != [] {
      SecondUpdateCount(jobs[1..], first[1..], now, olderThan, cap);
    }
  }

  // ---- workers, crashes and slow workers ----

  datatype Verdict = Finished | GaveUp | MoreStages

  datatype Step =
    | Select(worker: int, limit: nat, picks: set<int>)
    | Claim(worker: int, now: int)
    | Die(worker: int)
    | Report(job: int, verdict: Verdict)
    | Reap(now: int, olderThan: int)

  predicate LockedByOther(q: Queue, worker: int, job: int) {
    exists w :: w in q.locks && w != worker && job in q.locks[w]
  }

  predicate Locked(q: Queue, job: int) {
    exists w :: w in q.locks && job in q.locks[w]
  }

  /** Pending and skipped by nobody's lock. */
  predicate Available(q: Queue, worker: int, job: int) {
    0 <= job < |q.jobs| && q.jobs[job].status == Pending && !LockedByOther(q, worker, job)
  }

  /** `WHERE status = 'pending' ORDER BY created_at LIMIT n FOR UPDATE SKIP LOCKED`. */
  ghost predicate Selects(q: Queue, worker: int, limit: nat, picks: set<int>) {
    && worker !in q.locks
    && (forall p :: p in picks ==> Available(q, worker, p))
    && |picks| <= limit
    && (|picks| < limit ==> forall a :: Available(q, worker, a) ==> a in picks)
    && (forall p, a :: p in picks && Available(q, worker, a) && a !in picks ==> q.jobs[p].created <= q.jobs[a].created)
  }

  function Claims(j: Job, worker: int, now: int): Job {
    j.(status := Claimed, claimedBy := Some(worker), claimedAt := Some(now), attempts := j.attempts + 1)
  }

  function Reported(j: Job, verdict: Verdict): Job {
    match verdict
    case Finished => j.(status := Done)
    case GaveUp => j.(status := Failed)
    case MoreStages => j.(status := Pending, claimedBy := None, claimedAt := None)
  }

  /**
   * One step; a step whose guard fails changes nothing. A worker reports by job id alone, so one that is merely
   * slow may report on a job that has been reaped, and even claimed again, in the meantime. A crash after the claim
   * committed is simply no further report.
   */
  ghost function Next(q: Queue, step: Step, cap: nat): Queue {
    match step
    case Select(worker, limit, picks) =>
      if Selects(q, worker, limit, picks) then q.(locks := q.locks[worker := picks]) else q
    case Claim(worker, now) =>
      if worker !in q.locks then q
      else Queue(seq(|q.jobs|, i requires 0 <= i < |q.jobs| =>
        if i in q.locks[worker] then Claims(q.jobs[i], worker, now) else q.jobs[i]), q.locks - {worker})
    case Die(worker) => q.(locks := q.locks - {worker})
    case Report(job, verdict) =>
      if 0 <= job < |q.jobs| && q.jobs[job].attempts > 0 && !Locked(q, job)
      then q.(jobs := q.jobs[job := Reported(q.jobs[job], verdict)]) else q
    case Reap(now, olderThan) =>
      q.(jobs := seq(|q.jobs|, i requires 0 <= i < |q.jobs| => Reaped(q.jobs[i], now, olderThan, cap)))
  }

  ghost function Run(q: Queue, steps: seq<Step>, cap: nat): Queue
    decreases |steps|
  {
    if steps == [] then q else Run(Next(q, steps[0], cap), steps[1..], cap)
  }

  /** No two workers hold the same row, and every held row is pending. */
  predicate LocksDisjoint(q: Queue) {
    forall w, job :: w in q.locks && job in q.locks[w] ==> HeldAlone(q, w, job)
  }

  predicate HeldAlone(q: Queue, worker: int, job: int) {
    0 <= job < |q.jobs| && q.jobs[job].status == Pending && !LockedByOther(q, worker, job)
  }

  /** Selecting takes only rows nobody holds; every other step only gives locks up, and leaves locked rows alone. */
  lemma StepKeepsLocksDisjoint(q: Queue, step: Step, cap: nat)
    requires LocksDisjoint(q)
    ensures LocksDisjoint(Next(q, step, cap))
  {
    var n := Next(q, step, cap);
    if step.Select? && Selects(q, step.worker, step.limit, step.picks) {
      forall w, job | w in n.locks && job in n.locks[w] ensures HeldAlone(n, w, job) {
        if w == step.worker {
          assert Available(q, w, job);
        } else {
          assert HeldAlone(q, w, job);
          assert job in step.picks ==> Available(q, step.worker, job) && LockedByOther(q, step.worker, job);
        }
      }
    } else {
      forall w, job | w in n.locks && job in n.locks[w] ensures HeldAlone(n, w, job) {
        assert w in q.locks && job in q.locks[w] && HeldAlone(q, w, job);
        assert Locked(q, job);
        assert step.Claim? && step.worker in q.locks && job in q.locks[step.worker] ==> LockedByOther(q, w, job);
      }
    }
  }

  /** How often a step claims the job. */
  predicate ClaimsJob(q: Queue, step: Step, job: int) {
    step.Claim? && step.worker in q.locks && job in q.locks[step.worker]
  }

  ghost function ClaimCount(q: Queue, steps: seq<Step>, cap: nat, job: int): nat
    decreases |steps|
  {
    if steps == [] then 0
    else (if ClaimsJob(q, steps[0], job) then 1 else 0) + ClaimCount(Next(q, steps[0], cap), steps[1..], cap, job)
  }

  /**
   * Exactly-once claiming: over every interleaving no two workers ever hold the same job, only a pending job is
   * ever claimed, and `attempts` has grown by exactly the number of claims, crashes or not.
   */
  lemma {:induction false} AttemptsCountClaims(q: Queue, steps: seq<Step>, cap: nat, job: int)
    requires LocksDisjoint(q) && 0 <= job < |q.jobs|
    ensures var after := Run(q, steps, cap);
      && LocksDisjoint(after) && |after.jobs| == |q.jobs|
      && after.jobs[job].attempts == q.jobs[job].attempts + ClaimCount(q, steps, cap, job)
    decreases |steps|
  {
    if steps != [] {
      StepKeepsLocksDisjoint(q, steps[0], cap);
      AttemptsCountClaims(Next(q, steps[0], cap), steps[1..], cap, job);
    }
  }

  /** With any room at all, the strictly oldest available job is among those picked, so none is starved. */
  lemma OldestIsPicked(q: Queue, worker: int, limit: nat, picks: set<int>, oldest: int)
    requires limit >= 1 && Selects(q, worker, limit, picks) && Available(q, worker, oldest)
    requires forall a :: Available(q, worker, a) && a != oldest ==> q.jobs[oldest].created < q.jobs[a].created
    ensures oldest in picks
  {
    if |picks| == limit {
      assert picks != {};
      var p := SomeElement(picks);
      assert Available(q, worker, p);
    }
  }

  /** The jobs a worker could take. */
  ghost function AvailableTo(q: Queue, worker: int): set<int> {
    set a | 0 <= a < |q.jobs| && Available(q, worker, a)
  }

  lemma SubsetSize(a: set<int>, b: set<int>)
    requires a <= b
    ensures |a| <= |b| && (|a| == |b| ==> a == b)
  {
    assert b == a + (b - a);
  }

  /** A claim takes as many jobs as it may, up to its limit, and never a younger one while an older is left. */
  lemma SelectsUpToLimit(q: Queue, worker: int, limit: nat, picks: set<int>)
    requires Selects(q, worker, limit, picks)
    ensures picks <= AvailableTo(q, worker)
    ensures |picks| == if |AvailableTo(q, worker)| < limit then |AvailableTo(q, worker)| else limit
    ensures forall p, a :: p in picks && a in AvailableTo(q, worker) - picks ==> q.jobs[p].created <= q.jobs[a].created
  {
    SubsetSize(picks, AvailableTo(q, worker));
    if |picks| < limit {
      assert picks == AvailableTo(q, worker);
    }
  }

  /** The claim marks exactly the selected jobs: claimed by this worker, now, one attempt more. */
  lemma ClaimRecords(q: Queue, worker: int, now: int, cap: nat, job: int)
    requires worker in q.locks && 0 <= job < |q.jobs|
    ensures var after := Next(q, Claim(worker, now), cap);
      && |after.jobs| == |q.jobs| && worker !in after.locks
      && (job !in q.locks[worker] ==> after.jobs[job] == q.jobs[job])
      && (job in q.locks[worker] ==>
            && after.jobs[job].status == Claimed && after.jobs[job].claimedBy == Some(worker)
            && after.jobs[job].claimedAt == Some(now) && after.jobs[job].attempts == q.jobs[job].attempts + 1)
  {
  }

  /** A worker that dies before its claim commits leaves no trace: every job is as it was, and free for the others. */
  lemma CrashBeforeClaim(q: Queue, worker: int, limit: nat, picks: set<int>, cap: nat)
    requires Selects(q, worker, limit, picks)
    ensures Next(Next(q, Select(worker, limit, picks), cap), Die(worker), cap) == q
  {
    assert q.locks[worker := picks] - {worker} == q.locks;
  }

  // ---- how long a claim is good for ----

  /** A reap acts on a claimed job exactly when it was claimed at least the threshold, and a minute, ago. */
  lemma ReapedIff(q: Queue, job: int, now: int, olderThan: int, cap: nat)
    requires 0 <= job < |q.jobs| && q.jobs[job].status == Claimed && q.jobs[job].claimedAt.Some?
    ensures var held, after := now - q.jobs[job].claimedAt.value, Next(q, Reap(now, olderThan), cap).jobs[job];
      && (held >= olderThan && held >= 1 ==>
            after.claimedBy == None && after.claimedAt == None
            && after.status == if q.jobs[job].attempts < cap then Pending else Failed)
      && (held < olderThan || held < 1 ==> after == q.jobs[job])
  {
  }

  /** Over every run a claim outlives all reaps that come before its threshold has passed. */
  lemma {:induction false} FreshClaimIsKept(q: Queue, steps: seq<Step>, cap: nat, job: int, claimedAt: int)
    requires LocksDisjoint(q) && 0 <= job < |q.jobs|
    requires q.jobs[job].status == Claimed && q.jobs[job].claimedAt == Some(claimedAt)
    requires forall i :: 0 <= i < |steps| ==>
      !(steps[i].Report? && steps[i].job == job)
      && (steps[i].Reap? ==> steps[i].now - claimedAt < steps[i].olderThan || steps[i].now - claimedAt < 1)
    ensures |Run(q, steps, cap).jobs| == |q.jobs| && Run(q, steps, cap).jobs[job] == q.jobs[job]
    decreases |steps|
  {
    if steps != [] {
      StepKeepsLocksDisjoint(q, steps[0], cap);
      FreshClaimIsKept(Next(q, steps[0], cap), steps[1..], cap, job, claimedAt);
    }
  }

  // ---- the retry cap ----

  /** A job that may still be claimed is below the cap, and no job is above it. */
  predicate WithinCap(j: Job, cap: nat) {
    j.attempts <= cap && (j.status == Pending ==> j.attempts < cap)
  }

  predicate AllWithinCap(q: Queue, cap: nat) {
    forall i :: 0 <= i < |q.jobs| ==> WithinCap(q.jobs[i], cap)
  }

  /** A report of unfinished work on a job that has used up its attempts. */
  predicate OverdrawnReport(q: Queue, step: Step, cap: nat) {
    && step.Report? && step.verdict == MoreStages
    && 0 <= step.job < |q.jobs| && q.jobs[step.job].attempts > 0 && q.jobs[step.job].attempts >= cap
  }

  /** A step takes the queue past the cap exactly when it is such a report. */
  lemma StepKeepsWithinCapIff(q: Queue, step: Step, cap: nat)
    requires LocksDisjoint(q) && AllWithinCap(q, cap)
    ensures AllWithinCap(Next(q, step, cap), cap) <==> !OverdrawnReport(q, step, cap)
  {
    var n := Next(q, step, cap);
    if OverdrawnReport(q, step, cap) {
      assert WithinCap(q.jobs[step.job], cap) && !Locked(q, step.job);
      assert !WithinCap(n.jobs[step.job], cap);
    } else {
      forall i | 0 <= i < |n.jobs| ensures WithinCap(n.jobs[i], cap) {
        assert WithinCap(q.jobs[i], cap);
      }
    }
  }

  ghost predicate NeverOverdrawn(q: Queue, steps: seq<Step>, cap: nat)
    decreases |steps|
  {
    steps == [] || (!OverdrawnReport(q, steps[0], cap) && NeverOverdrawn(Next(q, steps[0], cap), steps[1..], cap))
  }

  ghost predicate AlwaysWithinCap(q: Queue, steps: seq<Step>, cap: nat)
    decreases |steps|
  {
    AllWithinCap(q, cap) && (steps == [] || AlwaysWithinCap(Next(q, steps[0], cap), steps[1..], cap))
  }

  /** Over every run no job is ever above the cap exactly when none is handed back with no attempts left. */
  lemma {:induction false} CapHoldsIffNeverOverdrawn(q: Queue, steps: seq<Step>, cap: nat)
    requires LocksDisjoint(q) && AllWithinCap(q, cap)
    ensures AlwaysWithinCap(q, steps, cap) <==> NeverOverdrawn(q, steps, cap)
    decreases |steps|
  {
    if steps != [] {
      StepKeepsLocksDisjoint(q, steps[0], cap);
      StepKeepsWithinCapIff(q, steps[0], cap);
      if AllWithinCap(Next(q, steps[0], cap), cap) {
        CapHoldsIffNeverOverdrawn(Next(q, steps[0], cap), steps[1..], cap);
      }
    }
  }

  /**
   * Over every run, with workers crashing or reporting late at will, attempts never exceed the cap and no job is
   * claimed more often than the attempts it had left.
   */
  lemma {:induction false} ClaimsNeverExceedCap(q: Queue, steps: seq<Step>, cap: nat, job: int)
    requires LocksDisjoint(q) && AllWithinCap(q, cap) && NeverOverdrawn(q, steps, cap)
    requires 0 <= job < |q.jobs|
    ensures AllWithinCap(Run(q, steps, cap), cap)
    ensures q.jobs[job].attempts + ClaimCount(q, steps, cap, job) <= cap
    decreases |steps|
  {
    if steps != [] {
      StepKeepsLocksDisjoint(q, steps[0], cap);
      StepKeepsWithinCapIff(q, steps[0], cap);
      var n := Next(q, steps[0], cap);
      assert |n.jobs| == |q.jobs|;
      ClaimsNeverExceedCap(n, steps[1..], cap, job);
    }
  }

  /** Nobody reports unfinished work; `PrepPipeline` shows that neither queue's workers ever do. */
  predicate NoHandBacks(steps: seq<Step>) {
    forall i :: 0 <= i < |steps| ==> !(steps[i].Report? && steps[i].verdict == MoreStages)
  }

  lemma {:induction false} NoHandBacksNeverOverdraw(q: Queue, steps: seq<Step>, cap: nat)
    requires NoHandBacks(steps)
    ensures NeverOverdrawn(q, steps, cap)
    decreases |steps|
  {
    if steps != [] {
      NoHandBacksNeverOverdraw(Next(q, steps[0], cap), steps[1..], cap);
    }
  }

  // ---- finished jobs ----

  /** A report that would take a finished job out of `done`. */
  predicate Reopens(step: Step, job: int) {
    step.Report? && step.job == job && step.verdict != Finished
  }

  ghost predicate AlwaysDone(q: Queue, steps: seq<Step>, cap: nat, job: int)
    requires 0 <= job < |q.jobs|
    decreases |steps|
  {
    && q.jobs[job].status == Done
    && (steps == [] || (|Next(q, steps[0], cap).jobs| == |q.jobs|
                        && AlwaysDone(Next(q, steps[0], cap), steps[1..], cap, job)))
  }

  lemma DoneStep(q: Queue, step: Step, cap: nat, job: int)
    requires LocksDisjoint(q) && 0 <= job < |q.jobs|
    requires q.jobs[job].status == Done && q.jobs[job].attempts > 0
    ensures var n := Next(q, step, cap);
      && |n.jobs| == |q.jobs| && n.jobs[job].attempts == q.jobs[job].attempts
      && (n.jobs[job].status == Done <==> !Reopens(step, job))
  {
  }

  /**
   * Reports carry only the job's id, so one from a worker that was merely slow can arrive after the job was done by
   * another. Over every run, a finished job stays done exactly when no later report on it says otherwise.
   */
  lemma {:induction false} DoneStaysDoneIff(q: Queue, steps: seq<Step>, cap: nat, job: int)
    requires LocksDisjoint(q) && 0 <= job < |q.jobs|
    requires q.jobs[job].status == Done && q.jobs[job].attempts > 0
    ensures AlwaysDone(q, steps, cap, job) <==> forall i :: 0 <= i < |steps| ==> !Reopens(steps[i], job)
    decreases |steps|
  {
    if steps != [] {
      DoneStep(q, steps[0], cap, job);
      if !Reopens(steps[0], job) {
        StepKeepsLocksDisjoint(q, steps[0], cap);
        DoneStaysDoneIff(Next(q, steps[0], cap), steps[1..], cap, job);
        assert forall i :: 1 <= i < |steps| ==> steps[i] == steps[1..][i - 1];
      }
    }
  }

  // ---- the queue comes to rest ----

  /** What a job can still cost: a claim and a reap for every attempt left, and the reap of the claim it is under. */
  function Weight(j: Job, cap: nat): nat
    requires j.attempts <= cap
  {
    2 * (cap - j.attempts) + if j.status == Claimed then 1 else 0
  }

  function Total(jobs: seq<Job>, cap: nat): nat
    requires forall i :: 0 <= i < |jobs| ==> jobs[i].attempts <= cap
  {
    if jobs == [] then 0 else Weight(jobs[0], cap) + Total(jobs[1..], cap)
  }

  /** The step claims, requeues or dead-letters this job. */
  predicate ActsOn(before: Job, after: Job, step: Step) {
    (step.Claim? || step.Reap?) && before != after
  }

  function Acted(before: seq<Job>, after: seq<Job>, step: Step): nat
    requires |before| == |after|
  {
    if before == [] then 0
    else (if ActsOn(before[0], after[0], step) then 1 else 0) + Acted(before[1..], after[1..], step)
  }

  lemma {:induction false} TotalDrops(before: seq<Job>, after: seq<Job>, step: Step, cap: nat)
    requires |before| == |after|
    requires forall i :: 0 <= i < |before| ==> before[i].attempts <= cap && after[i].attempts <= cap
    requires forall i :: 0 <= i < |before| ==>
      Weight(after[i], cap) + (if ActsOn(before[i], after[i], step) then 1 else 0) <= Weight(before[i], cap)
    ensures Total(after, cap) + Acted(before, after, step) <= Total(before, cap)
  {
    if before != [] {
      TotalDrops(before[1..], after[1..], step, cap);
    }
  }

  /** No step within the cap adds weight, and every claim, requeue or dead-letter takes some away. */
  lemma StepDrops(q: Queue, step: Step, cap: nat)
    requires LocksDisjoint(q) && AllWithinCap(q, cap) && !OverdrawnReport(q, step, cap)
    ensures AllWithinCap(Next(q, step, cap), cap) && |Next(q, step, cap).jobs| == |q.jobs|
    ensures Total(Next(q, step, cap).jobs, cap) + Acted(q.jobs, Next(q, step, cap).jobs, step) <= Total(q.jobs, cap)
  {
    StepKeepsWithinCapIff(q, step, cap);
    var n := Next(q, step, cap);
    forall i | 0 <= i < |q.jobs|
      ensures Weight(n.jobs[i], cap) + (if ActsOn(q.jobs[i], n.jobs[i], step) then 1 else 0) <= Weight(q.jobs[i], cap)
    {
      assert WithinCap(q.jobs[i], cap) && WithinCap(n.jobs[i], cap);
      if step.Claim? && step.worker in q.locks && i in q.locks[step.worker] {
        assert q.jobs[i].status == Pending;
      }
    }
    TotalDrops(q.jobs, n.jobs, step, cap);
  }

  ghost function ActedOver(q: Queue, steps: seq<Step>, cap: nat): nat
    decreases |steps|
  {
    if steps == [] then 0
    else
      var n := Next(q, steps[0], cap);
      (if |n.jobs| == |q.jobs| then Acted(q.jobs, n.jobs, steps[0]) else 0) + ActedOver(n, steps[1..], cap)
  }

  /**
   * No job cycles for ever: over every run within the cap, however long, the number of times any job is claimed,
   * requeued or dead-lettered is bounded by what the queue's jobs could still cost at its start.
   */
  lemma {:induction false} QueueComesToRest(q: Queue, steps: seq<Step>, cap: nat)
    requires LocksDisjoint(q) && AllWithinCap(q, cap) && NeverOverdrawn(q, steps, cap)
    ensures ActedOver(q, steps, cap) <= Total(q.jobs, cap)
    decreases |steps|
  {
    if steps != [] {
      StepKeepsLocksDisjoint(q, steps[0], cap);
      StepDrops(q, steps[0], cap);
      QueueComesToRest(Next(q, steps[0], cap), steps[1..], cap);
    }
  }

  // ---- a job that always crashes ----

  /** The step returns this job from a worker presumed dead. */
  predicate ReapsJob(q: Queue, step: Step, job: int)
    requires 0 <= job < |q.jobs|
  {
    step.Reap? && Stale(q.jobs[job], step.now, step.olderThan)
  }

  /** How often the run reaps the job. */
  ghost function ReapCount(q: Queue, steps: seq<Step>, cap: nat, job: int): nat
    decreases |steps|
  {
    if steps == [] then 0
    else
      (if 0 <= job < |q.jobs| && ReapsJob(q, steps[0], job) then 1 else 0)
      + ReapCount(Next(q, steps[0], cap), steps[1..], cap, job)
  }

  /** A job after so many claims that nobody reported on, and so many reaps. */
  predicate Poisoned(j: Job, claims: nat, reaps: nat, cap: nat) {
    && j.attempts == claims <= cap && reaps <= claims <= reaps + 1
    && if claims == reaps + 1 then j.status == Claimed && j.claimedAt.Some?
       else if claims < cap then j.status == Pending
       else j.status == Failed && j.deadLettered
  }

  lemma PoisonedStep(q: Queue, step: Step, cap: nat, job: int, claims: nat, reaps: nat)
    requires LocksDisjoint(q) && 0 <= job < |q.jobs| && Poisoned(q.jobs[job], claims, reaps, cap)
    requires !(step.Report? && step.job == job)
    ensures |Next(q, step, cap).jobs| == |q.jobs|
    ensures Poisoned(Next(q, step, cap).jobs[job], claims + (if ClaimsJob(q, step, job) then 1 else 0),
                     reaps + (if ReapsJob(q, step, job) then 1 else 0), cap)
  {
    if ClaimsJob(q, step, job) {
      assert HeldAlone(q, step.worker, job);
    }
  }

  /**
   * A job every worker crashes on, whatever the other workers and jobs do meanwhile: its claims and reaps decide its
   * state. It is retried up to the cap; once claimed and reaped that often it is failed and dead-lettered, never
   * earlier, and stays so.
   */
  lemma {:induction false} PoisonedJobEndsFailed(q: Queue, steps: seq<Step>, cap: nat, job: int, claims: nat, reaps: nat)
    requires LocksDisjoint(q) && 0 <= job < |q.jobs| && Poisoned(q.jobs[job], claims, reaps, cap)
    requires forall i :: 0 <= i < |steps| ==> !(steps[i].Report? && steps[i].job == job)
    ensures |Run(q, steps, cap).jobs| == |q.jobs|
    ensures Poisoned(Run(q, steps, cap).jobs[job], claims + ClaimCount(q, steps, cap, job),
                     reaps + ReapCount(q, steps, cap, job), cap)
    decreases |steps|
  {
    if steps != [] {
      StepKeepsLocksDisjoint(q, steps[0], cap);
      PoisonedStep(q, steps[0], cap, job, claims, reaps);
      PoisonedJobEndsFailed(Next(q, steps[0], cap), steps[1..], cap, job,
                            claims + (if ClaimsJob(q, steps[0], job) then 1 else 0),
                            reaps + (if ReapsJob(q, steps[0], job) then 1 else 0));
    }
  }
}

/** The drain loops of `ccf.cli`: claim-and-drive cycles with reaping on its own cadence. */
module DrainLoop {
  import opened Nulls

  /** What one cycle did, in order: perhaps a reap, then a claim that found `claimed` jobs, perhaps a sleep. */
  datatype Cycle = Cycle(clock: real, reaped: bool, claimed: nat, slept: bool)

  /** `last_reap` starts at minus infinity, which is `None` here. */
  predicate Due(lastReap: Option<real>, now: real, interval: real) {
    lastReap == None || now - lastReap.value >= interval
  }

  /** When the last reap at or before the end of these cycles happened. */
  function LastReap(cycles: seq<Cycle>): Option<real> {
    if cycles == [] then None
    else if cycles[|cycles| - 1].reaped then Some(cycles[|cycles| - 1].clock)
    else LastReap(cycles[..|cycles| - 1])
  }

  predicate ReapsWhenDue(cycles: seq<Cycle>, interval: real) {
    forall i :: 0 <= i < |cycles| ==> (cycles[i].reaped <==> Due(LastReap(cycles[..i]), cycles[i].clock, interval))
  }

  predicate NeverBackwards(cycles: seq<Cycle>) {
    forall i, j :: 0 <= i <= j < |cycles| ==> cycles[i].clock <= cycles[j].clock
  }

  /** The cycles are those of a drain loop over a clock that never runs backwards. */
  predicate IsDrain(cycles: seq<Cycle>, interval: real) {
    ReapsWhenDue(cycles, interval) && NeverBackwards(cycles)
  }

  /**
   * The loop, fed the clock readings it will see and the size of the batch each cycle will claim; in `--loop` mode
   * the trace is as long as the worker lives.
   */
  method Drain(once: bool, interval: real, clock: seq<real>, claims: seq<nat>) returns (cycles: seq<Cycle>)
    requires |clock| == |claims| >= 1
    ensures |cycles| == if once then 1 else |clock|
    ensures forall i :: 0 <= i < |cycles| ==>
      && cycles[i].clock == clock[i] && cycles[i].claimed == claims[i]
      && (cycles[i].reaped <==> Due(LastReap(cycles[..i]), clock[i], interval))
      && (cycles[i].slept <==> !once && claims[i] == 0)
    ensures (forall i, j :: 0 <= i <= j < |clock| ==> clock[i] <= clock[j]) ==> IsDrain(cycles, interval)
  {
    cycles := [];
    var lastReap: Option<real> := None;
    while true
      invariant |cycles| <= |clock| && (once ==> cycles == []) && lastReap == LastReap(cycles)
      invariant |cycles| < |clock|
      invariant forall i :: 0 <= i < |cycles| ==>
        && cycles[i].clock == clock[i] && cycles[i].claimed == claims[i]
        && (cycles[i].reaped <==> Due(LastReap(cycles[..i]), clock[i], interval))
        && (cycles[i].slept <==> !once && claims[i] == 0)
      decreases |clock| - |cycles|
    {
      var n := |cycles|;
      var current := clock[n];
      var reap := lastReap == None || current - lastReap.value >= interval;
      if reap {
        lastReap := Some(current);
      }
      var claimed := claims[n];
      ghost var before := cycles;
      cycles := cycles + [Cycle(current, reap, claimed, !once && claimed == 0)];
      assert cycles[..n] == before;
      forall i | 0 <= i < n ensures cycles[..i] == before[..i] {
      }
      if once || |cycles| == |clock| {
        break;
      }
    }
  }

  lemma {:induction false} LastReapIsLatest(cycles: seq<Cycle>, i: nat)
    requires NeverBackwards(cycles) && i < |cycles| && cycles[i].reaped
    ensures LastReap(cycles).Some? && cycles[i].clock <= LastReap(cycles).value
  {
    if !cycles[|cycles| - 1].reaped {
      LastReapIsLatest(cycles[..|cycles| - 1], i);
    }
  }

  lemma ReapsApart(cycles: seq<Cycle>, interval: real, i: nat, j: nat)
    requires IsDrain(cycles, interval) && i < j < |cycles| && cycles[i].reaped && cycles[j].reaped
    ensures cycles[j].clock - cycles[i].clock >= interval
  {
    LastReapIsLatest(cycles[..j], i);
  }

  /** Once cycle `i` has checked, the last reap is less than an interval old. */
  predicate RecentlyReaped(cycles: seq<Cycle>, interval: real, i: nat)
    requires i < |cycles|
  {
    LastReap(cycles[..i + 1]).Some? && cycles[i].clock - LastReap(cycles[..i + 1]).value < interval
  }

  lemma LastReapIsRecent(cycles: seq<Cycle>, interval: real, i: nat)
    requires IsDrain(cycles, interval) && interval > 0.0 && i < |cycles|
    ensures RecentlyReaped(cycles, interval, i)
  {
    assert cycles[..i + 1][..i] == cycles[..i];
  }

  /**
   * For every clock that never runs backwards and every number of cycles: the first cycle reaps; two reaps are
   * always at least an interval apart; and after each cycle's check the last reap is less than an interval old.
   */
  lemma ReapCadence(cycles: seq<Cycle>, interval: real)
    requires IsDrain(cycles, interval) && interval > 0.0
    ensures cycles != [] ==> cycles[0].reaped
    ensures forall i, j :: 0 <= i < j < |cycles| && cycles[i].reaped && cycles[j].reaped ==>
      cycles[j].clock - cycles[i].clock >= interval
    ensures forall i :: 0 <= i < |cycles| ==> RecentlyReaped(cycles, interval, i)
  {
    if cycles != [] {
      assert cycles[..0] == [];
    }
    forall i, j | 0 <= i < j < |cycles| && cycles[i].reaped && cycles[j].reaped
      ensures cycles[j].clock - cycles[i].clock >= interval
    {
      ReapsApart(cycles, interval, i, j);
    }
    forall i | 0 <= i < |cycles| ensures RecentlyReaped(cycles, interval, i) {
      LastReapIsRecent(cycles, interval, i);
    }
  }
}
