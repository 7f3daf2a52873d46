/**
 * `ccf.db` from the side of its callers. A session holds a connection only while it has a transaction: `commit` and
 * `rollback` give the connection back to the pool with whatever binding it then has, and the next statement gets one
 * from the pool with whatever binding that one was left with.
 */
module Sessions {
  import opened Nulls
  import opened Connections
  import opened Decimal

  /** The session has a connection with an open transaction: its own, or the next one the pool hands out. */
  function Ready<W>(c: Conn<W>): (r: Conn<W>)
    ensures r.frames != []
  {
    if c.frames != [] then c
    else Begin(c.(settings := c.pool.handsOut(c.pool.served), pool := c.pool.(served := c.pool.served + 1)))
  }

  // ---- code that runs in a session ----

  /**
   * Python code using a session: statements, exceptions, and the context managers that bracket them. `CommitNow` and
   * `RollbackNow` are `session.commit()` and `session.rollback()`, which act on the whole transaction wherever they
   * are called.
   */
  datatype Cmd<!W> =
    | Do(effect: W -> W)
    | Rebind(tenant: Option<OrgId>)
    | Raise
    | DbError
    | Unscoped(body: seq<Cmd<W>>)
    | Nested(body: seq<Cmd<W>>)
    | Try(body: seq<Cmd<W>>, handler: seq<Cmd<W>>)
    | CommitNow
    | RollbackNow

  datatype Outcome<W> = Outcome(conn: Conn<W>, raised: bool)

  /**
   * Code inside `depth` savepoint blocks can still use the session. Once the transaction around the blocks has been
   * committed or rolled back, every further statement raises until all of them are left.
   */
  predicate Usable<W>(c: Conn<W>, depth: nat) {
    depth == 0 || c.frames != []
  }

  predicate Accepts<W>(c: Conn<W>, depth: nat) {
    Usable(c, depth) && !c.aborted
  }

  function Exec<W>(cmds: seq<Cmd<W>>, c: Conn<W>, depth: nat): Outcome<W>
    decreases cmds, 0
  {
    if cmds == [] then Outcome(c, false)
    else
      var o := ExecOne(cmds[0], c, depth);
      if o.raised then o else Exec(cmds[1..], o.conn, depth)
  }

  function ExecOne<W>(cmd: Cmd<W>, c: Conn<W>, depth: nat): Outcome<W>
    decreases cmd, 1
  {
    match cmd
    case Do(effect) =>
      if !Accepts(c, depth) then Outcome(c, true)
      else
        var r := Ready(c);
        Outcome(r.(work := effect(r.work), log := r.log + [r.settings]), false)
    case Rebind(tenant) => if !Accepts(c, depth) then Outcome(c, true) else Outcome(Bind(Ready(c), tenant), false)
    case Raise => Outcome(c, true)
    case DbError => if !Usable(c, depth) then Outcome(c, true) else Outcome(Ready(c).(aborted := true), true)
    case Unscoped(body) =>
      if !Accepts(c, depth) then Outcome(c, true)
      else
        var r := Ready(c);
        if CurrentTenant(r.settings).Failure? then Outcome(r, true)
        else
          var o := Exec(body, Bind(r, None), depth);
          if !Accepts(o.conn, depth) then Outcome(o.conn, true)
          else Outcome(Bind(Ready(o.conn), CurrentTenant(r.settings).value), o.raised)
    case Nested(body) =>
      if !Accepts(c, depth) then Outcome(c, true)
      else
        var k := |Ready(c).frames|;
        var o := Exec(body, PushSavepoint(Ready(c)), depth + 1);
        if k >= |o.conn.frames| then o
        else if o.raised || o.conn.aborted then
          var back := BackTo(o.conn, k);
          Outcome(back.(frames := back.frames[..k]), true)
        else Outcome(o.conn.(frames := o.conn.frames[..k]), false)
    case Try(body, handler) =>
      var o := Exec(body, c, depth);
      if o.raised then Exec(handler, o.conn, depth) else o
    case CommitNow =>
      if !Usable(c, depth) || (depth > 0 && c.aborted) then Outcome(c, true) else Outcome(Commit(c), false)
    case RollbackNow => Outcome(RollBack(c), false)
  }

  /** Inside savepoint blocks the frames below are as they were, or the whole transaction is gone and healthy. */
  ghost predicate KeptOrEnded<W>(before: Conn<W>, after: Conn<W>) {
    after.frames == before.frames || (after.frames == [] && !after.aborted)
  }

  /** Whatever code runs inside savepoint blocks, the brackets match unless it ended the transaction. */
  lemma {:induction false} ExecKeepsOrEnds<W>(cmds: seq<Cmd<W>>, c: Conn<W>, depth: nat)
    requires depth > 0 && (c.frames == [] ==> !c.aborted)
    ensures KeptOrEnded(c, Exec(cmds, c, depth).conn)
    ensures c.frames == [] ==> !Exec(cmds, c, depth).conn.aborted
    decreases cmds, 0
  {
    if cmds != [] {
      ExecOneKeepsOrEnds(cmds[0], c, depth);
      if !ExecOne(cmds[0], c, depth).raised {
        ExecKeepsOrEnds(cmds[1..], ExecOne(cmds[0], c, depth).conn, depth);
      }
    }
  }

  lemma {:induction false} ExecOneKeepsOrEnds<W>(cmd: Cmd<W>, c: Conn<W>, depth: nat)
    requires depth > 0 && (c.frames == [] ==> !c.aborted)
    ensures KeptOrEnded(c, ExecOne(cmd, c, depth).conn)
    ensures c.frames == [] ==> !ExecOne(cmd, c, depth).conn.aborted
    decreases cmd, 1
  {
    match cmd
    case Unscoped(body) =>
      if Accepts(c, depth) && CurrentTenant(c.settings).Success? {
        ExecKeepsOrEnds(body, Bind(c, None), depth);
      }
    case Nested(body) =>
      if Accepts(c, depth) {
        ExecKeepsOrEnds(body, PushSavepoint(c), depth + 1);
      }
    case Try(body, handler) =>
      ExecKeepsOrEnds(body, c, depth);
      ExecKeepsOrEnds(handler, Exec(body, c, depth).conn, depth);
    case _ =>
  }

  /** Code that leaves ending the transaction to whoever opened it. */
  predicate NeverEnds<W>(cmds: seq<Cmd<W>>)
    decreases cmds, 0
  {
    cmds == [] || (NeverEndsOne(cmds[0]) && NeverEnds(cmds[1..]))
  }

  predicate NeverEndsOne<W>(cmd: Cmd<W>)
    decreases cmd, 1
  {
    match cmd
    case CommitNow => false
    case RollbackNow => false
    case Unscoped(body) => NeverEnds(body)
    case Nested(body) => NeverEnds(body)
    case Try(body, handler) => NeverEnds(body) && NeverEnds(handler)
    case _ => true
  }

  /** The transaction, what was committed, and the connection are the same. */
  ghost predicate SameTransaction<W>(before: Conn<W>, after: Conn<W>) {
    after.frames == before.frames && after.commits == before.commits && after.pool == before.pool
  }

  /** Such code leaves the frames it started in, commits nothing, and stays on its connection. */
  lemma {:induction false} ExecKeepsTransaction<W>(cmds: seq<Cmd<W>>, c: Conn<W>, depth: nat)
    requires NeverEnds(cmds) && c.frames != []
    ensures SameTransaction(c, Exec(cmds, c, depth).conn)
    decreases cmds, 0
  {
    if cmds != [] {
      ExecOneKeepsTransaction(cmds[0], c, depth);
      if !ExecOne(cmds[0], c, depth).raised {
        ExecKeepsTransaction(cmds[1..], ExecOne(cmds[0], c, depth).conn, depth);
      }
    }
  }

  lemma {:induction false} ExecOneKeepsTransaction<W>(cmd: Cmd<W>, c: Conn<W>, depth: nat)
    requires NeverEndsOne(cmd) && c.frames != []
    ensures SameTransaction(c, ExecOne(cmd, c, depth).conn)
    decreases cmd, 1
  {
    match cmd
    case Unscoped(body) =>
      if Accepts(c, depth) && CurrentTenant(c.settings).Success? {
        ExecKeepsTransaction(body, Bind(c, None), depth);
      }
    case Nested(body) =>
      if Accepts(c, depth) {
        ExecKeepsTransaction(body, PushSavepoint(c), depth + 1);
      }
    case Try(body, handler) =>
      ExecKeepsTransaction(body, c, depth);
      ExecKeepsTransaction(handler, Exec(body, c, depth).conn, depth);
    case _ =>
  }

  /**
   * What a full rollback would go back to: the data of the last COMMIT, and on the connection the binding it was
   * handed out with.
   */
  ghost predicate Resting<W>(from: Conn<W>, c: Conn<W>) {
    && |from.commits| <= |c.commits| && from.pool.handsOut == c.pool.handsOut
    && (c.frames == [] ==> !c.aborted && c.work == LastKept(from, c).work)
    && (c.frames != [] ==>
          c.pool.served > 0 && c.frames[0] == Frame(c.pool.handsOut(c.pool.served - 1), LastKept(from, c).work))
  }

  /** Through any code, at any depth. */
  lemma {:induction false} ExecKeepsResting<W>(cmds: seq<Cmd<W>>, from: Conn<W>, c: Conn<W>, depth: nat)
    requires Resting(from, c)
    ensures Resting(from, Exec(cmds, c, depth).conn)
    decreases cmds, 0
  {
    if cmds != [] {
      ExecOneKeepsResting(cmds[0], from, c, depth);
      if !ExecOne(cmds[0], c, depth).raised {
        ExecKeepsResting(cmds[1..], from, ExecOne(cmds[0], c, depth).conn, depth);
      }
    }
  }

  lemma {:induction false} ExecOneKeepsResting<W>(cmd: Cmd<W>, from: Conn<W>, c: Conn<W>, depth: nat)
    requires Resting(from, c)
    ensures Resting(from, ExecOne(cmd, c, depth).conn)
    decreases cmd, 1
  {
    match cmd
    case Unscoped(body) =>
      if Accepts(c, depth) && CurrentTenant(Ready(c).settings).Success? {
        ReadyKeepsResting(from, c);
        ExecKeepsResting(body, from, Bind(Ready(c), None), depth);
        UnscopedKeepsResting(body, from, c, depth);
      }
    case Nested(body) =>
      if Accepts(c, depth) {
        ReadyKeepsResting(from, c);
        ExecKeepsResting(body, from, PushSavepoint(Ready(c)), depth + 1);
        NestedKeepsResting(body, from, c, depth);
      }
    case Try(body, handler) =>
      ExecKeepsResting(body, from, c, depth);
      ExecKeepsResting(handler, from, Exec(body, c, depth).conn, depth);
    case _ => PlainKeepsResting(cmd, from, c, depth);
  }

  lemma PlainKeepsResting<W>(cmd: Cmd<W>, from: Conn<W>, c: Conn<W>, depth: nat)
    requires Resting(from, c) && !cmd.Unscoped? && !cmd.Nested? && !cmd.Try?
    ensures Resting(from, ExecOne(cmd, c, depth).conn)
  {
    ReadyKeepsResting(from, c);
  }

  lemma ReadyKeepsResting<W>(from: Conn<W>, c: Conn<W>)
    requires Resting(from, c)
    ensures Resting(from, Ready(c))
  {
  }

  lemma UnscopedKeepsResting<W>(body: seq<Cmd<W>>, from: Conn<W>, c: Conn<W>, depth: nat)
    requires Accepts(c, depth) && CurrentTenant(Ready(c).settings).Success?
    requires Resting(from, Exec(body, Bind(Ready(c), None), depth).conn)
    ensures Resting(from, ExecOne(Unscoped(body), c, depth).conn)
  {
    ReadyKeepsResting(from, Exec(body, Bind(Ready(c), None), depth).conn);
  }

  lemma NestedKeepsResting<W>(body: seq<Cmd<W>>, from: Conn<W>, c: Conn<W>, depth: nat)
    requires Accepts(c, depth) && Resting(from, Exec(body, PushSavepoint(Ready(c)), depth + 1).conn)
    ensures Resting(from, ExecOne(Nested(body), c, depth).conn)
  {
  }

  // ---- `unscoped_read` ----

  /**
   * `unscoped_read` over every body, raising or not, nested to any depth, even committing or rolling back: the session
   * ends acting for exactly the tenant it found, on whatever connection it then has, or an exception is propagated on
   * a session that refuses every further statement.
   */
  lemma UnscopedRestores<W>(body: seq<Cmd<W>>, c: Conn<W>, depth: nat)
    requires Accepts(c, depth) && Consistent(Ready(c).settings)
    ensures var o := ExecOne(Unscoped(body), c, depth);
      var inner := Exec(body, Bind(Ready(c), None), depth);
      && (Accepts(inner.conn, depth) ==>
            o.conn.frames != [] && o.raised == inner.raised
            && ActsFor(o.conn.settings, CurrentTenant(Ready(c).settings).value))
      && (!Accepts(inner.conn, depth) ==> o.raised && !Accepts(o.conn, depth))
  {
    BoundActsFor(CurrentTenant(Ready(c).settings).value);
  }

  /** Code that neither binds a tenant nor ends the transaction, at any depth. */
  predicate LeavesBinding<W>(cmds: seq<Cmd<W>>)
    decreases cmds, 0
  {
    cmds == [] || (LeavesBindingOne(cmds[0]) && LeavesBinding(cmds[1..]))
  }

  predicate LeavesBindingOne<W>(cmd: Cmd<W>)
    decreases cmd, 1
  {
    match cmd
    case Rebind(_) => false
    case CommitNow => false
    case RollbackNow => false
    case Unscoped(body) => LeavesBinding(body)
    case Nested(body) => LeavesBinding(body)
    case Try(body, handler) => LeavesBinding(body) && LeavesBinding(handler)
    case _ => true
  }

  lemma {:induction false} LeavesBindingNeverEnds<W>(cmds: seq<Cmd<W>>)
    requires LeavesBinding(cmds)
    ensures NeverEnds(cmds)
    decreases cmds, 0
  {
    if cmds != [] {
      LeavesBindingNeverEndsOne(cmds[0]);
      LeavesBindingNeverEnds(cmds[1..]);
    }
  }

  lemma {:induction false} LeavesBindingNeverEndsOne<W>(cmd: Cmd<W>)
    requires LeavesBindingOne(cmd)
    ensures NeverEndsOne(cmd)
    decreases cmd, 1
  {
    match cmd
    case Unscoped(body) => LeavesBindingNeverEnds(body);
    case Nested(body) => LeavesBindingNeverEnds(body);
    case Try(body, handler) =>
      LeavesBindingNeverEnds(body);
      LeavesBindingNeverEnds(handler);
    case _ =>
  }

  /** `later` extends `earlier` by statements that all ran for this tenant. */
  predicate ExtendsFor(earlier: seq<Settings>, later: seq<Settings>, tenant: Option<OrgId>) {
    |earlier| <= |later| && later[..|earlier|] == earlier
    && forall i :: |earlier| <= i < |later| ==> ActsFor(later[i], tenant)
  }

  /** Unscoped in the same transaction, and so were all statements since. */
  ghost predicate StillUnscoped<W>(before: Conn<W>, after: Conn<W>) {
    && SameTransaction(before, after) && ActsFor(after.settings, None)
    && ExtendsFor(before.log, after.log, None)
  }

  lemma {:induction false} StaysUnscoped<W>(cmds: seq<Cmd<W>>, c: Conn<W>, depth: nat)
    requires LeavesBinding(cmds) && c.frames != [] && ActsFor(c.settings, None)
    ensures StillUnscoped(c, Exec(cmds, c, depth).conn)
    decreases cmds, 0
  {
    if cmds != [] {
      StaysUnscopedOne(cmds[0], c, depth);
      if !ExecOne(cmds[0], c, depth).raised {
        StaysUnscoped(cmds[1..], ExecOne(cmds[0], c, depth).conn, depth);
      }
    }
  }

  lemma {:induction false} StaysUnscopedOne<W>(cmd: Cmd<W>, c: Conn<W>, depth: nat)
    requires LeavesBindingOne(cmd) && c.frames != [] && ActsFor(c.settings, None)
    ensures StillUnscoped(c, ExecOne(cmd, c, depth).conn)
    decreases cmd, 1
  {
    match cmd
    case Unscoped(body) =>
      if Accepts(c, depth) {
        BoundActsFor(None);
        StaysUnscoped(body, Bind(c, None), depth);
      }
    case Nested(body) =>
      if Accepts(c, depth) {
        StaysUnscoped(body, PushSavepoint(c), depth + 1);
      }
    case Try(body, handler) =>
      StaysUnscoped(body, c, depth);
      StaysUnscoped(handler, Exec(body, c, depth).conn, depth);
    case _ =>
  }

  /** The body of `unscoped_read` runs unscoped, every statement of it, whatever tenant the session is clamped to. */
  lemma UnscopedBodyRunsUnscoped<W>(body: seq<Cmd<W>>, c: Conn<W>, depth: nat)
    requires LeavesBinding(body) && Accepts(c, depth) && Consistent(Ready(c).settings)
    ensures ExtendsFor(c.log, ExecOne(Unscoped(body), c, depth).conn.log, None)
  {
    BoundActsFor(None);
    StaysUnscoped(body, Bind(Ready(c), None), depth);
  }

  // ---- `session_scope` ----

  /** Unscoped first, then the body; commit if it returns, roll back and re-raise if it does not. */
  function InScope<W>(body: seq<Cmd<W>>, c: Conn<W>): Outcome<W>
    requires !c.aborted
  {
    var o := Exec(body, Bind(Ready(c), None), 0);
    if o.raised then Outcome(RollBack(o.conn), true) else Outcome(Commit(o.conn), false)
  }

  /**
   * A body that returns has everything it left in its transaction committed. After one that raises, or that swallowed
   * a database error, the data are those of the body's own last commit, or without one those found: all or nothing
   * for a body that neither commits nor rolls back. The connection goes back to the pool bound as the body left it if
   * it was committed, and bound as it was handed out if it was rolled back.
   */
  lemma ScopeKeepsLastCommit<W>(body: seq<Cmd<W>>, c: Conn<W>)
    requires c.frames == [] && !c.aborted
    ensures var o := InScope(body, c);
      var inner := Exec(body, Bind(Ready(c), None), 0);
      && o.raised == inner.raised && o.conn.frames == [] && !o.conn.aborted
      && (if inner.raised || inner.conn.aborted
          then
            && o.conn.work == LastKept(c, inner.conn).work && o.conn.commits == inner.conn.commits
            && (inner.conn.frames != [] ==>
                  inner.conn.pool.served > 0 && o.conn.settings == c.pool.handsOut(inner.conn.pool.served - 1))
          else
            && o.conn.work == inner.conn.work && o.conn.settings == inner.conn.settings
            && (inner.conn.frames != [] ==>
                  o.conn.commits == inner.conn.commits + [Frame(inner.conn.settings, inner.conn.work)]))
      && (NeverEnds(body) ==>
            LastKept(c, inner.conn).work == c.work && inner.conn.pool.served == c.pool.served + 1)
  {
    ExecKeepsResting(body, c, Bind(Ready(c), None), 0);
    if NeverEnds(body) {
      ExecKeepsTransaction(body, Bind(Ready(c), None), 0);
    }
  }

  // ---- rollbacks and errors ----

  /** Code that calls no `session.commit()`, at any depth; it may roll back. */
  predicate NeverCommits<W>(cmds: seq<Cmd<W>>)
    decreases cmds, 0
  {
    cmds == [] || (NeverCommitsOne(cmds[0]) && NeverCommits(cmds[1..]))
  }

  predicate NeverCommitsOne<W>(cmd: Cmd<W>)
    decreases cmd, 1
  {
    match cmd
    case CommitNow => false
    case Unscoped(body) => NeverCommits(body)
    case Nested(body) => NeverCommits(body)
    case Try(body, handler) => NeverCommits(body) && NeverCommits(handler)
    case _ => true
  }

  /** Such code makes nothing durable. */
  lemma {:induction false} ExecCommitsNothing<W>(cmds: seq<Cmd<W>>, c: Conn<W>, depth: nat)
    requires NeverCommits(cmds)
    ensures Exec(cmds, c, depth).conn.commits == c.commits
    decreases cmds, 0
  {
    if cmds != [] {
      ExecOneCommitsNothing(cmds[0], c, depth);
      if !ExecOne(cmds[0], c, depth).raised {
        ExecCommitsNothing(cmds[1..], ExecOne(cmds[0], c, depth).conn, depth);
      }
    }
  }

  lemma {:induction false} ExecOneCommitsNothing<W>(cmd: Cmd<W>, c: Conn<W>, depth: nat)
    requires NeverCommitsOne(cmd)
    ensures ExecOne(cmd, c, depth).conn.commits == c.commits
    decreases cmd, 1
  {
    match cmd
    case Unscoped(body) =>
      if Accepts(c, depth) && CurrentTenant(Ready(c).settings).Success? {
        ExecCommitsNothing(body, Bind(Ready(c), None), depth);
      }
    case Nested(body) =>
      if Accepts(c, depth) {
        ExecCommitsNothing(body, PushSavepoint(Ready(c)), depth + 1);
      }
    case Try(body, handler) =>
      ExecCommitsNothing(body, c, depth);
      ExecCommitsNothing(handler, Exec(body, c, depth).conn, depth);
    case _ =>
  }

  /**
   * `session.rollback()` after any code, at any depth: no transaction is left open, nothing more is durable, and the
   * data are those of the last commit.
   */
  lemma RollbackLeavesLastCommit<W>(cmds: seq<Cmd<W>>, c: Conn<W>, depth: nat)
    requires c.frames == [] && !c.aborted
    ensures var inner := Exec(cmds, c, depth).conn;
      var o := ExecOne(RollbackNow, inner, depth);
      && !o.raised && o.conn.frames == [] && !o.conn.aborted && o.conn.commits == inner.commits
      && o.conn.work == LastKept(c, inner).work
  {
    ExecKeepsResting(cmds, c, c, depth);
  }

  lemma {:induction false} ExecAppend<W>(cmds: seq<Cmd<W>>, last: Cmd<W>, c: Conn<W>, depth: nat)
    ensures var o := Exec(cmds, c, depth);
      Exec(cmds + [last], c, depth) == if o.raised then o else ExecOne(last, o.conn, depth)
  {
    if cmds == [] {
      assert cmds + [last] == [last] && [last][1..] == [];
    } else {
      assert (cmds + [last])[1..] == cmds[1..] + [last];
      if !ExecOne(cmds[0], c, depth).raised {
        ExecAppend(cmds[1..], last, ExecOne(cmds[0], c, depth).conn, depth);
      }
    }
  }

  /** The command line's dry run, `session_scope` around work and a rollback, leaves nothing behind. */
  lemma DryRunLeavesNothing<W>(body: seq<Cmd<W>>, c: Conn<W>)
    requires c.frames == [] && !c.aborted && NeverCommits(body)
    ensures var o := InScope(body + [RollbackNow], c);
      o.conn.work == c.work && o.conn.commits == c.commits && o.conn.frames == []
  {
    var start := Bind(Ready(c), None);
    ExecAppend(body, RollbackNow, start, 0);
    ExecKeepsResting(body, c, start, 0);
    ExecCommitsNothing(body, start, 0);
  }

  /** And its real run, ended by a commit, leaves exactly what the work wrote, if the work neither raised nor failed. */
  lemma RealRunLeavesWork<W>(body: seq<Cmd<W>>, c: Conn<W>)
    requires c.frames == [] && !c.aborted && NeverEnds(body)
    ensures var inner := Exec(body, Bind(Ready(c), None), 0);
      var o := InScope(body + [CommitNow], c);
      if inner.raised || inner.conn.aborted then o.conn.work == c.work && o.conn.commits == c.commits
      else o.conn.work == inner.conn.work && o.conn.commits == c.commits + [Frame(inner.conn.settings, inner.conn.work)]
  {
    var start := Bind(Ready(c), None);
    ExecAppend(body, CommitNow, start, 0);
    ExecKeepsTransaction(body, start, 0);
  }

  /**
   * A database error aborts the transaction, and from then on code that neither commits nor rolls back changes
   * nothing: no statement takes effect, is logged or rebinds, however the errors are handled.
   */
  lemma {:induction false} AbortedRefuses<W>(cmds: seq<Cmd<W>>, c: Conn<W>, depth: nat)
    requires c.frames != [] && NeverEnds(cmds)
    ensures ExecOne(DbError, c, depth) == Outcome(c.(aborted := true), true)
    ensures c.aborted ==> Exec(cmds, c, depth).conn == c
    decreases cmds, 0
  {
    if cmds != [] && c.aborted {
      AbortedRefusesOne(cmds[0], c, depth);
      AbortedRefuses(cmds[1..], c, depth);
    }
  }

  lemma {:induction false} AbortedRefusesOne<W>(cmd: Cmd<W>, c: Conn<W>, depth: nat)
    requires c.aborted && c.frames != [] && NeverEndsOne(cmd)
    ensures ExecOne(cmd, c, depth).conn == c
    decreases cmd, 1
  {
    match cmd
    case Try(body, handler) =>
      AbortedRefuses(body, c, depth);
      AbortedRefuses(handler, c, depth);
    case _ =>
  }

  // ---- the session object itself ----

  class Session<W> {
    var settings: Settings
    var work: W
    var frames: seq<Frame<W>>
    var aborted: bool
    var log: seq<Settings>
    var commits: seq<Frame<W>>
    var pool: Pool

    ghost function State(): Conn<W>
      reads this
    {
      Conn(settings, work, frames, aborted, log, commits, pool)
    }

    /** A session that has not used the database yet holds no connection. */
    constructor (pool: Pool, work: W)
      ensures State() == Conn(Settings(Bootstrap, None), work, [], false, [], [], pool)
    {
      settings, this.work, frames, aborted := Settings(Bootstrap, None), work, [], false;
      log, commits, this.pool := [], [], pool;
    }

    method AutoBegin()
      modifies this`frames, this`settings, this`pool
      ensures State() == Ready(old(State()))
    {
      if frames == [] {
        settings := pool.handsOut(pool.served);
        pool := pool.(served := pool.served + 1);
        frames := [Frame(settings, work)];
      }
    }

    /** Returns whether the statements went through. */
    method SetSessionTenant(tenant: Option<OrgId>, depth: nat) returns (ok: bool)
      modifies this
      ensures ok == Accepts(old(State()), depth)
      ensures State() == ExecOne(Rebind(tenant), old(State()), depth).conn
    {
      if aborted || (depth > 0 && frames == []) {
        return false;
      }
      AutoBegin();
      match tenant {
        case None =>
          settings := settings.(role := Bootstrap);
          settings := settings.(tenantSetting := Some([]));
        case Some(id) =>
          settings := settings.(tenantSetting := Some(PrintInt(id)));
          settings := settings.(role := App);
      }
      return true;
    }

    method RollbackToDepth(k: nat)
      requires k < |frames|
      modifies this
      ensures State() == BackTo(old(State()), k)
    {
      settings, work, frames, aborted := frames[k].settings, frames[k].work, frames[..k + 1], false;
    }

    method CommitTransaction()
      modifies this
      ensures State() == Commit(old(State()))
    {
      if aborted {
        RollbackTransaction();
      } else if frames != [] {
        commits := commits + [Frame(settings, work)];
        frames := [];
      }
    }

    method RollbackTransaction()
      modifies this
      ensures State() == RollBack(old(State()))
    {
      if frames != [] {
        RollbackToDepth(0);
        frames := [];
      }
    }

    /** `async with session_scope() as session: body`. */
    method SessionScope(body: seq<Cmd<W>>) returns (raised: bool)
      requires frames == [] && !aborted
      modifies this
      ensures Outcome(State(), raised) == InScope(body, old(State()))
    {
      var ok := SetSessionTenant(None, 0);
      raised := RunBlock(body, 0);
      if raised {
        RollbackTransaction();
      } else {
        CommitTransaction();
      }
    }

    /** Runs a block of code inside `depth` savepoint blocks; the result says whether an exception left it. */
    method RunBlock(cmds: seq<Cmd<W>>, depth: nat) returns (raised: bool)
      modifies this
      ensures Outcome(State(), raised) == Exec(cmds, old(State()), depth)
      decreases cmds, 0
    {
      var i := 0;
      ghost var start := State();
      while i < |cmds|
        invariant 0 <= i <= |cmds|
        invariant Exec(cmds, start, depth) == Exec(cmds[i..], State(), depth)
      {
        raised := RunCommand(cmds[i], depth);
        if raised {
          return true;
        }
        i := i + 1;
      }
      return false;
    }

    method RunCommand(cmd: Cmd<W>, depth: nat) returns (raised: bool)
      modifies this
      ensures Outcome(State(), raised) == ExecOne(cmd, old(State()), depth)
      decreases cmd, 1
    {
      match cmd {
        case Do(effect) =>
          if aborted || (depth > 0 && frames == []) {
            return true;
          }
          AutoBegin();
          log := log + [settings];
          work := effect(work);
          return false;
        case Rebind(tenant) =>
          var ok := SetSessionTenant(tenant, depth);
          return !ok;
        case Raise =>
          return true;
        case DbError =>
          if depth > 0 && frames == [] {
            return true;
          }
          AutoBegin();
          aborted := true;
          return true;
        case Unscoped(body) =>
          raised := UnscopedRead(body, depth);
        case Nested(body) =>
          raised := BeginNested(body, depth);
        case Try(body, handler) =>
          raised := RunBlock(body, depth);
          if raised {
            raised := RunBlock(handler, depth);
          }
        case CommitNow =>
          if depth > 0 && (frames == [] || aborted) {
            return true;
          }
          CommitTransaction();
          return false;
        case RollbackNow =>
          RollbackTransaction();
          return false;
      }
    }

    /** `async with unscoped_read(session): body`. */
    method UnscopedRead(body: seq<Cmd<W>>, depth: nat) returns (raised: bool)
      modifies this
      ensures Outcome(State(), raised) == ExecOne(Unscoped(body), old(State()), depth)
      decreases body, 1
    {
      if aborted || (depth > 0 && frames == []) {
        return true;
      }
      AutoBegin();
      var raw := CurrentTenant(settings);
      if raw.Failure? {
        return true;
      }
      var tenant := raw.value;
      var ok := SetSessionTenant(None, depth);
      raised := RunBlock(body, depth);
      // finally:
      ok := SetSessionTenant(tenant, depth);
      raised := raised || !ok;
    }

    /** `async with session.begin_nested(): body`. */
    method BeginNested(body: seq<Cmd<W>>, depth: nat) returns (raised: bool)
      modifies this
      ensures Outcome(State(), raised) == ExecOne(Nested(body), old(State()), depth)
      decreases body, 1
    {
      if aborted || (depth > 0 && frames == []) {
        return true;
      }
      AutoBegin();
      var k := |frames|;
      frames := frames + [Frame(settings, work)];
      ghost var pushed := State();
      raised := RunBlock(body, depth + 1);
      ExecKeepsOrEnds(body, pushed, depth + 1);
      if |frames| <= k {
        return raised;
      }
      raised := raised || aborted;
      if raised {
        RollbackToDepth(k);
      }
      frames := frames[..k];
    }
  }
}
