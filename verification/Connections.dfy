/**
 * Which tenant one database connection acts for, and what PostgreSQL transactions do to that binding.
 *
 * A connection's role and its `ccf.tenant_id` setting are session-scoped but transactional: COMMIT keeps them, and
 * every kind of ROLLBACK puts back the pair held when the (sub)transaction began.
 */
module Connections {
  import opened Nulls
  import opened Decimal

  /** `ccf`, the bootstrap superuser that bypasses row-level security, and `ccf_app`, which does not. */
  datatype Role = Bootstrap | App

  /** Organization ids are PostgreSQL `integer`s. */
  type OrgId = x: int | -0x8000_0000 <= x < 0x8000_0000

  datatype Settings = Settings(role: Role, tenantSetting: Option<string>)

  datatype CastError = CastError

  /** `NULLIF(current_setting('ccf.tenant_id', true), '')::integer`. */
  function CurrentTenant(s: Settings): Result<Option<OrgId>, CastError> {
    match s.tenantSetting
    case None => Success(None)
    case Some(text) =>
      if text == [] then Success(None)
      else match ParseInt(text)
        case Some(id) => if -0x8000_0000 <= id < 0x8000_0000 then Success(Some(id)) else Failure(CastError)
        case None => Failure(CastError)
  }

  /** The settings act for exactly this tenant: unscoped as the superuser, or clamped as the application role. */
  predicate ActsFor(s: Settings, tenant: Option<OrgId>) {
    CurrentTenant(s) == Success(tenant) && (s.role == App <==> tenant.Some?)
  }

  predicate Consistent(s: Settings) {
    CurrentTenant(s).Success? && ActsFor(s, CurrentTenant(s).value)
  }

  /** What `set_session_tenant` leaves behind; nothing of the previous settings survives. */
  function Bound(tenant: Option<OrgId>): Settings {
    match tenant
    case None => Settings(Bootstrap, Some([]))
    case Some(id) => Settings(App, Some(PrintInt(id)))
  }

  lemma BoundActsFor(tenant: Option<OrgId>)
    ensures ActsFor(Bound(tenant), tenant)
    ensures CurrentTenant(Bound(tenant)) == Success(tenant)
  {
    if tenant.Some? {
      ParsePrinted(tenant.value);
    }
  }

  /**
   * The setting reads as "no tenant", which bypasses every policy, only when it was never set or is empty; anything
   * else that is not a numeral in range is an error.
   */
  lemma BypassOnlyWhenUnset(s: Settings)
    ensures CurrentTenant(s) == Success(None) <==> s.tenantSetting == None || s.tenantSetting == Some([])
    ensures CurrentTenant(s).Failure?
      <==> (s.tenantSetting.Some? && s.tenantSetting.value != []
            && forall id: OrgId :: ParseInt(s.tenantSetting.value) != Some(id))
  {
    if s.tenantSetting.Some? && ParseInt(s.tenantSetting.value).Some? {
      var id := ParseInt(s.tenantSetting.value).value;
      if -0x8000_0000 <= id < 0x8000_0000 {
        var org: OrgId := id;
        assert ParseInt(s.tenantSetting.value) == Some(org);
      }
    }
  }

  /** `W` is the data the connection sees; a frame is what a transaction or savepoint found when it began. */
  datatype Frame<W> = Frame(settings: Settings, work: W)

  /** The bindings of the connections a pool will hand out, one after another, and how many it has handed out. */
  datatype Pool = Pool(handsOut: nat -> Settings, served: nat)

  /**
   * `frames[0]` belongs to the transaction, the rest to savepoints; no frames means no open transaction. Two records
   * are not transactional: `log` holds the settings each statement ran under, `commits` what each COMMIT made durable.
   * `pool` is where the session that uses the connection gets its next one (module `Sessions`).
   */
  datatype Conn<W> = Conn(settings: Settings, work: W, frames: seq<Frame<W>>, aborted: bool, log: seq<Settings>,
                          commits: seq<Frame<W>>, pool: Pool)

  function Begin<W>(c: Conn<W>): Conn<W> {
    if c.frames == [] then c.(frames := [Frame(c.settings, c.work)]) else c
  }

  function Bind<W>(c: Conn<W>, tenant: Option<OrgId>): Conn<W>
    requires !c.aborted
  {
    Begin(c).(settings := Bound(tenant))
  }

  function PushSavepoint<W>(c: Conn<W>): Conn<W>
    requires !c.aborted
  {
    var b := Begin(c);
    b.(frames := b.frames + [Frame(b.settings, b.work)])
  }

  /** ROLLBACK TO the savepoint at depth `k`, which stays defined. */
  function BackTo<W>(c: Conn<W>, k: nat): Conn<W>
    requires k < |c.frames|
  {
    c.(settings := c.frames[k].settings, work := c.frames[k].work, frames := c.frames[..k + 1], aborted := false)
  }

  function RollBack<W>(c: Conn<W>): Conn<W> {
    if c.frames == [] then c else BackTo(c, 0).(frames := [])
  }

  /** COMMIT; PostgreSQL turns the COMMIT of an aborted transaction into a ROLLBACK. */
  function Commit<W>(c: Conn<W>): Conn<W> {
    if c.aborted then RollBack(c)
    else if c.frames == [] then c
    else c.(frames := [], commits := c.commits + [Frame(c.settings, c.work)])
  }

  // ---- every sequence of calls ----

  datatype Op<!W> =
    | SetTenant(tenant: Option<OrgId>)
    | Statement(effect: W -> W)
    | StatementError
    | Savepoint
    | Release(depth: nat)
    | RollbackTo(depth: nat)
    | CommitAll
    | RollbackAll

  /** An erroneous statement, and any statement of an aborted transaction, leaves the transaction aborted. */
  function Apply<W>(op: Op<W>, c: Conn<W>): Conn<W> {
    match op
    case SetTenant(tenant) => if c.aborted then c else Bind(c, tenant)
    case Statement(effect) =>
      if c.aborted then c else Begin(c).(work := effect(c.work), log := c.log + [c.settings])
    case StatementError => Begin(c).(aborted := true)
    case Savepoint => if c.aborted then c else PushSavepoint(c)
    case Release(k) =>
      if c.aborted then c
      else if 1 <= k < |c.frames| then c.(frames := c.frames[..k])
      else Begin(c).(aborted := true)
    case RollbackTo(k) => if 1 <= k < |c.frames| then BackTo(c, k) else Begin(c).(aborted := true)
    case CommitAll => Commit(c)
    case RollbackAll => RollBack(c)
  }

  function Run<W>(ops: seq<Op<W>>, c: Conn<W>): Conn<W> {
    if ops == [] then c else Run(ops[1..], Apply(ops[0], c))
  }

  predicate AllConsistent<W>(c: Conn<W>) {
    Consistent(c.settings) && forall i :: 0 <= i < |c.frames| ==> Consistent(c.frames[i].settings)
  }

  /** In every reachable state the role is `ccf_app` exactly when a tenant is set, here and at every savepoint. */
  lemma {:induction false} RoleFollowsTenant<W>(ops: seq<Op<W>>, c: Conn<W>)
    requires AllConsistent(c)
    ensures AllConsistent(Run(ops, c))
  {
    if ops != [] {
      if ops[0].SetTenant? {
        BoundActsFor(ops[0].tenant);
      }
      RoleFollowsTenant(ops[1..], Apply(ops[0], c));
    }
  }

  /** The operation leaves the frames up to and including depth `k` in place. */
  predicate StaysAbove<W>(op: Op<W>, k: nat) {
    match op
    case Release(d) => d > k
    case RollbackTo(d) => d > k
    case CommitAll => false
    case RollbackAll => false
    case _ => true
  }

  lemma {:induction false} FrameKept<W>(ops: seq<Op<W>>, c: Conn<W>, k: nat)
    requires k < |c.frames|
    requires forall i :: 0 <= i < |ops| ==> StaysAbove(ops[i], k)
    ensures k < |Run(ops, c).frames| && Run(ops, c).frames[k] == c.frames[k]
  {
    if ops != [] {
      assert StaysAbove(ops[0], k);
      FrameKept(ops[1..], Apply(ops[0], c), k);
    }
  }

  /**
   * Whatever happens after a savepoint is taken, rolling back to it puts back the binding and the data held when it
   * was taken and clears the error: a binding made before the savepoint survives, one made inside does not.
   */
  lemma SavepointRestores<W>(ops: seq<Op<W>>, c: Conn<W>)
    requires !c.aborted
    requires forall i :: 0 <= i < |ops| ==> StaysAbove(ops[i], |Begin(c).frames|)
    ensures var k := |Begin(c).frames|;
      var back := Apply(RollbackTo(k), Run(ops, PushSavepoint(c)));
      back.settings == c.settings && back.work == c.work && !back.aborted
  {
    FrameKept(ops, PushSavepoint(c), |Begin(c).frames|);
  }

  lemma {:induction false} FramesKept<W>(ops: seq<Op<W>>, c: Conn<W>, k: nat)
    requires k < |c.frames| && forall i :: 0 <= i < |ops| ==> StaysAbove(ops[i], k)
    ensures k < |Run(ops, c).frames| && Run(ops, c).frames[..k + 1] == c.frames[..k + 1]
  {
    if ops != [] {
      assert StaysAbove(ops[0], k);
      var next := Apply(ops[0], c);
      assert next.frames[..k + 1] == c.frames[..k + 1];
      FramesKept(ops[1..], next, k);
    }
  }

  /** Releasing a savepoint keeps everything done since, data and binding, and leaves the transaction as it was. */
  lemma ReleaseKeepsAll<W>(ops: seq<Op<W>>, c: Conn<W>)
    requires !c.aborted && forall i :: 0 <= i < |ops| ==> StaysAbove(ops[i], |Begin(c).frames|)
    ensures var k := |Begin(c).frames|;
      var inner := Run(ops, PushSavepoint(c));
      var out := Apply(Release(k), inner);
      !inner.aborted ==>
        out.settings == inner.settings && out.work == inner.work && out.frames == Begin(c).frames && !out.aborted
  {
    var k := |Begin(c).frames|;
    FramesKept(ops, PushSavepoint(c), k);
    assert Run(ops, PushSavepoint(c)).frames[..k] == Run(ops, PushSavepoint(c)).frames[..k + 1][..k];
  }

  /** The operation neither ends the transaction nor rolls back to a savepoint. */
  predicate GoesOn<W>(op: Op<W>) {
    !op.CommitAll? && !op.RollbackAll? && !op.RollbackTo?
  }

  /** After an error nothing in the transaction takes effect any more, and its COMMIT keeps nothing of it. */
  lemma {:induction false} ErrorIsFinal<W>(ops: seq<Op<W>>, c: Conn<W>)
    requires c.frames != [] && forall i :: 0 <= i < |ops| ==> GoesOn(ops[i])
    ensures var failed := Apply(StatementError, c);
      && failed.aborted && Run(ops, failed) == failed
      && Apply(CommitAll, failed) == Apply(RollbackAll, failed)
      && Apply(CommitAll, failed).work == c.frames[0].work && Apply(CommitAll, failed).commits == c.commits
  {
    if ops != [] {
      assert GoesOn(ops[0]);
      ErrorIsFinal(ops[1..], c);
    }
  }

  /** A full rollback puts back what the connection held when its transaction began, whatever was bound since. */
  lemma RollbackRestores<W>(first: Op<W>, ops: seq<Op<W>>, c: Conn<W>)
    requires c.frames == [] && !c.aborted
    requires first.SetTenant? || first.Statement? || first.StatementError? || first.Savepoint?
    requires forall i :: 0 <= i < |ops| ==> StaysAbove(ops[i], 0)
    ensures var back := Apply(RollbackAll, Run(ops, Apply(first, c)));
      back.settings == c.settings && back.work == c.work && back.frames == []
  {
    var started := Apply(first, c);
    FrameKept(ops, started, 0);
  }

  /** COMMIT keeps a connection's binding, and a bind overrides whatever the connection held before. */
  lemma CommitKeepsBinding<W>(c: Conn<W>, tenant: Option<OrgId>)
    requires !c.aborted
    ensures ActsFor(Bind(c, tenant).settings, tenant)
    ensures ActsFor(Commit(Bind(c, tenant)).settings, tenant)
    ensures Commit(c).settings == c.settings
  {
    BoundActsFor(tenant);
  }

  /** What the last COMMIT since `from` made durable; without one, what the connection came with. */
  function LastKept<W>(from: Conn<W>, c: Conn<W>): Frame<W> {
    if |c.commits| <= |from.commits| then Frame(from.settings, from.work) else c.commits[|c.commits| - 1]
  }

  /** What a full rollback would go back to is what was last kept. */
  ghost predicate Anchored<W>(from: Conn<W>, c: Conn<W>) {
    && |from.commits| <= |c.commits|
    && (c.frames == [] ==> !c.aborted && Frame(c.settings, c.work) == LastKept(from, c))
    && (c.frames != [] ==> c.frames[0] == LastKept(from, c))
  }

  lemma {:induction false} RunKeepsAnchored<W>(ops: seq<Op<W>>, from: Conn<W>, c: Conn<W>)
    requires Anchored(from, c)
    ensures Anchored(from, Run(ops, c))
  {
    if ops != [] {
      RunKeepsAnchored(ops[1..], from, Apply(ops[0], c));
    }
  }

  /**
   * Over every run, intermediate commits and rollbacks included, a full rollback goes back to the data and the
   * binding of the last COMMIT, or without one to those the connection came with. So the connection is unscoped
   * afterwards exactly when it was unscoped then.
   */
  lemma RollbackReturnsToLastCommit<W>(ops: seq<Op<W>>, c: Conn<W>)
    requires c.frames == [] && !c.aborted && AllConsistent(c)
    ensures var kept := LastKept(c, Run(ops, c));
      var back := Apply(RollbackAll, Run(ops, c));
      && back.settings == kept.settings && back.work == kept.work && back.frames == [] && !back.aborted
      && Consistent(kept.settings) && (ActsFor(back.settings, None) <==> ActsFor(kept.settings, None))
  {
    RunKeepsAnchored(ops, c, c);
    RoleFollowsTenant(ops, c);
  }

  /**
   * The documented "unscoped afterward" fails on a connection that an earlier request left bound: one request binds
   * and commits, the next binds its own tenant and rolls back, and the connection acts for the first one's tenant.
   */
  lemma PooledRollbackExample<W>(pooled: Conn<W>, first: OrgId, second: OrgId)
    requires pooled.frames == [] && !pooled.aborted
    ensures ActsFor(RollBack(Bind(Commit(Bind(pooled, Some(first))), Some(second))).settings, Some(first))
  {
    BoundActsFor(Some(first));
  }

  /** It fails on a connection that came unscoped, too: bind a tenant, commit, work on, roll back. */
  lemma CommittedRollbackExample<W>(c: Conn<W>, tenant: OrgId, effect: W -> W)
    requires c.frames == [] && !c.aborted && ActsFor(c.settings, None)
    ensures ActsFor(RollBack(Apply(Statement(effect), Commit(Bind(c, Some(tenant))))).settings, Some(tenant))
  {
    BoundActsFor(Some(tenant));
  }
}
