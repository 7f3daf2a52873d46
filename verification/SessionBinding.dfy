/**
 * Which tenant a session's statements run for, when every transaction may get another connection from the pool: the
 * exact condition for one tenant throughout, whatever the pool hands out.
 */
module SessionBinding {
  import opened Nulls
  import opened Connections
  import opened Sessions

  /** An operation of a session: only ending a transaction needs no connection. */
  function Apply<W>(op: Op<W>, c: Conn<W>): Conn<W> {
    if op.CommitAll? || op.RollbackAll? then Connections.Apply(op, c) else Connections.Apply(op, Ready(c))
  }

  function Run<W>(ops: seq<Op<W>>, c: Conn<W>): Conn<W> {
    if ops == [] then c else Run(ops[1..], Apply(ops[0], c))
  }

  // ---- what ending a transaction does to the binding ----

  /** After a commit or a rollback the next statement runs under whatever binding the next connection was left with. */
  lemma NextStatementRunsAsHandedOut<W>(c: Conn<W>, ending: Op<W>, effect: W -> W)
    requires (ending.CommitAll? || ending.RollbackAll?) && (c.frames == [] ==> !c.aborted)
    ensures var ended := Apply(ending, c);
      ended.frames == [] && Apply(Statement(effect), ended).log == ended.log + [c.pool.handsOut(c.pool.served)]
  {
  }

  /**
   * The documented "survives an intermediate COMMIT" fails for the session: it binds its tenant, writes and commits,
   * and its next statement, on a connection that was left bound to another organization, runs as that organization.
   */
  lemma CommitThenRefreshExample<W>(c: Conn<W>, tenant: OrgId, other: OrgId, write: W -> W, refresh: W -> W)
    requires c.frames == [] && !c.aborted && c.pool.handsOut(c.pool.served + 1) == Bound(Some(other))
    ensures var written := Apply(Statement(write), Apply(SetTenant(Some(tenant)), c));
      var refreshed := Apply(Statement(refresh), Apply(CommitAll, written));
      && |written.log| > 0 && ActsFor(written.log[|written.log| - 1], Some(tenant))
      && |refreshed.log| > 0 && ActsFor(refreshed.log[|refreshed.log| - 1], Some(other))
  {
    BoundActsFor(Some(tenant));
    BoundActsFor(Some(other));
    NextStatementRunsAsHandedOut(Apply(Statement(write), Apply(SetTenant(Some(tenant)), c)), CommitAll, refresh);
  }

  /**
   * And the documented "unscoped afterward" fails even on a connection that came unscoped: after the rollback the next
   * statement runs on another connection, as the organization that one was left bound to.
   */
  lemma RollbackOntoBoundExample<W>(c: Conn<W>, tenant: OrgId, other: OrgId, read: W -> W)
    requires c.frames == [] && !c.aborted
    requires ActsFor(c.pool.handsOut(c.pool.served), None)
    requires c.pool.handsOut(c.pool.served + 1) == Bound(Some(other))
    ensures var back := Apply(RollbackAll, Apply(SetTenant(Some(tenant)), c));
      var after := Apply(Statement(read), back);
      && ActsFor(back.settings, None)
      && |after.log| > 0 && ActsFor(after.log[|after.log| - 1], Some(other))
  {
    BoundActsFor(Some(other));
    NextStatementRunsAsHandedOut(Apply(SetTenant(Some(tenant)), c), RollbackAll, read);
  }

  // ---- what a caller can know from its own calls ----

  /** The binding in force: the one some call set, or the one the connection came with. */
  datatype Known = AsHandedOut | BoundTo(tenant: Option<OrgId>)

  datatype Plan = Plan(now: Known, frames: seq<Known>, aborted: bool)

  const START := Plan(AsHandedOut, [], false)

  function Opened(p: Plan): Plan {
    if p.frames == [] then Plan(AsHandedOut, [AsHandedOut], p.aborted) else p
  }

  /** The plan after one more call; what the pool hands out plays no part in it. */
  function Follow<W>(op: Op<W>, p: Plan): Plan {
    var o := Opened(p);
    match op
    case SetTenant(tenant) => if o.aborted then o else o.(now := BoundTo(tenant))
    case Statement(_) => o
    case StatementError => o.(aborted := true)
    case Savepoint => if o.aborted then o else o.(frames := o.frames + [o.now])
    case Release(k) =>
      if o.aborted then o
      else if 1 <= k < |o.frames| then o.(frames := o.frames[..k])
      else o.(aborted := true)
    case RollbackTo(k) =>
      if 1 <= k < |o.frames| then Plan(o.frames[k], o.frames[..k + 1], false) else o.(aborted := true)
    case CommitAll => START
    case RollbackAll => START
  }

  /** At every statement the binding in force is one this session set in this transaction, to this tenant. */
  predicate BindsBeforeUse<W>(ops: seq<Op<W>>, p: Plan, tenant: Option<OrgId>) {
    ops == []
    || ((ops[0].Statement? && !p.aborted ==> Opened(p).now == BoundTo(tenant))
        && BindsBeforeUse(ops[1..], Follow(ops[0], p), tenant))
  }

  predicate Means(k: Known, s: Settings) {
    k == AsHandedOut || s == Bound(k.tenant)
  }

  /** The connection is as the plan says, wherever the plan says anything. */
  predicate Follows<W>(p: Plan, c: Conn<W>) {
    && |p.frames| == |c.frames| && p.aborted == c.aborted && (c.frames == [] ==> !c.aborted)
    && (c.frames != [] ==> Means(p.now, c.settings))
    && forall i :: 0 <= i < |c.frames| ==> Means(p.frames[i], c.frames[i].settings)
  }

  lemma StepFollows<W>(op: Op<W>, p: Plan, c: Conn<W>)
    requires Follows(p, c)
    ensures Follows(Follow(op, p), Apply(op, c))
  {
  }

  lemma StepRunsFor<W>(op: Op<W>, p: Plan, c: Conn<W>, tenant: Option<OrgId>)
    requires Follows(p, c) && (op.Statement? && !p.aborted ==> Opened(p).now == BoundTo(tenant))
    ensures ExtendsFor(c.log, Apply(op, c).log, tenant)
  {
    BoundActsFor(tenant);
  }

  lemma ExtendsOn(a: seq<Settings>, b: seq<Settings>, c: seq<Settings>, tenant: Option<OrgId>)
    requires ExtendsFor(a, b, tenant) && ExtendsFor(b, c, tenant)
    ensures ExtendsFor(a, c, tenant)
  {
    assert c[..|a|] == c[..|b|][..|a|];
    forall i | |a| <= i < |b| ensures c[i] == b[i] {
      assert c[i] == c[..|b|][i];
    }
  }

  lemma {:induction false} StatementsRunFor<W>(ops: seq<Op<W>>, p: Plan, c: Conn<W>, tenant: Option<OrgId>)
    requires Follows(p, c) && BindsBeforeUse(ops, p, tenant)
    ensures ExtendsFor(c.log, Run(ops, c).log, tenant)
  {
    if ops != [] {
      StepFollows(ops[0], p, c);
      StepRunsFor(ops[0], p, c, tenant);
      StatementsRunFor(ops[1..], Follow(ops[0], p), Apply(ops[0], c), tenant);
      ExtendsOn(c.log, Apply(ops[0], c).log, Run(ops, c).log, tenant);
    }
  }

  // ---- and when the calls leave it open ----

  function Meaning(k: Known, handed: Settings): Settings {
    if k == AsHandedOut then handed else Bound(k.tenant)
  }

  /** The pool hands out connections with this one binding, and the connection is exactly as the plan says. */
  ghost predicate FollowsExactly<W>(p: Plan, c: Conn<W>, handed: Settings) {
    && (forall n: nat :: c.pool.handsOut(n) == handed)
    && |p.frames| == |c.frames| && p.aborted == c.aborted && (c.frames == [] ==> !c.aborted)
    && (c.frames != [] ==> c.settings == Meaning(p.now, handed))
    && forall i :: 0 <= i < |c.frames| ==> c.frames[i].settings == Meaning(p.frames[i], handed)
  }

  lemma StepFollowsExactly<W>(op: Op<W>, p: Plan, c: Conn<W>, handed: Settings)
    requires FollowsExactly(p, c, handed)
    ensures FollowsExactly(Follow(op, p), Apply(op, c), handed)
  {
  }

  lemma {:induction false} LogGrows<W>(ops: seq<Op<W>>, c: Conn<W>)
    ensures |c.log| <= |Run(ops, c).log| && Run(ops, c).log[..|c.log|] == c.log
  {
    if ops != [] {
      LogGrows(ops[1..], Apply(ops[0], c));
    }
  }

  lemma WrongBinding(k: Known, handed: Settings, tenant: Option<OrgId>)
    requires !ActsFor(handed, tenant) && k != BoundTo(tenant)
    ensures !ActsFor(Meaning(k, handed), tenant)
  {
    if k.BoundTo? {
      BoundActsFor(k.tenant);
    }
  }

  lemma {:induction false} SomeStatementRunsWrong<W>(ops: seq<Op<W>>, p: Plan, c: Conn<W>, handed: Settings,
                                                     tenant: Option<OrgId>)
    requires FollowsExactly(p, c, handed) && !ActsFor(handed, tenant) && !BindsBeforeUse(ops, p, tenant)
    ensures !ExtendsFor(c.log, Run(ops, c).log, tenant)
  {
    var next := Apply(ops[0], c);
    LogGrows(ops[1..], next);
    if ops[0].Statement? && !p.aborted && Opened(p).now != BoundTo(tenant) {
      WrongBinding(Opened(p).now, handed, tenant);
      assert Run(ops, c).log[|c.log|] == next.log[|c.log|] == Meaning(Opened(p).now, handed);
    } else {
      StepFollowsExactly(ops[0], p, c, handed);
      SomeStatementRunsWrong(ops[1..], Follow(ops[0], p), next, handed, tenant);
      if ExtendsFor(c.log, Run(ops, c).log, tenant) {
        assert ExtendsFor(next.log, Run(ops, c).log, tenant);
      }
    }
  }

  /** The session on a pool that hands out these connections. */
  function On<W>(c: Conn<W>, handsOut: nat -> Settings): Conn<W> {
    c.(pool := Pool(handsOut, 0))
  }

  ghost predicate AlwaysRunsFor<W>(ops: seq<Op<W>>, c: Conn<W>, tenant: Option<OrgId>) {
    forall handsOut: nat -> Settings :: ExtendsFor(c.log, Run(ops, On(c, handsOut)).log, tenant)
  }

  /**
   * Exactly when a session's statements all run for one tenant whatever the pool hands out: in every transaction that
   * tenant is bound before the first statement, and no other binding is in force at a statement.
   */
  lemma AlwaysRunsForIff<W>(ops: seq<Op<W>>, c: Conn<W>, tenant: Option<OrgId>)
    requires c.frames == [] && !c.aborted
    ensures AlwaysRunsFor(ops, c, tenant) <==> BindsBeforeUse(ops, START, tenant)
  {
    if BindsBeforeUse(ops, START, tenant) {
      forall handsOut: nat -> Settings ensures ExtendsFor(c.log, Run(ops, On(c, handsOut)).log, tenant) {
        StatementsRunFor(ops, START, On(c, handsOut), tenant);
      }
    } else {
      var handed := Bound(if tenant == None then Some(0) else None);
      BoundActsFor(if tenant == None then Some(0) else None);
      var handsOut: nat -> Settings := n => handed;
      SomeStatementRunsWrong(ops, START, On(c, handsOut), handed, tenant);
    }
  }
}
