/**
 * Tenant isolation over every interleaving: any number of connections, each with its own binding, transaction,
 * savepoints and uncommitted writes, over one database whose rows are guarded by the policies.
 */
module Isolation {
  import opened Nulls
  import opened Connections
  import opened RowSecurity

  /** A transaction's uncommitted writes; `None` is a deletion. */
  type Overlay = map<Key, Option<Row>>

  datatype Db = Db(committed: Store, conns: map<int, Conn<Overlay>>)

  /** What a statement sees under READ COMMITTED: the committed rows and its own transaction's writes. */
  function View(committed: Store, work: Overlay): Store {
    map k | k in committed.Keys + work.Keys && (k in work ==> work[k].Some?)
      :: if k in work then work[k].value else committed[k]
  }

  /** Another transaction holds the row's lock. */
  predicate Locked(db: Db, conn: int, key: Key) {
    exists other :: other in db.conns && other != conn && key in db.conns[other].work
  }

  datatype Query =
    | Select
    | Insert(key: Key, row: Row)
    | Update(change: (Key, Row) -> Option<Row>)
    | Delete(condemned: (Key, Row) -> bool)

  datatype Effect = Blocked | Error | Writes(rows: Overlay)

  /** The superuser bypasses every policy; anyone else needs the policy to be TRUE. */
  predicate MayTouch(s: Settings, store: Store, row: Row)
    requires CurrentTenant(s).Success?
  {
    s.role == Bootstrap || Admits(CurrentTenant(s).value, store, row)
  }

  function Targets(s: Settings, view: Store, q: Query): set<Key>
    requires CurrentTenant(s).Success?
  {
    match q
    case Select => {}
    case Insert(key, _) => {key}
    case Update(change) => set k | k in view && MayTouch(s, view, view[k]) && change(k, view[k]).Some?
    case Delete(condemned) => set k | k in view && MayTouch(s, view, view[k]) && condemned(k, view[k])
  }

  /** What a statement does, decided on its own snapshot: USING picks the rows, WITH CHECK vets the new ones. */
  function EffectOf(db: Db, conn: int, q: Query): Effect
    requires conn in db.conns
  {
    var c := db.conns[conn];
    var view := View(db.committed, c.work);
    if CurrentTenant(c.settings).Failure? then Error
    else
      var targets := Targets(c.settings, view, q);
      if exists k :: k in targets && Locked(db, conn, k) then Blocked
      else match q
        case Select => Writes(map[])
        case Insert(key, row) =>
          if key in view || !Fits(key.table, row) || !MayTouch(c.settings, view, row) then Error
          else Writes(map[key := Some(row)])
        case Update(change) =>
          if forall k :: k in targets ==>
            Fits(k.table, change(k, view[k]).value) && MayTouch(c.settings, view, change(k, view[k]).value)
          then Writes(map k | k in targets :: change(k, view[k]))
          else Error
        case Delete(_) => Writes(map k | k in targets :: None)
  }

  /** One step of one connection. `Control` covers binding, savepoints, rollbacks and failures. */
  datatype Step =
    | Issue(conn: int, query: Query)
    | Control(conn: int, op: Op<Overlay>)
    | CommitWork(conn: int)

  function Next(db: Db, step: Step): Db {
    if step.conn !in db.conns then db
    else
      var c := db.conns[step.conn];
      match step
      case Issue(conn, query) =>
        if c.aborted then db
        else (match EffectOf(db, conn, query)
          case Blocked => db
          case Error => db.(conns := db.conns[conn := Apply(StatementError, c)])
          case Writes(rows) => db.(conns := db.conns[conn := Apply(Statement((w: Overlay) => w + rows), c)]))
      case Control(conn, op) =>
        if op.Statement? || op.CommitAll? then db
        else db.(conns := db.conns[conn := Apply(op, c)])
      case CommitWork(conn) =>
        var kept := if c.aborted then RollBack(c) else c;
        Db(View(db.committed, kept.work), db.conns[conn := Commit(c).(work := map[])])
  }

  function Run(db: Db, steps: seq<Step>): Db
    decreases |steps|
  {
    if steps == [] then db else Run(Next(db, steps[0]), steps[1..])
  }

  // ---- the rows that are out of reach ----

  /** Every parent the row names exists, up to the system or capability that decides its owner. */
  predicate Grounded(store: Store, row: Row) {
    match row
    case Implementation(system, _) => GroundedSystem(store, system)
    case Evidence(implementation, capability, _) =>
      && (implementation.Some? ==>
        var k := Key(Implementations, implementation.value);
        k in store && store[k].Implementation? && GroundedSystem(store, store[k].system))
      && (capability.Some? ==>
        var k := Key(Capabilities, capability.value);
        k in store && store[k].Capability?)
    case _ => true
  }

  predicate GroundedSystem(store: Store, system: int) {
    Key(Systems, system) in store && store[Key(Systems, system)].System?
  }

  /** Rows with resolved parents that belong to none of the writers, and are not NULL-visible. */
  predicate OutOfReach(store: Store, key: Key, writers: set<OrgId>) {
    && key in store && Grounded(store, store[key])
    && !IsGlobal(store[key]) && Owners(store, store[key]) !! writers
  }

  predicate Untouched(store: Store, writers: set<OrgId>, work: Overlay) {
    forall k :: k in work ==> !OutOfReach(store, k, writers)
  }

  predicate UntouchedBy(store: Store, writers: set<OrgId>, c: Conn<Overlay>) {
    && Untouched(store, writers, c.work)
    && forall i :: 0 <= i < |c.frames| ==> Untouched(store, writers, c.frames[i].work)
  }

  /** The committed rows out of reach are as in `store`, and no transaction has written any of them. */
  ghost predicate Intact(store: Store, writers: set<OrgId>, db: Db) {
    && (forall k :: OutOfReach(store, k, writers) ==> k in db.committed && db.committed[k] == store[k])
    && (forall conn :: conn in db.conns ==> UntouchedBy(store, writers, db.conns[conn]))
  }

  /**
   * The step writes as one of `writers`, or it writes nothing that is out of their reach in `store`: that is where
   * unscoped workers, and tenants other than the writers, come in.
   */
  ghost predicate StepBy(store: Store, db: Db, step: Step, writers: set<OrgId>) {
    step.Issue? && step.conn in db.conns ==>
      (exists t :: t in writers && ActsFor(db.conns[step.conn].settings, Some(t)))
      || (EffectOf(db, step.conn, step.query).Writes? ==>
            Untouched(store, writers, EffectOf(db, step.conn, step.query).rows))
  }

  ghost predicate RunBy(store: Store, db: Db, steps: seq<Step>, writers: set<OrgId>)
    decreases |steps|
  {
    steps == []
    || (StepBy(store, db, steps[0], writers) && RunBy(store, Next(db, steps[0]), steps[1..], writers))
  }

  ghost predicate AgreesOn(store: Store, writers: set<OrgId>, view: Store) {
    forall k :: OutOfReach(store, k, writers) ==> k in view && view[k] == store[k]
  }

  /** The parents of a row out of reach are out of reach themselves, so its owners cannot change either. */
  lemma OwnersAgree(store: Store, writers: set<OrgId>, view: Store, key: Key)
    requires AgreesOn(store, writers, view) && OutOfReach(store, key, writers)
    ensures Owners(view, store[key]) == Owners(store, store[key])
  {
    var row := store[key];
    match row
    case Implementation(system, _) => SystemAgrees(store, writers, view, system);
    case Evidence(implementation, capability, _) =>
      if implementation.Some? {
        var k := Key(Implementations, implementation.value);
        assert Owners(store, store[k]) <= Owners(store, row);
        assert OutOfReach(store, k, writers);
        SystemAgrees(store, writers, view, store[k].system);
      }
      if capability.Some? {
        assert OutOfReach(store, Key(Capabilities, capability.value), writers);
      }
    case _ =>
  }

  lemma SystemAgrees(store: Store, writers: set<OrgId>, view: Store, system: int)
    requires AgreesOn(store, writers, view)
    requires GroundedSystem(store, system) && SystemOwner(store, system) !! writers
    ensures SystemOwner(view, system) == SystemOwner(store, system)
  {
    assert OutOfReach(store, Key(Systems, system), writers);
  }

  /** A statement clamped to a writer has no effect on any row out of the writers' reach. */
  lemma ClampedStatementMisses(store: Store, writers: set<OrgId>, db: Db, conn: int, q: Query)
    requires conn in db.conns && Intact(store, writers, db)
    requires exists t :: t in writers && ActsFor(db.conns[conn].settings, Some(t))
    ensures EffectOf(db, conn, q).Writes? ==> Untouched(store, writers, EffectOf(db, conn, q).rows)
  {
    var c := db.conns[conn];
    var view := View(db.committed, c.work);
    assert AgreesOn(store, writers, view);
    if EffectOf(db, conn, q).Writes? {
      var t :| t in writers && ActsFor(c.settings, Some(t));
      forall k | k in EffectOf(db, conn, q).rows ensures !OutOfReach(store, k, writers) {
        if OutOfReach(store, k, writers) {
          OwnersAgree(store, writers, view, k);
          PolicyIsOwnership(Some(t), view, view[k]);
          assert false;
        }
      }
    }
  }

  /** Nothing a connection can do to itself, short of writing, touches a row it had not touched before. */
  lemma ControlKeepsUntouched(store: Store, writers: set<OrgId>, op: Op<Overlay>, c: Conn<Overlay>)
    requires UntouchedBy(store, writers, c) && !op.Statement?
    ensures UntouchedBy(store, writers, Apply(op, c))
  {
  }

  lemma WriteKeepsUntouched(store: Store, writers: set<OrgId>, rows: Overlay, c: Conn<Overlay>)
    requires UntouchedBy(store, writers, c) && Untouched(store, writers, rows)
    ensures UntouchedBy(store, writers, Apply(Statement((w: Overlay) => w + rows), c))
  {
  }

  lemma IssueKeepsIntact(store: Store, writers: set<OrgId>, db: Db, conn: int, query: Query)
    requires conn in db.conns
    requires Intact(store, writers, db) && StepBy(store, db, Issue(conn, query), writers)
    ensures Intact(store, writers, Next(db, Issue(conn, query)))
  {
    var c := db.conns[conn];
    if exists t :: t in writers && ActsFor(c.settings, Some(t)) {
      ClampedStatementMisses(store, writers, db, conn, query);
    }
    match EffectOf(db, conn, query)
    case Writes(rows) => WriteKeepsUntouched(store, writers, rows, c);
    case _ => ControlKeepsUntouched(store, writers, StatementError, c);
  }

  lemma CommitKeepsIntact(store: Store, writers: set<OrgId>, db: Db, conn: int)
    requires conn in db.conns && Intact(store, writers, db)
    ensures Intact(store, writers, Next(db, CommitWork(conn)))
  {
    assert UntouchedBy(store, writers, db.conns[conn]);
  }

  lemma StepKeepsIntact(store: Store, writers: set<OrgId>, db: Db, step: Step)
    requires Intact(store, writers, db) && StepBy(store, db, step, writers)
    ensures Intact(store, writers, Next(db, step))
  {
    if step.conn in db.conns {
      match step
      case Issue(conn, query) => IssueKeepsIntact(store, writers, db, conn, query);
      case Control(conn, op) =>
        if !op.Statement? {
          ControlKeepsUntouched(store, writers, op, db.conns[conn]);
        }
      case CommitWork(conn) => CommitKeepsIntact(store, writers, db, conn);
    }
  }

  lemma {:induction false} RunKeepsIntact(store: Store, writers: set<OrgId>, db: Db, steps: seq<Step>)
    requires Intact(store, writers, db) && RunBy(store, db, steps, writers)
    ensures Intact(store, writers, Run(db, steps))
    decreases |steps|
  {
    if steps != [] {
      StepKeepsIntact(store, writers, db, steps[0]);
      RunKeepsIntact(store, writers, Next(db, steps[0]), steps[1..]);
    }
  }

  /** No transaction has written anything yet. */
  predicate Quiet(db: Db) {
    forall conn :: conn in db.conns ==>
      db.conns[conn].work == map[]
      && forall i :: 0 <= i < |db.conns[conn].frames| ==> db.conns[conn].frames[i].work == map[]
  }

  /**
   * Isolation. However the steps of any number of connections interleave, with whatever binding, rebinding,
   * savepoints, rollbacks, failures and commits, sessions clamped to any of `writers` never affect a row that none
   * of them owns directly or through its parents: unless somebody else writes to such rows, each stays committed and
   * unchanged, keeps its owners, and looks the same to every connection.
   */
  lemma TenantsAreIsolated(db: Db, steps: seq<Step>, writers: set<OrgId>, key: Key)
    requires Quiet(db) && RunBy(db.committed, db, steps, writers)
    requires OutOfReach(db.committed, key, writers)
    ensures var after := Run(db, steps);
      && key in after.committed && after.committed[key] == db.committed[key]
      && Owners(after.committed, after.committed[key]) == Owners(db.committed, db.committed[key])
      && forall conn :: conn in after.conns ==>
        var view := View(after.committed, after.conns[conn].work);
        key in view && view[key] == db.committed[key]
  {
    assert Intact(db.committed, writers, db);
    RunKeepsIntact(db.committed, writers, db, steps);
    var after := Run(db, steps);
    OwnersAgree(db.committed, writers, after.committed, key);
    forall conn | conn in after.conns ensures key !in after.conns[conn].work {
      assert UntouchedBy(db.committed, writers, after.conns[conn]);
    }
  }

  // ---- what is within reach ----

  /**
   * The boundary is exact: a session clamped to a tenant, meeting no lock, can delete a row precisely when the
   * tenant owns it or it is NULL-visible.
   */
  lemma WithinReachIffOwned(db: Db, conn: int, tenant: OrgId, key: Key)
    requires conn in db.conns && !db.conns[conn].aborted && ActsFor(db.conns[conn].settings, Some(tenant))
    requires !Locked(db, conn, key)
    ensures var view := View(db.committed, db.conns[conn].work);
      var after := Next(db, Issue(conn, Delete((k, r) => k == key)));
      key in view ==>
      (key !in View(after.committed, after.conns[conn].work)
       <==> tenant in Owners(view, view[key]) || IsGlobal(view[key]))
  {
    var c := db.conns[conn];
    var view := View(db.committed, c.work);
    var q := Delete((k, r) => k == key);
    if key in view {
      PolicyIsOwnership(Some(tenant), view, view[key]);
      var targets := Targets(c.settings, view, q);
      assert targets == if Admits(Some(tenant), view, view[key]) then {key} else {};
      var after := Next(db, Issue(conn, q));
      if key in targets {
        assert key in after.conns[conn].work && after.conns[conn].work[key] == None;
      } else {
        assert EffectOf(db, conn, q) == Writes(map[]);
        assert c.work + map[] == c.work;
      }
    }
  }

  /** What a clamped session writes is, on the snapshot it wrote it in, its own tenant's or NULL-visible. */
  lemma WrittenRowsAreOwned(db: Db, conn: int, tenant: OrgId, q: Query, key: Key)
    requires conn in db.conns && ActsFor(db.conns[conn].settings, Some(tenant))
    requires EffectOf(db, conn, q).Writes? && key in EffectOf(db, conn, q).rows
    ensures var view := View(db.committed, db.conns[conn].work);
      var written := EffectOf(db, conn, q).rows[key];
      && (written.Some? ==> tenant in Owners(view, written.value) || IsGlobal(written.value))
      && (key in view ==> tenant in Owners(view, view[key]) || IsGlobal(view[key]))
  {
    var view := View(db.committed, db.conns[conn].work);
    var written := EffectOf(db, conn, q).rows[key];
    if written.Some? {
      PolicyIsOwnership(Some(tenant), view, written.value);
    }
    if key in view {
      PolicyIsOwnership(Some(tenant), view, view[key]);
    }
  }

  // ---- what statements and commits do ----

  /** Who may touch a row, without policies: anyone unscoped, its owners, and everybody if it is NULL-visible. */
  predicate Allowed(tenant: Option<OrgId>, view: Store, row: Row) {
    tenant == None || tenant.value in Owners(view, row) || IsGlobal(row)
  }

  lemma MayTouchIff(s: Settings, tenant: Option<OrgId>, view: Store, row: Row)
    requires ActsFor(s, tenant)
    ensures MayTouch(s, view, row) <==> Allowed(tenant, view, row)
  {
    PolicyIsOwnership(tenant, view, row);
  }

  function ViewOf(db: Db, conn: int): Store
    requires conn in db.conns
  {
    View(db.committed, db.conns[conn].work)
  }

  lemma ViewAfterWrite(committed: Store, work: Overlay, rows: Overlay, k: Key)
    ensures k in View(committed, work + rows)
      <==> if k in rows then rows[k].Some? else k in View(committed, work)
    ensures k in View(committed, work + rows) ==>
      View(committed, work + rows)[k] == if k in rows then rows[k].value else View(committed, work)[k]
  {
  }

  /**
   * An insert by a session acting for a tenant, or for none, meeting no lock: it takes effect exactly when the id is
   * free, the row has its table's shape and the tenant may touch it; then the session sees that row and nothing else
   * changed. Otherwise the session sees what it saw, and its transaction is aborted.
   */
  lemma InsertTakesEffectIff(db: Db, conn: int, tenant: Option<OrgId>, key: Key, row: Row)
    requires conn in db.conns && !db.conns[conn].aborted && ActsFor(db.conns[conn].settings, tenant)
    requires !Locked(db, conn, key)
    ensures var view := ViewOf(db, conn);
      var after := Next(db, Issue(conn, Insert(key, row)));
      && conn in after.conns && after.committed == db.committed
      && if key !in view && Fits(key.table, row) && Allowed(tenant, view, row)
         then ViewOf(after, conn) == view[key := row] && !after.conns[conn].aborted
         else ViewOf(after, conn) == view && after.conns[conn].aborted
  {
    var view := ViewOf(db, conn);
    MayTouchIff(db.conns[conn].settings, tenant, view, row);
    IssueIs(db, conn, Insert(key, row));
    if key !in view && Fits(key.table, row) && Allowed(tenant, view, row) {
      var rows := map[key := Some(row)];
      assert EffectOf(db, conn, Insert(key, row)) == Writes(rows);
      ViewWith(db.committed, db.conns[conn].work, rows, view[key := row]);
    }
  }

  /** What a statement that is not blocked leaves, once its effect is known. */
  lemma IssueIs(db: Db, conn: int, q: Query)
    requires conn in db.conns && !db.conns[conn].aborted
    ensures var after := Next(db, Issue(conn, q));
      && conn in after.conns && after.committed == db.committed
      && match EffectOf(db, conn, q)
         case Blocked => after == db
         case Error => ViewOf(after, conn) == ViewOf(db, conn) && after.conns[conn].aborted
         case Writes(rows) =>
           ViewOf(after, conn) == View(db.committed, db.conns[conn].work + rows) && !after.conns[conn].aborted
  {
  }

  lemma ViewWith(committed: Store, work: Overlay, rows: Overlay, expected: Store)
    requires forall k :: k in expected <==> if k in rows then rows[k].Some? else k in View(committed, work)
    requires forall k :: k in expected ==>
      expected[k] == if k in rows then rows[k].value else View(committed, work)[k]
    ensures View(committed, work + rows) == expected
  {
    forall k
      ensures k in View(committed, work + rows) <==> k in expected
      ensures k in expected ==> View(committed, work + rows)[k] == expected[k]
    {
      ViewAfterWrite(committed, work, rows, k);
    }
  }

  /** What an update should leave: the changed value of every row it concerns, every other row as it was. */
  function Updated(tenant: Option<OrgId>, view: Store, change: (Key, Row) -> Option<Row>): Store {
    map k | k in view :: if Allowed(tenant, view, view[k]) && change(k, view[k]).Some?
      then change(k, view[k]).value else view[k]
  }

  /** Every row the update concerns would still have its table's shape and still be the tenant's to touch. */
  predicate UpdatePasses(tenant: Option<OrgId>, view: Store, change: (Key, Row) -> Option<Row>) {
    forall k :: k in view && Allowed(tenant, view, view[k]) && change(k, view[k]).Some? ==>
      Fits(k.table, change(k, view[k]).value) && Allowed(tenant, view, change(k, view[k]).value)
  }

  /** The rows an update of this tenant's session concerns. */
  lemma UpdateTargets(s: Settings, tenant: Option<OrgId>, view: Store, change: (Key, Row) -> Option<Row>, k: Key)
    requires ActsFor(s, tenant)
    ensures k in Targets(s, view, Update(change))
      <==> k in view && Allowed(tenant, view, view[k]) && change(k, view[k]).Some?
  {
    if k in view {
      MayTouchIff(s, tenant, view, view[k]);
    }
  }

  lemma UpdateEffect(db: Db, conn: int, tenant: Option<OrgId>, change: (Key, Row) -> Option<Row>)
    requires conn in db.conns && ActsFor(db.conns[conn].settings, tenant)
    requires forall k :: k in ViewOf(db, conn) ==> !Locked(db, conn, k)
    ensures var view := ViewOf(db, conn);
      EffectOf(db, conn, Update(change))
      == if UpdatePasses(tenant, view, change)
         then Writes(map k | k in Targets(db.conns[conn].settings, view, Update(change)) :: change(k, view[k]))
         else Error
  {
    var settings, view := db.conns[conn].settings, ViewOf(db, conn);
    forall k | k in view && change(k, view[k]).Some?
      ensures k in Targets(settings, view, Update(change)) <==> Allowed(tenant, view, view[k])
      ensures MayTouch(settings, view, change(k, view[k]).value) <==> Allowed(tenant, view, change(k, view[k]).value)
    {
      UpdateTargets(settings, tenant, view, change, k);
      MayTouchIff(settings, tenant, view, change(k, view[k]).value);
    }
  }

  /** An update meeting no lock changes exactly the rows the tenant may touch, all of them or, when one fails, none. */
  lemma UpdateTakesEffectIff(db: Db, conn: int, tenant: Option<OrgId>, change: (Key, Row) -> Option<Row>)
    requires conn in db.conns && !db.conns[conn].aborted && ActsFor(db.conns[conn].settings, tenant)
    requires forall k :: k in ViewOf(db, conn) ==> !Locked(db, conn, k)
    ensures var view := ViewOf(db, conn);
      var after := Next(db, Issue(conn, Update(change)));
      && conn in after.conns && after.committed == db.committed
      && if UpdatePasses(tenant, view, change)
         then ViewOf(after, conn) == Updated(tenant, view, change) && !after.conns[conn].aborted
         else ViewOf(after, conn) == view && after.conns[conn].aborted
  {
    var settings, view := db.conns[conn].settings, ViewOf(db, conn);
    UpdateEffect(db, conn, tenant, change);
    IssueIs(db, conn, Update(change));
    if UpdatePasses(tenant, view, change) {
      var rows := map k | k in Targets(settings, view, Update(change)) :: change(k, view[k]);
      forall k ensures k in rows <==> k in view && Allowed(tenant, view, view[k]) && change(k, view[k]).Some? {
        UpdateTargets(settings, tenant, view, change, k);
      }
      ViewWith(db.committed, db.conns[conn].work, rows, Updated(tenant, view, change));
    }
  }

  /** COMMIT makes durable exactly what the transaction wrote, key by key, and disturbs no other connection. */
  lemma CommitPublishes(db: Db, conn: int, key: Key)
    requires conn in db.conns && !db.conns[conn].aborted
    ensures var work := db.conns[conn].work;
      var after := Next(db, CommitWork(conn));
      && (key in work && work[key].Some? ==> key in after.committed && after.committed[key] == work[key].value)
      && (key in work && work[key] == None ==> key !in after.committed)
      && (key !in work ==> (key in after.committed <==> key in db.committed))
      && (key !in work && key in db.committed ==> after.committed[key] == db.committed[key])
      && after.conns.Keys == db.conns.Keys && after.conns[conn].work == map[] && after.conns[conn].frames == []
      && forall other :: other in db.conns && other != conn ==> after.conns[other] == db.conns[other]
  {
  }

  /** Other connections' steps leave a connection alone. */
  lemma {:induction false} OthersLeaveAlone(db: Db, steps: seq<Step>, conn: int)
    requires conn in db.conns && forall i :: 0 <= i < |steps| ==> steps[i].conn != conn
    ensures conn in Run(db, steps).conns && Run(db, steps).conns[conn] == db.conns[conn]
    decreases |steps|
  {
    if steps != [] {
      OthersLeaveAlone(Next(db, steps[0]), steps[1..], conn);
    }
  }

  /**
   * An admitted write is durable. Whatever the other connections do between the statement and its COMMIT, afterwards
   * every connection that is not itself writing the row sees it as written, or deleted.
   */
  lemma CommittedWriteIsSeen(db: Db, conn: int, q: Query, key: Key, between: seq<Step>, reader: int)
    requires conn in db.conns && !db.conns[conn].aborted
    requires EffectOf(db, conn, q).Writes? && key in EffectOf(db, conn, q).rows
    requires forall i :: 0 <= i < |between| ==> between[i].conn != conn
    ensures var written := EffectOf(db, conn, q).rows[key];
      var after := Next(Run(Next(db, Issue(conn, q)), between), CommitWork(conn));
      reader in after.conns && key !in after.conns[reader].work ==>
        && (written.Some? ==> key in ViewOf(after, reader) && ViewOf(after, reader)[key] == written.value)
        && (written == None ==> key !in ViewOf(after, reader))
  {
    var issued := Next(db, Issue(conn, q));
    OthersLeaveAlone(issued, between, conn);
    var ready := Run(issued, between);
    assert ready.conns[conn].work[key] == EffectOf(db, conn, q).rows[key];
    CommitPublishes(ready, conn, key);
  }

  /** Binding a tenant on a healthy connection takes effect there, and nowhere else. */
  lemma BindingTakesEffect(db: Db, conn: int, tenant: Option<OrgId>)
    requires conn in db.conns && !db.conns[conn].aborted
    ensures var after := Next(db, Control(conn, SetTenant(tenant)));
      && after.committed == db.committed && after.conns.Keys == db.conns.Keys
      && ActsFor(after.conns[conn].settings, tenant) && ViewOf(after, conn) == ViewOf(db, conn)
      && forall other :: other in db.conns && other != conn ==> after.conns[other] == db.conns[other]
  {
    BoundActsFor(tenant);
  }

  /** A write inside a savepoint that is rolled back is seen by nobody: the connection sees what it saw before it. */
  lemma {:induction false} RolledBackWriteIsUnseen(db: Db, conn: int, q: Query, between: seq<Step>)
    requires conn in db.conns && !db.conns[conn].aborted
    requires forall i :: 0 <= i < |between| ==> between[i].conn != conn
    ensures var k := |Begin(db.conns[conn]).frames|;
      var saved := Next(db, Control(conn, Savepoint));
      var after := Next(Run(Next(saved, Issue(conn, q)), between), Control(conn, RollbackTo(k)));
      conn in after.conns && after.conns[conn].work == db.conns[conn].work && !after.conns[conn].aborted
  {
    var saved := Next(db, Control(conn, Savepoint));
    var issued := Next(saved, Issue(conn, q));
    assert issued.conns[conn].frames == saved.conns[conn].frames;
    OthersLeaveAlone(issued, between, conn);
  }

  // ---- what every run keeps ----

  /** A transaction starts with nothing written, and rolling back only ever takes writes away. */
  predicate Layered(c: Conn<Overlay>) {
    && (c.frames == [] ==> c.work == map[] && !c.aborted)
    && (c.frames != [] ==> c.frames[0].work == map[])
    && (forall i :: 0 <= i < |c.frames| ==> c.frames[i].work.Keys <= c.work.Keys)
    && forall i, j :: 0 <= i <= j < |c.frames| ==> c.frames[i].work.Keys <= c.frames[j].work.Keys
  }

  /** No two transactions have written the same row. */
  predicate Apart(db: Db) {
    forall a, b :: a in db.conns && b in db.conns && a != b ==> db.conns[a].work.Keys !! db.conns[b].work.Keys
  }

  ghost predicate Orderly(db: Db) {
    Apart(db) && forall conn :: conn in db.conns ==> Layered(db.conns[conn])
  }

  lemma ApplyKeepsLayered(op: Op<Overlay>, c: Conn<Overlay>)
    requires Layered(c) && !op.Statement? && !op.CommitAll?
    ensures Layered(Apply(op, c)) && Apply(op, c).work.Keys <= c.work.Keys
  {
  }

  lemma WriteKeepsLayered(rows: Overlay, c: Conn<Overlay>)
    requires Layered(c)
    ensures Layered(Apply(Statement((w: Overlay) => w + rows), c))
    ensures Apply(Statement((w: Overlay) => w + rows), c).work.Keys <= c.work.Keys + rows.Keys
  {
  }

  /** One connection moves, taking up no row that another has written. */
  lemma MoveKeepsOrderly(db: Db, conn: int, moved: Conn<Overlay>, committed: Store)
    requires Orderly(db) && conn in db.conns && Layered(moved)
    requires forall k :: k in moved.work && k !in db.conns[conn].work ==> !Locked(db, conn, k)
    ensures Orderly(Db(committed, db.conns[conn := moved]))
  {
    var after := Db(committed, db.conns[conn := moved]);
    forall a, b | a in after.conns && b in after.conns && a != b
      ensures after.conns[a].work.Keys !! after.conns[b].work.Keys
    {
      assert db.conns[a].work.Keys !! db.conns[b].work.Keys;
      assert forall k :: k in moved.work && k !in db.conns[conn].work ==> !Locked(db, conn, k);
    }
  }

  lemma WritesMeetNoLock(db: Db, conn: int, q: Query, key: Key)
    requires conn in db.conns && EffectOf(db, conn, q).Writes? && key in EffectOf(db, conn, q).rows
    ensures !Locked(db, conn, key)
  {
    var targets := Targets(db.conns[conn].settings, ViewOf(db, conn), q);
    assert key in targets;
  }

  /** Over every interleaving no two open transactions have written the same row, so no committed write is lost. */
  lemma StepKeepsOrderly(db: Db, step: Step)
    requires Orderly(db)
    ensures Orderly(Next(db, step))
  {
    if step.conn in db.conns {
      var c := db.conns[step.conn];
      match step
      case Issue(conn, query) =>
        if !c.aborted {
          match EffectOf(db, conn, query)
          case Blocked =>
          case Error =>
            ApplyKeepsLayered(StatementError, c);
            MoveKeepsOrderly(db, conn, Apply(StatementError, c), db.committed);
          case Writes(rows) =>
            WriteKeepsLayered(rows, c);
            forall k | k in rows ensures !Locked(db, conn, k) {
              WritesMeetNoLock(db, conn, query, k);
            }
            MoveKeepsOrderly(db, conn, Apply(Statement((w: Overlay) => w + rows), c), db.committed);
        }
      case Control(conn, op) =>
        if !op.Statement? && !op.CommitAll? {
          ApplyKeepsLayered(op, c);
          MoveKeepsOrderly(db, conn, Apply(op, c), db.committed);
        }
      case CommitWork(conn) =>
        MoveKeepsOrderly(db, conn, Commit(c).(work := map[]), Next(db, step).committed);
    }
  }

  /** An aborted transaction's COMMIT, like any rollback, publishes nothing. */
  lemma AbortedCommitPublishesNothing(db: Db, conn: int)
    requires Orderly(db) && conn in db.conns && db.conns[conn].aborted
    ensures Next(db, CommitWork(conn)).committed == db.committed
  {
    assert Layered(db.conns[conn]);
    assert RollBack(db.conns[conn]).work == map[];
    forall k ensures k in View(db.committed, map[]) <==> k in db.committed {
    }
  }

  /** Every committed or pending row fits its table; in particular no evidence row is without a parent. */
  ghost predicate WellFormed(db: Db) {
    && (forall k :: k in db.committed ==> Fits(k.table, db.committed[k]))
    && forall conn :: conn in db.conns ==> FitsAll(db.conns[conn])
  }

  predicate RowsFit(work: Overlay) {
    forall k :: k in work && work[k].Some? ==> Fits(k.table, work[k].value)
  }

  predicate FitsAll(c: Conn<Overlay>) {
    RowsFit(c.work) && forall i :: 0 <= i < |c.frames| ==> RowsFit(c.frames[i].work)
  }

  lemma ApplyKeepsFitting(op: Op<Overlay>, c: Conn<Overlay>)
    requires FitsAll(c) && !op.Statement?
    ensures FitsAll(Apply(op, c))
  {
  }

  lemma StepKeepsWellFormed(db: Db, step: Step)
    requires WellFormed(db)
    ensures WellFormed(Next(db, step))
  {
    if step.conn in db.conns {
      var c := db.conns[step.conn];
      assert FitsAll(c);
      match step
      case Issue(conn, query) =>
        if EffectOf(db, conn, query).Writes? {
          var rows := EffectOf(db, conn, query).rows;
          assert RowsFit(rows);
          assert FitsAll(Apply(Statement((w: Overlay) => w + rows), c));
        } else {
          ApplyKeepsFitting(StatementError, c);
        }
      case Control(conn, op) =>
        if !op.Statement? {
          ApplyKeepsFitting(op, c);
        }
      case CommitWork(conn) =>
        assert FitsAll(RollBack(c)) by { ApplyKeepsFitting(RollbackAll, c); }
    }
  }

  predicate HasParent(row: Row) {
    row.Evidence? && (row.implementation.Some? || row.capability.Some?)
  }

  /**
   * Over every interleaving: open transactions never write the same row, and wherever a connection sees an evidence
   * row, the row hangs off an implementation or a capability.
   */
  lemma {:induction false} RunsStayOrderly(db: Db, steps: seq<Step>)
    requires Orderly(db) && WellFormed(db)
    ensures Orderly(Run(db, steps)) && WellFormed(Run(db, steps))
    ensures forall conn, k :: conn in Run(db, steps).conns && k in ViewOf(Run(db, steps), conn) ==>
      k.table == EvidenceItems ==> HasParent(ViewOf(Run(db, steps), conn)[k])
    decreases |steps|
  {
    if steps != [] {
      StepKeepsOrderly(db, steps[0]);
      StepKeepsWellFormed(db, steps[0]);
      RunsStayOrderly(Next(db, steps[0]), steps[1..]);
    } else {
      forall conn, k | conn in db.conns && k in ViewOf(db, conn) ensures Fits(k.table, ViewOf(db, conn)[k]) {
        assert FitsAll(db.conns[conn]);
      }
    }
  }
}
