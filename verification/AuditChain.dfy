/** The tamper-evident audit log: `ccf.api.audit` appends to it, `/api/audit/verify` walks it. */
module AuditChain {
  import opened Nulls
  import opened Connections

  type Digest = h: string | |h| == 64 witness seq(64, _ => '0')

  /** Hex SHA-256 of the previous hash and the canonical content; nothing is assumed but its length. */
  type Hash = (string, string) -> Digest

  /**
   * The columns, with actor, action, entity and diff as one content: neither the time nor the organization is part of
   * it. A row written before the chain existed has no `row_hash`.
   */
  datatype Entry = Entry(id: int, at: int, scope: Option<OrgId>, content: string, prevHash: Option<string>,
                         rowHash: Option<string>)

  function Genesis(): Digest {
    seq(64, _ => '0')
  }

  /** The hash that verification carries past these rows. */
  function LastHash(rows: seq<Entry>): string {
    if rows == [] then Genesis()
    else match rows[|rows| - 1].rowHash
      case None => LastHash(rows[..|rows| - 1])
      case Some(h) => h
  }

  /** `h or _GENESIS`. */
  function OrGenesis(h: Option<string>): string {
    if h.Some? && h.value != [] then h.value else Genesis()
  }

  /** The row's own hash is right and it names the previous row's. */
  predicate LinkOk(hash: Hash, prev: string, row: Entry) {
    row.rowHash == None
    || (row.prevHash == Some(prev) && row.rowHash == Some(hash(OrGenesis(row.prevHash), row.content)))
  }

  predicate LinkAt(hash: Hash, rows: seq<Entry>, i: int) {
    0 <= i < |rows| && LinkOk(hash, LastHash(rows[..i]), rows[i])
  }

  predicate Intact(hash: Hash, rows: seq<Entry>) {
    forall i :: 0 <= i < |rows| ==> LinkAt(hash, rows, i)
  }

  datatype Verdict = Ok(checked: nat, total: nat) | Broken(id: int, checked: nat, total: nat)

  function Chained(rows: seq<Entry>): nat {
    if rows == [] then 0
    else Chained(rows[..|rows| - 1]) + if rows[|rows| - 1].rowHash.Some? then 1 else 0
  }

  /** The count is the number of rows that carry a hash. */
  lemma {:induction false} ChainedIs(rows: seq<Entry>)
    ensures Chained(rows) == |set i | 0 <= i < |rows| && rows[i].rowHash.Some?|
  {
    if rows != [] {
      var front := rows[..|rows| - 1];
      ChainedIs(front);
      var before := set i | 0 <= i < |front| && front[i].rowHash.Some?;
      var all := set i | 0 <= i < |rows| && rows[i].rowHash.Some?;
      if rows[|rows| - 1].rowHash.Some? {
        assert all == before + {|rows| - 1};
      } else {
        assert all == before;
      }
    }
  }

  /** The row at `i` is the first whose link fails. */
  predicate FirstBreak(hash: Hash, rows: seq<Entry>, i: nat)
    requires i < |rows|
  {
    Intact(hash, rows[..i]) && !LinkAt(hash, rows, i)
  }

  /** Walks the whole chain in id order. */
  method VerifyChain(hash: Hash, rows: seq<Entry>) returns (v: Verdict)
    ensures v.Ok? <==> Intact(hash, rows)
    ensures v.Ok? ==> v.checked == Chained(rows) && v.total == |rows|
    ensures v.Broken? ==> exists i :: (0 <= i < |rows| && FirstBreak(hash, rows, i)
                                       && v == Broken(rows[i].id, Chained(rows[..i]), |rows|))
  {
    var prev := Genesis();
    var checked := 0;
    for i := 0 to |rows|
      invariant prev == LastHash(rows[..i]) && checked == Chained(rows[..i])
      invariant Intact(hash, rows[..i])
    {
      var r := rows[i];
      assert rows[..i + 1][..i] == rows[..i];
      if r.rowHash != None {
        var expected := hash(OrGenesis(r.prevHash), r.content);
        if r.prevHash != Some(prev) || r.rowHash != Some(expected) {
          assert FirstBreak(hash, rows, i);
          return Broken(r.id, checked, |rows|);
        }
        prev := r.rowHash.value;
        checked := checked + 1;
      }
      IntactSnoc(hash, rows[..i], r);
      assert rows[..i] + [r] == rows[..i + 1];
    }
    assert rows[..|rows|] == rows;
    return Ok(checked, |rows|);
  }

  /** Dropping any number of the newest rows leaves a log that still verifies. */
  lemma IntactPrefix(hash: Hash, rows: seq<Entry>, n: nat)
    requires n <= |rows| && Intact(hash, rows)
    ensures Intact(hash, rows[..n])
  {
    forall i | 0 <= i < n ensures LinkAt(hash, rows[..n], i) {
      assert LinkAt(hash, rows, i) && rows[..n][..i] == rows[..i];
    }
  }

  lemma IntactSnoc(hash: Hash, rows: seq<Entry>, row: Entry)
    ensures Intact(hash, rows + [row]) <==> Intact(hash, rows) && LinkOk(hash, LastHash(rows), row)
  {
    var all := rows + [row];
    assert all[..|rows|] == rows;
    forall i | 0 <= i < |rows| ensures LinkAt(hash, all, i) == LinkAt(hash, rows, i) {
      assert all[..i] == rows[..i];
    }
    assert LinkAt(hash, all, |rows|) == LinkOk(hash, LastHash(rows), row);
  }

  lemma {:induction false} LastHashConcat(a: seq<Entry>, b: seq<Entry>)
    ensures LastHash(a + b) == if Chained(b) == 0 then LastHash(a) else LastHash(b)
  {
    if b == [] {
      assert a + b == a;
    } else {
      var front := b[..|b| - 1];
      assert (a + b)[..|a + b| - 1] == a + front;
      LastHashConcat(a, front);
    }
  }

  /** A log is intact when its first part is and the rest links on from there. */
  lemma {:induction false} IntactConcat(hash: Hash, a: seq<Entry>, b: seq<Entry>)
    ensures Intact(hash, a + b) <==> Intact(hash, a) && Continues(hash, LastHash(a), b)
  {
    if b == [] {
      assert a + b == a;
    } else {
      var front := b[..|b| - 1];
      assert a + b == (a + front) + [b[|b| - 1]];
      IntactSnoc(hash, a + front, b[|b| - 1]);
      IntactConcat(hash, a, front);
      LastHashConcat(a, front);
    }
  }

  /** The hash carried into row `i` of a segment that starts from `prev`. */
  function Carried(prev: string, rows: seq<Entry>): string {
    if Chained(rows) == 0 then prev else LastHash(rows)
  }

  predicate Continues(hash: Hash, prev: string, rows: seq<Entry>) {
    rows == []
    || (Continues(hash, prev, rows[..|rows| - 1])
        && LinkOk(hash, Carried(prev, rows[..|rows| - 1]), rows[|rows| - 1]))
  }

  /** A non-empty chain segment continues from only one hash: its first chained row names it. */
  lemma {:induction false} ContinuesFrom(hash: Hash, prev: string, other: string, rows: seq<Entry>)
    requires Continues(hash, prev, rows)
    ensures Continues(hash, other, rows) <==> prev == other || Chained(rows) == 0
  {
    if rows != [] {
      ContinuesFrom(hash, prev, other, rows[..|rows| - 1]);
    }
  }

  // ---- what verification detects ----

  /**
   * Replacing a row by any other goes unnoticed exactly when the new row links on from the rows before it, and either
   * no chained row follows or it hands on the same hash as the old one.
   */
  lemma EditIsDetected(hash: Hash, rows: seq<Entry>, i: nat, e: Entry)
    requires i < |rows| && Intact(hash, rows)
    ensures Intact(hash, rows[i := e])
      <==> (LinkOk(hash, LastHash(rows[..i]), e)
            && (Chained(rows[i + 1..]) == 0 || LastHash(rows[..i] + [e]) == LastHash(rows[..i + 1])))
  {
    var before, after := rows[..i], rows[i + 1..];
    assert rows == rows[..i + 1] + after;
    assert rows[i := e] == (before + [e]) + after;
    IntactConcat(hash, rows[..i + 1], after);
    IntactConcat(hash, before + [e], after);
    IntactPrefix(hash, rows, i);
    IntactSnoc(hash, before, e);
    ContinuesFrom(hash, LastHash(rows[..i + 1]), LastHash(before + [e]), after);
  }

  lemma LastHashSnoc(rows: seq<Entry>, row: Entry)
    ensures LastHash(rows + [row]) == if row.rowHash.Some? then row.rowHash.value else LastHash(rows)
  {
    assert (rows + [row])[..|rows|] == rows;
  }

  /** Changing a chained row's content alone goes unnoticed only if the hash collides. */
  lemma ContentEditIsDetected(hash: Hash, rows: seq<Entry>, i: nat, content: string)
    requires i < |rows| && Intact(hash, rows) && rows[i].rowHash.Some?
    ensures Intact(hash, rows[i := rows[i].(content := content)])
      <==> hash(OrGenesis(rows[i].prevHash), content) == hash(OrGenesis(rows[i].prevHash), rows[i].content)
  {
    var e := rows[i].(content := content);
    assert LinkAt(hash, rows, i);
    EditIsDetected(hash, rows, i, e);
    SameHandedOn(rows, i, e);
  }

  lemma SameHandedOn(rows: seq<Entry>, i: nat, e: Entry)
    requires i < |rows| && e.rowHash == rows[i].rowHash
    ensures LastHash(rows[..i] + [e]) == LastHash(rows[..i + 1])
  {
    assert rows[..i + 1] == rows[..i] + [rows[i]];
    LastHashSnoc(rows[..i], e);
    LastHashSnoc(rows[..i], rows[i]);
  }

  /** An edit that verification never sees: the organization a row belongs to and its time are outside its hash. */
  lemma ScopeAndTimeEditUnnoticed(hash: Hash, rows: seq<Entry>, i: nat, scope: Option<OrgId>, at: int)
    requires i < |rows| && Intact(hash, rows)
    ensures Intact(hash, rows[i := rows[i].(scope := scope, at := at)])
  {
    assert LinkAt(hash, rows, i);
    EditIsDetected(hash, rows, i, rows[i].(scope := scope, at := at));
    SameHandedOn(rows, i, rows[i].(scope := scope, at := at));
  }

  /** Another: the newest row with any content, marked as one that predates the chain. */
  lemma NewestUnchainedUnnoticed(hash: Hash, rows: seq<Entry>, content: string)
    requires rows != [] && Intact(hash, rows)
    ensures Intact(hash, rows[|rows| - 1 := rows[|rows| - 1].(content := content, rowHash := None)])
  {
    EditIsDetected(hash, rows, |rows| - 1, rows[|rows| - 1].(content := content, rowHash := None));
  }

  /** And another: the newest row with any content and the hash that goes with it, which needs no key. */
  lemma NewestRehashedUnnoticed(hash: Hash, rows: seq<Entry>, content: string)
    requires rows != [] && Intact(hash, rows) && rows[|rows| - 1].rowHash.Some?
    ensures var last := rows[|rows| - 1];
      Intact(hash, rows[|rows| - 1 :=
        last.(content := content, rowHash := Some(hash(OrGenesis(last.prevHash), content)))])
  {
    var last := rows[|rows| - 1];
    assert LinkAt(hash, rows, |rows| - 1);
    EditIsDetected(hash, rows, |rows| - 1,
                   last.(content := content, rowHash := Some(hash(OrGenesis(last.prevHash), content))));
  }

  /**
   * Deleting rows `i` to `j` goes unnoticed exactly when no chained row follows the gap, or the chain happens to
   * carry the same hash on both sides of it: removing the newest rows leaves no trace.
   */
  lemma DeletionIsDetected(hash: Hash, rows: seq<Entry>, i: nat, j: nat)
    requires i <= j <= |rows| && Intact(hash, rows)
    ensures Intact(hash, rows[..i] + rows[j..])
      <==> Chained(rows[j..]) == 0 || LastHash(rows[..i]) == LastHash(rows[..j])
  {
    assert rows == rows[..j] + rows[j..];
    IntactConcat(hash, rows[..j], rows[j..]);
    IntactConcat(hash, rows[..i], rows[j..]);
    IntactPrefix(hash, rows, i);
    ContinuesFrom(hash, LastHash(rows[..j]), LastHash(rows[..i]), rows[j..]);
  }

  // ---- appending ----

  /** The row hash of the newest of these rows, as `scalar_one_or_none() or _GENESIS` reads it. */
  function Head(rows: seq<Entry>): string {
    if rows == [] then Genesis() else OrGenesis(rows[|rows| - 1].rowHash)
  }

  function NewEntry(hash: Hash, id: int, at: int, scope: Option<OrgId>, content: string, head: string): Entry {
    Entry(id, at, scope, content, Some(head), Some(hash(head, content)))
  }

  /** The chain starts after any rows that predate it, and no stored hash is empty. */
  predicate HeadIsLast(rows: seq<Entry>) {
    Head(rows) == LastHash(rows)
  }

  /** What a session clamped to `tenant` sees of the log. */
  function VisibleTo(tenant: OrgId, rows: seq<Entry>): seq<Entry> {
    if rows == [] then []
    else
      var last := rows[|rows| - 1];
      VisibleTo(tenant, rows[..|rows| - 1]) + if last.scope == None || last.scope == Some(tenant) then [last] else []
  }

  /** Those are the tenant's own rows and the platform-wide ones. */
  lemma {:induction false} VisibleToIs(tenant: OrgId, rows: seq<Entry>, e: Entry)
    ensures e in VisibleTo(tenant, rows) <==> e in rows && (e.scope == None || e.scope == Some(tenant))
  {
    if rows != [] {
      var front, last := rows[..|rows| - 1], rows[|rows| - 1];
      assert rows == front + [last];
      VisibleToIs(tenant, front, e);
    }
  }

  /** In the same order. */
  lemma {:induction false} VisibleInOrder(tenant: OrgId, rows: seq<Entry>, below: int)
    requires IdsIncrease(rows, below)
    ensures IdsIncrease(VisibleTo(tenant, rows), below)
  {
    if rows != [] {
      var front, last := rows[..|rows| - 1], rows[|rows| - 1];
      assert IdsIncrease(front, last.id);
      VisibleInOrder(tenant, front, last.id);
    }
  }

  /** Appending links on exactly when the head that was read is the hash the chain ends in. */
  lemma AppendLinks(hash: Hash, rows: seq<Entry>, id: int, at: int, scope: Option<OrgId>, content: string, head: string)
    requires Intact(hash, rows) && head != []
    ensures Intact(hash, rows + [NewEntry(hash, id, at, scope, content, head)]) <==> head == LastHash(rows)
  {
    IntactSnoc(hash, rows, NewEntry(hash, id, at, scope, content, head));
  }

  /**
   * Why the head is read unscoped: read through the tenant clamp, the appended row breaks the chain exactly when
   * the newest row the tenant can see does not carry the hash of the newest row overall.
   */
  lemma ClampedReadForks(hash: Hash, rows: seq<Entry>, tenant: OrgId, id: int, at: int, scope: Option<OrgId>, content: string)
    requires Intact(hash, rows) && HeadIsLast(rows)
    ensures Intact(hash, rows + [NewEntry(hash, id, at, scope, content, Head(VisibleTo(tenant, rows)))])
      <==> Head(VisibleTo(tenant, rows)) == Head(rows)
  {
    AppendLinks(hash, rows, id, at, scope, content, Head(VisibleTo(tenant, rows)));
  }

  /** Why appends are serialized: two transactions that read the same head fork the chain, unless a hash repeats. */
  lemma UnlockedAppendsFork(hash: Hash, rows: seq<Entry>, a: Entry, b: Entry)
    requires Intact(hash, rows) && HeadIsLast(rows)
    requires a == NewEntry(hash, a.id, a.at, a.scope, a.content, Head(rows))
    requires b == NewEntry(hash, b.id, b.at, b.scope, b.content, Head(rows))
    ensures Intact(hash, rows + [a, b]) <==> hash(Head(rows), a.content) == Head(rows)
  {
    assert rows + [a, b] == (rows + [a]) + [b];
    AppendLinks(hash, rows, a.id, a.at, a.scope, a.content, Head(rows));
    AppendLinks(hash, rows + [a], b.id, b.at, b.scope, b.content, Head(rows));
    LastHashConcat(rows, [a]);
    assert [a][..0] == [];
  }

  // ---- every interleaving ----

  /** What a savepoint remembers: whether its transaction held the lock, and how many rows it had appended. */
  datatype Mark = Mark(held: bool, appended: nat)

  /**
   * Any number of transactions append; the advisory lock belongs to the one that took it until it ends, or rolls
   * back to a savepoint from before it took it. Ids come from a sequence that rollbacks do not rewind.
   */
  datatype Ledger = Ledger(committed: seq<Entry>, holder: Option<int>, pending: seq<Entry>, nextId: int,
                           savepoints: map<int, seq<Mark>>)

  datatype Step =
    | Record(txn: int, at: int, scope: Option<OrgId>, content: string)
    | Savepoint(txn: int)
    | RollbackTo(txn: int, depth: nat)
    | Commit(txn: int)
    | Rollback(txn: int)

  function MarksOf(s: Ledger, txn: int): seq<Mark> {
    if txn in s.savepoints then s.savepoints[txn] else []
  }

  /** The transaction's rows and its lock are gone. */
  function Released(s: Ledger): Ledger {
    s.(holder := None, pending := [])
  }

  /** `record_event` waits for the lock, reads the head it now sees unscoped, and flushes its row. */
  function Next(hash: Hash, s: Ledger, step: Step): Ledger {
    match step
    case Record(txn, at, scope, content) =>
      if s.holder.Some? && s.holder != Some(txn) then s
      else
        var row := NewEntry(hash, s.nextId, at, scope, content, Head(s.committed + s.pending));
        s.(holder := Some(txn), pending := s.pending + [row], nextId := s.nextId + 1)
    case Savepoint(txn) =>
      var mark := if s.holder == Some(txn) then Mark(true, |s.pending|) else Mark(false, 0);
      s.(savepoints := s.savepoints[txn := MarksOf(s, txn) + [mark]])
    case RollbackTo(txn, k) =>
      if k >= |MarksOf(s, txn)| then s
      else
        var mark := MarksOf(s, txn)[k];
        var back := s.(savepoints := s.savepoints[txn := MarksOf(s, txn)[..k + 1]]);
        if s.holder != Some(txn) then back
        else if !mark.held then Released(back)
        else if mark.appended <= |s.pending| then back.(pending := s.pending[..mark.appended])
        else back
    case Commit(txn) =>
      var ended := s.(savepoints := s.savepoints - {txn});
      if s.holder == Some(txn) then Released(ended).(committed := s.committed + s.pending) else ended
    case Rollback(txn) =>
      var ended := s.(savepoints := s.savepoints - {txn});
      if s.holder == Some(txn) then Released(ended) else ended
  }

  function Run(hash: Hash, s: Ledger, steps: seq<Step>): Ledger
    decreases |steps|
  {
    if steps == [] then s else Run(hash, Next(hash, s, steps[0]), steps[1..])
  }

  predicate IdsIncrease(rows: seq<Entry>, below: int) {
    (forall i, j :: 0 <= i < j < |rows| ==> rows[i].id < rows[j].id)
    && forall i :: 0 <= i < |rows| ==> rows[i].id < below
  }

  predicate GoodLog(hash: Hash, rows: seq<Entry>, below: int) {
    Intact(hash, rows) && HeadIsLast(rows) && IdsIncrease(rows, below)
  }

  /** Every row carries a hash. */
  predicate AllChained(rows: seq<Entry>) {
    forall i :: 0 <= i < |rows| ==> rows[i].rowHash.Some? && rows[i].rowHash.value != []
  }

  /** What every step keeps: the rows in id order are one chain, committed or about to be. */
  predicate OneChain(hash: Hash, s: Ledger) {
    && (s.holder == None ==> s.pending == [])
    && HeadIsLast(s.committed) && AllChained(s.pending)
    && GoodLog(hash, s.committed + s.pending, s.nextId)
  }

  lemma AppendKeepsHead(hash: Hash, rows: seq<Entry>, row: Entry)
    requires row.rowHash.Some? && row.rowHash.value != []
    ensures HeadIsLast(rows + [row])
  {
    assert (rows + [row])[|rows|] == row;
  }

  lemma AppendKeepsIds(rows: seq<Entry>, row: Entry)
    requires IdsIncrease(rows, row.id)
    ensures IdsIncrease(rows + [row], row.id + 1)
  {
  }

  lemma AppendKeepsGood(hash: Hash, rows: seq<Entry>, id: int, at: int, scope: Option<OrgId>, content: string)
    requires GoodLog(hash, rows, id)
    ensures GoodLog(hash, rows + [NewEntry(hash, id, at, scope, content, Head(rows))], id + 1)
  {
    var row := NewEntry(hash, id, at, scope, content, Head(rows));
    AppendLinks(hash, rows, id, at, scope, content, Head(rows));
    AppendKeepsHead(hash, rows, row);
    AppendKeepsIds(rows, row);
  }

  lemma PrefixKeepsIds(rows: seq<Entry>, more: seq<Entry>, below: int)
    requires IdsIncrease(rows + more, below)
    ensures IdsIncrease(rows, below)
  {
    forall i | 0 <= i < |rows| ensures rows[i] == (rows + more)[i] {
    }
  }

  lemma RecordKeepsOneChain(hash: Hash, s: Ledger, txn: int, at: int, scope: Option<OrgId>, content: string)
    requires OneChain(hash, s)
    ensures OneChain(hash, Next(hash, s, Record(txn, at, scope, content)))
  {
    if s.holder == None || s.holder == Some(txn) {
      var rows := s.committed + s.pending;
      AppendKeepsGood(hash, rows, s.nextId, at, scope, content);
      var row := NewEntry(hash, s.nextId, at, scope, content, Head(rows));
      GrownKeepsOneChain(hash, s, row, Next(hash, s, Record(txn, at, scope, content)));
    }
  }

  lemma GrownKeepsOneChain(hash: Hash, s: Ledger, row: Entry, grown: Ledger)
    requires HeadIsLast(s.committed) && AllChained(s.pending) && row.rowHash.Some? && row.rowHash.value != []
    requires grown.holder.Some? && grown.committed == s.committed && grown.pending == s.pending + [row]
    requires GoodLog(hash, (s.committed + s.pending) + [row], grown.nextId)
    ensures OneChain(hash, grown)
  {
    assert s.committed + (s.pending + [row]) == (s.committed + s.pending) + [row];
  }

  /** Losing the newest of the pending rows leaves one chain. */
  lemma CutKeepsGood(hash: Hash, committed: seq<Entry>, pending: seq<Entry>, n: nat, below: int)
    requires n <= |pending| && HeadIsLast(committed) && AllChained(pending)
    requires GoodLog(hash, committed + pending, below)
    ensures GoodLog(hash, committed + pending[..n], below)
  {
    var rows := committed + pending;
    assert committed + pending[..n] == rows[..|committed| + n];
    IntactPrefix(hash, rows, |committed| + n);
    assert rows == rows[..|committed| + n] + pending[n..];
    PrefixKeepsIds(rows[..|committed| + n], pending[n..], below);
    if n == 0 {
      assert committed + pending[..0] == committed;
    } else {
      AppendKeepsHead(hash, committed + pending[..n - 1], pending[n - 1]);
      assert committed + pending[..n] == (committed + pending[..n - 1]) + [pending[n - 1]];
    }
  }

  lemma CutKeepsOneChain(hash: Hash, s: Ledger, n: nat, cut: Ledger)
    requires OneChain(hash, s) && n <= |s.pending| && (cut.holder == None ==> n == 0)
    requires cut.committed == s.committed && cut.pending == s.pending[..n] && cut.nextId == s.nextId
    ensures OneChain(hash, cut)
  {
    CutKeepsGood(hash, s.committed, s.pending, n, s.nextId);
  }

  lemma RollbackToKeepsOneChain(hash: Hash, s: Ledger, txn: int, k: nat)
    requires OneChain(hash, s)
    ensures OneChain(hash, Next(hash, s, Step.RollbackTo(txn, k)))
  {
    if k < |MarksOf(s, txn)| && s.holder == Some(txn) {
      var mark := MarksOf(s, txn)[k];
      var n := if !mark.held then 0 else if mark.appended <= |s.pending| then mark.appended else |s.pending|;
      CutKeepsOneChain(hash, s, n, Next(hash, s, Step.RollbackTo(txn, k)));
    }
  }

  lemma StepKeepsOneChain(hash: Hash, s: Ledger, step: Step)
    requires OneChain(hash, s)
    ensures OneChain(hash, Next(hash, s, step))
  {
    match step
    case Record(txn, at, scope, content) => RecordKeepsOneChain(hash, s, txn, at, scope, content);
    case Savepoint(txn) =>
    case RollbackTo(txn, k) => RollbackToKeepsOneChain(hash, s, txn, k);
    case Commit(txn) => assert s.committed + s.pending + [] == s.committed + s.pending;
    case Rollback(txn) =>
      if s.holder == Some(txn) {
        CutKeepsOneChain(hash, s, 0, Next(hash, s, step));
      }
  }

  /**
   * Over every interleaving of transactions that record any number of events, take savepoints, roll back to them,
   * commit and roll back, verification finds the committed log intact and its ids in chain order.
   */
  lemma {:induction false} RunsKeepOneChain(hash: Hash, s: Ledger, steps: seq<Step>)
    requires OneChain(hash, s)
    ensures OneChain(hash, Run(hash, s, steps)) && Intact(hash, Run(hash, s, steps).committed)
    decreases |steps|
  {
    if steps != [] {
      StepKeepsOneChain(hash, s, steps[0]);
      RunsKeepOneChain(hash, Next(hash, s, steps[0]), steps[1..]);
    } else {
      CutKeepsGood(hash, s.committed, s.pending, 0, s.nextId);
      assert s.committed + s.pending[..0] == s.committed;
    }
  }

  // ---- a recorded event is in the log ----

  /** While a transaction holds the lock, other transactions' steps leave its rows, and the log, alone. */
  lemma {:induction false} OthersWait(hash: Hash, s: Ledger, steps: seq<Step>, txn: int)
    requires s.holder == Some(txn) && forall i :: 0 <= i < |steps| ==> steps[i].txn != txn
    ensures var after := Run(hash, s, steps);
      after.holder == s.holder && after.pending == s.pending && after.committed == s.committed && after.nextId == s.nextId
    decreases |steps|
  {
    if steps != [] {
      assert steps[0].txn != txn;
      OthersWait(hash, Next(hash, s, steps[0]), steps[1..], txn);
    }
  }

  /** The log is append-only. */
  lemma {:induction false} LogGrows(hash: Hash, s: Ledger, steps: seq<Step>)
    ensures |s.committed| <= |Run(hash, s, steps).committed|
    ensures Run(hash, s, steps).committed[..|s.committed|] == s.committed
    decreases |steps|
  {
    if steps != [] {
      var next := Next(hash, s, steps[0]);
      assert next.committed[..|s.committed|] == s.committed;
      LogGrows(hash, next, steps[1..]);
      var after := Run(hash, next, steps[1..]).committed;
      assert after[..|s.committed|] == after[..|next.committed|][..|s.committed|];
    }
  }

  /**
   * An event recorded by a transaction that then commits is in the log for good, whatever other transactions do in
   * between and afterwards: next in order, with its own time, organization and content, naming the hash of the row
   * before it, or sixty-four zeros if it is the first, and carrying the hash of that and its content.
   */
  lemma RecordedIsLogged(hash: Hash, s: Ledger, txn: int, at: int, scope: Option<OrgId>, content: string,
                         between: seq<Step>, later: seq<Step>)
    requires s.holder == None || s.holder == Some(txn)
    requires forall i :: 0 <= i < |between| ==> between[i].txn != txn
    ensures var n := |s.committed + s.pending|;
      var recorded := Run(hash, Next(hash, s, Record(txn, at, scope, content)), between);
      var log := Run(hash, Next(hash, recorded, Commit(txn)), later).committed;
      && n < |log| && log[..n] == s.committed + s.pending
      && log[n].id == s.nextId && log[n].at == at && log[n].scope == scope && log[n].content == content
      && log[n].prevHash.Some? && log[n].rowHash == Some(hash(log[n].prevHash.value, content))
      && (n == 0 ==> log[n].prevHash.value == seq(64, _ => '0'))
      && (n > 0 && log[n - 1].rowHash.Some? && log[n - 1].rowHash.value != [] ==>
            log[n].prevHash == log[n - 1].rowHash)
  {
    var rows := s.committed + s.pending;
    var row := NewEntry(hash, s.nextId, at, scope, content, Head(rows));
    var first := Next(hash, s, Record(txn, at, scope, content));
    OthersWait(hash, first, between, txn);
    var done := Next(hash, Run(hash, first, between), Commit(txn));
    assert done.committed == rows + [row];
    LogGrows(hash, done, later);
    var log := Run(hash, done, later).committed;
    assert log[..|rows|] == log[..|rows| + 1][..|rows|] == rows;
    assert log[|rows|] == log[..|rows| + 1][|rows|];
    if rows != [] {
      assert log[|rows| - 1] == log[..|rows|][|rows| - 1] == rows[|rows| - 1];
    }
  }

  /** What a transaction recorded and rolled back is nowhere, and the lock is free again. */
  lemma RolledBackIsGone(hash: Hash, s: Ledger, txn: int)
    requires s.holder == Some(txn)
    ensures var after := Next(hash, s, Rollback(txn));
      after.committed == s.committed && after.pending == [] && after.holder == None
  {
  }

  /** Between a savepoint and the rollback to it the transaction only records; others do anything. */
  predicate OnlyRecords(steps: seq<Step>, txn: int) {
    forall i :: 0 <= i < |steps| && steps[i].txn == txn ==> steps[i].Record?
  }

  lemma {:induction false} MarkKept(hash: Hash, s: Ledger, steps: seq<Step>, txn: int, pending: seq<Entry>)
    requires OnlyRecords(steps, txn)
    ensures MarksOf(Run(hash, s, steps), txn) == MarksOf(s, txn)
    ensures s.holder == Some(txn) && pending <= s.pending ==>
      var after := Run(hash, s, steps);
      after.holder == Some(txn) && pending <= after.pending && after.committed == s.committed
    decreases |steps|
  {
    if steps != [] {
      assert steps[0].txn == txn ==> steps[0].Record?;
      MarkKept(hash, Next(hash, s, steps[0]), steps[1..], txn, pending);
    }
  }

  /**
   * Rolling back to a savepoint takes away exactly what was recorded since: a transaction that held the lock then
   * holds it still, with the rows it had; one that took it since gives it up, with none.
   */
  lemma SavepointRestoresRows(hash: Hash, s: Ledger, txn: int, steps: seq<Step>)
    requires OnlyRecords(steps, txn)
    ensures var reached := Run(hash, Next(hash, s, Step.Savepoint(txn)), steps);
      var back := Next(hash, reached, Step.RollbackTo(txn, |MarksOf(s, txn)|));
      && back.committed == reached.committed
      && (s.holder == Some(txn) ==> back.holder == Some(txn) && back.pending == s.pending)
      && (s.holder != Some(txn) && reached.holder == Some(txn) ==> back.holder == None && back.pending == [])
  {
    var saved := Next(hash, s, Step.Savepoint(txn));
    MarkKept(hash, saved, steps, txn, s.pending);
    var reached := Run(hash, saved, steps);
    if s.holder == Some(txn) {
      assert reached.pending[..|s.pending|] == s.pending;
    }
  }
}
