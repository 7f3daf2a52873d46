/** Migration 0062: a flat unique key gives way to two partial indexes, so a control can be re-evaluated. */
module Reevaluation {
  import opened Nulls
  import opened Tables

  const TABLE := "assessment_control_proposals"
  const SOURCE := "source_poam_id"
  const PAIR := ["assessment_id", "control_identifier"]
  const FLAT_NAME := "uq_control_proposal_assessment_control"
  const FIRST_PASS_NAME := "uq_control_proposal_first_pass"
  const SOURCE_NAME := "uq_control_proposal_source_poam"

  function Flat(): Unique { Unique(PAIR, true, Always) }
  function FirstPass(): Unique { Unique(PAIR, true, IsNull(SOURCE)) }
  function PerPoam(): Unique { Unique([SOURCE], true, NotNull([SOURCE])) }

  predicate Indexed(t: Table) {
    Satisfies(t, FirstPass()) && Satisfies(t, PerPoam())
  }

  lemma Names()
    ensures SOURCE !in PAIR && SOURCE !in ColumnsOf(Flat())
    ensures FLAT_NAME != FIRST_PASS_NAME && FIRST_PASS_NAME != SOURCE_NAME && FLAT_NAME != SOURCE_NAME
  {
    assert |SOURCE| == 14 && |PAIR[0]| == 13 && |PAIR[1]| == 18;
    assert |FLAT_NAME| == 38 && |FIRST_PASS_NAME| == 30 && |SOURCE_NAME| == 31;
  }

  predicate SameControl(a: Row, b: Row) {
    && Cell(a, "assessment_id") == Cell(b, "assessment_id") != None
    && Cell(a, "control_identifier") == Cell(b, "control_identifier") != None
  }

  /** The three keys in terms of their columns. */
  lemma KeysAre(a: Row, b: Row)
    ensures Conflict(Flat(), a, b) <==> SameControl(a, b)
    ensures Conflict(FirstPass(), a, b)
      <==> SameControl(a, b) && Cell(a, "source_poam_id") == None && Cell(b, "source_poam_id") == None
    ensures Conflict(PerPoam(), a, b) <==> Cell(a, "source_poam_id") == Cell(b, "source_poam_id") != None
  {
    ConflictIff(Flat(), a, b);
    ConflictIff(FirstPass(), a, b);
    ConflictIff(PerPoam(), a, b);
    assert PAIR[0] == "assessment_id" && PAIR[1] == "control_identifier";
    SourceKey(a);
    SourceKey(b);
    assert SOURCE in PerPoam().columns;
  }

  lemma SourceKey(row: Row)
    ensures KeyOf(row, [SOURCE]) == [Cell(row, SOURCE)]
    ensures HasNull(KeyOf(row, [SOURCE])) <==> Cell(row, SOURCE) == None
  {
    assert KeyOf(row, [SOURCE])[0] == Cell(row, SOURCE);
  }

  /** A table holding the flat key satisfies both indexes once the new, empty column is there. */
  lemma UpgradeEstablishes(t: Table)
    requires Satisfies(t, Flat())
    ensures Indexed(WithColumn(t, SOURCE))
  {
    var up := WithColumn(t, SOURCE);
    Names();
    ColumnChangeSatisfies(t, SOURCE, Flat());
    forall i, j | i in up && j in up && i != j
      ensures !Conflict(FirstPass(), up[i], up[j]) && !Conflict(PerPoam(), up[i], up[j])
    {
      assert !Conflict(Flat(), up[i], up[j]);
      SourceKey(up[i]);
    }
  }

  /** What the downgrade deletes, and why the flat key then holds again. */
  lemma DowngradeEstablishes(t: Table)
    requires Indexed(t)
    ensures forall i :: i in DeleteWhere(t, NotNull([SOURCE])) <==> i in t && Cell(t[i], SOURCE) == None
    ensures Satisfies(DeleteWhere(t, NotNull([SOURCE])), Flat())
  {
    var down := DeleteWhere(t, NotNull([SOURCE]));
    forall i | i in t ensures i in down <==> Cell(t[i], SOURCE) == None {
      SourceKey(t[i]);
    }
    forall i, j | i in down && j in down && i != j ensures !Conflict(Flat(), down[i], down[j]) {
      assert !Conflict(FirstPass(), t[i], t[j]);
    }
  }

  predicate AtOldRevision(constraints: map<string, Constraint>) {
    && FLAT_NAME in constraints && constraints[FLAT_NAME] == Constraint(TABLE, Flat())
    && forall name :: name in constraints && constraints[name].table == TABLE ==> name == FLAT_NAME
  }

  predicate AtNewRevision(constraints: map<string, Constraint>) {
    && FIRST_PASS_NAME in constraints && constraints[FIRST_PASS_NAME] == Constraint(TABLE, FirstPass())
    && SOURCE_NAME in constraints && constraints[SOURCE_NAME] == Constraint(TABLE, PerPoam())
    && forall name :: name in constraints && constraints[name].table == TABLE ==>
      name in {FIRST_PASS_NAME, SOURCE_NAME}
  }

  method Upgrade(schema: Schema) returns (ok: bool)
    requires schema.Valid() && TABLE in schema.tables && AtOldRevision(schema.constraints)
    requires FIRST_PASS_NAME !in schema.constraints && SOURCE_NAME !in schema.constraints
    modifies schema
    ensures ok && schema.Valid() && AtNewRevision(schema.constraints)
    ensures schema.tables == old(schema.tables)[TABLE := WithColumn(old(schema.tables)[TABLE], SOURCE)]
    ensures Indexed(schema.tables[TABLE])
  {
    Names();
    UpgradeEstablishes(schema.tables[TABLE]);
    schema.AddColumn(TABLE, SOURCE);
    schema.DropConstraint(FLAT_NAME);
    ok := schema.CreateUnique(FIRST_PASS_NAME, TABLE, FirstPass());
    if !ok {
      return;
    }
    ok := schema.CreateUnique(SOURCE_NAME, TABLE, PerPoam());
  }

  lemma DowngradedConstraints(constraints: map<string, Constraint>)
    requires AtNewRevision(constraints) && FLAT_NAME !in constraints
    ensures var restored := (constraints - {SOURCE_NAME} - {FIRST_PASS_NAME})[FLAT_NAME := Constraint(TABLE, Flat())];
      && AtOldRevision(restored)
      && forall name :: name in restored && restored[name].table == TABLE ==>
        SOURCE !in ColumnsOf(restored[name].unique)
  {
    Names();
  }

  /** Deletes exactly the re-evaluations and never fails, so the flat key is back in force. */
  method Downgrade(schema: Schema) returns (ok: bool)
    requires schema.Valid() && TABLE in schema.tables && AtNewRevision(schema.constraints)
    requires FLAT_NAME !in schema.constraints
    modifies schema
    ensures ok && schema.Valid() && AtOldRevision(schema.constraints)
    ensures schema.tables
      == old(schema.tables)[TABLE := WithoutColumn(DeleteWhere(old(schema.tables)[TABLE], NotNull([SOURCE])), SOURCE)]
    ensures Satisfies(schema.tables[TABLE], Flat())
  {
    DowngradeEstablishes(schema.tables[TABLE]);
    DowngradedConstraints(schema.constraints);
    schema.DeleteRows(TABLE, NotNull([SOURCE]));
    schema.DropConstraint(SOURCE_NAME);
    schema.DropConstraint(FIRST_PASS_NAME);
    ok := schema.CreateUnique(FLAT_NAME, TABLE, Flat());
    if !ok {
      return;
    }
    schema.DropColumn(TABLE, SOURCE);
  }

  // ---- life between the two ----

  /** `DeletePoam` is a delete in `poams`; the foreign key then sets the column to NULL. */
  datatype Op = Insert(id: int, row: Row) | DeletePoam(poam: Value)

  function Detached(t: Table, poam: Value): Table {
    map i | i in t :: if Cell(t[i], SOURCE) == Some(poam) then t[i][SOURCE := None] else t[i]
  }

  /** A statement that would violate an index or reuse an id is refused. */
  function Apply(t: Table, op: Op): Table {
    var next := match op
      case Insert(id, row) => if id in t then t else t[id := row]
      case DeletePoam(poam) => Detached(t, poam);
    if Indexed(next) then next else t
  }

  function Run(t: Table, ops: seq<Op>): Table
    decreases |ops|
  {
    if ops == [] then t else Run(Apply(t, ops[0]), ops[1..])
  }

  function FirstPassOf(t: Table, pair: seq<Option<Value>>): set<int> {
    set i | i in t && Cell(t[i], SOURCE) == None && KeyOf(t[i], PAIR) == pair
  }

  function ReevaluationsOf(t: Table, poam: Value): set<int> {
    set i | i in t && Cell(t[i], SOURCE) == Some(poam)
  }

  lemma AtMostOne(ids: set<int>)
    requires forall i, j :: i in ids && j in ids ==> i == j
    ensures |ids| <= 1
  {
    if ids != {} {
      var i := SomeElement(ids);
      forall j | j in ids ensures j in {i} {
      }
      assert ids == {i};
    }
  }

  /** The two indexes are exactly: one first-pass row per pair, one re-evaluation per POA&M. */
  lemma IndexedCounts(t: Table, pair: seq<Option<Value>>, poam: Value)
    requires Indexed(t)
    ensures !HasNull(pair) ==> |FirstPassOf(t, pair)| <= 1
    ensures |ReevaluationsOf(t, poam)| <= 1
  {
    forall i, j | i in ReevaluationsOf(t, poam) && j in ReevaluationsOf(t, poam) ensures i == j {
      SourceKey(t[i]);
      SourceKey(t[j]);
      var clash := Conflict(PerPoam(), t[i], t[j]);
    }
    AtMostOne(ReevaluationsOf(t, poam));
    if !HasNull(pair) {
      forall i, j | i in FirstPassOf(t, pair) && j in FirstPassOf(t, pair) ensures i == j {
        var clash := Conflict(FirstPass(), t[i], t[j]);
      }
      AtMostOne(FirstPassOf(t, pair));
    }
  }

  /**
   * Over every run of inserts and POA&M deletions the indexes hold, and a first-pass row is never lost or changed:
   * it is still there, as a first-pass row, and survives the downgrade.
   */
  lemma {:induction false} FirstPassRowsSurvive(t: Table, ops: seq<Op>, i: int)
    requires Indexed(t)
    ensures Indexed(Run(t, ops))
    ensures i in t && Cell(t[i], SOURCE) == None ==>
      i in Run(t, ops) && Run(t, ops)[i] == t[i] && i in DeleteWhere(Run(t, ops), NotNull([SOURCE]))
    decreases |ops|
  {
    if ops == [] {
      DowngradeEstablishes(t);
    } else {
      FirstPassRowsSurvive(Apply(t, ops[0]), ops[1..], i);
    }
  }

  /**
   * Deleting a POA&M succeeds exactly when its re-evaluation does not collide, once its source is NULL, with the
   * first-pass row of the same assessment and control.
   */
  lemma PoamDeletableIff(t: Table, poam: Value)
    requires Indexed(t) && Required(t, PAIR)
    ensures Indexed(Detached(t, poam))
      <==> forall r :: r in ReevaluationsOf(t, poam) ==> FirstPassOf(t, KeyOf(t[r], PAIR)) == {}
  {
    var d := Detached(t, poam);
    Names();
    forall i | i in t ensures KeyOf(d[i], PAIR) == KeyOf(t[i], PAIR) {
      KeyIgnores(t[i], SOURCE, PAIR);
    }
    forall i, j | i in d && j in d && i != j ensures !Conflict(PerPoam(), d[i], d[j]) {
      SourceKey(d[i]);
      SourceKey(d[j]);
      SourceKey(t[i]);
      SourceKey(t[j]);
      assert !Conflict(PerPoam(), t[i], t[j]);
    }
    if forall r :: r in ReevaluationsOf(t, poam) ==> FirstPassOf(t, KeyOf(t[r], PAIR)) == {} {
      forall i, j | i in d && j in d && i != j ensures !Conflict(FirstPass(), d[i], d[j]) {
        DetachedApart(t, poam, i, j);
      }
    } else {
      var r :| r in ReevaluationsOf(t, poam) && FirstPassOf(t, KeyOf(t[r], PAIR)) != {};
      var f :| f in FirstPassOf(t, KeyOf(t[r], PAIR));
      assert Conflict(FirstPass(), d[r], d[f]);
    }
  }

  lemma DetachedApart(t: Table, poam: Value, i: int, j: int)
    requires Indexed(t) && i in t && j in t && i != j
    requires forall r :: r in ReevaluationsOf(t, poam) ==> FirstPassOf(t, KeyOf(t[r], PAIR)) == {}
    requires KeyOf(Detached(t, poam)[i], PAIR) == KeyOf(t[i], PAIR)
    requires KeyOf(Detached(t, poam)[j], PAIR) == KeyOf(t[j], PAIR)
    ensures !Conflict(FirstPass(), Detached(t, poam)[i], Detached(t, poam)[j])
  {
    SourceKey(t[i]);
    SourceKey(t[j]);
    var before := Conflict(FirstPass(), t[i], t[j]);
    var twice := Conflict(PerPoam(), t[i], t[j]);
    var reevaluated := (i in ReevaluationsOf(t, poam), j in ReevaluationsOf(t, poam));
    var meets := (j in FirstPassOf(t, KeyOf(t[i], PAIR)), i in FirstPassOf(t, KeyOf(t[j], PAIR)));
  }
}

/** Migration 0081: CR26 documents may be keyed within (system, kind), with NULL keys equal to each other. */
module DocumentKey {
  import opened Nulls
  import opened Tables

  const TABLE := "cr26_documents"
  const KEY := "document_key"
  const PAIR := ["system_id", "kind"]
  const TRIPLE := ["system_id", "kind", "document_key"]
  const OLD_NAME := "uq_cr26_document_system_kind"
  const NEW_NAME := "uq_cr26_document_system_kind_key"

  function OldUnique(): Unique { Unique(PAIR, true, Always) }
  function NewUnique(): Unique { Unique(TRIPLE, false, Always) }

  /** The constraint one would get without NULLS NOT DISTINCT. */
  function PlainUnique(): Unique { Unique(TRIPLE, true, Always) }

  lemma Names()
    ensures KEY !in PAIR && KEY !in ColumnsOf(OldUnique()) && OLD_NAME != NEW_NAME
  {
    assert |KEY| == 12 && |PAIR[0]| == 9 && |PAIR[1]| == 4 && |OLD_NAME| == 28 && |NEW_NAME| == 32;
  }

  lemma Keys(row: Row)
    ensures KeyOf(row, TRIPLE) == KeyOf(row, PAIR) + [Cell(row, KEY)]
  {
  }

  /** The old key and the new one in terms of their columns: "no key" is a key like any other. */
  lemma KeysAre(a: Row, b: Row)
    ensures Conflict(OldUnique(), a, b)
      <==> (Cell(a, "system_id") == Cell(b, "system_id") != None && Cell(a, "kind") == Cell(b, "kind") != None)
    ensures Conflict(NewUnique(), a, b)
      <==> (Cell(a, "system_id") == Cell(b, "system_id") && Cell(a, "kind") == Cell(b, "kind")
            && Cell(a, "document_key") == Cell(b, "document_key"))
  {
    ConflictIff(OldUnique(), a, b);
    ConflictIff(NewUnique(), a, b);
    assert PAIR[0] == "system_id" && PAIR[1] == "kind";
    assert TRIPLE[0] == "system_id" && TRIPLE[1] == "kind" && TRIPLE[2] == "document_key";
  }

  lemma SameTriple(a: Row, b: Row)
    ensures KeyOf(a, TRIPLE) == KeyOf(b, TRIPLE)
      <==> KeyOf(a, PAIR) == KeyOf(b, PAIR) && Cell(a, KEY) == Cell(b, KEY)
  {
    Keys(a);
    Keys(b);
    assert KeyOf(a, TRIPLE)[2] == Cell(a, KEY) && KeyOf(b, TRIPLE)[2] == Cell(b, KEY);
    assert KeyOf(a, TRIPLE)[..2] == KeyOf(a, PAIR) && KeyOf(b, TRIPLE)[..2] == KeyOf(b, PAIR);
  }

  predicate Unkeyed(row: Row) {
    Cell(row, KEY) == None
  }

  /** On a table without keyed rows the new constraint says exactly what the old one said. */
  lemma UnkeyedTablesAgree(t: Table)
    requires Required(t, PAIR) && forall i :: i in t ==> Unkeyed(t[i])
    ensures Satisfies(t, NewUnique()) <==> Satisfies(t, OldUnique())
  {
    forall i, j | i in t && j in t && i != j
      ensures Conflict(NewUnique(), t[i], t[j]) <==> Conflict(OldUnique(), t[i], t[j])
    {
      SameTriple(t[i], t[j]);
    }
  }

  /** A document is accepted exactly when no other has its system, kind and key; "no key" counts as a key. */
  lemma AcceptedIff(t: Table, id: int, row: Row)
    requires Satisfies(t, NewUnique()) && id !in t
    ensures Satisfies(t[id := row], NewUnique())
      <==> forall i :: i in t ==> KeyOf(t[i], PAIR) != KeyOf(row, PAIR) || Cell(t[i], KEY) != Cell(row, KEY)
  {
    var next := t[id := row];
    forall i | i in t ensures Conflict(NewUnique(), next[i], next[id])
      <==> KeyOf(t[i], PAIR) == KeyOf(row, PAIR) && Cell(t[i], KEY) == Cell(row, KEY)
    {
      SameTriple(t[i], row);
    }
    forall i, j | i in t && j in t && i != j ensures !Conflict(NewUnique(), next[i], next[j]) {
      assert !Conflict(NewUnique(), t[i], t[j]);
    }
    forall i | i in t ensures Conflict(NewUnique(), next[id], next[i]) == Conflict(NewUnique(), next[i], next[id]) {
    }
  }

  /** The trap: under NULLS DISTINCT a second unkeyed document of the same system and kind is always accepted. */
  lemma PlainUniqueAcceptsDuplicates(t: Table, id: int, row: Row)
    requires Satisfies(t, PlainUnique()) && id !in t && Unkeyed(row)
    ensures Satisfies(t[id := row], PlainUnique())
  {
    var next := t[id := row];
    Keys(row);
    assert KeyOf(row, TRIPLE)[2] == None;
    forall i, j | i in next && j in next && i != j ensures !Conflict(PlainUnique(), next[i], next[j]) {
      if i != id && j != id {
        assert !Conflict(PlainUnique(), t[i], t[j]);
      }
    }
  }

  function Insert(t: Table, id: int, row: Row): Table {
    if id !in t && Satisfies(t[id := row], NewUnique()) then t[id := row] else t
  }

  function Run(t: Table, rows: seq<(int, Row)>): Table
    decreases |rows|
  {
    if rows == [] then t else Run(Insert(t, rows[0].0, rows[0].1), rows[1..])
  }

  /** Over every run of inserts each (system, kind) has at most one unkeyed document, beside any keyed ones. */
  lemma {:induction false} OneUnkeyedDocument(t: Table, rows: seq<(int, Row)>, i: int, j: int)
    requires Satisfies(t, NewUnique())
    ensures Satisfies(Run(t, rows), NewUnique())
    ensures var r := Run(t, rows);
      i in r && j in r && Unkeyed(r[i]) && Unkeyed(r[j]) && KeyOf(r[i], PAIR) == KeyOf(r[j], PAIR) ==> i == j
    decreases |rows|
  {
    if rows == [] {
      if i in t && j in t && i != j {
        SameTriple(t[i], t[j]);
        assert !Conflict(NewUnique(), t[i], t[j]);
      }
    } else {
      OneUnkeyedDocument(Insert(t, rows[0].0, rows[0].1), rows[1..], i, j);
    }
  }

  predicate AtRevision(constraints: map<string, Constraint>, name: string, unique: Unique) {
    && name in constraints && constraints[name] == Constraint(TABLE, unique)
    && forall other :: other in constraints && constraints[other].table == TABLE ==> other == name
  }

  /** From any table the old constraint allows, the new one is accepted. */
  method Upgrade(schema: Schema) returns (ok: bool)
    requires schema.Valid() && TABLE in schema.tables && Required(schema.tables[TABLE], PAIR)
    requires AtRevision(schema.constraints, OLD_NAME, OldUnique()) && NEW_NAME !in schema.constraints
    modifies schema
    ensures ok && schema.Valid() && AtRevision(schema.constraints, NEW_NAME, NewUnique())
    ensures schema.tables == old(schema.tables)[TABLE := WithColumn(old(schema.tables)[TABLE], KEY)]
  {
    ghost var t := schema.tables[TABLE];
    Names();
    ColumnChangeSatisfies(t, KEY, OldUnique());
    forall i | i in t ensures !HasNull(KeyOf(WithColumn(t, KEY)[i], PAIR)) {
      KeyIgnores(t[i], KEY, PAIR);
    }
    UnkeyedTablesAgree(WithColumn(t, KEY));
    schema.AddColumn(TABLE, KEY);
    schema.DropConstraint(OLD_NAME);
    ok := schema.CreateUnique(NEW_NAME, TABLE, NewUnique());
  }

  function KeyedRows(t: Table): set<int> {
    set i | i in t && !Unkeyed(t[i])
  }

  /**
   * Refuses, changing nothing, exactly when a keyed document exists; otherwise it restores the old constraint with
   * every document kept.
   */
  method Downgrade(schema: Schema) returns (raised: Option<nat>)
    requires schema.Valid() && TABLE in schema.tables && Required(schema.tables[TABLE], PAIR)
    requires AtRevision(schema.constraints, NEW_NAME, NewUnique()) && OLD_NAME !in schema.constraints
    modifies schema
    ensures schema.Valid()
    ensures raised.Some? <==> exists i :: i in old(schema.tables)[TABLE] && !Unkeyed(old(schema.tables)[TABLE][i])
    ensures raised.Some? ==> raised.value == |KeyedRows(old(schema.tables)[TABLE])|
    ensures raised.Some? ==> schema.tables == old(schema.tables) && schema.constraints == old(schema.constraints)
    ensures raised == None ==> AtRevision(schema.constraints, OLD_NAME, OldUnique())
    ensures raised == None ==>
      schema.tables == old(schema.tables)[TABLE := WithoutColumn(old(schema.tables)[TABLE], KEY)]
  {
    ghost var t := schema.tables[TABLE];
    var keyed := |KeyedRows(schema.tables[TABLE])|;
    if keyed > 0 {
      ghost var i := SomeElement(KeyedRows(t));
      return Some(keyed);
    }
    assert forall i :: i in t ==> Unkeyed(t[i]) by {
      forall i | i in t ensures Unkeyed(t[i]) {
        assert i !in KeyedRows(t);
      }
    }
    Names();
    UnkeyedTablesAgree(t);
    ColumnChangeSatisfies(t, KEY, OldUnique());
    schema.DropConstraint(NEW_NAME);
    schema.DropColumn(TABLE, KEY);
    var ok := schema.CreateUnique(OLD_NAME, TABLE, OldUnique());
    return None;
  }
}
