/** Migration 0040: unique constraints on natural keys, after collapsing the duplicates they would reject. */
module Migration0040 {
  import opened Nulls
  import opened Tables

  datatype NaturalKey = NaturalKey(table: string, constraint: string, columns: seq<string>, cond: Where)

  const NATURAL_KEYS := [
    NaturalKey("vendors", "uq_vendor_org_name", ["organization_id", "name"], NotNull(["organization_id"])),
    NaturalKey("policies", "uq_policy_org_name", ["organization_id", "name"], NotNull(["organization_id"])),
    NaturalKey("fedramp_dependencies", "uq_fedramp_dep_system_name", ["system_id", "name"], Always),
    NaturalKey("pack_mappings", "uq_pack_mapping_pack_control_framework", ["pack_id", "control_id", "framework"], Always),
    NaturalKey("people", "uq_person_org_email", ["organization_id", "email"], NotNull(["organization_id", "email"]))
  ]

  /** The columns of the key that the schema declares NOT NULL. */
  const REQUIRED_COLUMNS := map[
    "vendors" := ["name"],
    "policies" := ["name"],
    "fedramp_dependencies" := ["system_id", "name"],
    "pack_mappings" := ["pack_id", "control_id", "framework"],
    "people" := []
  ]

  function UniqueOf(k: NaturalKey): Unique {
    Unique(k.columns, true, Always)
  }

  function Deduped(t: Table, k: NaturalKey): Table {
    Dedupe(t, k.columns, k.cond)
  }

  /** The WHERE clause asks for no column outside the key. */
  predicate CondWithinKey(k: NaturalKey) {
    match k.cond
    case Always => true
    case NotNull(columns) => forall c :: c in columns ==> c in k.columns
    case IsNull(_) => false
  }

  lemma NullCell(row: Row, columns: seq<string>, c: string)
    requires c in columns && Cell(row, c) == None
    ensures HasNull(KeyOf(row, columns))
  {
    var i :| 0 <= i < |columns| && columns[i] == c;
    assert KeyOf(row, columns)[i] == None;
  }

  lemma CoversKey(t: Table, k: NaturalKey)
    requires CondWithinKey(k)
    ensures Covers(t, UniqueOf(k), k.cond)
  {
    if k.cond.NotNull? {
      forall i | i in t && !HasNull(KeyOf(t[i], k.columns)) ensures !HasNull(KeyOf(t[i], k.cond.columns)) {
        if HasNull(KeyOf(t[i], k.cond.columns)) {
          var j :| 0 <= j < |k.cond.columns| && KeyOf(t[i], k.cond.columns)[j] == None;
          NullCell(t[i], k.columns, k.cond.columns[j]);
        }
      }
    }
  }

  /** Whatever the table held, the survivors satisfy the new constraint. */
  lemma SurvivorsAreUnique(t: Table, k: NaturalKey)
    requires CondWithinKey(k)
    ensures Satisfies(Deduped(t, k), UniqueOf(k))
  {
    CoversKey(t, k);
    DedupeEstablishes(t, UniqueOf(k), k.cond);
  }

  /** Every key column is either required by the schema or asked for by the WHERE clause. */
  predicate KeyIsGuarded(k: NaturalKey, required: seq<string>) {
    forall c :: c in k.columns ==> c in required || (k.cond.NotNull? && c in k.cond.columns)
  }

  lemma GuardedKeyHasNoNull(t: Table, k: NaturalKey, required: seq<string>, i: int)
    requires KeyIsGuarded(k, required) && Required(t, required)
    requires i in t && Holds(k.cond, t[i])
    ensures !HasNull(KeyOf(t[i], k.columns))
  {
    if HasNull(KeyOf(t[i], k.columns)) {
      var j :| 0 <= j < |k.columns| && KeyOf(t[i], k.columns)[j] == None;
      var c := k.columns[j];
      if c in required {
        NullCell(t[i], required, c);
      } else {
        NullCell(t[i], k.cond.columns, c);
      }
      assert false;
    }
  }

  /**
   * Nothing is lost that the constraint would have accepted: every deleted row conflicts, under the new constraint,
   * with a surviving row of smaller id.
   */
  lemma DeletedRowsConflict(t: Table, k: NaturalKey, required: seq<string>, i: int) returns (survivor: int)
    requires KeyIsGuarded(k, required) && Required(t, required)
    requires i in t && i !in Deduped(t, k)
    ensures survivor in Deduped(t, k) && survivor < i
    ensures Conflict(UniqueOf(k), t[i], Deduped(t, k)[survivor])
  {
    survivor := DeletedHasSurvivor(t, k.columns, k.cond, i);
    GuardedKeyHasNoNull(t, k, required, i);
  }

  /** A table that already satisfies the constraint loses nothing. */
  lemma UniqueTableUntouched(t: Table, k: NaturalKey, required: seq<string>)
    requires KeyIsGuarded(k, required) && Required(t, required)
    requires Satisfies(t, UniqueOf(k))
    ensures Deduped(t, k) == t
  {
    forall i, j | i in t && j in t && i != j ensures !SamePartition(t, k.columns, k.cond, i, j) {
      if SamePartition(t, k.columns, k.cond, i, j) {
        GuardedKeyHasNoNull(t, k, required, i);
        assert Conflict(UniqueOf(k), t[i], t[j]);
      }
    }
    DedupeKeepsAll(t, k.columns, k.cond);
  }

  /** The five keys of the migration are all of this shape, on distinct tables and constraint names. */
  lemma NaturalKeysAreGuarded()
    ensures forall n :: 0 <= n < |NATURAL_KEYS| ==>
      var k := NATURAL_KEYS[n];
      CondWithinKey(k) && k.table in REQUIRED_COLUMNS && KeyIsGuarded(k, REQUIRED_COLUMNS[k.table])
    ensures forall m, n :: 0 <= m < n < |NATURAL_KEYS| ==>
      NATURAL_KEYS[m].table != NATURAL_KEYS[n].table && NATURAL_KEYS[m].constraint != NATURAL_KEYS[n].constraint
  {
    forall m, n | 0 <= m < n < |NATURAL_KEYS|
      ensures NATURAL_KEYS[m].table != NATURAL_KEYS[n].table
      ensures NATURAL_KEYS[m].constraint != NATURAL_KEYS[n].constraint
    {
      assert |NATURAL_KEYS[0].table| == 7 && |NATURAL_KEYS[1].table| == 8 && |NATURAL_KEYS[2].table| == 20;
      assert |NATURAL_KEYS[3].table| == 13 && |NATURAL_KEYS[4].table| == 6;
      assert |NATURAL_KEYS[0].constraint| == 18 && |NATURAL_KEYS[1].constraint| == 18;
      assert NATURAL_KEYS[0].constraint[3] == 'v' && NATURAL_KEYS[1].constraint[3] == 'p';
      assert |NATURAL_KEYS[2].constraint| == 26 && |NATURAL_KEYS[3].constraint| == 38 && |NATURAL_KEYS[4].constraint| == 19;
    }
  }

  /** Everything a NULL or a difference in one key column does: the row is not deduped, or not against that row. */
  lemma ApartBy(t: Table, k: NaturalKey, i: int, j: int, c: string)
    requires i in t && j in t && c in k.columns && Cell(t[i], c) != Cell(t[j], c)
    ensures !SamePartition(t, k.columns, k.cond, i, j)
  {
    SameKeyIff(t[i], t[j], k.columns);
  }

  /** A table's keys, column by column, and the columns that must not be NULL for a row to be deduped. */
  lemma KeysAre()
    ensures |NATURAL_KEYS| == 5
    ensures NATURAL_KEYS[0].columns == ["organization_id", "name"] && NATURAL_KEYS[0].table == "vendors"
    ensures NATURAL_KEYS[1].columns == ["organization_id", "name"] && NATURAL_KEYS[1].table == "policies"
    ensures NATURAL_KEYS[2].columns == ["system_id", "name"] && NATURAL_KEYS[2].table == "fedramp_dependencies"
    ensures NATURAL_KEYS[3].columns == ["pack_id", "control_id", "framework"] && NATURAL_KEYS[3].table == "pack_mappings"
    ensures NATURAL_KEYS[4].columns == ["organization_id", "email"] && NATURAL_KEYS[4].table == "people"
  {
  }

  /**
   * A row is deleted exactly when a row of smaller id agrees with it on every key column, and it has no NULL where the
   * migration's WHERE clause forbids one. So rows that differ in any key column, such as two people of one organization
   * with different emails, never delete each other.
   */
  lemma DeletedIff(t: Table, k: NaturalKey, i: int)
    requires i in t
    ensures i !in Deduped(t, k)
      <==> (Holds(k.cond, t[i])
            && exists j :: (j in t && j < i && Holds(k.cond, t[j])
                            && forall c :: c in k.columns ==> Cell(t[i], c) == Cell(t[j], c)))
  {
    DedupeKeepsLeast(t, k.columns, k.cond, i);
    forall j | j in t && j < i
      ensures KeyOf(t[i], k.columns) == KeyOf(t[j], k.columns)
        <==> forall c :: c in k.columns ==> Cell(t[i], c) == Cell(t[j], c)
    {
      SameKeyIff(t[i], t[j], k.columns);
    }
    if i !in Deduped(t, k) {
      var j :| j in t && j < i && SamePartition(t, k.columns, k.cond, i, j);
      SameKeyIff(t[i], t[j], k.columns);
    }
  }

  /** The key columns of each table, by its place in the list. */
  predicate IsKeyColumn(n: nat, c: string) {
    if n == 0 || n == 1 then c == "organization_id" || c == "name"
    else if n == 2 then c == "system_id" || c == "name"
    else if n == 3 then c == "pack_id" || c == "control_id" || c == "framework"
    else n == 4 && (c == "organization_id" || c == "email")
  }

  /**
   * In each of the five tables, two rows that differ in any one of its key columns both survive: two people of one
   * organization with different emails, say.
   */
  lemma DifferentRowsSurvive(t: Table, n: nat, i: int, j: int, c: string)
    requires n < 5 && IsKeyColumn(n, c) && t.Keys == {i, j} && Cell(t[i], c) != Cell(t[j], c)
    ensures Deduped(t, NATURAL_KEYS[n]) == t
  {
    KeysAre();
    var k := NATURAL_KEYS[n];
    assert k.columns[0] == c || k.columns[1] == c || (n == 3 && k.columns[2] == c);
    ApartBy(t, k, i, j, c);
    ApartBy(t, k, j, i, c);
    DedupeKeepsAll(t, k.columns, k.cond);
  }

  predicate Distinct(keys: seq<NaturalKey>) {
    forall m, n :: 0 <= m < n < |keys| ==>
      keys[m].table != keys[n].table && keys[m].constraint != keys[n].constraint
  }

  /** The keys can be applied to a schema: every table is there and no constraint name is taken. */
  predicate Applicable(keys: seq<NaturalKey>, tables: map<string, Table>, constraints: map<string, Constraint>) {
    && Distinct(keys)
    && forall n :: 0 <= n < |keys| ==>
      CondWithinKey(keys[n]) && keys[n].table in tables && keys[n].constraint !in constraints
  }

  function TablesAfter(keys: seq<NaturalKey>, tables: map<string, Table>): map<string, Table>
    requires forall n :: 0 <= n < |keys| ==> keys[n].table in tables
    ensures TablesAfter(keys, tables).Keys == tables.Keys
  {
    if keys == [] then tables
    else
      var k := keys[|keys| - 1];
      var front := TablesAfter(keys[..|keys| - 1], tables);
      front[k.table := Deduped(front[k.table], k)]
  }

  function ConstraintsAfter(keys: seq<NaturalKey>, constraints: map<string, Constraint>): map<string, Constraint> {
    if keys == [] then constraints
    else
      var k := keys[|keys| - 1];
      ConstraintsAfter(keys[..|keys| - 1], constraints)[k.constraint := Constraint(k.table, UniqueOf(k))]
  }

  /** A table no key names is as it was. */
  lemma {:induction false} OtherTableUntouched(keys: seq<NaturalKey>, tables: map<string, Table>, table: string)
    requires forall n :: 0 <= n < |keys| ==> keys[n].table in tables && keys[n].table != table
    requires table in tables
    ensures TablesAfter(keys, tables)[table] == tables[table]
  {
    if keys != [] {
      OtherTableUntouched(keys[..|keys| - 1], tables, table);
    }
  }

  /** A table named by a key is deduped on that key. */
  lemma {:induction false} EachTableDeduped(keys: seq<NaturalKey>, tables: map<string, Table>, n: nat)
    requires Distinct(keys) && forall m :: 0 <= m < |keys| ==> keys[m].table in tables
    requires n < |keys|
    ensures TablesAfter(keys, tables)[keys[n].table] == Deduped(tables[keys[n].table], keys[n])
  {
    var front := keys[..|keys| - 1];
    if n == |keys| - 1 {
      OtherTableUntouched(front, tables, keys[n].table);
    } else {
      EachTableDeduped(front, tables, n);
    }
  }

  /** Each key's constraint is in force, and the earlier ones still are. */
  lemma {:induction false} EachConstraintAdded(keys: seq<NaturalKey>, constraints: map<string, Constraint>, name: string)
    requires Distinct(keys)
    ensures forall n :: 0 <= n < |keys| && keys[n].constraint == name ==>
      name in ConstraintsAfter(keys, constraints)
      && ConstraintsAfter(keys, constraints)[name] == Constraint(keys[n].table, UniqueOf(keys[n]))
    ensures (forall n :: 0 <= n < |keys| ==> keys[n].constraint != name) ==>
      (name in ConstraintsAfter(keys, constraints) <==> name in constraints)
      && (name in constraints ==> ConstraintsAfter(keys, constraints)[name] == constraints[name])
  {
    if keys != [] {
      EachConstraintAdded(keys[..|keys| - 1], constraints, name);
    }
  }

  method DedupeThenConstrain(schema: Schema, k: NaturalKey) returns (ok: bool)
    requires schema.Valid() && CondWithinKey(k)
    requires k.table in schema.tables && k.constraint !in schema.constraints
    modifies schema
    ensures ok && schema.Valid()
    ensures schema.tables == old(schema.tables)[k.table := Deduped(old(schema.tables)[k.table], k)]
    ensures schema.constraints == old(schema.constraints)[k.constraint := Constraint(k.table, UniqueOf(k))]
  {
    SurvivorsAreUnique(schema.tables[k.table], k);
    schema.DedupeTable(k.table, k.columns, k.cond);
    ok := schema.CreateUnique(k.constraint, k.table, UniqueOf(k));
  }

  lemma NextKey(keys: seq<NaturalKey>, i: nat, tables: map<string, Table>, constraints: map<string, Constraint>)
    requires i < |keys| && Applicable(keys, tables, constraints)
    ensures keys[i].constraint !in ConstraintsAfter(keys[..i], constraints)
    ensures TablesAfter(keys[..i + 1], tables)
      == var front := TablesAfter(keys[..i], tables);
         front[keys[i].table := Deduped(front[keys[i].table], keys[i])]
    ensures ConstraintsAfter(keys[..i + 1], constraints)
      == ConstraintsAfter(keys[..i], constraints)[keys[i].constraint := Constraint(keys[i].table, UniqueOf(keys[i]))]
  {
    EachConstraintAdded(keys[..i], constraints, keys[i].constraint);
    assert keys[..i + 1][..i] == keys[..i];
  }

  /** Table by table: dedupe, then add the constraint. It never fails, whatever the tables hold. */
  method Upgrade(schema: Schema, keys: seq<NaturalKey>) returns (ok: bool)
    requires schema.Valid() && Applicable(keys, schema.tables, schema.constraints)
    modifies schema
    ensures ok && schema.Valid()
    ensures schema.tables == TablesAfter(keys, old(schema.tables))
    ensures schema.constraints == ConstraintsAfter(keys, old(schema.constraints))
  {
    ghost var tables, constraints := schema.tables, schema.constraints;
    for i := 0 to |keys|
      invariant schema.Valid()
      invariant schema.tables == TablesAfter(keys[..i], tables)
      invariant schema.constraints == ConstraintsAfter(keys[..i], constraints)
    {
      NextKey(keys, i, tables, constraints);
      ok := DedupeThenConstrain(schema, keys[i]);
    }
    assert keys[..|keys|] == keys;
    ok := true;
  }

  /** The migration as it ships, on any schema that has the five tables. */
  method UpgradeNaturalKeys(schema: Schema) returns (ok: bool)
    requires schema.Valid()
    requires forall n :: 0 <= n < |NATURAL_KEYS| ==>
      NATURAL_KEYS[n].table in schema.tables && NATURAL_KEYS[n].constraint !in schema.constraints
    modifies schema
    ensures ok && schema.Valid()
    ensures schema.tables == TablesAfter(NATURAL_KEYS, old(schema.tables))
    ensures schema.constraints == ConstraintsAfter(NATURAL_KEYS, old(schema.constraints))
  {
    NaturalKeysAreGuarded();
    ok := Upgrade(schema, NATURAL_KEYS);
  }
}

/** Migrations 0046 and 0047: `framework_controls` becomes tenant-scoped, and its global rows stay unique. */
module FrameworkControls {
  import opened Nulls
  import opened Tables

  const TABLE := "framework_controls"
  const ORG := "organization_id"
  const OLD_KEY := ["framework_code", "identifier"]
  const NEW_KEY := ["organization_id", "framework_code", "identifier"]
  const CONSTRAINT := "uq_framework_control"
  const GLOBAL_INDEX := "uq_framework_controls_global"

  function OldUnique(): Unique { Unique(OLD_KEY, true, Always) }
  function NewUnique(): Unique { Unique(NEW_KEY, true, Always) }
  function GlobalUnique(): Unique { Unique(OLD_KEY, true, IsNull(ORG)) }

  /** One constraint that would say both: NULL organizations equal each other. */
  function NullsEqualUnique(): Unique { Unique(NEW_KEY, false, Always) }

  lemma Keys(row: Row)
    ensures KeyOf(row, OLD_KEY) == [Cell(row, "framework_code"), Cell(row, "identifier")]
    ensures KeyOf(row, NEW_KEY) == [Cell(row, ORG)] + KeyOf(row, OLD_KEY)
    ensures HasNull(KeyOf(row, NEW_KEY)) <==> Cell(row, ORG) == None || HasNull(KeyOf(row, OLD_KEY))
  {
    var old2, new3 := KeyOf(row, OLD_KEY), KeyOf(row, NEW_KEY);
    assert new3 == [Cell(row, ORG)] + old2;
    if HasNull(old2) {
      var i :| 0 <= i < |old2| && old2[i] == None;
      assert new3[i + 1] == None;
    }
    if HasNull(new3) {
      var i :| 0 <= i < |new3| && new3[i] == None;
      assert i == 0 || old2[i - 1] == None;
    }
    if Cell(row, ORG) == None {
      assert new3[0] == None;
    }
  }

  predicate SameControl(a: Row, b: Row) {
    && Cell(a, "framework_code") == Cell(b, "framework_code") != None
    && Cell(a, "identifier") == Cell(b, "identifier") != None
  }

  /** The old key, the new one and the partial index in terms of their columns. */
  lemma KeysAre(a: Row, b: Row)
    ensures Conflict(OldUnique(), a, b) <==> SameControl(a, b)
    ensures Conflict(NewUnique(), a, b)
      <==> SameControl(a, b) && Cell(a, "organization_id") == Cell(b, "organization_id") != None
    ensures Conflict(GlobalUnique(), a, b)
      <==> SameControl(a, b) && Cell(a, "organization_id") == None && Cell(b, "organization_id") == None
  {
    ConflictIff(OldUnique(), a, b);
    ConflictIff(NewUnique(), a, b);
    ConflictIff(GlobalUnique(), a, b);
    assert OLD_KEY[0] == "framework_code" && OLD_KEY[1] == "identifier";
    assert NEW_KEY[0] == "organization_id" && NEW_KEY[1] == "framework_code" && NEW_KEY[2] == "identifier";
  }

  /**
   * The constraint of 0046 and the partial index of 0047 together are uniqueness of (organization, code,
   * identifier) with NULL organizations equal.
   */
  lemma TogetherNullsEqual(t: Table)
    requires Required(t, OLD_KEY)
    ensures Satisfies(t, NewUnique()) && Satisfies(t, GlobalUnique()) <==> Satisfies(t, NullsEqualUnique())
  {
    forall i, j | i in t && j in t && i != j
      ensures Conflict(NullsEqualUnique(), t[i], t[j])
        <==> Conflict(NewUnique(), t[i], t[j]) || Conflict(GlobalUnique(), t[i], t[j])
    {
      Keys(t[i]);
      Keys(t[j]);
      assert KeyOf(t[i], NEW_KEY)[0] == Cell(t[i], ORG) && KeyOf(t[j], NEW_KEY)[0] == Cell(t[j], ORG);
      assert KeyOf(t[i], NEW_KEY)[1..] == KeyOf(t[i], OLD_KEY) && KeyOf(t[j], NEW_KEY)[1..] == KeyOf(t[j], OLD_KEY);
    }
  }

  /** The flat key was stronger than both. */
  lemma OldKeyImpliesBoth(t: Table)
    requires Required(t, OLD_KEY) && Satisfies(t, OldUnique())
    ensures Satisfies(t, NullsEqualUnique())
  {
    forall i, j | i in t && j in t && i != j ensures !Conflict(NullsEqualUnique(), t[i], t[j]) {
      Keys(t[i]);
      Keys(t[j]);
      assert KeyOf(t[i], NEW_KEY)[1..] == KeyOf(t[i], OLD_KEY) && KeyOf(t[j], NEW_KEY)[1..] == KeyOf(t[j], OLD_KEY);
      assert !Conflict(OldUnique(), t[i], t[j]);
    }
  }

  /** A table without the organization column, holding the old key, and the same table with the column added. */
  lemma WithOrgColumn(t: Table)
    requires Required(t, OLD_KEY)
    ensures Required(WithColumn(t, ORG), OLD_KEY)
    ensures Satisfies(WithColumn(t, ORG), OldUnique()) <==> Satisfies(t, OldUnique())
  {
    assert ORG !in OLD_KEY by { OrgOutsideOldKey(); }
    ColumnChangeSatisfies(t, ORG, OldUnique());
    forall i | i in t ensures !HasNull(KeyOf(WithColumn(t, ORG)[i], OLD_KEY)) {
      KeyIgnores(t[i], ORG, OLD_KEY);
    }
  }

  lemma OrgOutsideOldKey()
    ensures ORG !in OLD_KEY && ORG !in ColumnsOf(OldUnique())
  {
    assert |ORG| == 15 && |OLD_KEY[0]| == 14 && |OLD_KEY[1]| == 10;
  }

  function UpgradeDedupe(t: Table): Table { Dedupe(t, NEW_KEY, IsNull(ORG)) }
  function GlobalDedupe(t: Table): Table { Dedupe(t, OLD_KEY, IsNull(ORG)) }
  function DowngradeDedupe(t: Table): Table { Dedupe(t, OLD_KEY, Always) }

  /** Both upgrade dedupes are no-ops on a table that satisfied the old global key. */
  lemma UpgradeDeletesNothing(t: Table)
    requires Required(t, OLD_KEY) && Satisfies(t, OldUnique())
    ensures UpgradeDedupe(t) == t && GlobalDedupe(t) == t
  {
    forall i, j | i in t && j in t && i != j
      ensures !SamePartition(t, NEW_KEY, IsNull(ORG), i, j) && !SamePartition(t, OLD_KEY, IsNull(ORG), i, j)
    {
      Keys(t[i]);
      Keys(t[j]);
      assert KeyOf(t[i], NEW_KEY)[1..] == KeyOf(t[i], OLD_KEY) && KeyOf(t[j], NEW_KEY)[1..] == KeyOf(t[j], OLD_KEY);
      assert !Conflict(OldUnique(), t[i], t[j]);
    }
    DedupeKeepsAll(t, NEW_KEY, IsNull(ORG));
    DedupeKeepsAll(t, OLD_KEY, IsNull(ORG));
  }

  /** If the old key had been violated, 0046 would delete global duplicates that its own constraint accepts. */
  lemma UpgradeDedupeIsNotMinimal(t: Table, i: int)
    requires i in t && i !in UpgradeDedupe(t)
    ensures forall j :: j in t ==> !Conflict(NewUnique(), t[i], t[j])
  {
    DedupeKeepsLeast(t, NEW_KEY, IsNull(ORG), i);
    Keys(t[i]);
  }

  /** The partial index holds after 0047's dedupe, whatever the table held. */
  lemma GlobalDedupeEstablishes(t: Table)
    ensures Satisfies(GlobalDedupe(t), GlobalUnique())
  {
    DedupeEstablishes(t, GlobalUnique(), IsNull(ORG));
  }

  /** The old key holds after the downgrade's dedupe, however many tenants uploaded the same control. */
  lemma DowngradeEstablishes(t: Table)
    ensures Satisfies(DowngradeDedupe(t), OldUnique())
  {
    DedupeEstablishes(t, OldUnique(), Always);
  }

  predicate AtOldRevision(constraints: map<string, Constraint>) {
    && CONSTRAINT in constraints && constraints[CONSTRAINT] == Constraint(TABLE, OldUnique())
    && forall name :: name in constraints && constraints[name].table == TABLE ==> name == CONSTRAINT
  }

  predicate AtNewRevision(constraints: map<string, Constraint>) {
    && CONSTRAINT in constraints && constraints[CONSTRAINT] == Constraint(TABLE, NewUnique())
    && GLOBAL_INDEX in constraints && constraints[GLOBAL_INDEX] == Constraint(TABLE, GlobalUnique())
    && forall name :: name in constraints && constraints[name].table == TABLE ==> name in {CONSTRAINT, GLOBAL_INDEX}
  }

  /** 0046 then 0047, from any table the old revision allows: no failure, no row lost, NULLs-equal uniqueness. */
  method Upgrade(schema: Schema) returns (ok: bool)
    requires schema.Valid() && TABLE in schema.tables
    requires Required(schema.tables[TABLE], OLD_KEY)
    requires AtOldRevision(schema.constraints) && GLOBAL_INDEX !in schema.constraints
    modifies schema
    ensures ok && schema.Valid()
    ensures schema.tables == old(schema.tables)[TABLE := WithColumn(old(schema.tables)[TABLE], ORG)]
    ensures AtNewRevision(schema.constraints)
    ensures Satisfies(schema.tables[TABLE], NullsEqualUnique())
  {
    ghost var t0 := schema.tables[TABLE];
    OrgOutsideOldKey();
    WithOrgColumn(t0);
    UpgradeDeletesNothing(WithColumn(t0, ORG));
    OldKeyImpliesBoth(WithColumn(t0, ORG));
    TogetherNullsEqual(WithColumn(t0, ORG));
    // 0046
    schema.AddColumn(TABLE, ORG);
    schema.DedupeTable(TABLE, NEW_KEY, IsNull(ORG));
    schema.DropConstraint(CONSTRAINT);
    ok := schema.CreateUnique(CONSTRAINT, TABLE, NewUnique());
    if !ok {
      return;
    }
    // 0047
    schema.DedupeTable(TABLE, OLD_KEY, IsNull(ORG));
    ok := schema.CreateUnique(GLOBAL_INDEX, TABLE, GlobalUnique());
  }

  lemma DowngradedConstraints(constraints: map<string, Constraint>)
    requires AtNewRevision(constraints)
    ensures var dropped := constraints - {GLOBAL_INDEX} - {CONSTRAINT};
      && CONSTRAINT !in dropped
      && (forall name :: name in dropped ==> dropped[name].table != TABLE)
      && AtOldRevision(dropped[CONSTRAINT := Constraint(TABLE, OldUnique())])
  {
  }

  /** 0047 then 0046 undone, from any table the new revision allows: it always succeeds and restores the old key. */
  method Downgrade(schema: Schema) returns (ok: bool)
    requires schema.Valid() && TABLE in schema.tables && AtNewRevision(schema.constraints)
    modifies schema
    ensures ok && schema.Valid()
    ensures schema.tables == old(schema.tables)[TABLE := WithoutColumn(DowngradeDedupe(old(schema.tables)[TABLE]), ORG)]
    ensures AtOldRevision(schema.constraints) && Satisfies(schema.tables[TABLE], OldUnique())
  {
    OrgOutsideOldKey();
    DowngradeEstablishes(schema.tables[TABLE]);
    DowngradedConstraints(schema.constraints);
    // 0047
    schema.DropConstraint(GLOBAL_INDEX);
    // 0046
    schema.DropConstraint(CONSTRAINT);
    schema.DedupeTable(TABLE, OLD_KEY, Always);
    ok := schema.CreateUnique(CONSTRAINT, TABLE, OldUnique());
    if !ok {
      return;
    }
    schema.DropColumn(TABLE, ORG);
  }

  /** Up and straight down again is the identity on every table of the old revision. */
  lemma RoundTrip(t: Table)
    requires Required(t, OLD_KEY) && Satisfies(t, OldUnique())
    requires forall i :: i in t ==> ORG !in t[i]
    ensures WithoutColumn(DowngradeDedupe(WithColumn(t, ORG)), ORG) == t
  {
    WithOrgColumn(t);
    var up := WithColumn(t, ORG);
    forall i, j | i in up && j in up && i != j ensures !SamePartition(up, OLD_KEY, Always, i, j) {
      assert !Conflict(OldUnique(), up[i], up[j]);
    }
    DedupeKeepsAll(up, OLD_KEY, Always);
    ColumnRoundTrip(t, ORG);
  }
}
