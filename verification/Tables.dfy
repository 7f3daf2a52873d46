/** Just enough of a relational database for migrations: rows by primary key, NULLs, unique keys, dedupe. */
module Tables {
  import opened Nulls

  datatype Value = Int(i: int) | Text(s: string)

  type Row = map<string, Option<Value>>

  /** A table, by the `id` of its rows. */
  type Table = map<int, Row>

  function Cell(row: Row, column: string): Option<Value> {
    if column in row then row[column] else None
  }

  function KeyOf(row: Row, columns: seq<string>): seq<Option<Value>> {
    seq(|columns|, i requires 0 <= i < |columns| => Cell(row, columns[i]))
  }

  predicate HasNull(key: seq<Option<Value>>) {
    exists i :: 0 <= i < |key| && key[i] == None
  }

  /** The WHERE clauses the migrations use. */
  datatype Where = Always | IsNull(column: string) | NotNull(columns: seq<string>)

  predicate Holds(cond: Where, row: Row) {
    match cond
    case Always => true
    case IsNull(column) => Cell(row, column) == None
    case NotNull(columns) => !HasNull(KeyOf(row, columns))
  }

  /** A unique constraint or index; with `nullsDistinct` a NULL in the key never equals anything. */
  datatype Unique = Unique(columns: seq<string>, nullsDistinct: bool, cond: Where)

  predicate Conflict(u: Unique, a: Row, b: Row) {
    && Holds(u.cond, a) && Holds(u.cond, b)
    && KeyOf(a, u.columns) == KeyOf(b, u.columns)
    && (u.nullsDistinct ==> !HasNull(KeyOf(a, u.columns)))
  }

  lemma SameKeyIff(a: Row, b: Row, columns: seq<string>)
    ensures KeyOf(a, columns) == KeyOf(b, columns) <==> forall c :: c in columns ==> Cell(a, c) == Cell(b, c)
  {
    if KeyOf(a, columns) == KeyOf(b, columns) {
      forall c | c in columns ensures Cell(a, c) == Cell(b, c) {
        var n :| 0 <= n < |columns| && columns[n] == c;
        assert KeyOf(a, columns)[n] == KeyOf(b, columns)[n];
      }
    }
  }

  /** Two rows conflict when the index concerns both and they agree on every column, in a NULL only if NULLs are equal. */
  lemma ConflictIff(u: Unique, a: Row, b: Row)
    ensures Conflict(u, a, b)
      <==> (Holds(u.cond, a) && Holds(u.cond, b)
            && forall c :: c in u.columns ==> Cell(a, c) == Cell(b, c) && (u.nullsDistinct ==> Cell(a, c) != None))
  {
    SameKeyIff(a, b, u.columns);
    if HasNull(KeyOf(a, u.columns)) {
      var n :| 0 <= n < |u.columns| && KeyOf(a, u.columns)[n] == None;
      assert Cell(a, u.columns[n]) == None;
    } else {
      forall c | c in u.columns ensures Cell(a, c) != None {
        var n :| 0 <= n < |u.columns| && u.columns[n] == c;
        assert KeyOf(a, u.columns)[n] != None;
      }
    }
  }

  predicate Satisfies(t: Table, u: Unique) {
    forall i, j :: i in t && j in t && i != j ==> !Conflict(u, t[i], t[j])
  }

  /** The columns are declared NOT NULL. */
  predicate Required(t: Table, columns: seq<string>) {
    forall i :: i in t ==> !HasNull(KeyOf(t[i], columns))
  }

  // ---- dedupe ----

  /** The rows of `i`'s partition up to `i` in id order; PARTITION BY puts NULLs together. */
  function PartitionUpTo(t: Table, columns: seq<string>, cond: Where, i: int): set<int>
    requires i in t
  {
    set j | j in t && Holds(cond, t[j]) && KeyOf(t[j], columns) == KeyOf(t[i], columns) && j <= i
  }

  /** `ROW_NUMBER() OVER (PARTITION BY columns ORDER BY id)` over the rows where `cond` holds. */
  function RowNumber(t: Table, columns: seq<string>, cond: Where, i: int): nat
    requires i in t
  {
    |PartitionUpTo(t, columns, cond, i)|
  }

  /** What survives `DELETE ... USING (ranked) WHERE rn > 1`. */
  function Dedupe(t: Table, columns: seq<string>, cond: Where): Table {
    map i | i in t && !(Holds(cond, t[i]) && RowNumber(t, columns, cond, i) > 1) :: t[i]
  }

  predicate SamePartition(t: Table, columns: seq<string>, cond: Where, i: int, j: int)
    requires i in t && j in t
  {
    Holds(cond, t[i]) && Holds(cond, t[j]) && KeyOf(t[i], columns) == KeyOf(t[j], columns)
  }

  lemma RowNumberAboveOne(t: Table, columns: seq<string>, cond: Where, i: int)
    requires i in t && Holds(cond, t[i])
    ensures RowNumber(t, columns, cond, i) > 1 <==> exists j :: j in t && j < i && SamePartition(t, columns, cond, i, j)
  {
    var upTo := PartitionUpTo(t, columns, cond, i);
    assert i in upTo;
    if j :| j in t && j < i && SamePartition(t, columns, cond, i, j) {
      assert {i, j} <= upTo;
      Larger({i, j}, upTo);
    } else {
      assert upTo == {i};
    }
  }

  lemma Larger(a: set<int>, b: set<int>)
    requires a <= b
    ensures |a| <= |b|
  {
    assert b == a + (b - a);
  }

  /** Dedupe keeps exactly the rows outside the WHERE clause and the least id of every partition. */
  lemma DedupeKeepsLeast(t: Table, columns: seq<string>, cond: Where, i: int)
    ensures i in Dedupe(t, columns, cond)
      <==> i in t && (Holds(cond, t[i]) ==> forall j :: j in t && j < i ==> !SamePartition(t, columns, cond, i, j))
    ensures i in Dedupe(t, columns, cond) ==> Dedupe(t, columns, cond)[i] == t[i]
  {
    if i in t && Holds(cond, t[i]) {
      RowNumberAboveOne(t, columns, cond, i);
    }
  }

  lemma LeastOfPartition(t: Table, columns: seq<string>, cond: Where, i: int, ids: set<int>)
      returns (least: int)
    requires i in t && Holds(cond, t[i]) && i in ids
    requires ids == set j | j in t && SamePartition(t, columns, cond, i, j)
    ensures least in t && least <= i && SamePartition(t, columns, cond, i, least)
    ensures least in Dedupe(t, columns, cond)
  {
    least := MinOf(ids, i);
    forall j | j in t && j < least ensures !SamePartition(t, columns, cond, least, j) {
      assert j !in ids;
    }
    DedupeKeepsLeast(t, columns, cond, least);
  }

  lemma {:induction false} MinOf(ids: set<int>, some: int) returns (least: int)
    requires some in ids
    ensures least in ids && forall j :: j in ids ==> least <= j
    decreases ids
  {
    if j :| j in ids && j < some {
      least := MinOf(ids - {some}, j);
      forall k | k in ids ensures least <= k {
        assert k == some || k in ids - {some};
      }
    } else {
      least := some;
    }
  }

  /** Every deleted row has the partition's least row, of smaller id, among the survivors. */
  lemma DeletedHasSurvivor(t: Table, columns: seq<string>, cond: Where, i: int) returns (survivor: int)
    requires i in t && i !in Dedupe(t, columns, cond)
    ensures survivor in Dedupe(t, columns, cond) && survivor < i
    ensures SamePartition(t, columns, cond, i, survivor)
  {
    DedupeKeepsLeast(t, columns, cond, i);
    survivor := LeastOfPartition(t, columns, cond, i, set j | j in t && SamePartition(t, columns, cond, i, j));
  }

  /** Two survivors never share a partition. */
  lemma SurvivorsDiffer(t: Table, columns: seq<string>, cond: Where, i: int, j: int)
    requires i in Dedupe(t, columns, cond) && j in Dedupe(t, columns, cond) && i != j
    ensures !SamePartition(t, columns, cond, i, j)
  {
    DedupeKeepsLeast(t, columns, cond, i);
    DedupeKeepsLeast(t, columns, cond, j);
  }

  /** The WHERE clause lets every row through that the constraint could reject. */
  predicate Covers(t: Table, u: Unique, cond: Where) {
    forall i :: i in t && Holds(u.cond, t[i]) && (u.nullsDistinct ==> !HasNull(KeyOf(t[i], u.columns)))
      ==> Holds(cond, t[i])
  }

  /** The survivors satisfy any constraint on the partition columns that the WHERE clause covers. */
  lemma DedupeEstablishes(t: Table, u: Unique, cond: Where)
    requires Covers(t, u, cond)
    ensures Satisfies(Dedupe(t, u.columns, cond), u)
  {
    var d := Dedupe(t, u.columns, cond);
    forall i, j | i in d && j in d && i != j ensures !Conflict(u, d[i], d[j]) {
      SurvivorsDiffer(t, u.columns, cond, i, j);
    }
  }

  lemma DedupeIdempotent(t: Table, columns: seq<string>, cond: Where)
    ensures Dedupe(Dedupe(t, columns, cond), columns, cond) == Dedupe(t, columns, cond)
  {
    var d := Dedupe(t, columns, cond);
    forall i | i in d ensures i in Dedupe(d, columns, cond) {
      forall j | j in d && j < i ensures !SamePartition(d, columns, cond, i, j) {
        SurvivorsDiffer(t, columns, cond, i, j);
      }
      DedupeKeepsLeast(d, columns, cond, i);
    }
  }

  /** Rows without a partner in their partition are all kept. */
  lemma DedupeKeepsAll(t: Table, columns: seq<string>, cond: Where)
    requires forall i, j :: i in t && j in t && i != j ==> !SamePartition(t, columns, cond, i, j)
    ensures Dedupe(t, columns, cond) == t
  {
    forall i | i in t ensures i in Dedupe(t, columns, cond) {
      DedupeKeepsLeast(t, columns, cond, i);
    }
  }

  /** Deleting rows cannot break a constraint. */
  lemma FewerRowsSatisfy(t: Table, fewer: Table, u: Unique)
    requires Satisfies(t, u)
    requires forall i :: i in fewer ==> i in t && fewer[i] == t[i]
    ensures Satisfies(fewer, u)
  {
  }

  // ---- columns ----

  function WithColumn(t: Table, column: string): Table {
    map i | i in t :: t[i][column := None]
  }

  function WithoutColumn(t: Table, column: string): Table {
    map i | i in t :: t[i] - {column}
  }

  function DeleteWhere(t: Table, cond: Where): Table {
    map i | i in t && !Holds(cond, t[i]) :: t[i]
  }

  function ColumnsOf(u: Unique): set<string> {
    (set c | c in u.columns) + (match u.cond
      case Always => {}
      case IsNull(column) => {column}
      case NotNull(columns) => set c | c in columns)
  }

  lemma KeyIgnores(row: Row, column: string, columns: seq<string>)
    requires column !in columns
    ensures KeyOf(row[column := None], columns) == KeyOf(row, columns)
    ensures KeyOf(row - {column}, columns) == KeyOf(row, columns)
  {
  }

  lemma HoldsIgnores(row: Row, column: string, u: Unique)
    requires column !in ColumnsOf(u)
    ensures Holds(u.cond, row[column := None]) == Holds(u.cond, row)
    ensures Holds(u.cond, row - {column}) == Holds(u.cond, row)
  {
    match u.cond
    case NotNull(columns) => KeyIgnores(row, column, columns);
    case _ =>
  }

  /** Adding or dropping a column that a constraint does not mention leaves the constraint as it was. */
  lemma ColumnChangeSatisfies(t: Table, column: string, u: Unique)
    requires column !in ColumnsOf(u)
    ensures Satisfies(WithColumn(t, column), u) <==> Satisfies(t, u)
    ensures Satisfies(WithoutColumn(t, column), u) <==> Satisfies(t, u)
  {
    forall i, j | i in t && j in t
      ensures Conflict(u, WithColumn(t, column)[i], WithColumn(t, column)[j]) == Conflict(u, t[i], t[j])
      ensures Conflict(u, WithoutColumn(t, column)[i], WithoutColumn(t, column)[j]) == Conflict(u, t[i], t[j])
    {
      KeyIgnores(t[i], column, u.columns);
      KeyIgnores(t[j], column, u.columns);
      HoldsIgnores(t[i], column, u);
      HoldsIgnores(t[j], column, u);
    }
    assert WithColumn(t, column).Keys == t.Keys == WithoutColumn(t, column).Keys;
  }

  /** A new column dropped again leaves the table as it was. */
  lemma ColumnRoundTrip(t: Table, column: string)
    requires forall i :: i in t ==> column !in t[i]
    ensures WithoutColumn(WithColumn(t, column), column) == t
  {
    forall i | i in t ensures t[i][column := None] - {column} == t[i] {
    }
  }

  // ---- the schema a migration alters ----

  datatype Constraint = Constraint(table: string, unique: Unique)

  class Schema {
    var tables: map<string, Table>
    var constraints: map<string, Constraint>

    /** Every constraint names a table and is satisfied, as the database guarantees at all times. */
    ghost predicate Valid()
      reads this
    {
      forall name :: name in constraints ==>
        constraints[name].table in tables && Satisfies(tables[constraints[name].table], constraints[name].unique)
    }

    constructor (tables: map<string, Table>)
      ensures this.tables == tables && constraints == map[] && Valid()
    {
      this.tables, constraints := tables, map[];
    }

    method DedupeTable(table: string, columns: seq<string>, cond: Where)
      requires Valid() && table in tables
      modifies this`tables
      ensures Valid() && tables == old(tables)[table := Dedupe(old(tables)[table], columns, cond)]
    {
      var t := tables[table];
      forall name | name in constraints && constraints[name].table == table
        ensures Satisfies(Dedupe(t, columns, cond), constraints[name].unique)
      {
        FewerRowsSatisfy(t, Dedupe(t, columns, cond), constraints[name].unique);
      }
      tables := tables[table := Dedupe(t, columns, cond)];
    }

    method DeleteRows(table: string, cond: Where)
      requires Valid() && table in tables
      modifies this`tables
      ensures Valid() && tables == old(tables)[table := DeleteWhere(old(tables)[table], cond)]
    {
      var t := tables[table];
      forall name | name in constraints && constraints[name].table == table
        ensures Satisfies(DeleteWhere(t, cond), constraints[name].unique)
      {
        FewerRowsSatisfy(t, DeleteWhere(t, cond), constraints[name].unique);
      }
      tables := tables[table := DeleteWhere(t, cond)];
    }

    /** Fails, changing nothing, when existing rows violate the new constraint or the name is taken. */
    method CreateUnique(name: string, table: string, unique: Unique) returns (ok: bool)
      requires Valid() && table in tables
      modifies this`constraints
      ensures Valid()
      ensures ok <==> name !in old(constraints) && Satisfies(tables[table], unique)
      ensures constraints == if ok then old(constraints)[name := Constraint(table, unique)] else old(constraints)
    {
      ok := name !in constraints && Satisfies(tables[table], unique);
      if ok {
        constraints := constraints[name := Constraint(table, unique)];
      }
    }

    method DropConstraint(name: string)
      requires Valid()
      modifies this`constraints
      ensures Valid() && constraints == old(constraints) - {name}
    {
      constraints := constraints - {name};
    }

    method AddColumn(table: string, column: string)
      requires Valid() && table in tables
      requires forall name :: name in constraints && constraints[name].table == table ==>
        column !in ColumnsOf(constraints[name].unique)
      modifies this`tables
      ensures Valid() && tables == old(tables)[table := WithColumn(old(tables)[table], column)]
    {
      var t := tables[table];
      forall name | name in constraints && constraints[name].table == table
        ensures Satisfies(WithColumn(t, column), constraints[name].unique)
      {
        ColumnChangeSatisfies(t, column, constraints[name].unique);
      }
      tables := tables[table := WithColumn(t, column)];
    }

    method DropColumn(table: string, column: string)
      requires Valid() && table in tables
      requires forall name :: name in constraints && constraints[name].table == table ==>
        column !in ColumnsOf(constraints[name].unique)
      modifies this`tables
      ensures Valid() && tables == old(tables)[table := WithoutColumn(old(tables)[table], column)]
    {
      var t := tables[table];
      forall name | name in constraints && constraints[name].table == table
        ensures Satisfies(WithoutColumn(t, column), constraints[name].unique)
      {
        ColumnChangeSatisfies(t, column, constraints[name].unique);
      }
      tables := tables[table := WithoutColumn(t, column)];
    }
  }
}
