/** Migration 0080: acceptance rationales found in stored AVI documents are copied into blank POA&M columns. */
module Backfill {
  import opened Nulls
  import opened Text

  /** A JSON value as the driver or `json.loads` hands it back. */
  datatype Json =
    | Null
    | Bool(b: bool)
    | Number
    | String(s: string)
    | Array(items: seq<Json>)
    | Object(members: map<string, Json>)

  /** `json.loads`, and `int()` on a string; `None` where they raise. */
  datatype Readers = Readers(loads: string -> Option<Json>, toInt: string -> Option<int>)

  /** A row of `cr26_documents` of kind `avi`. */
  datatype Document = Document(system: int, body: Json)

  datatype Poam = Poam(system: int, rationale: Option<string>)

  // ---- the two blankness tests ----

  /** `_is_blank`: anything but a string with some non-whitespace character. */
  predicate IsBlank(value: Option<Json>) {
    value == None || !value.value.String? || Strip(value.value.s) == []
  }

  /** `column IS NULL OR btrim(column) = ''`: SQL trims spaces only. */
  predicate IsSqlBlank(column: Option<string>) {
    column == None || forall c :: c in column.value ==> c == ' '
  }

  /** What the migration writes is never blank to SQL, so it is never overwritten later. */
  lemma StrippedIsNotSqlBlank(s: string)
    requires Strip(s) != []
    ensures !IsSqlBlank(Some(Strip(s)))
  {
    StripRightEnds(StripLeft(s));
    var t := Strip(s);
    assert t[|t| - 1] in t;
  }

  lemma {:induction false} StripRightEnds(s: string)
    ensures StripRight(s) != [] ==> !IsSpace(StripRight(s)[|StripRight(s)| - 1])
  {
    if s != [] && IsSpace(s[|s| - 1]) {
      StripRightEnds(s[..|s| - 1]);
    }
  }

  // ---- reading a document ----

  function Get(members: map<string, Json>, key: string): Option<Json> {
    if key in members then Some(members[key]) else None
  }

  /** `_as_document`: a native object, or the text of one. */
  function AsDocument(r: Readers, raw: Json): Option<map<string, Json>> {
    match raw
    case Object(members) => Some(members)
    case String(s) =>
      (match r.loads(s)
       case Some(Object(members)) => Some(members)
       case _ => None)
    case _ => None
  }

  function EntriesOf(r: Readers, raw: Json): seq<Json> {
    match AsDocument(r, raw)
    case None => []
    case Some(document) =>
      match Get(document, "acceptedVulnerabilities")
      case Some(Array(items)) => items
      case _ => []
  }

  /** One UPDATE: fill this POA&M of this system with this text. */
  datatype Write = Write(system: int, poam: int, text: string)

  /** What an entry asks for, if it qualifies. */
  function WriteOf(r: Readers, system: int, entry: Json): Option<Write> {
    if !entry.Object? then None
    else
      var detail := Get(entry.members, "vulnerabilityDetail");
      var tracking := if detail.Some? && detail.value.Object?
        then Get(detail.value.members, "providerTrackingId") else None;
      var rationale := Get(entry.members, "acceptanceRationale");
      if tracking == None || !tracking.value.String? || IsBlank(rationale) then None
      else match r.toInt(tracking.value.s)
        case None => None
        case Some(id) => Some(Write(system, id, Strip(rationale.value.s)))
  }

  function WritesOfEntries(r: Readers, system: int, entries: seq<Json>): seq<Write> {
    if entries == [] then []
    else
      var front := WritesOfEntries(r, system, entries[..|entries| - 1]);
      match WriteOf(r, system, entries[|entries| - 1])
      case None => front
      case Some(w) => front + [w]
  }

  function WritesOf(r: Readers, document: Document): seq<Write> {
    WritesOfEntries(r, document.system, EntriesOf(r, document.body))
  }

  function AllWrites(r: Readers, documents: seq<Document>): seq<Write> {
    if documents == [] then []
    else AllWrites(r, documents[..|documents| - 1]) + WritesOf(r, documents[|documents| - 1])
  }

  // ---- the table, updated in place ----

  function Filled(rows: map<int, Poam>, w: Write): map<int, Poam> {
    if w.poam in rows && rows[w.poam].system == w.system && IsSqlBlank(rows[w.poam].rationale)
    then rows[w.poam := rows[w.poam].(rationale := Some(w.text))]
    else rows
  }

  function FilledAll(rows: map<int, Poam>, writes: seq<Write>): map<int, Poam> {
    if writes == [] then rows else Filled(FilledAll(rows, writes[..|writes| - 1]), writes[|writes| - 1])
  }

  class Poams {
    var rows: map<int, Poam>

    constructor (rows: map<int, Poam>)
      ensures this.rows == rows
    {
      this.rows := rows;
    }

    method Fill(w: Write)
      modifies this
      ensures rows == Filled(old(rows), w)
    {
      if w.poam in rows && rows[w.poam].system == w.system && IsSqlBlank(rows[w.poam].rationale) {
        rows := rows[w.poam := rows[w.poam].(rationale := Some(w.text))];
      }
    }

    /** Every document, every entry; malformed ones are skipped, never raised on. */
    method BackfillFromAviDocuments(r: Readers, documents: seq<Document>)
      modifies this
      ensures rows == FilledAll(old(rows), AllWrites(r, documents))
    {
      for i := 0 to |documents|
        invariant rows == FilledAll(old(rows), AllWrites(r, documents[..i]))
      {
        ghost var before := rows;
        assert documents[..i + 1][..i] == documents[..i];
        var entries := EntriesOf(r, documents[i].body);
        for j := 0 to |entries|
          invariant rows == FilledAll(before, WritesOfEntries(r, documents[i].system, entries[..j]))
        {
          NextEntry(before, r, documents[i].system, entries, j);
          var w := WriteOf(r, documents[i].system, entries[j]);
          if w == None {
            continue;
          }
          Fill(w.value);
        }
        assert entries[..|entries|] == entries;
        FilledConcat(old(rows), AllWrites(r, documents[..i]), WritesOf(r, documents[i]));
      }
      assert documents[..|documents|] == documents;
    }
  }

  lemma NextEntry(rows: map<int, Poam>, r: Readers, system: int, entries: seq<Json>, j: nat)
    requires j < |entries|
    ensures FilledAll(rows, WritesOfEntries(r, system, entries[..j + 1]))
      == var done := FilledAll(rows, WritesOfEntries(r, system, entries[..j]));
         match WriteOf(r, system, entries[j]) case None => done case Some(w) => Filled(done, w)
  {
    assert entries[..j + 1][..j] == entries[..j];
    var front := WritesOfEntries(r, system, entries[..j]);
    if WriteOf(r, system, entries[j]).Some? {
      var w := WriteOf(r, system, entries[j]).value;
      assert (front + [w])[..|front|] == front;
    }
  }

  lemma {:induction false} FilledConcat(rows: map<int, Poam>, a: seq<Write>, b: seq<Write>)
    ensures FilledAll(rows, a + b) == FilledAll(FilledAll(rows, a), b)
  {
    if b == [] {
      assert a + b == a;
    } else {
      assert (a + b)[..|a + b| - 1] == a + b[..|b| - 1];
      FilledConcat(rows, a, b[..|b| - 1]);
    }
  }

  // ---- what it amounts to ----

  /** The text of the first write meant for this POA&M. */
  function FirstFor(writes: seq<Write>, system: int, poam: int): Option<string> {
    if writes == [] then None
    else if writes[0].system == system && writes[0].poam == poam then Some(writes[0].text)
    else FirstFor(writes[1..], system, poam)
  }

  /** A non-blank column is left alone; a blank one takes the first qualifying rationale of its own system. */
  function Settled(p: Poam, id: int, writes: seq<Write>): Poam {
    if !IsSqlBlank(p.rationale) || FirstFor(writes, p.system, id) == None then p
    else p.(rationale := FirstFor(writes, p.system, id))
  }

  predicate NoneBlank(writes: seq<Write>) {
    forall i :: 0 <= i < |writes| ==> !IsSqlBlank(Some(writes[i].text))
  }

  lemma {:induction false} FirstForConcat(a: seq<Write>, b: seq<Write>, system: int, poam: int)
    ensures FirstFor(a + b, system, poam)
      == if FirstFor(a, system, poam).Some? then FirstFor(a, system, poam) else FirstFor(b, system, poam)
  {
    if a == [] {
      assert a + b == b;
    } else {
      assert (a + b)[1..] == a[1..] + b;
      FirstForConcat(a[1..], b, system, poam);
    }
  }

  lemma {:induction false} FirstForNotBlank(writes: seq<Write>, system: int, poam: int)
    requires NoneBlank(writes)
    ensures FirstFor(writes, system, poam).Some? ==> !IsSqlBlank(FirstFor(writes, system, poam))
  {
    if writes != [] {
      FirstForNotBlank(writes[1..], system, poam);
    }
  }

  lemma {:induction false} FilledIsSettled(rows: map<int, Poam>, writes: seq<Write>)
    requires NoneBlank(writes)
    ensures FilledAll(rows, writes) == map id | id in rows :: Settled(rows[id], id, writes)
  {
    if writes != [] {
      var front, w := writes[..|writes| - 1], writes[|writes| - 1];
      FilledIsSettled(rows, front);
      assert writes == front + [w];
      forall id | id in rows
        ensures FilledAll(rows, writes)[id] == Settled(rows[id], id, writes)
      {
        FirstForConcat(front, [w], rows[id].system, id);
        FirstForNotBlank(front, rows[id].system, id);
        assert FirstFor([w][1..], rows[id].system, id) == None;
      }
    }
  }

  lemma {:induction false} EntryWritesNotBlank(r: Readers, system: int, entries: seq<Json>)
    ensures NoneBlank(WritesOfEntries(r, system, entries))
    ensures forall i :: 0 <= i < |WritesOfEntries(r, system, entries)| ==>
      WritesOfEntries(r, system, entries)[i].system == system
  {
    if entries != [] {
      EntryWritesNotBlank(r, system, entries[..|entries| - 1]);
      var entry := entries[|entries| - 1];
      if WriteOf(r, system, entry).Some? {
        StrippedIsNotSqlBlank(Get(entry.members, "acceptanceRationale").value.s);
      }
    }
  }

  lemma {:induction false} WritesNotBlank(r: Readers, documents: seq<Document>)
    ensures NoneBlank(AllWrites(r, documents))
  {
    if documents != [] {
      WritesNotBlank(r, documents[..|documents| - 1]);
      var d := documents[|documents| - 1];
      EntryWritesNotBlank(r, d.system, EntriesOf(r, d.body));
    }
  }

  /** No system has two AVI documents (`uq_cr26_document_system_kind`). */
  predicate OnePerSystem(documents: seq<Document>) {
    forall i, j :: 0 <= i < j < |documents| ==> documents[i].system != documents[j].system
  }

  lemma {:induction false} FirstForOther(writes: seq<Write>, system: int, poam: int)
    requires forall i :: 0 <= i < |writes| ==> writes[i].system != system
    ensures FirstFor(writes, system, poam) == None
  {
    if writes != [] {
      FirstForOther(writes[1..], system, poam);
    }
  }

  lemma WritesStayInSystem(r: Readers, d: Document, system: int, poam: int)
    requires d.system != system
    ensures FirstFor(WritesOf(r, d), system, poam) == None
  {
    EntryWritesNotBlank(r, d.system, EntriesOf(r, d.body));
    FirstForOther(WritesOf(r, d), system, poam);
  }

  lemma {:induction false} NoDocumentNoWrite(r: Readers, documents: seq<Document>, system: int, poam: int)
    requires forall i :: 0 <= i < |documents| ==> documents[i].system != system
    ensures FirstFor(AllWrites(r, documents), system, poam) == None
  {
    if documents != [] {
      var front, d := documents[..|documents| - 1], documents[|documents| - 1];
      NoDocumentNoWrite(r, front, system, poam);
      WritesStayInSystem(r, d, system, poam);
      FirstForConcat(AllWrites(r, front), WritesOf(r, d), system, poam);
    }
  }

  /** Only the system's own document matters. */
  lemma {:induction false} OwnDocumentDecides(r: Readers, documents: seq<Document>, i: nat, poam: int)
    requires OnePerSystem(documents) && i < |documents|
    ensures FirstFor(AllWrites(r, documents), documents[i].system, poam)
      == FirstFor(WritesOf(r, documents[i]), documents[i].system, poam)
  {
    var front, d := documents[..|documents| - 1], documents[|documents| - 1];
    var system := documents[i].system;
    FirstForConcat(AllWrites(r, front), WritesOf(r, d), system, poam);
    if i == |documents| - 1 {
      NoDocumentNoWrite(r, front, system, poam);
    } else {
      OwnDocumentDecides(r, front, i, poam);
      WritesStayInSystem(r, d, system, poam);
    }
  }

  function Backfilled(r: Readers, rows: map<int, Poam>, documents: seq<Document>): map<int, Poam> {
    FilledAll(rows, AllWrites(r, documents))
  }

  /**
   * The nested loops amount to this: no POA&M appears, disappears or changes system; one with a non-blank rationale
   * is untouched; a blank one takes the first qualifying entry of its own system's document, stripped, if any.
   */
  lemma BackfilledRow(r: Readers, rows: map<int, Poam>, documents: seq<Document>, id: int)
    requires OnePerSystem(documents)
    ensures Backfilled(r, rows, documents).Keys == rows.Keys
    ensures id in rows && !IsSqlBlank(rows[id].rationale) ==> Backfilled(r, rows, documents)[id] == rows[id]
    ensures id in rows && (forall i :: 0 <= i < |documents| ==> documents[i].system != rows[id].system) ==>
      Backfilled(r, rows, documents)[id] == rows[id]
    ensures forall i :: id in rows && 0 <= i < |documents| && documents[i].system == rows[id].system ==>
      Backfilled(r, rows, documents)[id] == Settled(rows[id], id, WritesOf(r, documents[i]))
  {
    WritesNotBlank(r, documents);
    FilledIsSettled(rows, AllWrites(r, documents));
    if id in rows {
      if i :| 0 <= i < |documents| && documents[i].system == rows[id].system {
        OwnDocumentDecides(r, documents, i, id);
      } else {
        NoDocumentNoWrite(r, documents, rows[id].system, id);
      }
    }
  }

  /** The order in which the documents happen to be fetched does not matter. */
  lemma FetchOrderIrrelevant(r: Readers, rows: map<int, Poam>, documents: seq<Document>, reordered: seq<Document>)
    requires OnePerSystem(documents) && OnePerSystem(reordered)
    requires forall d :: d in documents <==> d in reordered
    ensures Backfilled(r, rows, documents) == Backfilled(r, rows, reordered)
  {
    BackfilledRow(r, rows, documents, 0);
    BackfilledRow(r, rows, reordered, 0);
    forall id | id in rows ensures Backfilled(r, rows, documents)[id] == Backfilled(r, rows, reordered)[id] {
      BackfilledRow(r, rows, documents, id);
      BackfilledRow(r, rows, reordered, id);
      if i :| 0 <= i < |documents| && documents[i].system == rows[id].system {
        assert documents[i] in reordered;
        var j :| 0 <= j < |reordered| && reordered[j] == documents[i];
      } else {
        forall j | 0 <= j < |reordered| ensures reordered[j].system != rows[id].system {
          assert reordered[j] in documents;
        }
      }
    }
  }

  /** A second run finds nothing left to fill. */
  lemma BackfillIdempotent(r: Readers, rows: map<int, Poam>, documents: seq<Document>)
    ensures Backfilled(r, Backfilled(r, rows, documents), documents) == Backfilled(r, rows, documents)
  {
    var writes := AllWrites(r, documents);
    var once := Backfilled(r, rows, documents);
    WritesNotBlank(r, documents);
    FilledIsSettled(rows, writes);
    FilledIsSettled(once, writes);
    forall id | id in rows ensures Settled(once[id], id, writes) == once[id] {
      FirstForNotBlank(writes, rows[id].system, id);
    }
  }

  // ---- from the stored JSON ----

  /** The body, an object or the text of one, lists these accepted vulnerabilities. */
  predicate Lists(r: Readers, body: Json, entries: seq<Json>) {
    || (body.Object? && "acceptedVulnerabilities" in body.members
        && body.members["acceptedVulnerabilities"] == Array(entries))
    || (body.String? && r.loads(body.s).Some? && r.loads(body.s).value.Object?
        && "acceptedVulnerabilities" in r.loads(body.s).value.members
        && r.loads(body.s).value.members["acceptedVulnerabilities"] == Array(entries))
  }

  /** The entry names this POA&M in its provider tracking id. */
  predicate Names(r: Readers, entry: Json, poam: int) {
    && entry.Object? && "vulnerabilityDetail" in entry.members
    && var detail := entry.members["vulnerabilityDetail"];
    && detail.Object? && "providerTrackingId" in detail.members
    && detail.members["providerTrackingId"].String?
    && r.toInt(detail.members["providerTrackingId"].s) == Some(poam)
  }

  /** The entry carries a rationale that is not all whitespace. */
  predicate Explains(entry: Json) {
    && entry.Object? && "acceptanceRationale" in entry.members && entry.members["acceptanceRationale"].String?
    && exists c :: c in entry.members["acceptanceRationale"].s && !IsSpace(c)
  }

  predicate Qualifies(r: Readers, entry: Json, poam: int) {
    Names(r, entry, poam) && Explains(entry)
  }

  lemma StripEmptyIff(s: string)
    ensures Strip(s) == [] <==> forall c :: c in s ==> IsSpace(c)
  {
    var pre, post := StripSplits(s);
    forall c ensures c in s <==> c in pre || c in Strip(s) || c in post {
    }
    if Strip(s) != [] {
      assert Strip(s)[0] in s;
    }
  }

  lemma WriteOfIs(r: Readers, system: int, entry: Json, poam: int)
    ensures Qualifies(r, entry, poam)
      <==> (WriteOf(r, system, entry).Some? && WriteOf(r, system, entry).value.poam == poam)
    ensures WriteOf(r, system, entry).Some? ==>
      Explains(entry)
      && WriteOf(r, system, entry).value.text == Strip(entry.members["acceptanceRationale"].s)
      && WriteOf(r, system, entry).value.system == system
  {
    if entry.Object? && "acceptanceRationale" in entry.members && entry.members["acceptanceRationale"].String? {
      StripEmptyIff(entry.members["acceptanceRationale"].s);
    }
  }

  lemma {:induction false} NoneQualifies(r: Readers, system: int, entries: seq<Json>, poam: int)
    requires forall k :: 0 <= k < |entries| ==> !Qualifies(r, entries[k], poam)
    ensures FirstFor(WritesOfEntries(r, system, entries), system, poam) == None
  {
    if entries != [] {
      var front, last := entries[..|entries| - 1], entries[|entries| - 1];
      NoneQualifies(r, system, front, poam);
      WriteOfIs(r, system, last, poam);
      if WriteOf(r, system, last).Some? {
        FirstForConcat(WritesOfEntries(r, system, front), [WriteOf(r, system, last).value], system, poam);
        assert [WriteOf(r, system, last).value][1..] == [];
      }
    }
  }

  lemma {:induction false} FirstQualifies(r: Readers, system: int, entries: seq<Json>, poam: int, k: nat)
    requires k < |entries| && Qualifies(r, entries[k], poam)
    requires forall j :: 0 <= j < k ==> !Qualifies(r, entries[j], poam)
    ensures FirstFor(WritesOfEntries(r, system, entries), system, poam)
      == Some(Strip(entries[k].members["acceptanceRationale"].s))
  {
    var front, last := entries[..|entries| - 1], entries[|entries| - 1];
    WriteOfIs(r, system, last, poam);
    if k == |entries| - 1 {
      NoneQualifies(r, system, front, poam);
    } else {
      FirstQualifies(r, system, front, poam, k);
    }
    if WriteOf(r, system, last).Some? {
      FirstForConcat(WritesOfEntries(r, system, front), [WriteOf(r, system, last).value], system, poam);
    }
  }

  /** No entry of the body qualifies for this POA&M. */
  ghost predicate NothingFor(r: Readers, body: Json, poam: int) {
    forall entries, k :: Lists(r, body, entries) && 0 <= k < |entries| ==> !Qualifies(r, entries[k], poam)
  }

  lemma EntriesAre(r: Readers, body: Json, entries: seq<Json>)
    ensures Lists(r, body, entries) ==> EntriesOf(r, body) == entries
    ensures EntriesOf(r, body) != [] ==> Lists(r, body, EntriesOf(r, body))
  {
  }

  /**
   * A POA&M without a rationale takes the first entry of its own system's document, in the document's order, that
   * names it and carries a rationale that is not all whitespace: it gets exactly that text, stripped.
   */
  lemma FilledFromFirstEntry(r: Readers, rows: map<int, Poam>, documents: seq<Document>, i: nat, id: int,
                             entries: seq<Json>, k: nat)
    requires OnePerSystem(documents) && i < |documents| && id in rows && rows[id].system == documents[i].system
    requires rows[id].rationale == None || forall c :: c in rows[id].rationale.value ==> c == ' '
    requires Lists(r, documents[i].body, entries) && k < |entries| && Qualifies(r, entries[k], id)
    requires forall j :: 0 <= j < k ==> !Qualifies(r, entries[j], id)
    ensures Backfilled(r, rows, documents).Keys == rows.Keys
    ensures Backfilled(r, rows, documents)[id]
      == Poam(rows[id].system, Some(Strip(entries[k].members["acceptanceRationale"].s)))
  {
    BackfilledRow(r, rows, documents, id);
    EntriesAre(r, documents[i].body, entries);
    FirstQualifies(r, documents[i].system, entries, id, k);
  }

  /** And it stays as it was exactly when its own system's document has no such entry. */
  lemma UntouchedIff(r: Readers, rows: map<int, Poam>, documents: seq<Document>, i: nat, id: int)
    requires OnePerSystem(documents) && i < |documents| && id in rows && rows[id].system == documents[i].system
    requires rows[id].rationale == None || forall c :: c in rows[id].rationale.value ==> c == ' '
    ensures Backfilled(r, rows, documents).Keys == rows.Keys
    ensures Backfilled(r, rows, documents)[id] == rows[id] <==> NothingFor(r, documents[i].body, id)
  {
    BackfilledRow(r, rows, documents, id);
    var entries := EntriesOf(r, documents[i].body);
    EntriesAre(r, documents[i].body, entries);
    if k: nat :| k < |entries| && Qualifies(r, entries[k], id) {
      var first := LeastQualifying(r, entries, id, k);
      FilledFromFirstEntry(r, rows, documents, i, id, entries, first);
      WriteOfIs(r, 0, entries[first], id);
      StripEmptyIff(entries[first].members["acceptanceRationale"].s);
      StrippedIsNotSqlBlank(entries[first].members["acceptanceRationale"].s);
    } else {
      NoneQualifies(r, documents[i].system, entries, id);
      forall other, k | Lists(r, documents[i].body, other) && 0 <= k < |other| ensures !Qualifies(r, other[k], id) {
        EntriesAre(r, documents[i].body, other);
      }
    }
  }

  lemma {:induction false} LeastQualifying(r: Readers, entries: seq<Json>, poam: int, k: nat) returns (first: nat)
    requires k < |entries| && Qualifies(r, entries[k], poam)
    ensures first <= k && Qualifies(r, entries[first], poam)
    ensures forall j :: 0 <= j < first ==> !Qualifies(r, entries[j], poam)
  {
    if j: nat :| j < k && Qualifies(r, entries[j], poam) {
      first := LeastQualifying(r, entries, poam, j);
    } else {
      first := k;
    }
  }
}
