/** The record store: what a confirm, a record delete, a schema delete and a document
    delete do to the extracted records and to the rows they reference. */
module Store {
  import opened Common
  import opened Lineage
  import Coerce

  type DocId = nat
  type SchemaId = nat
  type VersionId = nat
  type RecId = nat

  type Data = map<string, Coerce.Value>
  type Rounding = Coerce.Dec -> Coerce.Dec

  /** `created` numbers the transaction that inserted the row. */
  datatype Rec = Rec(doc: DocId, schema: SchemaId, version: VersionId, rowIndex: nat, data: Data,
                     duplicateOf: Option<RecId>, created: nat)

  datatype SchemaVersion = SchemaVersion(schema: SchemaId, fields: seq<Field>)

  datatype Document = Document(schema: Option<SchemaId>, version: Option<VersionId>)

  /** `clock` is the number of the running transaction; ids below `nextId` have been used. */
  datatype Db = Db(records: map<RecId, Rec>, schemas: set<SchemaId>, versions: map<VersionId, SchemaVersion>,
                   docs: map<DocId, Document>, nextId: RecId, clock: nat)

  datatype Decision = Skip | KeepBoth | Replace

  datatype ConfirmError = UnknownSchema | MatchGone | BrokenReference

  /* ---- The payload becomes rows ---- */

  /** At least one row, whatever was staged. */
  function Materialize(fields: seq<Field>, staged: seq<Data>, rounding: Rounding): (rows: seq<Data>)
    ensures |rows| >= 1
    ensures staged != [] ==> |rows| == |staged|
  {
    if staged == [] then [map[]]
    else seq(|staged|, i requires 0 <= i < |staged| => Coerce.CoerceExtracted(fields, staged[i], rounding))
  }

  /** What is staged was coerced at extraction already; coercing it again changes nothing. */
  lemma MaterializeTwice(fields: seq<Field>, staged: seq<Data>, rounding: Rounding)
    requires Coerce.RoundsToDecimals(rounding)
    ensures Materialize(fields, Materialize(fields, staged, rounding), rounding)
              == Materialize(fields, staged, rounding)
  {
    var once := Materialize(fields, staged, rounding);
    var twice := Materialize(fields, once, rounding);
    forall i | 0 <= i < |once| ensures twice[i] == once[i] {
      if staged != [] {
        Coerce.CoerceExtractedIdempotent(fields, staged[i], rounding);
      }
    }
  }

  function RecordsFor(records: map<RecId, Rec>, doc: DocId, schema: SchemaId): set<RecId> {
    set id | id in records && records[id].doc == doc && records[id].schema == schema
  }

  predicate PointsInto(r: Rec, doomed: set<RecId>) {
    r.duplicateOf.Some? && r.duplicateOf.value in doomed
  }

  function Unlinked(r: Rec, doomed: set<RecId>): Rec {
    if PointsInto(r, doomed) then r.(duplicateOf := None) else r
  }

  /** Pointers into the doomed rows are cleared, then the rows go. */
  function Deleted(records: map<RecId, Rec>, doomed: set<RecId>): map<RecId, Rec> {
    map id | id in records && id !in doomed :: Unlinked(records[id], doomed)
  }

  /** One record per entry, in document order. */
  function Inserted(db: Db, doc: DocId, schema: SchemaId, version: VersionId, rows: seq<Data>,
                    duplicateOf: Option<RecId>, start: nat): Db
  {
    db.(records := db.records
                   + map id | id in FreshIds(db.nextId, |rows|)
                       :: Rec(doc, schema, version, start + (id - db.nextId), rows[id - db.nextId], duplicateOf,
                         db.clock),
        nextId := db.nextId + |rows|)
  }

  function Replaced(db: Db, matched: RecId, doc: DocId, schema: SchemaId, version: VersionId, rows: seq<Data>): Db
    requires matched in db.records && rows != []
  {
    var stranded := RecordsFor(db.records, db.records[matched].doc, schema) - {matched};
    var kept := Deleted(db.records, stranded);
    var row0 := kept[matched].(doc := doc, version := version, rowIndex := 0, data := rows[0]);
    Inserted(db.(records := kept[matched := row0]), doc, schema, version, rows[1..], None, 1)
  }

  /** The staged result of one job, and how the user confirms it. */
  datatype Confirm = Confirm(doc: DocId, schema: SchemaId, version: VersionId, backfill: bool, staged: seq<Data>,
                             matched: Option<RecId>, decision: Decision)

  function RowsOf(db: Db, c: Confirm, rounding: Rounding): seq<Data>
    requires c.version in db.versions
  {
    Materialize(db.versions[c.version].fields, c.staged, rounding)
  }

  /** The record part of `confirm_job`. A duplicate pointer to a row that is gone
      violates the foreign key and aborts the transaction. */
  function Confirmed(db: Db, c: Confirm, rounding: Rounding): Result<Db, ConfirmError> {
    if c.schema !in db.schemas || c.version !in db.versions then Err(UnknownSchema)
    else if c.doc !in db.docs then Err(BrokenReference)
    else
      var rows := RowsOf(db, c, rounding);
      var bound := db.(docs := db.docs[c.doc := Document(Some(c.schema), Some(c.version))], clock := db.clock + 1);
      if c.backfill then
        var cleared := db.(records := Deleted(db.records, RecordsFor(db.records, c.doc, c.schema)));
        var full := Inserted(cleared, c.doc, c.schema, c.version, rows, None, 0);
        Ok(bound.(records := full.records, nextId := full.nextId))
      else if c.matched.None? then
        var full := Inserted(db, c.doc, c.schema, c.version, rows, None, 0);
        Ok(bound.(records := full.records, nextId := full.nextId))
      else
        match c.decision
        case Skip => Ok(bound)
        case KeepBoth =>
          if c.matched.value !in db.records then Err(BrokenReference)
          else
            var full := Inserted(db, c.doc, c.schema, c.version, rows, c.matched, 0);
            Ok(bound.(records := full.records, nextId := full.nextId))
        case Replace =>
          if c.matched.value !in db.records then Err(MatchGone)
          else
            var full := Replaced(db, c.matched.value, c.doc, c.schema, c.version, rows);
            Ok(bound.(records := full.records, nextId := full.nextId))
  }

  function RecordDeleted(db: Db, schema: SchemaId, id: RecId): Option<Db> {
    if id !in db.records || db.records[id].schema != schema then None
    else Some(db.(records := Deleted(db.records, {id}), clock := db.clock + 1))
  }

  function RecordsOfSchema(records: map<RecId, Rec>, schema: SchemaId): set<RecId> {
    set id | id in records && records[id].schema == schema
  }

  function VersionsOf(versions: map<VersionId, SchemaVersion>, schema: SchemaId): set<VersionId> {
    set v | v in versions && versions[v].schema == schema
  }

  function Detached(d: Document, schema: SchemaId, versions: set<VersionId>): Document {
    if d.schema == Some(schema) then Document(None, None)
    else if d.version.Some? && d.version.value in versions then d.(version := None)
    else d
  }

  function AllDetached(docs: map<DocId, Document>, schema: SchemaId, versions: set<VersionId>): map<DocId, Document> {
    map d | d in docs :: Detached(docs[d], schema, versions)
  }

  predicate Uses(records: map<RecId, Rec>, versions: set<VersionId>) {
    exists id :: id in records && records[id].version in versions
  }

  /** None when there is no such schema, or when a row of another schema still carries
      one of its versions: deleting the version then violates a foreign key. */
  function SchemaDeleted(db: Db, schema: SchemaId): Option<Db> {
    if schema !in db.schemas then None
    else
      var records := Deleted(db.records, RecordsOfSchema(db.records, schema));
      var versions := VersionsOf(db.versions, schema);
      if Uses(records, versions) then None
      else Some(db.(records := records, versions := db.versions - versions, schemas := db.schemas - {schema},
                    docs := AllDetached(db.docs, schema, versions), clock := db.clock + 1))
  }

  /** Records are deleted in bulk without detaching: refused while another document's
      record points at one of them. */
  function DocumentDeleted(db: Db, doc: DocId): Option<Db> {
    var doomed := set id | id in db.records && db.records[id].doc == doc;
    if doc !in db.docs then None
    else if exists id :: id in db.records && id !in doomed && PointsInto(db.records[id], doomed) then None
    else Some(db.(records := map id | id in db.records
      && id !in doomed :: db.records[id], docs := db.docs - {doc}, clock := db.clock + 1))
  }

  /* ---- Runs ---- */

  datatype Op =
    | AddDocument(doc: DocId)
    | AddSchema(schema: SchemaId)
    | AddVersion(version: VersionId, of: SchemaId, fields: seq<Field>)
    | DoConfirm(c: Confirm)
    | DeleteRecord(from: SchemaId, id: RecId)
    | DeleteSchema(gone: SchemaId)
    | DeleteDocument(dropped: DocId)

  /** One transaction; one that fails leaves the database as it was. */
  function Apply(db: Db, op: Op, rounding: Rounding): Db {
    match op
    case AddDocument(doc) => if doc in db.docs then db else db.(docs := db.docs[doc := Document(None, None)])
    case AddSchema(s) => db.(schemas := db.schemas + {s})
    case AddVersion(v, s, fields) =>
      if s !in db.schemas || v in db.versions then db else db.(versions := db.versions[v := SchemaVersion(s, fields)])
    case DoConfirm(c) => (match Confirmed(db, c, rounding) case Ok(after) => after case Err(_) => db)
    case DeleteRecord(s, id) => RecordDeleted(db, s, id).GetOr(db)
    case DeleteSchema(s) => SchemaDeleted(db, s).GetOr(db)
    case DeleteDocument(d) => DocumentDeleted(db, d).GetOr(db)
  }

  function Run(ops: seq<Op>, rounding: Rounding): Db {
    if ops == [] then Db(map[], {}, map[], map[], 0, 0)
    else Apply(Run(ops[..|ops| - 1], rounding), ops[|ops| - 1], rounding)
  }

  /* ---- Soundness ---- */

  /** Every reference of a record is live, and a duplicate pointer leads to a row that
      an earlier transaction created. */
  ghost predicate SoundRecord(db: Db, id: RecId)
    requires id in db.records
  {
    var r := db.records[id];
    && id < db.nextId && r.created < db.clock
    && r.doc in db.docs && r.schema in db.schemas && r.version in db.versions
    && (r.duplicateOf.Some? ==>
          r.duplicateOf.value in db.records && db.records[r.duplicateOf.value].created < r.created)
  }

  ghost predicate SoundDocument(db: Db, d: Document) {
    && (d.schema.Some? ==> d.schema.value in db.schemas)
    && (d.version.Some? ==> d.version.value in db.versions)
  }

  ghost predicate Sound(db: Db) {
    && (forall id :: id in db.records ==> SoundRecord(db, id))
    && (forall d :: d in db.docs ==> SoundDocument(db, db.docs[d]))
    && (forall v :: v in db.versions ==> db.versions[v].schema in db.schemas)
  }

  lemma DeletedSound(db: Db, doomed: set<RecId>)
    requires Sound(db)
    ensures Sound(db.(records := Deleted(db.records, doomed)))
  {
    var after := db.(records := Deleted(db.records, doomed));
    forall id | id in after.records ensures SoundRecord(after, id) {
      assert SoundRecord(db, id);
    }
    forall d | d in after.docs ensures SoundDocument(after, after.docs[d]) { assert SoundDocument(db, db.docs[d]); }
  }

  lemma InsertedSound(db: Db, doc: DocId, schema: SchemaId, version: VersionId, rows: seq<Data>,
                      duplicateOf: Option<RecId>, start: nat)
    requires Sound(db) && doc in db.docs && schema in db.schemas && version in db.versions
    requires duplicateOf.Some? ==> duplicateOf.value in db.records
    ensures var full := Inserted(db, doc, schema, version, rows, duplicateOf,
              start); Sound(full.(clock := db.clock + 1))
  {
    var full := Inserted(db, doc, schema, version, rows, duplicateOf, start).(clock := db.clock + 1);
    forall id | id in full.records ensures SoundRecord(full, id) {
      if id in db.records { assert SoundRecord(db, id); }
      if duplicateOf.Some? { assert SoundRecord(db, duplicateOf.value); }
      forall other | other in db.records
        ensures full.records[other] == db.records[other] { assert SoundRecord(db, other); }
    }
    forall d | d in full.docs ensures SoundDocument(full, full.docs[d]) { assert SoundDocument(db, db.docs[d]); }
  }

  lemma RowZeroSound(db: Db, matched: RecId, doc: DocId, version: VersionId, data: Data)
    requires Sound(db) && matched in db.records && doc in db.docs && version in db.versions
    ensures Sound(db.(records := db.records[matched :=
              db.records[matched].(doc := doc, version := version, rowIndex := 0, data := data)]))
  {
    var after := db.(records := db.records[matched :=
      db.records[matched].(doc := doc, version := version, rowIndex := 0, data := data)]);
    forall id | id in after.records ensures SoundRecord(after, id) { assert SoundRecord(db, id); }
    forall d | d in after.docs ensures SoundDocument(after, after.docs[d]) { assert SoundDocument(db, db.docs[d]); }
  }

  lemma BoundSound(db: Db, doc: DocId, schema: SchemaId, version: VersionId)
    requires Sound(db) && schema in db.schemas && version in db.versions
    ensures Sound(db.(docs := db.docs[doc := Document(Some(schema), Some(version))]))
    ensures Sound(db.(clock := db.clock + 1))
  {
    var after := db.(docs := db.docs[doc := Document(Some(schema), Some(version))]);
    forall id | id in after.records ensures SoundRecord(after, id) { assert SoundRecord(db, id); }
    forall d | d in after.docs ensures SoundDocument(after,
      after.docs[d]) { if d != doc { assert SoundDocument(db, db.docs[d]); } }
    var later := db.(clock := db.clock + 1);
    forall id | id in later.records ensures SoundRecord(later, id) { assert SoundRecord(db, id); }
    forall d | d in later.docs ensures SoundDocument(later, later.docs[d]) { assert SoundDocument(db, db.docs[d]); }
  }

  lemma ConfirmedSound(db: Db, c: Confirm, rounding: Rounding)
    requires Sound(db) && Confirmed(db, c, rounding).Ok?
    ensures Sound(Confirmed(db, c, rounding).value)
  {
    hide Sound, Deleted, Inserted, RecordsFor;
    var rows := RowsOf(db, c, rounding);
    var full: Db;
    if c.backfill {
      var doomed := RecordsFor(db.records, c.doc, c.schema);
      DeletedSound(db, doomed);
      var cleared := db.(records := Deleted(db.records, doomed));
      InsertedSound(cleared, c.doc, c.schema, c.version, rows, None, 0);
      full := Inserted(cleared, c.doc, c.schema, c.version, rows, None, 0);
      InsertedFrame(cleared, c.doc, c.schema, c.version, rows, None, 0);
    } else if c.matched.None? || c.decision == KeepBoth {
      InsertedSound(db, c.doc, c.schema, c.version, rows, c.matched, 0);
      full := Inserted(db, c.doc, c.schema, c.version, rows, c.matched, 0);
      InsertedFrame(db, c.doc, c.schema, c.version, rows, c.matched, 0);
    } else if c.decision == Skip {
      BoundSound(db, c.doc, c.schema, c.version);
      full := db;
    } else {
      ReplacedSound(db, c.matched.value, c.doc, c.schema, c.version, rows);
      full := Replaced(db, c.matched.value, c.doc, c.schema, c.version, rows);
    }
    var later := full.(clock := db.clock + 1);
    BoundSound(later, c.doc, c.schema, c.version);
    assert Confirmed(db, c, rounding).value
             == later.(docs := later.docs[c.doc := Document(Some(c.schema), Some(c.version))]);
  }

  lemma InsertedFrame(db: Db, doc: DocId, schema: SchemaId, version: VersionId, rows: seq<Data>,
                      duplicateOf: Option<RecId>, start: nat)
    ensures var full := Inserted(db, doc, schema, version, rows, duplicateOf, start);
            full.schemas == db.schemas && full.versions == db.versions && full.docs == db.docs && full.clock == db.clock
  {
  }

  lemma ReplacedSound(db: Db, matched: RecId, doc: DocId, schema: SchemaId, version: VersionId, rows: seq<Data>)
    requires Sound(db) && matched in db.records && rows != []
    requires doc in db.docs && schema in db.schemas && version in db.versions
    ensures var full := Replaced(db, matched, doc, schema, version, rows);
            && Sound(full.(clock := db.clock + 1))
            && full.schemas == db.schemas && full.versions == db.versions && full.docs == db.docs
              && full.clock == db.clock
  {
    var stranded := RecordsFor(db.records, db.records[matched].doc, schema) - {matched};
    var kept := db.(records := Deleted(db.records, stranded));
    assert matched in kept.records;
    hide Sound, Deleted, Inserted, RecordsFor;
    DeletedSound(db, stranded);
    RowZeroSound(kept, matched, doc, version, rows[0]);
    var row0 := kept.records[matched].(doc := doc, version := version, rowIndex := 0, data := rows[0]);
    var moved := kept.(records := kept.records[matched := row0]);
    InsertedSound(moved, doc, schema, version, rows[1..], None, 1);
    InsertedFrame(moved, doc, schema, version, rows[1..], None, 1);
  }

  lemma SchemaDeletedSound(db: Db, schema: SchemaId)
    requires Sound(db) && SchemaDeleted(db, schema).Some?
    ensures Sound(SchemaDeleted(db, schema).value)
  {
    var after := SchemaDeleted(db, schema).value;
    forall id | id in after.records ensures SoundRecord(after, id) {
      assert SoundRecord(db, id);
      var r := db.records[id];
      if r.duplicateOf.Some? && after.records[id].duplicateOf.Some? {
        assert r.duplicateOf.value in db.records && r.duplicateOf.value !in RecordsOfSchema(db.records, schema);
      }
    }
    forall d | d in after.docs ensures SoundDocument(after, after.docs[d]) {
      assert SoundDocument(db, db.docs[d]);
    }
  }

  lemma DocumentDeletedSound(db: Db, doc: DocId)
    requires Sound(db) && DocumentDeleted(db, doc).Some?
    ensures Sound(DocumentDeleted(db, doc).value)
  {
    var after := DocumentDeleted(db, doc).value;
    forall id | id in after.records ensures SoundRecord(after, id) { assert SoundRecord(db, id); }
    forall d | d in after.docs ensures SoundDocument(after, after.docs[d]) { assert SoundDocument(db, db.docs[d]); }
  }

  lemma ApplySound(db: Db, op: Op, rounding: Rounding)
    requires Sound(db)
    ensures Sound(Apply(db, op, rounding))
  {
    match op
    case DoConfirm(c) => if Confirmed(db, c, rounding).Ok? { ConfirmedSound(db, c, rounding); }
    case DeleteRecord(s, id) =>
      if RecordDeleted(db, s, id).Some? {
        DeletedSound(db, {id});
        LaterSound(db.(records := Deleted(db.records, {id})));
      }
    case DeleteSchema(s) => if SchemaDeleted(db, s).Some? { SchemaDeletedSound(db, s); }
    case DeleteDocument(d) => if DocumentDeleted(db, d).Some? { DocumentDeletedSound(db, d); }
    case _ => AdditionSound(db, op, rounding);
  }

  lemma LaterSound(db: Db)
    requires Sound(db)
    ensures Sound(db.(clock := db.clock + 1))
  {
    var later := db.(clock := db.clock + 1);
    forall id | id in later.records ensures SoundRecord(later, id) { assert SoundRecord(db, id); }
    forall d | d in later.docs ensures SoundDocument(later, later.docs[d]) { assert SoundDocument(db, db.docs[d]); }
  }

  lemma AdditionSound(db: Db, op: Op, rounding: Rounding)
    requires Sound(db) && (op.AddDocument? || op.AddSchema? || op.AddVersion?)
    ensures Sound(Apply(db, op, rounding))
  {
    var after := Apply(db, op, rounding);
    forall id | id in after.records ensures SoundRecord(after, id) { assert SoundRecord(db, id); }
    forall d | d in after.docs ensures SoundDocument(after, after.docs[d]) {
      if d in db.docs { assert SoundDocument(db, db.docs[d]); }
    }
  }

  /** Over every run of confirms and deletes, stale matches, mismatched schemas and
      failed transactions included. */
  lemma {:induction false} EveryRunIsSound(ops: seq<Op>, rounding: Rounding)
    ensures Sound(Run(ops, rounding))
  {
    if ops != [] {
      EveryRunIsSound(ops[..|ops| - 1], rounding);
      ApplySound(Run(ops[..|ops| - 1], rounding), ops[|ops| - 1], rounding);
    }
  }

  /** The record `steps` duplicate links away. */
  function Follow(db: Db, id: RecId, steps: nat): Option<RecId>
    decreases steps
  {
    if id !in db.records then None
    else if steps == 0 then Some(id)
    else if db.records[id].duplicateOf.None? then None
    else Follow(db, db.records[id].duplicateOf.value, steps - 1)
  }

  /** Duplicate links never lead back: each step goes to an earlier transaction. */
  lemma {:induction false} LinksAreAcyclic(db: Db, id: RecId, steps: nat)
    requires Sound(db) && steps > 0 && Follow(db, id, steps).Some?
    ensures Follow(db, id, steps).value in db.records && id in db.records
    ensures db.records[Follow(db, id, steps).value].created < db.records[id].created
    ensures Follow(db, id, steps).value != id
    decreases steps
  {
    assert SoundRecord(db, id);
    if steps > 1 { LinksAreAcyclic(db, db.records[id].duplicateOf.value, steps - 1); }
  }

  /* ---- When a schema delete is refused ---- */

  /** A record of another schema that carries one of this schema's versions. */
  predicate Borrows(db: Db, id: RecId, schema: SchemaId)
    requires id in db.records
  {
    && db.records[id].schema != schema
    && db.records[id].version in db.versions && db.versions[db.records[id].version].schema == schema
  }

  /** Refused exactly when some record of another schema carries one of its versions. */
  lemma SchemaDeleteRefusedExactly(db: Db, schema: SchemaId)
    requires Sound(db)
    ensures SchemaDeleted(db, schema).None? <==>
            schema !in db.schemas
            || exists id :: id in db.records && Borrows(db, id, schema)
  {
    forall id | id in db.records ensures db.records[id].version in db.versions { assert SoundRecord(db, id); }
    var records := Deleted(db.records, RecordsOfSchema(db.records, schema));
    if id :| id in db.records && Borrows(db, id, schema) {
      assert id in records && records[id].version in VersionsOf(db.versions, schema);
    }
  }

  /** Every record's version belongs to the record's schema. */
  ghost predicate VersionsMatch(db: Db) {
    forall id :: id in db.records ==>
      db.records[id].version in db.versions && db.versions[db.records[id].version].schema == db.records[id].schema
  }

  /** The staged match names a version of the schema it names, and a record to be
      replaced is one of that schema: what extraction and the schema picker stage. */
  predicate Consistent(db: Db, op: Op) {
    op.DoConfirm? && op.c.version in db.versions ==>
      && db.versions[op.c.version].schema == op.c.schema
      && (op.c.matched.Some? && op.c.matched.value in db.records ==>
        db.records[op.c.matched.value].schema == op.c.schema)
  }

  ghost predicate ConsistentRun(ops: seq<Op>, rounding: Rounding) {
    ops == [] || (ConsistentRun(ops[..|ops| - 1], rounding)
      && Consistent(Run(ops[..|ops| - 1], rounding), ops[|ops| - 1]))
  }

  lemma ApplyKeepsVersionsMatch(db: Db, op: Op, rounding: Rounding)
    requires Sound(db) && VersionsMatch(db) && Consistent(db, op)
    ensures VersionsMatch(Apply(db, op, rounding))
  {
    var after := Apply(db, op, rounding);
    if op.DoConfirm? {
      if Confirmed(db, op.c, rounding).Ok? { ConfirmKeepsVersionsMatch(db, op.c, rounding); }
      return;
    }
    forall id | id in db.records ensures SoundRecord(db, id) {}
    forall id | id in after.records
      ensures after.records[id].version in after.versions
              && after.versions[after.records[id].version].schema == after.records[id].schema
    {
      if op.DeleteSchema? && SchemaDeleted(db, op.gone).Some? {
        assert db.records[id].schema != op.gone;
      }
    }
  }

  /** Every record of `after` has the schema and version of its predecessor, or the given ones. */
  ghost predicate OldOrBound(before: map<RecId, Rec>, after: map<RecId, Rec>, schema: SchemaId, version: VersionId) {
    forall id :: id in after ==>
      || (after[id].schema == schema && after[id].version == version)
      || (id in before && after[id].schema == before[id].schema && after[id].version == before[id].version)
  }

  lemma DeletedOrBound(records: map<RecId, Rec>, doomed: set<RecId>, schema: SchemaId, version: VersionId)
    ensures OldOrBound(records, Deleted(records, doomed), schema, version)
  {
  }

  lemma InsertedOrBound(db: Db, doc: DocId, schema: SchemaId, version: VersionId, rows: seq<Data>,
                        duplicateOf: Option<RecId>, start: nat)
    ensures OldOrBound(db.records, Inserted(db, doc, schema, version, rows, duplicateOf, start).records, schema,
              version)
  {
  }

  lemma OrBoundTwice(a: map<RecId, Rec>, b: map<RecId, Rec>, c: map<RecId, Rec>, schema: SchemaId, version: VersionId)
    requires OldOrBound(a, b, schema, version) && OldOrBound(b, c, schema, version)
    ensures OldOrBound(a, c, schema, version)
  {
  }

  lemma ReplacedOrBound(db: Db, m: RecId, doc: DocId, schema: SchemaId, version: VersionId, rows: seq<Data>)
    requires m in db.records && rows != [] && db.records[m].schema == schema
    ensures OldOrBound(db.records, Replaced(db, m, doc, schema, version, rows).records, schema, version)
  {
    var stranded := RecordsFor(db.records, db.records[m].doc, schema) - {m};
    var kept := Deleted(db.records, stranded);
    assert m in kept && kept[m].schema == schema;
    DeletedOrBound(db.records, stranded, schema, version);
    var moved := kept[m := kept[m].(doc := doc, version := version, rowIndex := 0, data := rows[0])];
    assert OldOrBound(kept, moved, schema, version);
    hide OldOrBound, Deleted, Inserted, RecordsFor;
    OrBoundTwice(db.records, kept, moved, schema, version);
    InsertedOrBound(db.(records := moved), doc, schema, version, rows[1..], None, 1);
    OrBoundTwice(db.records, moved, Inserted(db.(records := moved), doc, schema, version, rows[1..], None, 1).records,
      schema, version);
  }

  lemma ConfirmKeepsVersionsMatch(db: Db, c: Confirm, rounding: Rounding)
    requires VersionsMatch(db) && Consistent(db, DoConfirm(c)) && Confirmed(db, c, rounding).Ok?
    ensures VersionsMatch(Confirmed(db, c, rounding).value)
  {
    var after, rows := Confirmed(db, c, rounding).value, RowsOf(db, c, rounding);
    assert OldOrBound(db.records, after.records, c.schema, c.version) by {
      assert OldOrBound(db.records, db.records, c.schema, c.version);
      hide OldOrBound, Deleted, Inserted, RecordsFor, Replaced, VersionsMatch, RowsOf;
      if c.backfill {
        var cleared := db.(records := Deleted(db.records, RecordsFor(db.records, c.doc, c.schema)));
        DeletedOrBound(db.records, RecordsFor(db.records, c.doc, c.schema), c.schema, c.version);
        InsertedOrBound(cleared, c.doc, c.schema, c.version, rows, None, 0);
        OrBoundTwice(db.records, cleared.records, after.records, c.schema, c.version);
      } else if c.matched.Some? && c.decision == Replace {
        ReplacedOrBound(db, c.matched.value, c.doc, c.schema, c.version, rows);
      } else if c.matched.None? || c.decision == KeepBoth {
        InsertedOrBound(db, c.doc, c.schema, c.version, rows, c.matched, 0);
      }
    }
  }

  /** Over consistent runs no schema delete is ever refused by a foreign key. */
  lemma {:induction false} SchemaDeletesSucceed(ops: seq<Op>, rounding: Rounding, schema: SchemaId)
    requires ConsistentRun(ops, rounding)
    ensures VersionsMatch(Run(ops, rounding))
    ensures schema in Run(ops, rounding).schemas ==> SchemaDeleted(Run(ops, rounding), schema).Some?
  {
    if ops != [] {
      SchemaDeletesSucceed(ops[..|ops| - 1], rounding, schema);
      EveryRunIsSound(ops[..|ops| - 1], rounding);
      ApplyKeepsVersionsMatch(Run(ops[..|ops| - 1], rounding), ops[|ops| - 1], rounding);
    }
    EveryRunIsSound(ops, rounding);
    SchemaDeleteRefusedExactly(Run(ops, rounding), schema);
  }

  /* ---- Replacement is exact and framed ---- */

  /** The document's rows for the schema are `rows`, one record each, numbered from 0. */
  ghost predicate RowsExactly(records: map<RecId, Rec>, doc: DocId, schema: SchemaId, rows: seq<Data>) {
    exists ids: seq<RecId> :: HoldRows(records, doc, schema, rows, ids)
  }

  ghost predicate HoldRows(records: map<RecId, Rec>, doc: DocId, schema: SchemaId, rows: seq<Data>, ids: seq<RecId>) {
    && |ids| == |rows|
    && (forall i :: 0 <= i < |ids| ==>
          ids[i] in records && records[ids[i]].rowIndex == i && records[ids[i]].data == rows[i])
    && (forall id :: id in RecordsFor(records, doc, schema) <==> id in ids)
  }

  /** The rest of the table: the same rows, but for duplicate pointers that were cleared. */
  ghost predicate SameButPointers(before: map<RecId, Rec>, after: map<RecId, Rec>, touched: set<RecId>) {
    forall id :: id in before && id !in touched ==>
      id in after && (after[id] == before[id] || after[id] == before[id].(duplicateOf := None))
  }

  ghost predicate IdsBelow(records: map<RecId, Rec>, bound: RecId) {
    forall id :: id in records ==> id < bound
  }

  lemma DeleteRows(records: map<RecId, Rec>, doomed: set<RecId>)
    ensures forall doc, schema :: RecordsFor(Deleted(records, doomed), doc, schema)
              == RecordsFor(records, doc, schema) - doomed
    ensures SameButPointers(records, Deleted(records, doomed), doomed)
    ensures Deleted(records, doomed).Keys == records.Keys - doomed
  {
  }

  /** The id of the k-th record inserted. */
  function NewId(first: RecId, k: nat): RecId { first + k }

  /** Records `rows` under the fresh ids from `first` on. */
  ghost predicate NewRows(after: map<RecId, Rec>, first: RecId, doc: DocId, schema: SchemaId, version: VersionId,
                          rows: seq<Data>, duplicateOf: Option<RecId>, start: nat, clock: nat)
  {
    forall k :: 0 <= k < |rows| ==>
      NewId(first, k) in after && after[NewId(first, k)]
        == Rec(doc, schema, version, start + k, rows[k], duplicateOf, clock)
  }

  ghost predicate Extends(before: map<RecId, Rec>, after: map<RecId, Rec>) {
    forall id :: id in before ==> id in after && after[id] == before[id]
  }

  lemma InsertRows(db: Db, doc: DocId, schema: SchemaId, version: VersionId, rows: seq<Data>,
                   duplicateOf: Option<RecId>, start: nat)
    requires IdsBelow(db.records, db.nextId)
    ensures var after := Inserted(db, doc, schema, version, rows, duplicateOf, start).records;
            && Extends(db.records, after)
            && NewRows(after, db.nextId, doc, schema, version, rows, duplicateOf, start, db.clock)
            && after.Keys == db.records.Keys + FreshIds(db.nextId, |rows|)
  {
    var after := Inserted(db, doc, schema, version, rows, duplicateOf, start).records;
    assert Extends(db.records, after);
    forall k | 0 <= k < |rows|
      ensures NewId(db.nextId, k) in after
      ensures after[NewId(db.nextId, k)] == Rec(doc, schema, version, start + k, rows[k], duplicateOf, db.clock)
    {
      assert NewId(db.nextId, k) in FreshIds(db.nextId, |rows|);
    }
  }

  lemma StillSame(before: map<RecId, Rec>, middle: map<RecId, Rec>, after: map<RecId, Rec>, touched: set<RecId>)
    requires SameButPointers(before, middle, touched) && Extends(middle, after)
    ensures SameButPointers(before, after, touched)
  {
  }

  lemma InsertedRowSets(db: Db, doc: DocId, schema: SchemaId, version: VersionId, rows: seq<Data>, start: nat,
                        d: DocId, s: SchemaId)
    requires IdsBelow(db.records, db.nextId)
    ensures RecordsFor(Inserted(db, doc, schema, version, rows, None, start).records, d, s)
         == RecordsFor(db.records, d, s) + if d == doc && s == schema then FreshIds(db.nextId, |rows|) else {}
  {
  }

  lemma BelowFresh(db: Db)
    requires Sound(db)
    ensures IdsBelow(db.records, db.nextId)
  {
    forall id | id in db.records ensures id < db.nextId { assert SoundRecord(db, id); }
  }

  function BackfillRecords(db: Db, doc: DocId, schema: SchemaId, version: VersionId, rows: seq<Data>): map<RecId, Rec> {
    Inserted(db.(records := Deleted(db.records, RecordsFor(db.records, doc, schema))), doc, schema, version, rows,
      None, 0).records
  }

  function FreshSeq(first: RecId, n: nat): (ids: seq<RecId>)
    ensures |ids| == n && forall k :: 0 <= k < n ==> ids[k] == NewId(first, k)
    ensures forall id :: id in ids <==> id in FreshIds(first, n)
  {
    if n == 0 then [] else FreshSeq(first, n - 1) + [NewId(first, n - 1)]
  }

  lemma BackfillRows(db: Db, doc: DocId, schema: SchemaId, version: VersionId, rows: seq<Data>)
    requires IdsBelow(db.records, db.nextId)
    ensures var after := BackfillRecords(db, doc, schema, version, rows);
            && RowsExactly(after, doc, schema, rows)
            && SameButPointers(db.records, after, RecordsFor(db.records, doc, schema))
            && after.Keys == db.records.Keys - RecordsFor(db.records, doc, schema) + FreshIds(db.nextId, |rows|)
  {
    var doomed := RecordsFor(db.records, doc, schema);
    var cleared := db.(records := Deleted(db.records, doomed));
    var after := BackfillRecords(db, doc, schema, version, rows);
    DeleteRows(db.records, doomed);
    assert IdsBelow(cleared.records, db.nextId);
    assert RecordsFor(cleared.records, doc, schema) == {};
    hide Deleted, Inserted, RecordsFor, SameButPointers, Extends, IdsBelow, NewRows, RowsExactly;
    InsertRows(cleared, doc, schema, version, rows, None, 0);
    InsertedRowSets(cleared, doc, schema, version, rows, 0, doc, schema);
    StillSame(db.records, cleared.records, after, doomed);
    NewRowsAreExact(after, doc, schema, version, rows, db.nextId, db.clock);
  }

  lemma NewRowsAreExact(after: map<RecId, Rec>, doc: DocId, schema: SchemaId, version: VersionId, rows: seq<Data>,
                        first: RecId, clock: nat)
    requires NewRows(after, first, doc, schema, version, rows, None, 0, clock)
    requires RecordsFor(after, doc, schema) == FreshIds(first, |rows|)
    ensures RowsExactly(after, doc, schema, rows)
  {
    var ids := FreshSeq(first, |rows|);
    assert forall k :: 0 <= k < |rows| ==> ids[k] == NewId(first, k);
    hide FreshSeq, FreshIds, RecordsFor;
    assert HoldRows(after, doc, schema, rows, ids);
  }

  /** After a backfill the document's rows for the schema are exactly the coerced
      staged objects, whatever it had before, and there is at least one. */
  lemma BackfillIsExact(db: Db, c: Confirm, rounding: Rounding)
    requires Sound(db) && c.backfill && Confirmed(db, c, rounding).Ok?
    ensures var after, rows := Confirmed(db, c, rounding).value.records, RowsOf(db, c, rounding);
            && |rows| >= 1
            && RowsExactly(after, c.doc, c.schema, rows)
            && SameButPointers(db.records, after, RecordsFor(db.records, c.doc, c.schema))
            && after.Keys == db.records.Keys - RecordsFor(db.records, c.doc, c.schema) + FreshIds(db.nextId, |rows|)
  {
    hide Sound, RowsExactly, SameButPointers, RecordsFor, Deleted, Inserted, FreshIds, Materialize;
    BelowFresh(db);
    BackfillRows(db, c.doc, c.schema, c.version, RowsOf(db, c, rounding));
  }

  predicate Replaces(db: Db, c: Confirm) {
    !c.backfill && c.decision == Replace && c.matched.Some? && c.matched.value in db.records
    && db.records[c.matched.value].schema == c.schema
  }

  /** What the replace leaves where the matched record was, under the new document. */
  ghost predicate Moved(before: Rec, after: Rec, doc: DocId, schema: SchemaId, version: VersionId, data: Data) {
    && after.doc == doc && after.schema == schema && after.version == version && after.rowIndex == 0
      && after.data == data
    && after.created == before.created && (after.duplicateOf == before.duplicateOf || after.duplicateOf == None)
  }

  /** Without a match, or keeping both: nothing that was there changes, and every new
      row carries the same link to the matched record. Skipping adds nothing. */
  lemma PlainConfirmEffect(db: Db, c: Confirm, rounding: Rounding)
    requires Sound(db) && !c.backfill && Confirmed(db, c, rounding).Ok?
    requires c.matched.Some? ==> c.decision != Replace
    ensures var after, rows := Confirmed(db, c, rounding).value, RowsOf(db, c, rounding);
            if c.matched.Some? && c.decision == Skip then after.records == db.records
            else
              && |rows| >= 1 && Extends(db.records, after.records)
              && NewRows(after.records, db.nextId, c.doc, c.schema, c.version, rows, c.matched, 0, db.clock)
              && after.records.Keys == db.records.Keys + FreshIds(db.nextId, |rows|)
  {
    BelowFresh(db);
    var rows := RowsOf(db, c, rounding);
    hide Inserted, Sound, Extends, NewRows, FreshIds, RowsOf;
    InsertRows(db, c.doc, c.schema, c.version, rows, c.matched, 0);
  }

  /** The records of a replace before the remaining rows are inserted. */
  function MovedRecords(records: map<RecId, Rec>, m: RecId, doc: DocId, schema: SchemaId, version: VersionId,
                        data: Data): map<RecId, Rec>
    requires m in records
  {
    var kept := Deleted(records, RecordsFor(records, records[m].doc, schema) - {m});
    kept[m := kept[m].(doc := doc, version := version, rowIndex := 0, data := data)]
  }

  lemma MoveRow(records: map<RecId, Rec>, m: RecId, doc: DocId, schema: SchemaId, version: VersionId, data: Data)
    requires m in records && records[m].schema == schema
    ensures var moved, from := MovedRecords(records, m, doc, schema, version, data), records[m].doc;
            && Moved(records[m], moved[m], doc, schema, version, data)
            && moved.Keys == records.Keys - (RecordsFor(records, from, schema) - {m})
            && SameButPointers(records, moved, RecordsFor(records, from, schema))
            && (from != doc ==> RecordsFor(moved, from, schema) == {})
            && RecordsFor(moved, doc, schema) == (if doc == from then {} else RecordsFor(records, doc, schema)) + {m}
  {
    var from := records[m].doc;
    var stranded := RecordsFor(records, from, schema) - {m};
    var kept := Deleted(records, stranded);
    var moved := MovedRecords(records, m, doc, schema, version, data);
    assert m in RecordsFor(records, from, schema);
    DeleteRows(records, stranded);
    StrandedDisjoint(records, m, from, doc, schema);
    MovedRowSets(kept, m, moved[m], from, doc, schema);
    assert forall id :: id in kept && id != m ==> moved[id] == kept[id];
  }

  /** A replace always leaves these: the matched id holds row 0 of the new document,
      rows 1.. follow under fresh ids, the matched document keeps no row of the schema
      unless it is the document itself, and nothing else changes but pointers. */
  lemma ReplaceEffect(db: Db, c: Confirm, rounding: Rounding)
    requires Sound(db) && Replaces(db, c) && Confirmed(db, c, rounding).Ok?
    ensures var after, rows := Confirmed(db, c, rounding).value.records, RowsOf(db, c, rounding);
            var m := c.matched.value; var from := db.records[m].doc;
            && |rows| >= 1 && m in after && Moved(db.records[m], after[m], c.doc, c.schema, c.version, rows[0])
            && NewRows(after, db.nextId, c.doc, c.schema, c.version, rows[1..], None, 1, db.clock)
            && (from != c.doc ==> RecordsFor(after, from, c.schema) == {})
            && RecordsFor(after, c.doc, c.schema)
               == (if c.doc == from then {} else RecordsFor(db.records, c.doc, c.schema)) + {m}
                 + FreshIds(db.nextId, |rows| - 1)
            && SameButPointers(db.records, after, RecordsFor(db.records, from, c.schema))
            && after.Keys == db.records.Keys - (RecordsFor(db.records, from, c.schema) - {m})
              + FreshIds(db.nextId, |rows| - 1)
  {
    var rows, m := RowsOf(db, c, rounding), c.matched.value;
    BelowFresh(db);
    var moved := db.(records := MovedRecords(db.records, m, c.doc, c.schema, c.version, rows[0]));
    MoveRow(db.records, m, c.doc, c.schema, c.version, rows[0]);
    assert IdsBelow(moved.records, db.nextId);
    var after := Inserted(moved, c.doc, c.schema, c.version, rows[1..], None, 1).records;
    assert Confirmed(db, c, rounding).value.records == after;
    hide Deleted, Inserted, RecordsFor, SameButPointers, IdsBelow, NewRows, MovedRecords, Confirmed, RowsOf, Sound;
    InsertRows(moved, c.doc, c.schema, c.version, rows[1..], None, 1);
    InsertedRowSets(moved, c.doc, c.schema, c.version, rows[1..], 1, c.doc, c.schema);
    InsertedRowSets(moved, c.doc, c.schema, c.version, rows[1..], 1, db.records[m].doc, c.schema);
    assert after[m] == moved.records[m];
    hide Extends;
    StillSame(db.records, moved.records, after, RecordsFor(db.records, db.records[m].doc, c.schema));
  }

  lemma MovedRowSets(kept: map<RecId, Rec>, m: RecId, row0: Rec, from: DocId, doc: DocId, schema: SchemaId)
    requires m in kept && kept[m].doc == from && kept[m].schema == schema && row0.doc == doc && row0.schema == schema
    ensures RecordsFor(kept[m := row0], doc, schema) == RecordsFor(kept, doc, schema) + {m}
    ensures from != doc ==> RecordsFor(kept[m := row0], from, schema) == RecordsFor(kept, from, schema) - {m}
  {
  }

  lemma StrandedDisjoint(records: map<RecId, Rec>, m: RecId, from: DocId, doc: DocId, schema: SchemaId)
    ensures var rows := RecordsFor(records, doc, schema);
            doc != from ==> rows - (RecordsFor(records, from, schema) - {m}) == rows
  {
  }

  /** In an exact set the row number determines the record. */
  lemma RowNumbersAreKeys(after: map<RecId, Rec>, doc: DocId, schema: SchemaId, rows: seq<Data>, a: RecId, b: RecId)
    requires RowsExactly(after, doc, schema, rows)
    requires a in RecordsFor(after, doc, schema)
    ensures a in after && after[a].rowIndex < |rows|
    ensures b in RecordsFor(after, doc, schema) && b in after && after[a].rowIndex == after[b].rowIndex ==> a == b
  {
    var ids: seq<RecId> :| HoldRows(after, doc, schema, rows, ids);
    var k :| 0 <= k < |ids| && ids[k] == a;
    if b in RecordsFor(after, doc, schema) {
      var j :| 0 <= j < |ids| && ids[j] == b;
    }
  }

  lemma OtherDocuments(records: map<RecId, Rec>, m: RecId, doc: DocId, schema: SchemaId)
    requires m in records && records[m].doc != doc
    ensures m !in RecordsFor(records, doc, schema) && RecordsFor(records, doc, schema) <= records.Keys
  {
  }

  /** An earlier row of the document that stays behind keeps the set from being exact. */
  lemma OldRowStays(after: map<RecId, Rec>, doc: DocId, schema: SchemaId, version: VersionId, rows: seq<Data>,
                    first: RecId, q: RecId, m: RecId, clock: nat)
    requires q in RecordsFor(after, doc, schema) && q < first && q != m && rows != []
    requires m in RecordsFor(after, doc, schema) && after[m].rowIndex == 0
    requires NewRows(after, first, doc, schema, version, rows[1..], None, 1, clock)
    ensures !RowsExactly(after, doc, schema, rows)
  {
    var k := after[q].rowIndex;
    var other := if k == 0 then m else NewId(first, k - 1);
    assert other != q;
    assert k < |rows| ==> other in after && after[other].rowIndex == k && other in RecordsFor(after, doc, schema);
    if RowsExactly(after, doc, schema, rows) {
      hide NewRows, RowsExactly;
      RowNumbersAreKeys(after, doc, schema, rows, q, other);
    }
  }

  lemma ReplacedIsExact(after: map<RecId, Rec>, doc: DocId, schema: SchemaId, version: VersionId, rows: seq<Data>,
                        first: RecId, m: RecId, clock: nat)
    requires rows != [] && m in after && after[m].rowIndex == 0 && after[m].data == rows[0]
    requires NewRows(after, first, doc, schema, version, rows[1..], None, 1, clock)
    requires RecordsFor(after, doc, schema) == {m} + FreshIds(first, |rows| - 1)
    ensures RowsExactly(after, doc, schema, rows)
  {
    var others := FreshSeq(first, |rows| - 1);
    assert forall k :: 0 <= k < |rows| - 1 ==> others[k] == NewId(first, k);
    hide FreshSeq, FreshIds, RecordsFor;
    var ids := [m] + others;
    forall i | 0 <= i < |ids| ensures ids[i] in after && after[ids[i]].rowIndex == i && after[ids[i]].data == rows[i] {
      if i > 0 { assert ids[i] == NewId(first, i - 1) && rows[1..][i - 1] == rows[i]; }
    }
    assert forall id :: id in ids <==> id == m || id in others;
    assert HoldRows(after, doc, schema, rows, ids);
  }

  /** And the document's rows are then exactly the new ones if and only if it is the
      matched document itself or had no row of the schema before. */
  lemma ReplaceIsExactIff(db: Db, c: Confirm, rounding: Rounding)
    requires Sound(db) && Replaces(db, c) && Confirmed(db, c, rounding).Ok?
    ensures RowsExactly(Confirmed(db, c, rounding).value.records, c.doc, c.schema, RowsOf(db, c, rounding))
       <==> c.doc == db.records[c.matched.value].doc || RecordsFor(db.records, c.doc, c.schema) == {}
  {
    var after, rows := Confirmed(db, c, rounding).value.records, RowsOf(db, c, rounding);
    var m := c.matched.value;
    var from := db.records[m].doc;
    BelowFresh(db);
    if c.doc != from { OtherDocuments(db.records, m, c.doc, c.schema); }
    ReplaceEffect(db, c, rounding);
    hide Confirmed, RowsOf, Sound, RecordsFor, SameButPointers, Replaces, NewRows, RowsExactly, FreshIds;
    if c.doc == from || RecordsFor(db.records, c.doc, c.schema) == {} {
      ReplacedIsExact(after, c.doc, c.schema, c.version, rows, db.nextId, m, db.clock);
    } else {
      var q :| q in RecordsFor(db.records, c.doc, c.schema);
      OldRowStays(after, c.doc, c.schema, c.version, rows, db.nextId, q, m, db.clock);
    }
  }

  /** A value edited on the review screen is coerced like an extracted one: a grouped
      number in a numeric field is stored plain, and a field the version does not
      declare keeps its value. No cell is added or lost. */
  lemma EditedCellsAreCoerced(fields: seq<Field>, staged: seq<Data>, rounding: Rounding, i: nat, name: string)
    requires i < |staged|
    ensures var rows := Materialize(fields, staged, rounding);
            && rows[i].Keys == staged[i].Keys
            && (name in staged[i] && (forall f :: f in fields ==> f.name != name) ==> rows[i][name] == staged[i][name])
    ensures forall n: nat, fraction: Option<string> ::
              && name in staged[i] && staged[i][name] == Coerce.Str(Coerce.Printed("", n, fraction))
              && Coerce.FractionFine(fraction) && Coerce.TypeOf(fields, name) == "number" ==>
                Materialize(fields, staged, rounding)[i][name] == Coerce.Str(Coerce.PrintedPlain("", n, fraction))
  {
    if forall f :: f in fields ==> f.name != name { Undeclared(fields, name); }
    hide Coerce.Printed, Coerce.PrintedPlain, Coerce.TypeOf, Coerce.FractionFine;
    forall n: nat, fraction: Option<string> | && name in staged[i]
      && staged[i][name] == Coerce.Str(Coerce.Printed("", n, fraction))
      && Coerce.FractionFine(fraction) && Coerce.TypeOf(fields, name) == "number"
      ensures Materialize(fields, staged, rounding)[i][name] == Coerce.Str(Coerce.PrintedPlain("", n, fraction))
    {
      Coerce.UnsignedGrouping(n, fraction, rounding);
    }
  }

  lemma {:induction false} Undeclared(fields: seq<Field>, name: string)
    requires forall f :: f in fields ==> f.name != name
    ensures Coerce.TypeOf(fields, name) == "string"
  {
    if fields != [] {
      assert fields[|fields| - 1] in fields;
      Undeclared(fields[..|fields| - 1], name);
    }
  }

  /* ---- What deletes and confirms leave ---- */

  /** The row as it was, with its duplicate pointer cleared if it led into these rows. */
  predicate KeptRow(before: Rec, after: Rec, gone: set<RecId>) {
    && after.doc == before.doc && after.schema == before.schema && after.version == before.version
    && after.rowIndex == before.rowIndex && after.data == before.data && after.created == before.created
    && after.duplicateOf == if before.duplicateOf.Some? && before.duplicateOf.value in gone then None
      else before.duplicateOf
  }

  lemma DeletedExactly(records: map<RecId, Rec>, doomed: set<RecId>)
    ensures Deleted(records, doomed).Keys == records.Keys - doomed
    ensures forall id :: id in records && id !in doomed ==> KeptRow(records[id], Deleted(records, doomed)[id], doomed)
    ensures SameButPointers(records, Deleted(records, doomed), doomed)
  {
  }

  /** A document unbound from the schema and its versions; any other stays as it was. */
  predicate KeptDocument(before: Document, after: Document, schema: SchemaId, gone: set<VersionId>) {
    && (before.schema == Some(schema) ==> after == Document(None, None))
    && (before.schema != Some(schema) ==> after.schema == before.schema)
    && (before.schema != Some(schema) && before.version.Some? && before.version.value in gone ==> after.version == None)
    && (before.schema != Some(schema) && !(before.version.Some? && before.version.value in gone) ==> after == before)
  }

  /** A schema delete that succeeds removes the schema's own rows and versions and
      nothing else: other rows lose at most a pointer into those rows, and other
      documents lose at most a version of the schema. */
  lemma SchemaDeleteLeaves(db: Db, schema: SchemaId)
    requires SchemaDeleted(db, schema).Some?
    ensures var d := SchemaDeleted(db, schema).value;
            var rows := set id | id in db.records && db.records[id].schema == schema;
            var versions := set v | v in db.versions && db.versions[v].schema == schema;
            && d.records.Keys == db.records.Keys - rows
            && (forall id :: id in d.records ==> KeptRow(db.records[id], d.records[id], rows))
            && SameButPointers(db.records, d.records, rows)
            && d.schemas == db.schemas - {schema} && schema in db.schemas
            && d.versions.Keys == db.versions.Keys - versions
            && (forall v :: v in d.versions ==> d.versions[v] == db.versions[v])
            && d.docs.Keys == db.docs.Keys
            && (forall doc :: doc in db.docs ==> KeptDocument(db.docs[doc], d.docs[doc], schema, versions))
            && d.nextId == db.nextId
  {
    var rows := set id | id in db.records && db.records[id].schema == schema;
    assert rows == RecordsOfSchema(db.records, schema);
    DeletedExactly(db.records, rows);
    var versions := set v | v in db.versions && db.versions[v].schema == schema;
    assert versions == VersionsOf(db.versions, schema);
    hide Deleted, SameButPointers, Uses, KeptRow;
  }

  /** A record delete removes that row, of that schema, and nothing else. */
  lemma RecordDeleteLeaves(db: Db, schema: SchemaId, id: RecId)
    ensures RecordDeleted(db, schema, id).Some? <==> id in db.records && db.records[id].schema == schema
    ensures RecordDeleted(db, schema, id).Some? ==>
              var d := RecordDeleted(db, schema, id).value;
              && d.records.Keys == db.records.Keys - {id}
              && (forall other :: other in d.records ==> KeptRow(db.records[other], d.records[other], {id}))
              && d.docs == db.docs && d.schemas == db.schemas && d.versions == db.versions && d.nextId == db.nextId
  {
    DeletedExactly(db.records, {id});
  }

  /** A document delete is refused exactly for an unknown document or while a row of
      another document points at one of its rows; else its rows go, and nothing else. */
  lemma DocumentDeleteLeaves(db: Db, doc: DocId)
    ensures DocumentDeleted(db, doc).Some? <==>
            doc in db.docs && forall id :: id in db.records && db.records[id].doc != doc ==> !PointsAt(db, id, doc)
    ensures DocumentDeleted(db, doc).Some? ==>
              var d := DocumentDeleted(db, doc).value;
              && d.docs == db.docs - {doc} && d.schemas == db.schemas && d.versions == db.versions
              && d.records.Keys == (set id | id in db.records && db.records[id].doc != doc)
              && (forall id :: id in d.records ==> d.records[id] == db.records[id]) && d.nextId == db.nextId
  {
    var doomed := set id | id in db.records && db.records[id].doc == doc;
    assert forall id :: id in db.records ==> (id in doomed <==> db.records[id].doc == doc);
    assert forall id :: id in db.records ==> (PointsInto(db.records[id], doomed) <==> PointsAt(db, id, doc));
  }

  /** The row's duplicate pointer leads to a row of this document. */
  predicate PointsAt(db: Db, id: RecId, doc: DocId)
    requires id in db.records
  {
    var to := db.records[id].duplicateOf;
    to.Some? && to.value in db.records && db.records[to.value].doc == doc
  }

  /** A confirm is refused exactly when its schema or version does not exist, its
      document does not, or it keeps or replaces a matched record that is gone. */
  lemma ConfirmRefusedExactly(db: Db, c: Confirm, rounding: Rounding)
    ensures Confirmed(db, c, rounding) == Err(UnknownSchema) <==> c.schema !in db.schemas || c.version !in db.versions
    ensures Confirmed(db, c, rounding) == Err(MatchGone) <==>
            && c.schema in db.schemas && c.version in db.versions && c.doc in db.docs
            && !c.backfill && c.decision == Replace && c.matched.Some? && c.matched.value !in db.records
    ensures Confirmed(db, c, rounding).Ok? <==>
            && c.schema in db.schemas && c.version in db.versions && c.doc in db.docs
            && (!c.backfill && c.matched.Some? && c.decision != Skip ==> c.matched.value in db.records)
  {
    hide Inserted, Deleted, Replaced, Materialize;
  }

  /** A confirm that succeeds binds its document to the schema and the version, whatever
      the decision and also for a backfill, and touches no other document, schema or
      version; the rows it stores anew carry that version. */
  lemma ConfirmBinds(db: Db, c: Confirm, rounding: Rounding)
    requires Sound(db) && Confirmed(db, c, rounding).Ok?
    ensures var d := Confirmed(db, c, rounding).value;
            && d.docs.Keys == db.docs.Keys && d.docs[c.doc] == Document(Some(c.schema), Some(c.version))
            && (forall doc :: doc in db.docs && doc != c.doc ==> d.docs[doc] == db.docs[doc])
            && d.schemas == db.schemas && d.versions == db.versions && d.nextId >= db.nextId
            && (forall id :: id in d.records && id !in db.records ==>
                  d.records[id].doc == c.doc && d.records[id].schema == c.schema && d.records[id].version == c.version)
  {
    hide Materialize, SoundRecord, SoundDocument;
  }

  /* ---- Both failing families are reached from the empty database ---- */

  /** Two documents and two schemas with a version each. */
  const SETUP: seq<Op> := [AddDocument(0), AddDocument(1), AddSchema(0), AddSchema(1), AddVersion(0, 0, []),
    AddVersion(1, 1, [])]

  /** The state after the set-up and confirms that left these records and bindings. */
  function Populated(records: map<RecId, Rec>, docs: map<DocId, Document>, nextId: RecId, clock: nat): Db {
    Db(records, {0, 1}, map[0 := SchemaVersion(0, []), 1 := SchemaVersion(1, [])], docs, nextId, clock)
  }

  lemma RunOneMore(ops: seq<Op>, op: Op, rounding: Rounding)
    ensures Run(ops + [op], rounding) == Apply(Run(ops, rounding), op, rounding)
  {
    assert (ops + [op])[..|ops|] == ops;
  }

  lemma SetUpState(rounding: Rounding)
    ensures Run(SETUP, rounding) == Populated(map[], map[0 := Document(None, None), 1 := Document(None, None)], 0, 0)
  {
    assert [] + [AddDocument(0)] == [AddDocument(0)];
    RunOneMore([], SETUP[0], rounding);
    RunOneMore(SETUP[..1], SETUP[1], rounding);
    RunOneMore(SETUP[..2], SETUP[2], rounding);
    RunOneMore(SETUP[..3], SETUP[3], rounding);
    RunOneMore(SETUP[..4], SETUP[4], rounding);
    RunOneMore(SETUP[..5], SETUP[5], rounding);
    assert SETUP[..1] == [] + [SETUP[0]] && SETUP[..2] == SETUP[..1] + [SETUP[1]];
    assert SETUP[..3] == SETUP[..2] + [SETUP[2]] && SETUP[..4] == SETUP[..3] + [SETUP[3]];
    assert SETUP[..5] == SETUP[..4] + [SETUP[4]] && SETUP == SETUP[..5] + [SETUP[5]];
    hide Run;
    assert Run(SETUP[..4], rounding).schemas == {0, 1};
  }

  /** A confirm without a match and with nothing staged adds one blank row. */
  lemma FirstConfirm(db: Db, doc: DocId, schema: SchemaId, version: VersionId, rounding: Rounding)
    requires doc in db.docs && schema in db.schemas && version in db.versions
    ensures var blank := Rec(doc, schema, version, 0, map[], None, db.clock);
            Apply(db, DoConfirm(Confirm(doc, schema, version, false, [], None, Skip)), rounding)
            == db.(records := db.records[db.nextId := blank], nextId := db.nextId + 1,
                   docs := db.docs[doc := Document(Some(schema), Some(version))], clock := db.clock + 1)
  {
    assert FreshIds(db.nextId, 1) == {db.nextId};
    var c := Confirm(doc, schema, version, false, [], None, Skip);
    assert RowsOf(db, c, rounding) == [map[]];
    assert Inserted(db, doc, schema, version, [map[]], None, 0).records
        == db.records[db.nextId := Rec(doc, schema, version, 0, map[], None, db.clock)];
  }

  /** A schema delete is refused after a replace across schemas: the review screen may
      change the schema of a draft and leave its match as it was. */
  lemma RefusedDeleteRun(rounding: Rounding)
    ensures var replace := Confirm(1, 1, 1, false, [], Some(0), Replace);
            var ops := SETUP + [DoConfirm(Confirm(0, 0, 0, false, [], None, Skip))] + [DoConfirm(replace)];
            1 in Run(ops, rounding).schemas && SchemaDeleted(Run(ops, rounding), 1).None?
  {
    var first, replace := Confirm(0, 0, 0, false, [], None, Skip), Confirm(1, 1, 1, false, [], Some(0), Replace);
    var ops := SETUP + [DoConfirm(first)];
    SetUpState(rounding);
    RunOneMore(SETUP, DoConfirm(first), rounding);
    FirstConfirm(Run(SETUP, rounding), 0, 0, 0, rounding);
    RunOneMore(ops, DoConfirm(replace), rounding);
    EveryRunIsSound(ops + [DoConfirm(replace)], rounding);
    var db := Run(ops, rounding);
    hide Run, Sound;
    assert db.records == map[0 := Rec(0, 0, 0, 0, map[], None, 0)];
    ReplacedVersion(db, replace, rounding);
    SchemaDeleteRefusedExactly(Apply(db, DoConfirm(replace), rounding), 1);
  }

  lemma ReplacedVersion(db: Db, c: Confirm, rounding: Rounding)
    requires c.schema in db.schemas && c.version in db.versions && c.doc in db.docs && !c.backfill
    requires c.matched.Some? && c.decision == Replace && c.matched.value in db.records
             && IdsBelow(db.records, db.nextId)
    ensures var after := Apply(db, DoConfirm(c), rounding);
            && after.schemas == db.schemas && after.versions == db.versions && c.matched.value in after.records
            && after.records[c.matched.value].schema == db.records[c.matched.value].schema
            && after.records[c.matched.value].version == c.version
  {
  }

  /** A replace leaves an earlier row of the target document in place. */
  lemma InexactReplaceRun(rounding: Rounding)
    ensures var ops := SETUP + [DoConfirm(Confirm(0, 0, 0, false, [], None, Skip))]
                             + [DoConfirm(Confirm(1, 0, 0, false, [], None, Skip))];
            var db, replace := Run(ops, rounding), Confirm(1, 0, 0, false, [], Some(0), Replace);
            && Replaces(db, replace) && Confirmed(db, replace, rounding).Ok?
            && !RowsExactly(Confirmed(db, replace, rounding).value.records, 1, 0, RowsOf(db, replace, rounding))
  {
    var first, second := Confirm(0, 0, 0, false, [], None, Skip), Confirm(1, 0, 0, false, [], None, Skip);
    var replace := Confirm(1, 0, 0, false, [], Some(0), Replace);
    var ops := SETUP + [DoConfirm(first)];
    SetUpState(rounding);
    RunOneMore(SETUP, DoConfirm(first), rounding);
    FirstConfirm(Run(SETUP, rounding), 0, 0, 0, rounding);
    RunOneMore(ops, DoConfirm(second), rounding);
    FirstConfirm(Run(ops, rounding), 1, 0, 0, rounding);
    EveryRunIsSound(ops + [DoConfirm(second)], rounding);
    var db := Run(ops + [DoConfirm(second)], rounding);
    hide Run, Apply, Sound, Replaced, Materialize, RowsExactly;
    assert db.records[0].doc == 0 && db.records[0].schema == 0 && 1 in RecordsFor(db.records, 1, 0);
    ReplaceIsExactIff(db, replace, rounding);
  }

  /* ---- The tables, updated in place ---- */

  class RecordStore {
    var records: map<RecId, Rec>
    var schemas: set<SchemaId>
    var versions: map<VersionId, SchemaVersion>
    var docs: map<DocId, Document>
    var nextId: RecId
    var clock: nat
    const rounding: Rounding

    ghost function State(): Db reads this { Db(records, schemas, versions, docs, nextId, clock) }

    constructor (rounding: Rounding)
      ensures State() == Run([], rounding) && this.rounding == rounding
    {
      this.rounding := rounding;
      records, schemas, versions, docs, nextId, clock := map[], {}, map[], map[], 0, 0;
    }

    method DeleteRecords(doomed: set<RecId>)
      requires doomed <= records.Keys
      modifies this`records
      ensures records == Deleted(old(records), doomed)
    {
      records := map id | id in records :: if id in doomed then records[id] else Unlinked(records[id], doomed);
      var left := doomed;
      while left != {}
        invariant left <= doomed
        invariant records == map id | id in old(records) && (id in left || id !in doomed)
                               :: if id in doomed then old(records)[id] else Unlinked(old(records)[id], doomed)
        decreases left
      {
        var id :| id in left;
        records := records - {id};
        left := left - {id};
      }
    }

    method InsertRecords(doc: DocId, schema: SchemaId, version: VersionId, rows: seq<Data>,
                         duplicateOf: Option<RecId>, start: nat)
      requires IdsBelow(records, nextId)
      modifies this`records, this`nextId
      ensures State() == Inserted(old(State()), doc, schema, version, rows, duplicateOf, start)
    {
      ghost var before := State();
      assert before.records + map[] == before.records && rows[..0] == [];
      assert Inserted(before, doc, schema, version, rows[..0], duplicateOf, start) == before;
      hide Inserted, IdsBelow;
      for offset := 0 to |rows|
        invariant State() == Inserted(before, doc, schema, version, rows[..offset], duplicateOf, start)
      {
        InsertedStep(before, doc, schema, version, rows, duplicateOf, start, offset);
        records := records[nextId := Rec(doc, schema, version, start + offset, rows[offset], duplicateOf, clock)];
        nextId := nextId + 1;
      }
      assert rows[..|rows|] == rows;
    }

    method ApplyBackfill(doc: DocId, schema: SchemaId, version: VersionId, rows: seq<Data>)
      requires IdsBelow(records, nextId)
      modifies this`records, this`nextId
      ensures State() == Inserted(old(State()).(records :=
                Deleted(old(records), RecordsFor(old(records), doc, schema))),
                                  doc, schema, version, rows, None, 0)
    {
      DeleteRecords(RecordsFor(records, doc, schema));
      InsertRecords(doc, schema, version, rows, None, 0);
    }

    method ApplyReplace(matched: RecId, doc: DocId, schema: SchemaId, version: VersionId, rows: seq<Data>)
      requires IdsBelow(records, nextId) && matched in records && rows != []
      modifies this`records, this`nextId
      ensures State() == Replaced(old(State()), matched, doc, schema, version, rows)
    {
      var stranded := RecordsFor(records, records[matched].doc, schema) - {matched};
      DeleteRecords(stranded);
      records := records[matched := records[matched].(doc := doc, version := version, rowIndex := 0, data := rows[0])];
      InsertRecords(doc, schema, version, rows[1..], None, 1);
    }

    /** One confirm; an error leaves everything as it was. */
    method ConfirmJob(c: Confirm) returns (r: Result<(), ConfirmError>)
      requires Sound(State())
      modifies this
      ensures r.Ok? ==> Confirmed(old(State()), c, rounding) == Ok(State())
      ensures r.Err? ==> Confirmed(old(State()), c, rounding) == Err(r.error) && State() == old(State())
      ensures Sound(State())
    {
      BelowFresh(State());
      if Confirmed(State(), c, rounding).Ok? { ConfirmedSound(State(), c, rounding); }
      hide Sound, Inserted, Deleted, RecordsFor, Replaced, Materialize, IdsBelow;
      if c.schema !in schemas || c.version !in versions { return Err(UnknownSchema); }
      if c.doc !in docs { return Err(BrokenReference); }
      var rows := Materialize(versions[c.version].fields, c.staged, rounding);
      if c.backfill {
        ApplyBackfill(c.doc, c.schema, c.version, rows);
      } else if c.matched.None? {
        InsertRecords(c.doc, c.schema, c.version, rows, None, 0);
      } else {
        match c.decision
        case Skip =>
        case KeepBoth =>
          if c.matched.value !in records { return Err(BrokenReference); }
          InsertRecords(c.doc, c.schema, c.version, rows, c.matched, 0);
        case Replace =>
          if c.matched.value !in records { return Err(MatchGone); }
          ApplyReplace(c.matched.value, c.doc, c.schema, c.version, rows);
      }
      docs := docs[c.doc := Document(Some(c.schema), Some(c.version))];
      clock := clock + 1;
      r := Ok(());
    }

    method DeleteRecord(schema: SchemaId, id: RecId) returns (found: bool)
      requires Sound(State())
      modifies this
      ensures found == RecordDeleted(old(State()), schema, id).Some?
      ensures State() == RecordDeleted(old(State()), schema, id).GetOr(old(State())) && Sound(State())
    {
      if id !in records || records[id].schema != schema { return false; }
      DeletedSound(State(), {id});
      LaterSound(State().(records := Deleted(records, {id})));
      DeleteRecords({id});
      clock := clock + 1;
      found := true;
    }

    method DeleteSchema(schema: SchemaId) returns (done: bool)
      requires Sound(State())
      modifies this
      ensures done == SchemaDeleted(old(State()), schema).Some?
      ensures State() == SchemaDeleted(old(State()), schema).GetOr(old(State())) && Sound(State())
    {
      if schema !in schemas { return false; }
      if SchemaDeleted(State(), schema).Some? { SchemaDeletedSound(State(), schema); }
      hide Sound, Deleted, RecordsOfSchema, VersionsOf, AllDetached, Uses;
      var versionIds := VersionsOf(versions, schema);
      var kept := Deleted(records, RecordsOfSchema(records, schema));
      if Uses(kept, versionIds) { return false; }
      records := kept;
      docs := AllDetached(docs, schema, versionIds);
      versions := versions - versionIds;
      schemas := schemas - {schema};
      clock := clock + 1;
      done := true;
    }
  }

  lemma InsertedStep(db: Db, doc: DocId, schema: SchemaId, version: VersionId, rows: seq<Data>,
                     duplicateOf: Option<RecId>, start: nat, k: nat)
    requires k < |rows| && IdsBelow(db.records, db.nextId)
    ensures var some := Inserted(db, doc, schema, version, rows[..k], duplicateOf, start);
            Inserted(db, doc, schema, version, rows[..k + 1], duplicateOf, start)
            == some.(records := some.records[some.nextId :=
              Rec(doc, schema, version, start + k, rows[k], duplicateOf, db.clock)],
                     nextId := some.nextId + 1)
  {
    var some := Inserted(db, doc, schema, version, rows[..k], duplicateOf, start);
    var more := Inserted(db, doc, schema, version, rows[..k + 1], duplicateOf, start);
    assert more.records.Keys == some.records.Keys + {some.nextId};
  }
}
