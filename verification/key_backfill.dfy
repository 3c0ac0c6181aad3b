/** Migration 0005: the fold that gives every stored field of a lineage a key. */
module KeyBackfill {
  import opened Common
  import opened Lineage

  /** An identity field, stored as a name before the migration and as a key after it. */
  datatype Entry = NameEntry(name: string) | KeyEntry(key: Key)

  datatype Row = Row(id: nat, fields: seq<Field>, identity: Option<seq<Entry>>)

  datatype Update = Update(fields: seq<Field>, identity: Option<seq<Entry>>)

  /** `carried` and `taken` are the name map and the keys of the fields written so far. */
  predicate FilledField(done: seq<Field>, f: Field, g: Field) {
    && g.column.Keyed?
    && g == f.(column := g.column)
    && if f.column.Keyed? then g == f
       else if f.name in NameMap(done) then g.column.key == NameMap(done)[f.name]
       else g.column.key !in Keys(done)
  }

  ghost predicate Filled(before: seq<Field>, fields: seq<Field>, out: seq<Field>) {
    |out| == |fields| && forall i :: 0 <= i < |out| ==> FilledField(before + out[..i], fields[i], out[i])
  }

  /** `by_name`: the last field of a version with each name. */
  function ByName(fields: seq<Field>): map<string, Key> {
    NameMap(fields)
  }

  function Converted(entries: seq<Entry>, byName: map<string, Key>): seq<Entry> {
    if entries == [] then []
    else
      var rest, e := Converted(entries[..|entries| - 1], byName), entries[|entries| - 1];
      match e
      case KeyEntry(_) => rest + [e]
      case NameEntry(n) => if n in byName then rest + [KeyEntry(byName[n])] else rest
  }

  predicate IdentityClean(identity: Option<seq<Entry>>) {
    identity.Some? ==> forall e :: e in identity.value ==> e.KeyEntry?
  }

  predicate Clean(rows: seq<Row>) {
    forall r :: r in rows ==> AllKeyed(r.fields) && IdentityClean(r.identity)
  }

  function FieldLists(rows: seq<Row>): (r: seq<seq<Field>>)
    ensures |r| == |rows|
  {
    seq(|rows|, i requires 0 <= i < |rows| => rows[i].fields)
  }

  /** What becomes of one version when it is written back. */
  ghost predicate RowPlanned(before: seq<Field>, row: Row, after: Row) {
    && after.id == row.id
    && Filled(before, row.fields, after.fields)
    && if AllKeyed(row.fields) && IdentityClean(row.identity) then after == row
       else after.identity == if row.identity.Some? && row.identity.value != []
                              then Some(Converted(row.identity.value, ByName(after.fields))) else None
  }

  /** The lineage after the plan is written, over all choices of minted keys. */
  ghost predicate Planned(rows: seq<Row>, after: seq<Row>) {
    |after| == |rows| && forall i :: 0 <= i < |rows| ==> RowPlanned(Flat(FieldLists(after[..i])), rows[i], after[i])
  }

  function WriteBack(rows: seq<Row>, updates: map<nat, Update>): (r: seq<Row>)
    ensures |r| == |rows|
  {
    seq(|rows|, i requires 0 <= i < |rows| => Written(rows[i], updates))
  }

  function Written(row: Row, updates: map<nat, Update>): Row {
    if row.id in updates then Row(row.id, updates[row.id].fields, updates[row.id].identity) else row
  }

  method FillFields(fields: seq<Field>, carried: map<string, Key>, taken: set<Key>, ghost before: seq<Field>)
    returns (out: seq<Field>, changed: bool, carried': map<string, Key>, taken': set<Key>)
    requires carried == NameMap(before) && taken == Keys(before)
    ensures Filled(before, fields, out)
    ensures changed <==> !AllKeyed(fields)
    ensures carried' == NameMap(before + out) && taken' == Keys(before + out)
  {
    out, changed, carried', taken' := [], false, carried, taken;
    hide FilledField, NameMap, Keys;
    assert before + [] == before;
    for i := 0 to |fields|
      invariant |out| == i && forall k :: 0 <= k < i ==> FilledField(before + out[..k], fields[k], out[k])
      invariant changed <==> exists k :: 0 <= k < i && !fields[k].column.Keyed?
      invariant carried' == NameMap(before + out) && taken' == Keys(before + out)
    {
      var field := fields[i];
      var key: Key;
      if field.column.Keyed? {
        key := field.column.key;
      } else {
        if field.name in carried' { key := carried'[field.name]; } else { key := MintColumnKey(taken'); }
        field := field.(column := Keyed(key));
        changed := true;
      }
      FillOne(before + out, fields[i], field);
      NameMapStep(before + out, field);
      KeysStep(before + out, field);
      carried' := carried'[field.name := key];
      taken' := taken' + {key};
      FilledNext(before, fields, out, field);
      assert before + (out + [field]) == (before + out) + [field];
      out := out + [field];
    }
  }

  lemma FillOne(done: seq<Field>, f: Field, g: Field)
    requires g.column.Keyed? && g == f.(column := g.column)
    requires if f.column.Keyed? then g == f
             else if f.name in NameMap(done) then g.column.key == NameMap(done)[f.name]
             else g.column.key !in Keys(done)
    ensures FilledField(done, f, g)
  {
  }

  lemma FilledNext(before: seq<Field>, fields: seq<Field>, out: seq<Field>, g: Field)
    requires |out| < |fields|
    requires forall k :: 0 <= k < |out| ==> FilledField(before + out[..k], fields[k], out[k])
    requires FilledField(before + out, fields[|out|], g)
    ensures forall k :: 0 <= k <= |out| ==> FilledField(before + (out + [g])[..k], fields[k], (out + [g])[k])
  {
    forall k | 0 <= k <= |out| ensures FilledField(before + (out + [g])[..k], fields[k], (out + [g])[k]) {
      assert (out + [g])[..k] == out[..k];
      if k == |out| { assert out[..k] == out; }
    }
  }

  method ConvertIdentity(entries: seq<Entry>, fields: seq<Field>) returns (out: seq<Entry>, changed: bool)
    requires AllKeyed(fields)
    ensures out == Converted(entries, ByName(fields))
    ensures changed <==> exists e :: e in entries && e.NameEntry?
  {
    var byName: map<string, Key> := map[];
    for i := 0 to |fields|
      invariant byName == NameMap(fields[..i])
    {
      assert fields[..i + 1] == fields[..i] + [fields[i]];
      NameMapStep(fields[..i], fields[i]);
      byName := byName[fields[i].name := fields[i].column.key];
    }
    assert fields[..|fields|] == fields;
    out, changed := [], false;
    for i := 0 to |entries|
      invariant out == Converted(entries[..i], byName)
      invariant changed <==> exists e :: e in entries[..i] && e.NameEntry?
    {
      var entry := entries[i];
      assert entries[..i + 1] == entries[..i] + [entry] && entries[..i + 1][..i] == entries[..i];
      if entry.KeyEntry? {
        out := out + [entry];
        continue;
      }
      changed := true;
      if entry.name in byName { out := out + [KeyEntry(byName[entry.name])]; }
    }
    assert entries[..|entries|] == entries;
  }

  /** One version: the update to write, if anything changes. */
  method PlanRow(row: Row, carried: map<string, Key>, taken: set<Key>, ghost before: seq<Field>)
    returns (update: Option<Update>, carried': map<string, Key>, taken': set<Key>, ghost now: Row)
    requires carried == NameMap(before) && taken == Keys(before)
    ensures update.Some? <==> !(AllKeyed(row.fields) && IdentityClean(row.identity))
    ensures now == if update.Some? then Row(row.id, update.value.fields, update.value.identity) else row
    ensures RowPlanned(before, row, now)
    ensures carried' == NameMap(before + now.fields) && taken' == Keys(before + now.fields)
  {
    hide Filled, Converted, NameMap, Keys;
    var newFields, changed;
    newFields, changed, carried', taken' := FillFields(row.fields, carried, taken, before);
    FilledKeyed(before, row.fields, newFields);
    var newIdentity: Option<seq<Entry>> := None;
    if row.identity.Some? && row.identity.value != [] {
      var converted, renamed := ConvertIdentity(row.identity.value, newFields);
      newIdentity := Some(converted);
      changed := changed || renamed;
    }
    update := if changed then Some(Update(newFields, newIdentity)) else None;
    now := if changed then Row(row.id, newFields, newIdentity) else row;
  }

  method PlanLineage(rows: seq<Row>) returns (updates: map<nat, Update>, ghost after: seq<Row>)
    requires forall i, j :: 0 <= i < j < |rows| ==> rows[i].id != rows[j].id
    ensures after == WriteBack(rows, updates)
    ensures Planned(rows, after)
    ensures forall i :: 0 <= i < |rows| ==>
              (rows[i].id in updates <==> !(AllKeyed(rows[i].fields) && IdentityClean(rows[i].identity)))
    ensures forall id :: id in updates ==> exists i :: 0 <= i < |rows| && rows[i].id == id
  {
    hide RowPlanned, Flat, FieldLists, NameMap, Keys, AllKeyed, IdentityClean;
    var carried: map<string, Key> := map[];
    var taken: set<Key> := {};
    updates, after := map[], [];
    NothingYet();
    for n := 0 to |rows|
      invariant |after| == n && forall id :: id in updates ==> exists i :: 0 <= i < n && rows[i].id == id
      invariant forall i :: 0 <= i < n ==> RowPlanned(Flat(FieldLists(after[..i])), rows[i], after[i])
      invariant forall i :: 0 <= i < n ==> after[i] == Written(rows[i], updates)
      invariant forall i :: 0 <= i < n ==>
                  (rows[i].id in updates <==> !(AllKeyed(rows[i].fields) && IdentityClean(rows[i].identity)))
      invariant carried == NameMap(Flat(FieldLists(after))) && taken == Keys(Flat(FieldLists(after)))
    {
      ghost var before := Flat(FieldLists(after));
      var update, carried', taken', now := PlanRow(rows[n], carried, taken, before);
      carried, taken := carried', taken';
      if update.Some? {
        updates := updates[rows[n].id := update.value];
      }
      FieldListsStep(after, now);
      AfterStep(rows, after, now);
      after := after + [now];
    }
  }

  lemma NothingYet()
    ensures NameMap(Flat(FieldLists([]))) == map[] && Keys(Flat(FieldLists([]))) == {}
  {
    assert Flat(FieldLists([])) == [];
  }

  lemma FilledKeyed(before: seq<Field>, fields: seq<Field>, out: seq<Field>)
    requires Filled(before, fields, out)
    ensures AllKeyed(out) && (AllKeyed(fields) ==> out == fields)
  {
  }

  lemma FieldListsStep(after: seq<Row>, row: Row)
    ensures Flat(FieldLists(after + [row])) == Flat(FieldLists(after)) + row.fields
  {
    assert FieldLists(after + [row]) == FieldLists(after) + [row.fields];
    assert (FieldLists(after) + [row.fields])[..|after|] == FieldLists(after);
  }

  lemma AfterStep(rows: seq<Row>, after: seq<Row>, row: Row)
    requires |after| < |rows|
    requires forall i :: 0 <= i < |after| ==> RowPlanned(Flat(FieldLists(after[..i])), rows[i], after[i])
    requires RowPlanned(Flat(FieldLists(after)), rows[|after|], row)
    ensures forall i :: 0 <= i <= |after| ==>
              RowPlanned(Flat(FieldLists((after + [row])[..i])), rows[i], (after + [row])[i])
  {
    hide RowPlanned;
    forall i | 0 <= i <= |after|
      ensures RowPlanned(Flat(FieldLists((after + [row])[..i])), rows[i], (after + [row])[i])
    {
      assert (after + [row])[..i] == after[..i];
      if i == |after| { assert after[..i] == after; }
    }
  }

  /* ---- What a conversion keeps ---- */

  lemma {:induction false} NameMapDomain(fields: seq<Field>, name: string)
    requires AllKeyed(fields)
    ensures name in NameMap(fields) <==> exists i :: 0 <= i < |fields| && fields[i].name == name
  {
    if fields != [] {
      var n := |fields| - 1;
      NameMapDomain(fields[..n], name);
      assert forall i :: 0 <= i < n ==> fields[..n][i] == fields[i];
    }
  }

  /** The entries are converted one by one, in order: a key stays, a name becomes the key
      of the version's last field of that name, and a name without a field is dropped. */
  lemma {:induction false} ConvertedInPieces(a: seq<Entry>, b: seq<Entry>, byName: map<string, Key>)
    ensures Converted(a + b, byName) == Converted(a, byName) + Converted(b, byName)
  {
    if b == [] {
      assert a + b == a;
    } else {
      ConvertedInPieces(a, b[..|b| - 1], byName);
      assert (a + b)[..|a + b| - 1] == a + b[..|b| - 1];
    }
  }

  predicate IsLastOfName(fields: seq<Field>, i: int, name: string) {
    0 <= i < |fields| && fields[i].name == name && forall j :: i < j < |fields| ==> fields[j].name != name
  }

  lemma ConvertedEntry(e: Entry, fields: seq<Field>)
    requires AllKeyed(fields)
    ensures e.KeyEntry? ==> Converted([e], ByName(fields)) == [e]
    ensures e.NameEntry? && (forall i :: 0 <= i < |fields| ==> fields[i].name != e.name)
            ==> Converted([e], ByName(fields)) == []
    ensures forall i :: e.NameEntry? && IsLastOfName(fields, i, e.name)
              ==> Converted([e], ByName(fields)) == [KeyEntry(fields[i].column.key)]
  {
    assert [e][..0] == [] && Converted([], ByName(fields)) == [];
    if e.NameEntry? {
      NameMapDomain(fields, e.name);
      forall i | IsLastOfName(fields, i, e.name)
        ensures ByName(fields)[e.name] == fields[i].column.key {
        NameMapLast(fields, i);
      }
    }
  }

  /* ---- Planning again changes nothing ---- */

  lemma {:induction false} ConvertedClean(entries: seq<Entry>, byName: map<string, Key>)
    ensures forall e :: e in Converted(entries, byName) ==> e.KeyEntry?
  {
    if entries != [] { ConvertedClean(entries[..|entries| - 1], byName); }
  }

  /** The written lineage is clean, and the plan of a clean lineage is empty: with
      `PlanLineage`, a second plan after the first is written back has no updates. */
  lemma PlannedIsClean(rows: seq<Row>, after: seq<Row>)
    requires Planned(rows, after)
    ensures Clean(after)
  {
    forall r | r in after ensures AllKeyed(r.fields) && IdentityClean(r.identity) {
      var i :| 0 <= i < |after| && after[i] == r;
      assert RowPlanned(Flat(FieldLists(after[..i])), rows[i], after[i]);
      FilledKeyed(Flat(FieldLists(after[..i])), rows[i].fields, r.fields);
      if rows[i].identity.Some? { ConvertedClean(rows[i].identity.value, ByName(r.fields)); }
    }
  }

  method PlanTwice(rows: seq<Row>) returns (first: map<nat, Update>, second: map<nat, Update>)
    requires forall i, j :: 0 <= i < j < |rows| ==> rows[i].id != rows[j].id
    ensures second == map[]
  {
    ghost var after, again;
    first, after := PlanLineage(rows);
    PlannedIsClean(rows, after);
    var written := WriteBack(rows, first);
    assert forall i :: 0 <= i < |rows| ==> written[i].id == rows[i].id;
    assert forall i :: 0 <= i < |written| ==> written[i] in written;
    second, again := PlanLineage(written);
    assert second.Keys == {};
  }

  /** Names, types, scopes and the order of fields survive, and so does every key. */
  lemma PlanKeepsFields(rows: seq<Row>, after: seq<Row>, i: nat, j: nat)
    requires Planned(rows, after) && i < |rows| && j < |rows[i].fields|
    ensures after[i].id == rows[i].id && |after[i].fields| == |rows[i].fields|
    ensures after[i].fields[j] == rows[i].fields[j].(column := after[i].fields[j].column)
            && after[i].fields[j].column.Keyed?
    ensures rows[i].fields[j].column.Keyed? ==> after[i].fields[j] == rows[i].fields[j]
  {
    assert RowPlanned(Flat(FieldLists(after[..i])), rows[i], after[i]);
    assert FilledField(Flat(FieldLists(after[..i])) + after[i].fields[..j], rows[i].fields[j], after[i].fields[j]);
  }

  /* ---- A keyless lineage: one key per name ---- */

  /** Equal names have equal keys and different names different ones. */
  ghost predicate KeyPerName(fields: seq<Field>) {
    && AllKeyed(fields)
    && forall i, j :: 0 <= i < |fields| && 0 <= j < |fields| ==>
         (fields[i].column == fields[j].column <==> fields[i].name == fields[j].name)
  }

  lemma {:induction false} NameMapFinds(fields: seq<Field>, name: string)
    requires AllKeyed(fields)
    ensures name in NameMap(fields) <==> exists i :: 0 <= i < |fields| && fields[i].name == name
    ensures name in NameMap(fields) ==>
              exists i :: 0 <= i < |fields| && fields[i].name == name && fields[i].column.key == NameMap(fields)[name]
  {
    if fields != [] {
      var n := |fields| - 1;
      var rest := fields[..n];
      NameMapFinds(rest, name);
      if fields[n].name != name && name in NameMap(rest) {
        var i :| 0 <= i < n && rest[i].name == name && rest[i].column.key == NameMap(rest)[name];
        assert fields[i] == rest[i];
      }
      if i :| 0 <= i < |fields| && fields[i].name == name {
        if i < n { assert rest[i].name == name; }
      }
    }
  }

  lemma KeyPerNameStep(done: seq<Field>, f: Field, g: Field)
    requires KeyPerName(done) && FilledField(done, f, g) && !f.column.Keyed?
    ensures KeyPerName(done + [g])
  {
    NameMapFinds(done, g.name);
    forall i | 0 <= i < |done| ensures done[i].column == g.column <==> done[i].name == g.name {
      assert done[i] in done;
      if g.name in NameMap(done) {
        var k :| 0 <= k < |done| && done[k].name == g.name && done[k].column.key == NameMap(done)[g.name];
      } else {
        assert done[i].column.key in Keys(done);
      }
    }
  }

  lemma {:induction false} KeyPerNameFields(before: seq<Field>, fields: seq<Field>, out: seq<Field>, n: nat)
    requires KeyPerName(before) && Filled(before, fields, out) && n <= |fields|
    requires forall i :: 0 <= i < |fields| ==> !fields[i].column.Keyed?
    ensures KeyPerName(before + out[..n])
  {
    hide KeyPerName, FilledField;
    if n == 0 {
      assert before + out[..0] == before;
    } else {
      KeyPerNameFields(before, fields, out, n - 1);
      KeyPerNameStep(before + out[..n - 1], fields[n - 1], out[n - 1]);
      assert before + out[..n] == (before + out[..n - 1]) + [out[n - 1]];
    }
  }

  lemma {:induction false} KeylessUpTo(rows: seq<Row>, after: seq<Row>, n: nat)
    requires Planned(rows, after) && n <= |rows| && Keyless(rows)
    ensures KeyPerName(Flat(FieldLists(after[..n])))
  {
    hide KeyPerName, RowPlanned, Filled;
    if n == 0 {
      assert after[..0] == [];
      NothingShared();
    } else {
      KeylessUpTo(rows, after, n - 1);
      var before := Flat(FieldLists(after[..n - 1]));
      RowFilled(rows, after, n - 1);
      KeyPerNameFields(before, rows[n - 1].fields, after[n - 1].fields, |rows[n - 1].fields|);
      assert after[n - 1].fields[..|rows[n - 1].fields|] == after[n - 1].fields;
      FieldListsStep(after[..n - 1], after[n - 1]);
      assert after[..n] == after[..n - 1] + [after[n - 1]];
    }
  }

  lemma NothingShared()
    ensures KeyPerName(Flat(FieldLists([])))
  {
    assert Flat(FieldLists([])) == [];
  }

  lemma RowFilled(rows: seq<Row>, after: seq<Row>, i: nat)
    requires Planned(rows, after) && i < |rows|
    ensures Filled(Flat(FieldLists(after[..i])), rows[i].fields, after[i].fields)
            && |after[i].fields| == |rows[i].fields|
  {
    assert RowPlanned(Flat(FieldLists(after[..i])), rows[i], after[i]);
  }

  ghost predicate Keyless(rows: seq<Row>) {
    forall i, j :: 0 <= i < |rows| && 0 <= j < |rows[i].fields| ==> !rows[i].fields[j].column.Keyed?
  }

  /** On a lineage without keys, two fields of any two versions share a key if and
      only if they share a name. */
  lemma KeylessLineage(rows: seq<Row>, after: seq<Row>)
    requires Planned(rows, after) && Keyless(rows)
    ensures KeyPerName(Flat(FieldLists(after)))
  {
    KeylessUpTo(rows, after, |rows|);
    assert after[..|rows|] == after;
  }

  /* ---- Identity fields ---- */

  predicate Declared(entries: seq<Entry>, byName: map<string, Key>) {
    forall e :: e in entries ==> e.NameEntry? && e.name in byName
  }

  lemma {:induction false} ConvertedEach(entries: seq<Entry>, byName: map<string, Key>)
    requires Declared(entries, byName)
    ensures |Converted(entries, byName)| == |entries|
    ensures forall k :: 0 <= k < |entries| ==>
              entries[k] in entries && Converted(entries, byName)[k] == KeyEntry(byName[entries[k].name])
  {
    if entries != [] {
      assert entries[|entries| - 1] in entries;
      ConvertedEach(entries[..|entries| - 1], byName);
    }
  }

  /** The k-th identity name of a keyless version becomes the key of its field of
      that name, in the same place. */
  lemma IdentityFollowsNames(rows: seq<Row>, after: seq<Row>, i: nat, k: nat, j: nat)
    requires Planned(rows, after) && Keyless(rows) && i < |rows|
    requires rows[i].identity.Some? && k < |rows[i].identity.value| && j < |rows[i].fields|
    requires forall e :: e in rows[i].identity.value ==>
               e.NameEntry? && exists f :: f in rows[i].fields && f.name == e.name
    requires rows[i].identity.value[k] == NameEntry(rows[i].fields[j].name)
    ensures after[i].identity.Some? && |after[i].identity.value| == |rows[i].identity.value|
    ensures j < |after[i].fields| && after[i].fields[j].column.Keyed?
    ensures after[i].identity.value[k] == KeyEntry(after[i].fields[j].column.key)
  {
    var entries, fields, name := rows[i].identity.value, after[i].fields, rows[i].fields[j].name;
    var before := Flat(FieldLists(after[..i]));
    assert RowPlanned(before, rows[i], after[i]);
    FilledKeyed(before, rows[i].fields, fields);
    assert !rows[i].fields[j].column.Keyed?;
    forall e | e in entries ensures e.NameEntry? && e.name in ByName(fields) {
      var f :| f in rows[i].fields && f.name == e.name;
      var m :| 0 <= m < |fields| && rows[i].fields[m] == f;
      assert FilledField(before + fields[..m], f, fields[m]);
      NameMapFinds(fields, e.name);
      assert fields[m].name == e.name;
    }
    ConvertedEach(entries, ByName(fields));
    assert entries[k] in entries;
    NameMapFinds(fields, name);
    var m :| 0 <= m < |fields| && fields[m].name == name && fields[m].column.key == NameMap(fields)[name];
    assert FilledField(before + fields[..j], rows[i].fields[j], fields[j]);
    KeylessLineage(rows, after);
    SameVersionSameKey(after, i, j, m);
  }

  lemma SameVersionSameKey(after: seq<Row>, i: nat, j: nat, m: nat)
    requires KeyPerName(Flat(FieldLists(after))) && i < |after| && j < |after[i].fields| && m < |after[i].fields|
    requires after[i].fields[j].name == after[i].fields[m].name
    ensures after[i].fields[j].column == after[i].fields[m].column
  {
    assert FieldLists(after)[i] == after[i].fields;
    FlatHas(FieldLists(after), i, j);
    FlatHas(FieldLists(after), i, m);
  }

  /** A partly keyed lineage is another matter: a field renamed away and a keyless
      field of its old name come out sharing one key inside one version. */
  lemma PartlyKeyedCanCollide(after: seq<Row>)
    requires Planned([Row(0, [Field("a", Keyed(0), "string", false)], None),
                      Row(1, [Field("b", Keyed(0), "string", false), Field("a", Absent, "string", false)], None)],
                     after)
    ensures after[1].fields[0].column == after[1].fields[1].column
  {
    var a, b := Field("a", Keyed(0), "string", false), Field("b", Keyed(0), "string", false);
    assert RowPlanned(Flat(FieldLists(after[..0])), Row(0, [a], None), after[0]);
    var before := Flat(FieldLists(after[..1]));
    assert RowPlanned(before, Row(1, [b, a.(column := Absent)], None), after[1]);
    assert after[0].fields == [a];
    assert after[..1] == [] + [after[0]];
    FieldListsStep([], after[0]);
    assert Flat(FieldLists([])) == [];
    assert before == [a];
    var out := after[1].fields;
    assert FilledField(before + out[..0], b, out[0]);
    assert FilledField(before + out[..1], a.(column := Absent), out[1]);
    assert before + out[..1] == [a] + [b];
    NameMapStep([a], b);
    NameMapStep([], a);
    assert [] + [a] == [a];
  }

  /* ---- When a version's keys come out distinct ---- */

  /** The key of a field is fixed before the fold reaches its version: its own, or the
      one its name carries. */
  predicate Fixed(before: seq<Field>, f: Field) {
    f.column.Keyed? || f.name in NameMap(before)
  }

  function FixedKey(before: seq<Field>, f: Field): Key
    requires Fixed(before, f)
  {
    if f.column.Keyed? then f.column.key else NameMap(before)[f.name]
  }

  /** Fixed keys differ; a keyless field does not repeat an earlier name of its version;
      and a field that brings its own key after one to be minted brings a key the
      lineage has already used, which the minting therefore avoids. */
  predicate Apart(before: seq<Field>, fields: seq<Field>) {
    && (forall i, j :: 0 <= i < j < |fields| && Fixed(before, fields[i]) && Fixed(before, fields[j]) ==>
          FixedKey(before, fields[i]) != FixedKey(before, fields[j]))
    && (forall i, j :: 0 <= i < j < |fields| && !fields[j].column.Keyed? ==> fields[i].name != fields[j].name)
    && forall i, j :: 0 <= i < j < |fields| && !Fixed(before, fields[i]) && fields[j].column.Keyed? ==>
         fields[j].column.key in Keys(before)
  }

  lemma {:induction false} NameMapConcat(a: seq<Field>, b: seq<Field>)
    ensures NameMap(a + b) == NameMap(a) + NameMap(b)
  {
    if b == [] {
      assert a + b == a;
    } else {
      NameMapConcat(a, b[..|b| - 1]);
      assert (a + b)[..|a + b| - 1] == a + b[..|b| - 1];
    }
  }

  lemma {:induction false} NameMapMember(fields: seq<Field>, name: string)
    ensures name in NameMap(fields) ==>
              exists f :: f in fields && f.name == name && f.column == Keyed(NameMap(fields)[name])
    ensures name !in NameMap(fields) ==> forall f :: f in fields && f.name == name ==> !f.column.Keyed?
  {
    if fields != [] {
      var rest, f := fields[..|fields| - 1], fields[|fields| - 1];
      NameMapMember(rest, name);
      assert fields == rest + [f];
    }
  }

  lemma KeysConcat(a: seq<Field>, b: seq<Field>)
    ensures Keys(a + b) == Keys(a) + Keys(b)
  {
    assert forall f :: f in a + b <==> f in a || f in b;
    forall k | k in Keys(a) + Keys(b) ensures k in Keys(a + b) {
      var f :| f in a + b && f.column == Keyed(k);
    }
  }

  /** The names and keys a filled prefix adds. */
  lemma FilledPrefix(before: seq<Field>, fields: seq<Field>, out: seq<Field>, i: nat)
    requires Filled(before, fields, out) && i <= |out|
    ensures AllKeyed(out) && forall j :: 0 <= j < |out| ==> out[j].name == fields[j].name
    ensures Keys(before + out[..i]) == Keys(before) + Keys(out[..i])
    ensures NameMap(before + out[..i]) == NameMap(before) + NameMap(out[..i])
  {
    forall j | 0 <= j < |out| ensures out[j].column.Keyed? && out[j].name == fields[j].name {
      assert FilledField(before + out[..j], fields[j], out[j]);
    }
    KeysConcat(before, out[..i]);
    NameMapConcat(before, out[..i]);
  }

  /** A keyless field that repeats an earlier name gets that earlier field's key. */
  lemma RepeatedName(before: seq<Field>, fields: seq<Field>, out: seq<Field>, i: nat, j: nat)
    requires Filled(before, fields, out) && i < j < |out| && !fields[j].column.Keyed?
             && fields[i].name == fields[j].name
    ensures !DistinctKeys(out)
  {
    FilledPrefix(before, fields, out, j);
    var name := fields[j].name;
    assert FilledField(before + out[..j], fields[j], out[j]);
    NameMapMember(out[..j], name);
    assert out[i] in out[..j];
    var f :| f in out[..j] && f.name == name && f.column == Keyed(NameMap(out[..j])[name]);
    var m :| 0 <= m < j && out[m] == f;
    assert out[m].column == out[j].column;
  }

  /** Where no name repeats, a field with a fixed key gets it, and any other field gets
      a key that nothing before it has. */
  lemma FilledKey(before: seq<Field>, fields: seq<Field>, out: seq<Field>, j: nat)
    requires Filled(before, fields, out) && j < |out|
    requires !fields[j].column.Keyed? ==> forall i :: 0 <= i < j ==> fields[i].name != fields[j].name
    ensures out[j].column.Keyed?
    ensures Fixed(before, fields[j]) ==> out[j].column.key == FixedKey(before, fields[j])
    ensures !Fixed(before, fields[j]) ==> out[j].column.key !in Keys(before) && out[j].column.key !in Keys(out[..j])
  {
    FilledPrefix(before, fields, out, j);
    assert FilledField(before + out[..j], fields[j], out[j]);
    NameMapMember(out[..j], fields[j].name);
    if !fields[j].column.Keyed? {
      forall f | f in out[..j] ensures f.name != fields[j].name {
        var i :| 0 <= i < j && out[i] == f;
      }
    }
  }

  lemma ApartGivesDistinct(before: seq<Field>, fields: seq<Field>, out: seq<Field>)
    requires Filled(before, fields, out) && Apart(before, fields)
    ensures DistinctKeys(out)
  {
    forall i, j | 0 <= i < j < |out| ensures out[i].column != out[j].column {
      FilledKey(before, fields, out, i);
      FilledKey(before, fields, out, j);
      assert out[i] in out[..j];
      assert out[i].column.key in Keys(out[..j]);
      if !Fixed(before, fields[i]) && Fixed(before, fields[j]) && !fields[j].column.Keyed? {
        NameMapKeys(before, fields[j].name);
      }
    }
  }

  /** Any filling of a prefix can be completed. */
  lemma {:induction false} CompleteFill(before: seq<Field>, fields: seq<Field>, some: seq<Field>)
    returns (out: seq<Field>)
    requires |some| <= |fields| && Filled(before, fields[..|some|], some)
    ensures Filled(before, fields, out) && out[..|some|] == some
    decreases |fields| - |some|
  {
    var n := |some|;
    if n == |fields| {
      assert fields[..n] == fields;
      out := some;
    } else {
      var f, done := fields[n], before + some;
      var k := FreshKeyExists(Keys(done));
      var key := if f.column.Keyed? then f.column.key else if f.name in NameMap(done) then NameMap(done)[f.name] else k;
      var g := f.(column := Keyed(key));
      assert FilledField(done, f, g);
      FilledNext(before, fields, some, g);
      FilledMore(before, fields, some, g);
      out := CompleteFill(before, fields, some + [g]);
      assert out[..n] == (some + [g])[..n];
    }
  }

  lemma FilledMore(before: seq<Field>, fields: seq<Field>, some: seq<Field>, g: Field)
    requires |some| < |fields| && Filled(before, fields[..|some|], some)
    requires FilledField(before + some, fields[|some|], g)
    ensures Filled(before, fields[..|some| + 1], some + [g])
  {
    var n := |some|;
    forall i | 0 <= i < n + 1 ensures FilledField(before + (some + [g])[..i], fields[..n + 1][i], (some + [g])[i]) {
      if i < n {
        assert FilledField(before + some[..i], fields[..n][i], some[i]);
        assert (some + [g])[..i] == some[..i];
      } else {
        assert (some + [g])[..n] == some;
      }
    }
  }

  lemma FilledTake(before: seq<Field>, fields: seq<Field>, out: seq<Field>, i: nat)
    requires Filled(before, fields, out) && i <= |out|
    ensures Filled(before, fields[..i], out[..i])
  {
    forall m | 0 <= m < i ensures FilledField(before + out[..i][..m], fields[..i][m], out[..i][m]) {
      assert FilledField(before + out[..m], fields[m], out[m]);
      assert out[..i][..m] == out[..m];
    }
  }

  /** A field that the lineage has no key for may be minted any key that nothing has yet. */
  lemma AnyKeyCanBeMinted(before: seq<Field>, fields: seq<Field>, out: seq<Field>, i: nat, key: Key)
    requires Filled(before, fields, out) && i < |out| && !Fixed(before, fields[i])
    requires forall m :: 0 <= m < i ==> fields[m].name != fields[i].name && out[m].column != Keyed(key)
    requires key !in Keys(before)
    ensures FilledField(before + out[..i], fields[i], fields[i].(column := Keyed(key)))
  {
    var some := out[..i];
    FilledPrefix(before, fields, out, i);
    NameMapMember(some, fields[i].name);
    forall f | f in some ensures f.name != fields[i].name && f.column != Keyed(key) {
      var m :| 0 <= m < i && out[m] == f;
    }
  }

  /** A key brought after a minted field, and new to the lineage, can be minted first. */
  lemma MintingCanAnticipate(before: seq<Field>, fields: seq<Field>, i: nat, j: nat) returns (out: seq<Field>)
    requires i < j < |fields| && !Fixed(before, fields[i]) && fields[j].column.Keyed?
    requires fields[j].column.key !in Keys(before)
    requires forall m :: 0 <= m < i ==> fields[m].name != fields[i].name
    ensures Filled(before, fields, out) && !DistinctKeys(out)
  {
    out := CompleteFill(before, fields, []);
    if DistinctKeys(out) {
      assert FilledField(before + out[..j], fields[j], out[j]);
      AnyKeyCanBeMinted(before, fields, out, i, fields[j].column.key);
      FilledTake(before, fields, out, i);
      hide Keys, NameMap, Fixed;
      var some, g := out[..i], fields[i].(column := fields[j].column);
      FilledMore(before, fields, some, g);
      out := CompleteFill(before, fields, some + [g]);
      assert out[i] == (some + [g])[i] == g;
      assert FilledField(before + out[..j], fields[j], out[j]);
    }
  }

  ghost predicate AlwaysDistinct(before: seq<Field>, fields: seq<Field>) {
    forall out :: Filled(before, fields, out) ==> DistinctKeys(out)
  }

  lemma DistinctNeedsApart(before: seq<Field>, fields: seq<Field>)
    requires AlwaysDistinct(before, fields)
    ensures Apart(before, fields)
  {
    var out := CompleteFill(before, fields, []);
    forall i, j | 0 <= i < j < |fields| && !fields[j].column.Keyed? ensures fields[i].name != fields[j].name {
      if fields[i].name == fields[j].name { RepeatedName(before, fields, out, i, j); }
    }
    forall i, j | 0 <= i < j < |fields| && Fixed(before, fields[i]) && Fixed(before, fields[j])
      ensures FixedKey(before, fields[i]) != FixedKey(before, fields[j])
    {
      FilledKey(before, fields, out, i);
      FilledKey(before, fields, out, j);
    }
    forall i, j | 0 <= i < j < |fields| && !Fixed(before, fields[i]) && fields[j].column.Keyed?
      ensures fields[j].column.key in Keys(before)
    {
      if fields[j].column.key !in Keys(before) {
        var other := MintingCanAnticipate(before, fields, i, j);
      }
    }
  }

  /** However keys are minted, a version's keys come out distinct if and only if its
      fields are apart, given the fields planned for the versions before it. */
  lemma DistinctExactly(before: seq<Field>, fields: seq<Field>)
    ensures AlwaysDistinct(before, fields) <==> Apart(before, fields)
  {
    if AlwaysDistinct(before, fields) {
      DistinctNeedsApart(before, fields);
    } else {
      var out :| Filled(before, fields, out) && !DistinctKeys(out);
      if Apart(before, fields) { ApartGivesDistinct(before, fields, out); }
    }
  }

  /** So in a planned lineage every version that is apart from what was planned before
      it has distinct keys. */
  lemma PlannedVersionDistinct(rows: seq<Row>, after: seq<Row>, i: nat)
    requires Planned(rows, after) && i < |rows| && Apart(Flat(FieldLists(after[..i])), rows[i].fields)
    ensures DistinctKeys(after[i].fields)
  {
    assert RowPlanned(Flat(FieldLists(after[..i])), rows[i], after[i]);
    ApartGivesDistinct(Flat(FieldLists(after[..i])), rows[i].fields, after[i].fields);
  }

  /** The second failing family: the key minted for a field can be the one that a later
      field of the same version brings along. */
  lemma LaterKeyCanCollide()
    ensures !AlwaysDistinct([], [Field("a", Absent, "string", false), Field("b", Keyed(0), "string", false)])
  {
    var fields := [Field("a", Absent, "string", false), Field("b", Keyed(0), "string", false)];
    assert !Fixed([], fields[0]) && fields[1].column.key !in Keys([]);
    if AlwaysDistinct([], fields) {
      DistinctNeedsApart([], fields);
      assert false;
    }
  }
}
