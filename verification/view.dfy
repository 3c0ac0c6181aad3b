/** What the generated view reads for a stored row, by plain read or version-scoped CASE. */
module View {
  import opened Common
  import opened Lineage
  import opened FieldSpecs

  /** One stored record: JSON keyed by field name; None is a JSON null. */
  datatype Record = Record(version: VersionId, data: map<string, Option<string>>)

  /** `data->>'name'`: SQL NULL for a missing key and for a JSON null alike. */
  function AsText(data: map<string, Option<string>>, name: string): Option<string> {
    if name in data then data[name] else None
  }

  /** The JSON key a row of version `id` stores this field under: the first branch that lists it. */
  function NameIn(branches: seq<Branch>, id: VersionId): Option<string> {
    if branches == [] then None
    else if id in branches[0].versions then Some(branches[0].name)
    else NameIn(branches[1..], id)
  }

  function NameAt(s: FieldSpec, id: VersionId): Option<string> {
    NameIn(s.branches, id)
  }

  function CaseRead(s: FieldSpec, r: Record): Option<string> {
    match NameAt(s, r.version)
    case Some(name) => AsText(r.data, name)
    case None => None
  }

  function PlainRead(s: FieldSpec, r: Record): Option<string>
    requires s.branches != []
  {
    AsText(r.data, s.branches[0].name)
  }

  /** The JSON key a view column reads for a row; the cast comes after it. */
  function KeyRead(s: FieldSpec, id: VersionId): Option<string> {
    if s.plain && s.branches != [] then Some(s.branches[0].name) else NameAt(s, id)
  }

  function ViewRead(s: FieldSpec, r: Record): Option<string> {
    match KeyRead(s, r.version)
    case Some(name) => AsText(r.data, name)
    case None => None
  }

  /* ---- Well-formed lineages ---- */

  predicate DistinctNames(fields: seq<Field>) {
    forall i, j :: 0 <= i < j < |fields| ==> fields[i].name != fields[j].name
  }

  ghost predicate WellFormed(versions: seq<Version>) {
    && (forall i, j :: 0 <= i < j < |versions| ==> versions[i].id != versions[j].id)
    && (forall i :: 0 <= i < |versions| ==>
          AllKeyed(versions[i].fields) && DistinctKeys(versions[i].fields) && DistinctNames(versions[i].fields))
  }

  /** Every lineage that saves can build is well formed. */
  lemma BuiltIsWellFormed(versions: seq<Version>)
    requires Built(seq(|versions|, i requires 0 <= i < |versions| => versions[i].fields))
    requires forall i, j :: 0 <= i < j < |versions| ==> versions[i].id != versions[j].id
    ensures WellFormed(versions)
  {
    var lists := seq(|versions|, i requires 0 <= i < |versions| => versions[i].fields);
    HistoryKeysDistinct(lists);
    forall i | 0 <= i < |versions|
      ensures AllKeyed(versions[i].fields) && DistinctKeys(versions[i].fields) && DistinctNames(versions[i].fields)
    {
      assert lists[i] == versions[i].fields;
      forall a, b | 0 <= a < b < |lists[i]| ensures lists[i][a].name != lists[i][b].name {
        NamesDiffer(lists[i], a, b);
      }
    }
  }

  /** Version `id` of the lineage declares column `key` under `name`. */
  ghost predicate Declares(versions: seq<Version>, id: VersionId, name: string, key: Key) {
    exists v, i :: v in versions && v.id == id && 0 <= i < |v.fields| && v.fields[i].name == name
      && v.fields[i].column == Keyed(key)
  }

  lemma DeclaresExact(versions: seq<Version>, id: VersionId, name: string, key: Key)
    ensures Declares(versions, id, name, key) <==> Decl(id, name, key) in Decls(versions)
  {
    var d := Decl(id, name, key);
    if Declares(versions, id, name, key) {
      var v, i :| v in versions && v.id == id && 0 <= i < |v.fields| && v.fields[i].name == name
        && v.fields[i].column == Keyed(key);
      DeclOfField(v, |v.fields|, i);
      DeclInLineage(versions, v, d);
    }
    if d in Decls(versions) {
      DeclVersions(versions, d);
      var k :| 0 <= k < |versions| && versions[k].id == d.version && d in DeclsOf(versions[k], |versions[k].fields|);
      DeclVersion(versions[k], |versions[k].fields|, d);
      assert versions[k] in versions;
    }
  }

  /** In a well-formed lineage a version's names and keys determine each other. */
  lemma DeclaresUnique(versions: seq<Version>, id: VersionId, n1: string, k1: Key, n2: string, k2: Key)
    requires WellFormed(versions)
    requires Declares(versions, id, n1, k1) && Declares(versions, id, n2, k2)
    ensures n1 == n2 <==> k1 == k2
  {
    hide WellFormed;
    var v, i :| v in versions && v.id == id && 0 <= i < |v.fields| && v.fields[i].name == n1
      && v.fields[i].column == Keyed(k1);
    var w, j :| w in versions && w.id == id && 0 <= j < |w.fields| && w.fields[j].name == n2
      && w.fields[j].column == Keyed(k2);
    SameVersion(versions, v, w);
  }

  lemma SameVersion(versions: seq<Version>, v: Version, w: Version)
    requires WellFormed(versions) && v in versions && w in versions && v.id == w.id
    ensures v == w && DistinctKeys(v.fields) && DistinctNames(v.fields)
  {
    var a :| 0 <= a < |versions| && versions[a] == v;
    var b :| 0 <= b < |versions| && versions[b] == w;
    assert a == b;
  }

  /* ---- name_at is exact ---- */

  lemma {:induction false} NameInMember(branches: seq<Branch>, id: VersionId)
    ensures NameIn(branches, id).Some? <==> exists i :: 0 <= i < |branches| && id in branches[i].versions
    ensures NameIn(branches, id).Some? ==>
              exists i :: 0 <= i < |branches| && id in branches[i].versions
                && branches[i].name == NameIn(branches, id).value
  {
    if branches != [] {
      NameInMember(branches[1..], id);
      if id in branches[0].versions {
        assert branches[0].name == NameIn(branches, id).value;
      } else if NameIn(branches[1..], id).Some? {
        var i :| 0 <= i < |branches[1..]| && id in branches[1..][i].versions
          && branches[1..][i].name == NameIn(branches, id).value;
        assert branches[i + 1] == branches[1..][i];
      } else {
        forall i | 0 <= i < |branches| ensures id !in branches[i].versions {
          if i > 0 { assert branches[i] == branches[1..][i - 1]; }
        }
      }
    }
  }

  /** A branch lists a version exactly when that version declares the column under its name. */
  lemma BranchExact(s: FieldSpec, versions: seq<Version>, i: nat, id: VersionId)
    requires IsSpec(s, versions) && i < |s.branches|
    ensures id in s.branches[i].versions <==> Declares(versions, id, s.branches[i].name, s.column)
  {
    VersionsNamingMembers(Decls(versions), s.column, s.branches[i].name);
    DeclaresExact(versions, id, s.branches[i].name, s.column);
  }

  lemma HasBranch(s: FieldSpec, versions: seq<Version>, id: VersionId, name: string) returns (i: nat)
    requires IsSpec(s, versions) && Declares(versions, id, name, s.column)
    ensures i < |s.branches| && s.branches[i].name == name && id in s.branches[i].versions
  {
    DeclaresExact(versions, id, name, s.column);
    assert name in ByName(Decls(versions), s.column);
    i :| 0 <= i < |s.branches| && s.branches[i].name == name;
    BranchExact(s, versions, i, id);
  }

  /** `name_at` gives the name under which the row's own version declares the column. */
  lemma NameAtExact(s: FieldSpec, versions: seq<Version>, id: VersionId, name: string)
    requires WellFormed(versions) && IsSpec(s, versions)
    ensures NameAt(s, id) == Some(name) <==> Declares(versions, id, name, s.column)
  {
    hide IsSpec, Declares, WellFormed;
    NameInMember(s.branches, id);
    if NameAt(s, id).Some? {
      var i :| 0 <= i < |s.branches| && id in s.branches[i].versions && s.branches[i].name == NameAt(s, id).value;
      BranchExact(s, versions, i, id);
      if Declares(versions, id, name, s.column) {
        DeclaresUnique(versions, id, name, s.column, s.branches[i].name, s.column);
      }
    }
    if Declares(versions, id, name, s.column) {
      var i := HasBranch(s, versions, id, name);
    }
  }

  /* ---- The plain read is exact ---- */

  lemma IdOfVersion(versions: seq<Version>, v: Version)
    requires v in versions
    ensures v.id in Ids(versions)
  {
    var i :| 0 <= i < |versions| && versions[i] == v;
    assert Ids(versions)[i] == v.id;
  }

  lemma DeclaringVersion(versions: seq<Version>, d: Decl)
    requires d in Decls(versions)
    ensures d.version in Ids(versions)
  {
    DeclVersions(versions, d);
    var i :| 0 <= i < |versions| && versions[i].id == d.version;
    assert Ids(versions)[i] == d.version;
  }

  /** Column `key` has the same name in every version of the lineage. */
  ghost predicate OneNameThroughout(versions: seq<Version>, key: Key, name: string) {
    forall id :: id in Ids(versions) ==> Declares(versions, id, name, key)
  }

  /** The safety test, in terms of the dictionaries it reads. */
  predicate Safe(versions: seq<Version>, key: Key) {
    PlainIsSafe(key, ByName(Decls(versions), key), OwnersOfName(Decls(versions)), VersionsDeclaring(Decls(versions)),
      Ids(versions))
  }

  lemma SafeMeansOneName(versions: seq<Version>, key: Key, name: string)
    requires Safe(versions, key) && name in ByName(Decls(versions), key)
    ensures OneNameThroughout(versions, key, name)
  {
    var ds := Decls(versions);
    assert name in OwnersOfName(ds) && name in VersionsDeclaring(ds);
    forall id | id in Ids(versions) ensures Declares(versions, id, name, key) {
      assert id in Declaring(ds, name);
      var d :| d in ds && d.name == name && d.version == id;
      assert d.key in Owners(ds, name);
      assert d == Decl(id, name, key);
      DeclaresExact(versions, id, name, key);
    }
  }

  /** In a lineage where one name of `key` is owned by no other key and declared by
      every version, that is the only name `key` ever had: the second and third
      conditions of `_plain_is_safe` already imply the first. */
  lemma OwnedEverywhereIsOnlyName(versions: seq<Version>, key: Key, name: string)
    requires WellFormed(versions) && name in ByName(Decls(versions), key)
    requires GetOr(OwnersOfName(Decls(versions)), name, {}) == {key}
    requires GetOr(VersionsDeclaring(Decls(versions)), name, {}) == set id | id in Ids(versions)
    ensures ByName(Decls(versions), key).Keys == {name} && Safe(versions, key)
  {
    hide WellFormed, Decls, Declares;
    var ds := Decls(versions);
    assert name in OwnersOfName(ds) && name in VersionsDeclaring(ds);
    forall other | other in ByName(ds, key) ensures other == name {
      var d :| d in ds && d.key == key && d.name == other;
      DeclaringVersion(versions, d);
      assert d.version in Declaring(ds, name);
      var e :| e in ds && e.name == name && e.version == d.version;
      assert e.key in Owners(ds, name);
      DeclaresExact(versions, d.version, other, key);
      DeclaresExact(versions, d.version, name, key);
      assert e == Decl(d.version, name, key) && d == Decl(d.version, other, key);
      DeclaresUnique(versions, d.version, other, key, name, key);
    }
    SingleKey(ByName(ds, key), name);
  }

  lemma SingleKey<V>(m: map<string, V>, name: string)
    requires name in m && forall other :: other in m ==> other == name
    ensures m.Keys == {name} && |m| == 1
  {
    assert m.Keys == {name};
    assert |m| == |m.Keys|;
  }

  lemma OneNameIsSafe(versions: seq<Version>, key: Key, name: string)
    requires WellFormed(versions) && versions != [] && OneNameThroughout(versions, key, name)
    ensures Safe(versions, key) && ByName(Decls(versions), key).Keys == {name}
  {
    var ds, ids := Decls(versions), Ids(versions);
    forall id | id in ids ensures Decl(id, name, key) in ds { DeclaresExact(versions, id, name, key); }
    assert ids[0] in ids && Decl(ids[0], name, key) in ds;
    assert name in ByName(ds, key) && name in OwnersOfName(ds) && name in VersionsDeclaring(ds);
    forall k | k in Owners(ds, name) ensures k == key {
      var d :| d in ds && d.name == name && d.key == k;
      DeclaringVersion(versions, d);
      DeclaresExact(versions, d.version, name, k);
      assert d == Decl(d.version, name, k) && Declares(versions, d.version, name, key);
      DeclaresUnique(versions, d.version, name, k, name, key);
    }
    assert Owners(ds, name) == {key};
    forall id | id in Declaring(ds, name) ensures id in ids {
      var d :| d in ds && d.name == name && d.version == id;
      DeclaringVersion(versions, d);
    }
    assert Declaring(ds, name) == set id | id in ids;
    OwnedEverywhereIsOnlyName(versions, key, name);
  }

  lemma SpecHasVersion(s: FieldSpec, versions: seq<Version>) returns (name: string)
    requires IsSpec(s, versions)
    ensures versions != [] && name in ByName(Decls(versions), s.column) && s.branches != []
    ensures s.branches[0].name in ByName(Decls(versions), s.column)
  {
    var ds := Decls(versions);
    OrderMembers(ds);
    assert s.column in NamesForKey(ds);
    var d :| d in ds && d.key == s.column;
    name := d.name;
    assert name in ByName(ds, s.column);
  }

  /** The version-scoped CASE selects `name` in every version of the lineage. */
  ghost predicate SelectsThroughout(s: FieldSpec, versions: seq<Version>, name: string) {
    forall id :: id in Ids(versions) ==> NameAt(s, id) == Some(name)
  }

  lemma PlainSelectsOneName(s: FieldSpec, versions: seq<Version>, name: string)
    requires WellFormed(versions) && IsSpec(s, versions) && s.plain && name in ByName(Decls(versions), s.column)
    ensures SelectsThroughout(s, versions, name)
  {
    assert Safe(versions, s.column);
    hide IsSpec, Safe, WellFormed;
    SafeMeansOneName(versions, s.column, name);
    forall id | id in Ids(versions) ensures NameAt(s, id) == Some(name) { NameAtExact(s, versions, id, name); }
  }

  lemma OneSelectionIsPlain(s: FieldSpec, versions: seq<Version>, name: string)
    requires WellFormed(versions) && IsSpec(s, versions) && SelectsThroughout(s, versions, name)
    ensures s.plain
  {
    var n := SpecHasVersion(s, versions);
    assert s.plain == Safe(versions, s.column);
    hide IsSpec, Safe, WellFormed;
    forall id | id in Ids(versions)
      ensures Declares(versions, id, name, s.column) { NameAtExact(s, versions, id, name); }
    OneNameIsSafe(versions, s.column, name);
  }

  /** `plain` is set exactly when the version-scoped CASE selects one and the same
      name for every version of the lineage. */
  lemma PlainExact(s: FieldSpec, versions: seq<Version>)
    requires WellFormed(versions) && IsSpec(s, versions)
    ensures s.plain <==> exists name :: SelectsThroughout(s, versions, name)
  {
    var n := SpecHasVersion(s, versions);
    hide *;
    if s.plain { PlainSelectsOneName(s, versions, n); }
    if name :| SelectsThroughout(s, versions, name) { OneSelectionIsPlain(s, versions, name); }
  }

  /** The view column reads the row's JSON under the name its own version gives the
      column, whichever of the two projections was generated. */
  lemma KeyReadExact(s: FieldSpec, versions: seq<Version>, id: VersionId)
    requires WellFormed(versions) && IsSpec(s, versions) && id in Ids(versions)
    ensures KeyRead(s, id) == NameAt(s, id)
  {
    var n := SpecHasVersion(s, versions);
    assert s.plain == Safe(versions, s.column);
    if s.plain {
      hide IsSpec, Safe, WellFormed;
      SafeMeansOneName(versions, s.column, s.branches[0].name);
      NameAtExact(s, versions, id, s.branches[0].name);
    }
  }

  lemma PlainAgreesWithCase(s: FieldSpec, versions: seq<Version>, r: Record)
    requires WellFormed(versions) && IsSpec(s, versions) && r.version in Ids(versions) && s.plain
    ensures s.branches != [] && PlainRead(s, r) == CaseRead(s, r) == ViewRead(s, r)
  {
    var n := SpecHasVersion(s, versions);
    KeyReadExact(s, versions, r.version);
  }

  /* ---- Round trip ---- */

  /** A record of version `v`: its column for each field `v` declares gives that
      field's own value, every other column gives NULL, and no two columns read the
      same JSON key. */
  lemma RoundTrip(versions: seq<Version>, v: Version, r: Record, s: FieldSpec)
    requires WellFormed(versions) && IsSpec(s, versions) && v in versions && r.version == v.id
    ensures forall f :: f in v.fields && f.column == Keyed(s.column) ==> ViewRead(s, r) == AsText(r.data, f.name)
    ensures (forall f :: f in v.fields ==> f.column != Keyed(s.column)) ==>
              KeyRead(s, r.version) == None && ViewRead(s, r) == None
  {
    hide IsSpec;
    IdOfVersion(versions, v);
    KeyReadExact(s, versions, r.version);
    forall f | f in v.fields && f.column == Keyed(s.column) ensures NameAt(s, v.id) == Some(f.name) {
      var i :| 0 <= i < |v.fields| && v.fields[i] == f;
      assert Declares(versions, v.id, f.name, s.column);
      NameAtExact(s, versions, v.id, f.name);
    }
    if (forall f :: f in v.fields ==> f.column != Keyed(s.column)) && NameAt(s, v.id).Some? {
      NameAtExact(s, versions, v.id, NameAt(s, v.id).value);
      DeclaredIn(versions, v, NameAt(s, v.id).value, s.column);
    }
  }

  lemma DeclaredIn(versions: seq<Version>, v: Version, name: string, key: Key)
    requires WellFormed(versions) && v in versions && Declares(versions, v.id, name, key)
    ensures exists f :: f in v.fields && f.name == name && f.column == Keyed(key)
  {
    var w, i :| w in versions && w.id == v.id && 0 <= i < |w.fields| && w.fields[i].name == name
      && w.fields[i].column == Keyed(key);
    SameVersion(versions, v, w);
    assert w.fields[i] in v.fields;
  }

  lemma NoSharedKey(versions: seq<Version>, s: FieldSpec, t: FieldSpec, id: VersionId)
    requires WellFormed(versions) && IsSpec(s, versions) && IsSpec(t, versions) && id in Ids(versions)
    requires s.column != t.column && KeyRead(s, id).Some? && KeyRead(t, id).Some?
    ensures KeyRead(s, id) != KeyRead(t, id)
  {
    KeyReadExact(s, versions, id);
    KeyReadExact(t, versions, id);
    hide IsSpec;
    var a, b := KeyRead(s, id).value, KeyRead(t, id).value;
    NameAtExact(s, versions, id, a);
    NameAtExact(t, versions, id, b);
    if a == b { DeclaresUnique(versions, id, a, s.column, b, t.column); }
  }

  /** Every field of every version has a column among the computed specs. */
  lemma EveryFieldHasAColumn(versions: seq<Version>, v: Version, f: Field)
    requires v in versions && f in v.fields && f.column.Keyed?
    ensures f.column.key in Order(Decls(versions))
  {
    var i :| 0 <= i < |v.fields| && v.fields[i] == f;
    DeclOfField(v, |v.fields|, i);
    DeclInLineage(versions, v, Decl(v.id, f.name, f.column.key));
    OrderMembers(Decls(versions));
  }

  /* ---- When a bare read would do ---- */

  /** On every record of the lineage a bare read gives what the CASE gives. */
  ghost predicate PlainWouldDo(s: FieldSpec, versions: seq<Version>)
    requires s.branches != []
  {
    forall r: Record :: r.version in Ids(versions) ==> PlainRead(s, r) == CaseRead(s, r)
  }

  /** The flag is set exactly when a bare read is right for every record: wherever the
      test says no, some record would show a value that is not the column's. */
  lemma PlainWouldDoExactly(s: FieldSpec, versions: seq<Version>)
    requires WellFormed(versions) && IsSpec(s, versions)
    ensures s.branches != [] && (s.plain <==> PlainWouldDo(s, versions))
  {
    var n := SpecHasVersion(s, versions);
    var bare := s.branches[0].name;
    hide IsSpec, WellFormed;
    if s.plain {
      forall r: Record | r.version in Ids(versions) ensures PlainRead(s, r) == CaseRead(s, r) {
        PlainAgreesWithCase(s, versions, r);
      }
    }
    if PlainWouldDo(s, versions) {
      forall id | id in Ids(versions) ensures NameAt(s, id) == Some(bare) {
        var r := Record(id, map[bare := Some("x")]);
        assert PlainRead(s, r) == CaseRead(s, r);
      }
      assert SelectsThroughout(s, versions, bare);
      OneSelectionIsPlain(s, versions, bare);
    }
  }

  /** One field in each of two versions, under different keys. */
  predicate TwoFields(v: Version, w: Version) {
    && v.id != w.id && |v.fields| == |w.fields| == 1
    && v.fields[0].column.Keyed? && w.fields[0].column.Keyed? && v.fields[0].column != w.fields[0].column
  }

  lemma TwoFieldsWellFormed(v: Version, w: Version)
    requires TwoFields(v, w)
    ensures WellFormed([v, w])
  {
  }

  lemma ReusedNameIndexes(v: Version, w: Version, s: FieldSpec)
    requires TwoFields(v, w) && v.fields[0].name == w.fields[0].name && IsSpec(s, [v, w])
    ensures var ds, name := Decls([v, w]), v.fields[0].name;
            && ByName(ds, s.column).Keys == {name} && Declaring(ds, name) == {v.id, w.id}
            && Owners(ds, name) == {v.fields[0].column.key, w.fields[0].column.key}
  {
    var ds, name := Decls([v, w]), v.fields[0].name;
    assert s.column in Order(ds);
    hide IsSpec, Decls, Order, ByName, Owners, Declaring, NamesForKey;
    DeclsOfTwo(v, w);
    TwoDecls(ds, Decl(v.id, name, v.fields[0].column.key), Decl(w.id, name, w.fields[0].column.key));
    OrderMembers(ds);
  }

  /** Only the second condition fails, because a later field reuses an earlier one's
      name; and a bare read of either column is then wrong for some record. */
  lemma NameReuseNeedsTheCase(v: Version, w: Version, s: FieldSpec)
    requires TwoFields(v, w) && v.fields[0].name == w.fields[0].name && IsSpec(s, [v, w])
    ensures var ds, name := Decls([v, w]), v.fields[0].name;
            && ByName(ds, s.column).Keys == {name} && Declaring(ds, name) == {v.id, w.id}
            && Owners(ds, name) == {v.fields[0].column.key, w.fields[0].column.key}
    ensures WellFormed([v, w]) && s.branches != [] && !PlainWouldDo(s, [v, w])
  {
    hide IsSpec, WellFormed, Decls, Order, PlainWouldDo, ByName, Owners, Declaring;
    ReusedNameIndexes(v, w, s);
    TwoFieldsWellFormed(v, w);
    PlainWouldDoExactly(s, [v, w]);
    if s.plain {
      PlainNeeds(s, [v, w]);
    }
  }

  /** Only the third condition fails, because the older version does not declare the
      name: a bare read is wrong for an older row that carries the name by hand. */
  lemma UndeclaredNameNeedsTheCase(v: Version, w: Version, s: FieldSpec)
    requires TwoFields(v, w) && v.fields[0].name != w.fields[0].name
    requires IsSpec(s, [v, w]) && s.column == w.fields[0].column.key
    ensures var ds, name := Decls([v, w]), w.fields[0].name;
            ByName(ds, s.column).Keys == {name} && Declaring(ds, name) == {w.id} && Owners(ds, name) == {s.column}
    ensures WellFormed([v, w]) && s.branches != [] && !PlainWouldDo(s, [v, w])
  {
    var versions, name := [v, w], w.fields[0].name;
    var ds := Decls(versions);
    var d, e := Decl(v.id, v.fields[0].name, v.fields[0].column.key), Decl(w.id, name, s.column);
    hide IsSpec, WellFormed, Decls, Order, PlainWouldDo, ByName, Owners, Declaring, NamesForKey;
    DeclsOfTwo(v, w);
    TwoDecls(ds, d, e);
    TwoFieldsWellFormed(v, w);
    PlainWouldDoExactly(s, versions);
    assert v in versions;
    if s.plain { PlainNeeds(s, versions); }
  }

  /** What the flag needs of each name its key ever had. */
  lemma PlainNeeds(s: FieldSpec, versions: seq<Version>)
    requires IsSpec(s, versions) && s.plain
    ensures var ds := Decls(versions);
            forall name :: name in ByName(ds, s.column) ==>
              Owners(ds, name) == {s.column} && forall v :: v in versions ==> v.id in Declaring(ds, name)
  {
    var ds, ids := Decls(versions), Ids(versions);
    forall name | name in ByName(ds, s.column)
      ensures Owners(ds, name) == {s.column} && forall v :: v in versions ==> v.id in Declaring(ds, name)
    {
      assert name in OwnersOfName(ds) && name in VersionsDeclaring(ds);
      forall v | v in versions ensures v.id in Declaring(ds, name) { IdOfVersion(versions, v); }
    }
  }

  /** The indexes of two declarations of different keys. */
  lemma TwoDecls(ds: seq<Decl>, d: Decl, e: Decl)
    requires ds == [d, e] && d.key != e.key
    ensures forall x :: x in ds <==> x == d || x == e
    ensures ByName(ds, d.key).Keys == {d.name} && ByName(ds, e.key).Keys == {e.name}
    ensures NamesForKey(ds).Keys == {d.key, e.key} && d.name in ByName(ds, d.key) && e.name in ByName(ds, e.key)
    ensures Declaring(ds, e.name) == if d.name == e.name then {d.version, e.version} else {e.version}
    ensures Owners(ds, e.name) == if d.name == e.name then {d.key, e.key} else {e.key}
    ensures e.name in OwnersOfName(ds) && e.name in VersionsDeclaring(ds)
  {
    assert ds[0] in ds && ds[1] in ds;
  }

  lemma DeclsOfTwo(v: Version, w: Version)
    requires |v.fields| == |w.fields| == 1 && v.fields[0].column.Keyed? && w.fields[0].column.Keyed?
    ensures Decls([v, w])
         == [Decl(v.id, v.fields[0].name, v.fields[0].column.key), Decl(w.id, w.fields[0].name, w.fields[0].column.key)]
  {
    assert [v, w][..1] == [v] && [v][..0] == [];
    assert DeclsOf(v, 1) == [] + [Decl(v.id, v.fields[0].name, v.fields[0].column.key)];
    assert DeclsOf(w, 1) == [] + [Decl(w.id, w.fields[0].name, w.fields[0].column.key)];
    assert Decls([v]) == [] + DeclsOf(v, 1);
  }

  /* ---- The order of the branches ---- */

  /** Version `v` of the lineage is the last to give the column this name. */
  ghost predicate LastNamed(versions: seq<Version>, v: nat, name: string, key: Key) {
    && v < |versions| && Declares(versions, versions[v].id, name, key)
    && forall w :: v < w < |versions| ==> !Declares(versions, versions[w].id, name, key)
  }

  lemma {:induction false} VersionsNamingConcat(a: seq<Decl>, b: seq<Decl>, key: Key, name: string)
    ensures VersionsNaming(a + b, key, name) == VersionsNaming(a, key, name) + VersionsNaming(b, key, name)
  {
    if b == [] {
      assert a + b == a;
    } else {
      VersionsNamingConcat(a, b[..|b| - 1], key, name);
      assert (a + b)[..|a + b| - 1] == a + b[..|b| - 1];
    }
  }

  lemma {:induction false} VersionsOfOne(v: Version, n: nat, key: Key, name: string)
    requires n <= |v.fields|
    ensures forall id :: id in VersionsNaming(DeclsOf(v, n), key, name) ==> id == v.id
  {
    VersionsNamingMembers(DeclsOf(v, n), key, name);
    forall id | id in VersionsNaming(DeclsOf(v, n), key, name) ensures id == v.id {
      DeclVersion(v, n, Decl(id, name, key));
    }
  }

  /** The dictionary's last version for a name is the last of the lineage that uses it. */
  lemma {:induction false} LastOfNaming(versions: seq<Version>, key: Key, name: string) returns (v: nat)
    requires VersionsNaming(Decls(versions), key, name) != []
    ensures var ids := VersionsNaming(Decls(versions), key, name);
            v < |versions| && ids[|ids| - 1] == versions[v].id
    ensures forall w :: v < w < |versions| ==>
              VersionsNaming(DeclsOf(versions[w], |versions[w].fields|), key, name) == []
  {
    var n := |versions| - 1;
    var last := versions[n];
    var own := VersionsNaming(DeclsOf(last, |last.fields|), key, name);
    VersionsNamingConcat(Decls(versions[..n]), DeclsOf(last, |last.fields|), key, name);
    if own == [] {
      v := LastOfNaming(versions[..n], key, name);
    } else {
      VersionsOfOne(last, |last.fields|, key, name);
      assert own[|own| - 1] in own;
      v := n;
    }
  }

  lemma NamedByVersion(versions: seq<Version>, w: nat, key: Key, name: string)
    requires WellFormed(versions) && w < |versions|
    ensures Declares(versions, versions[w].id, name, key)
       <==> VersionsNaming(DeclsOf(versions[w], |versions[w].fields|), key, name) != []
  {
    var ds := DeclsOf(versions[w], |versions[w].fields|);
    VersionsNamingMembers(ds, key, name);
    if VersionsNaming(ds, key, name) != [] {
      var id := VersionsNaming(ds, key, name)[0];
      assert id in VersionsNaming(ds, key, name);
      DeclVersion(versions[w], |versions[w].fields|, Decl(id, name, key));
      assert versions[w] in versions;
    }
    if Declares(versions, versions[w].id, name, key) {
      hide WellFormed;
      var v, i :| v in versions && v.id == versions[w].id && 0 <= i < |v.fields| && v.fields[i].name == name
        && v.fields[i].column == Keyed(key);
      SameVersion(versions, v, versions[w]);
      DeclOfField(v, |v.fields|, i);
      assert v.id in VersionsNaming(ds, key, name);
    }
  }

  lemma IndexIsPlace(versions: seq<Version>, v: nat)
    requires WellFormed(versions) && v < |versions|
    ensures versions[v].id in Ids(versions) && IndexOf(Ids(versions), versions[v].id) == v
  {
    assert Ids(versions)[v] == versions[v].id;
  }

  /** A branch's rank is the place of the last version that uses its name. */
  lemma RecencyIsLastNamed(versions: seq<Version>, key: Key, name: string)
    requires WellFormed(versions) && name in ByName(Decls(versions), key)
    requires Datable(ByName(Decls(versions), key), Ids(versions))
    ensures LastNamed(versions, Recency(ByName(Decls(versions), key), name, Ids(versions)), name, key)
  {
    hide Decls, WellFormed, Declares;
    var naming := VersionsNaming(Decls(versions), key, name);
    var v := LastOfNaming(versions, key, name);
    IndexIsPlace(versions, v);
    assert Recency(ByName(Decls(versions), key), name, Ids(versions)) == v;
    hide Recency, ByName, Ids;
    assert naming[|naming| - 1] in naming;
    VersionsNamingMembers(Decls(versions), key, name);
    DeclaresExact(versions, versions[v].id, name, key);
    hide VersionsNaming;
    forall w | v < w < |versions| ensures !Declares(versions, versions[w].id, name, key) {
      NamedByVersion(versions, w, key, name);
    }
  }

  /** Branches stand newest first: an earlier branch's name is used by some version after
      the last one that uses a later branch's. */
  lemma BranchesNewestFirst(s: FieldSpec, versions: seq<Version>, a: nat, b: nat) returns (v: nat, w: nat)
    requires WellFormed(versions) && IsSpec(s, versions) && a < b < |s.branches|
    ensures w < v && LastNamed(versions, v, s.branches[a].name, s.column)
    ensures LastNamed(versions, w, s.branches[b].name, s.column)
  {
    var byName, ids := ByName(Decls(versions), s.column), Ids(versions);
    v, w := Recency(byName, s.branches[a].name, ids), Recency(byName, s.branches[b].name, ids);
    assert v >= w && s.branches[a].name != s.branches[b].name;
    RecencyIsLastNamed(versions, s.column, s.branches[a].name);
    RecencyIsLastNamed(versions, s.column, s.branches[b].name);
    hide IsSpec, WellFormed, Declares, Recency;
    if v == w {
      DeclaresUnique(versions, versions[v].id, s.branches[a].name, s.column, s.branches[b].name, s.column);
    }
  }

  /** The first branch is the column's current name. */
  lemma FirstBranchIsCurrent(s: FieldSpec, versions: seq<Version>)
    requires WellFormed(versions) && IsSpec(s, versions)
    ensures s.branches != [] && s.branches[0].name == s.name
  {
    var n := SpecHasVersion(s, versions);
    var v, i := SpecIsNewest(s, versions);
    assert Declares(versions, versions[v].id, s.name, s.column) by { assert versions[v] in versions; }
    var k := HasBranch(s, versions, versions[v].id, s.name);
    if k > 0 {
      var a, b := BranchesNewestFirst(s, versions, 0, k);
      hide IsSpec;
      assert b >= v;
      UseOfDeclared(versions, a, s.branches[0].name, s.column);
    }
  }

  lemma UseOfDeclared(versions: seq<Version>, a: nat, name: string, key: Key)
    requires WellFormed(versions) && a < |versions| && Declares(versions, versions[a].id, name, key)
    ensures exists j: nat :: UsesAt(versions, a, j, key)
  {
    var v, i :| v in versions && v.id == versions[a].id && 0 <= i < |v.fields| && v.fields[i].name == name
      && v.fields[i].column == Keyed(key);
    SameVersion(versions, v, versions[a]);
    assert UsesAt(versions, a, i, key);
  }
}
