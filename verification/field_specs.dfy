/** The projection of a lineage: which JSON key each view column reads, per row version. */
module FieldSpecs {
  import opened Common
  import opened Lineage

  type VersionId = nat

  datatype Version = Version(id: VersionId, fields: seq<Field>)

  /** One field declaration, flattened out of the lineage. */
  datatype Decl = Decl(version: VersionId, name: string, key: Key)

  datatype Branch = Branch(name: string, versions: seq<VersionId>)

  datatype FieldSpec = FieldSpec(column: Key, name: string, typ: string, rowScoped: bool, branches: seq<Branch>,
    plain: bool)

  function DeclsOf(v: Version, n: nat): seq<Decl>
    requires n <= |v.fields|
  {
    if n == 0 then []
    else
      var f := v.fields[n - 1];
      DeclsOf(v, n - 1) + (if f.column.Keyed? then [Decl(v.id, f.name, f.column.key)] else [])
  }

  function Decls(versions: seq<Version>): seq<Decl> {
    if versions == [] then []
    else Decls(versions[..|versions| - 1]) + DeclsOf(versions[|versions| - 1], |versions[|versions| - 1].fields|)
  }

  function Ids(versions: seq<Version>): (ids: seq<VersionId>)
    ensures |ids| == |versions|
  {
    seq(|versions|, i requires 0 <= i < |versions| => versions[i].id)
  }

  predicate AllVersionsKeyed(versions: seq<Version>) {
    forall v :: v in versions ==> AllKeyed(v.fields)
  }

  /* What each of the dictionaries built by the first loop holds. */

  function Order(ds: seq<Decl>): seq<Key> {
    if ds == [] then []
    else
      var rest, d := Order(ds[..|ds| - 1]), ds[|ds| - 1];
      if d.key in rest then rest else rest + [d.key]
  }

  function VersionsNaming(ds: seq<Decl>, key: Key, name: string): seq<VersionId> {
    if ds == [] then []
    else
      var rest, d := VersionsNaming(ds[..|ds| - 1], key, name), ds[|ds| - 1];
      if d.key == key && d.name == name then rest + [d.version] else rest
  }

  function NamesOf(ds: seq<Decl>, key: Key): set<string> {
    set d | d in ds && d.key == key :: d.name
  }

  function ByName(ds: seq<Decl>, key: Key): map<string, seq<VersionId>> {
    map name | name in NamesOf(ds, key) :: VersionsNaming(ds, key, name)
  }

  function NamesForKey(ds: seq<Decl>): map<Key, map<string, seq<VersionId>>> {
    map key | key in (set d | d in ds :: d.key) :: ByName(ds, key)
  }

  function Owners(ds: seq<Decl>, name: string): set<Key> {
    set d | d in ds && d.name == name :: d.key
  }

  function OwnersOfName(ds: seq<Decl>): map<string, set<Key>> {
    map name | name in (set d | d in ds :: d.name) :: Owners(ds, name)
  }

  function Declaring(ds: seq<Decl>, name: string): set<VersionId> {
    set d | d in ds && d.name == name :: d.version
  }

  function VersionsDeclaring(ds: seq<Decl>): map<string, set<VersionId>> {
    map name | name in (set d | d in ds :: d.name) :: Declaring(ds, name)
  }

  /** All fields of the lineage in the order the loop meets them. */
  function FieldsOf(versions: seq<Version>): seq<Field> {
    if versions == [] then [] else FieldsOf(versions[..|versions| - 1]) + versions[|versions| - 1].fields
  }

  /** The newest declaration of each key. */
  function Newest(fields: seq<Field>): map<Key, Field> {
    if fields == [] then map[]
    else
      var rest, f := Newest(fields[..|fields| - 1]), fields[|fields| - 1];
      if f.column.Keyed? then rest[f.column.key := f] else rest
  }

  function GetOr<K, V>(m: map<K, V>, k: K, default: V): V {
    if k in m then m[k] else default
  }

  /* One more declaration: each dictionary gains exactly the statement the loop runs. */

  lemma MembersStep(ds: seq<Decl>, d: Decl)
    ensures forall e :: e in ds + [d] <==> e in ds || e == d
    ensures (ds + [d])[..|ds|] == ds
  {
  }

  lemma ByNameStep(ds: seq<Decl>, d: Decl, key: Key)
    ensures ByName(ds + [d], key)
         == if key != d.key then ByName(ds, key)
            else ByName(ds, key)[d.name := GetOr(ByName(ds, key), d.name, []) + [d.version]]
  {
    MembersStep(ds, d);
    forall name ensures VersionsNaming(ds + [d], key, name)
                     == if d.key == key && d.name == name then VersionsNaming(ds, key, name) + [d.version]
                       else VersionsNaming(ds, key, name)
    {}
    if key == d.key && d.name !in NamesOf(ds, key) { NeverNamed(ds, key, d.name); }
    assert NamesOf(ds + [d], key) == NamesOf(ds, key) + if key == d.key then {d.name} else {};
  }

  lemma {:induction false} NeverNamed(ds: seq<Decl>, key: Key, name: string)
    requires name !in NamesOf(ds, key)
    ensures VersionsNaming(ds, key, name) == []
  {
    if ds != [] {
      var d := ds[|ds| - 1];
      assert d in ds;
      assert forall e :: e in ds[..|ds| - 1] ==> e in ds;
      NeverNamed(ds[..|ds| - 1], key, name);
    }
  }

  lemma NamesForKeyStep(ds: seq<Decl>, d: Decl)
    ensures NamesForKey(ds + [d]) == NamesForKey(ds)[d.key := ByName(ds + [d], d.key)]
    ensures GetOr(NamesForKey(ds), d.key, map[]) == ByName(ds, d.key)
  {
    MembersStep(ds, d);
    forall key | key != d.key ensures ByName(ds + [d], key) == ByName(ds, key) { ByNameStep(ds, d, key); }
    assert (set e | e in ds + [d] :: e.key) == (set e | e in ds :: e.key) + {d.key};
    if d.key !in NamesForKey(ds) {
      assert NamesOf(ds, d.key) == {};
    }
  }

  lemma OwnersStep(ds: seq<Decl>, d: Decl)
    ensures OwnersOfName(ds + [d]) == OwnersOfName(ds)[d.name := GetOr(OwnersOfName(ds), d.name, {}) + {d.key}]
  {
    MembersStep(ds, d);
    var now, then_ := OwnersOfName(ds), OwnersOfName(ds + [d]);
    assert then_.Keys == now.Keys + {d.name};
    assert GetOr(now, d.name, {}) == Owners(ds, d.name);
    forall name | name in then_
      ensures then_[name] == if name == d.name then Owners(ds, name) + {d.key} else now[name]
    {
      assert Owners(ds + [d], name) == Owners(ds, name) + if name == d.name then {d.key} else {};
    }
  }

  lemma DeclaringStep(ds: seq<Decl>, d: Decl)
    ensures VersionsDeclaring(ds + [d])
              == VersionsDeclaring(ds)[d.name := GetOr(VersionsDeclaring(ds), d.name, {}) + {d.version}]
  {
    MembersStep(ds, d);
    var now, then_ := VersionsDeclaring(ds), VersionsDeclaring(ds + [d]);
    assert then_.Keys == now.Keys + {d.name};
    assert GetOr(now, d.name, {}) == Declaring(ds, d.name);
    forall name | name in then_
      ensures then_[name] == if name == d.name then Declaring(ds, name) + {d.version} else now[name]
    {
      assert Declaring(ds + [d], name) == Declaring(ds, name) + if name == d.name then {d.version} else {};
    }
  }

  lemma {:induction false} OrderMembers(ds: seq<Decl>)
    ensures forall k :: k in Order(ds) <==> k in NamesForKey(ds)
    ensures forall i, j :: 0 <= i < j < |Order(ds)| ==> Order(ds)[i] != Order(ds)[j]
  {
    if ds != [] {
      var rest, d := ds[..|ds| - 1], ds[|ds| - 1];
      OrderMembers(rest);
      assert ds == rest + [d];
      NamesForKeyStep(rest, d);
    }
  }

  /* ---- field_specs ---- */

  /** The three conditions of `_plain_is_safe`. */
  predicate PlainIsSafe(key: Key, byName: map<string, seq<VersionId>>, owners: map<string, set<Key>>,
                        declaring: map<string, set<VersionId>>, allIds: seq<VersionId>)
  {
    && |byName| == 1
    && forall name :: name in byName ==>
         GetOr(owners, name, {}) == {key} && GetOr(declaring, name, {}) == set id | id in allIds
  }

  /** Position of a version in the lineage. */
  function IndexOf(ids: seq<VersionId>, id: VersionId): (i: nat)
    requires id in ids
    ensures i < |ids| && ids[i] == id
  {
    if ids[0] == id then 0 else 1 + IndexOf(ids[1..], id)
  }

  function InLineageOrder(ids: seq<VersionId>, wanted: set<VersionId>): (r: seq<VersionId>)
    ensures forall id :: id in r <==> id in ids && id in wanted
  {
    if ids == [] then []
    else (if ids[0] in wanted then [ids[0]] else []) + InLineageOrder(ids[1..], wanted)
  }

  predicate Datable(byName: map<string, seq<VersionId>>, allIds: seq<VersionId>) {
    forall name :: name in byName ==> byName[name] != [] && forall id :: id in byName[name] ==> id in allIds
  }

  function Recency(byName: map<string, seq<VersionId>>, name: string, allIds: seq<VersionId>): nat
    requires Datable(byName, allIds) && name in byName
  {
    IndexOf(allIds, byName[name][|byName[name]| - 1])
  }

  function Members(ids: seq<VersionId>): set<VersionId> {
    set id | id in ids
  }

  /** A branch holds the versions that use its name, in lineage order. */
  ghost predicate IsBranch(b: Branch, name: string, byName: map<string, seq<VersionId>>, allIds: seq<VersionId>)
    requires Datable(byName, allIds) && name in byName
  {
    && b.name == name && b.versions == InLineageOrder(allIds, Members(byName[name]))
    && forall id :: id in b.versions <==> id in byName[name]
  }

  /** One branch per name, newest first. */
  ghost predicate SortedBranches(branches: seq<Branch>, byName: map<string, seq<VersionId>>, allIds: seq<VersionId>)
    requires Datable(byName, allIds)
  {
    && (forall name :: name in byName <==> exists i :: 0 <= i < |branches| && branches[i].name == name)
    && (forall i :: 0 <= i < |branches| ==> branches[i].name in byName)
    && (forall i, j :: 0 <= i < j < |branches| ==> branches[i].name != branches[j].name)
    && (forall i, j :: 0 <= i < j < |branches| ==>
          Recency(byName, branches[i].name, allIds) >= Recency(byName, branches[j].name, allIds))
    && (forall i :: 0 <= i < |branches| ==>
          IsBranch(branches[i], branches[i].name, byName, allIds))
  }

  /** Highest rank first. */
  ghost predicate Descending(names: seq<string>, members: set<string>, rank: map<string, nat>)
    requires members <= rank.Keys
  {
    && (forall name :: name in names <==> name in members)
    && (forall i, j :: 0 <= i < j < |names| ==> names[i] != names[j])
    && (forall i, j :: 0 <= i < j < |names| ==> rank[names[i]] >= rank[names[j]])
  }

  method SortByRank(members: set<string>, rank: map<string, nat>) returns (names: seq<string>)
    requires members <= rank.Keys
    ensures Descending(names, members, rank)
  {
    names := [];
    var left := members;
    while left != {}
      invariant left <= members && Descending(names, members - left, rank)
      invariant forall done, name :: done in names && name in left ==> rank[done] >= rank[name]
      decreases left
    {
      var highest := Highest(left, rank);
      names := names + [highest];
      left := left - {highest};
    }
  }

  method Highest(left: set<string>, rank: map<string, nat>) returns (highest: string)
    requires left <= rank.Keys && left != {}
    ensures highest in left && forall name :: name in left ==> rank[highest] >= rank[name]
  {
    highest :| highest in left;
    var rest := left - {highest};
    while rest != {}
      invariant rest <= left && highest in left
      invariant forall name :: name in left && name !in rest ==> rank[highest] >= rank[name]
      decreases rest
    {
      var name :| name in rest;
      if rank[name] > rank[highest] { highest := name; }
      rest := rest - {name};
    }
  }

  method SortBranches(byName: map<string, seq<VersionId>>, allIds: seq<VersionId>) returns (branches: seq<Branch>)
    requires Datable(byName, allIds)
    ensures SortedBranches(branches, byName, allIds)
  {
    var rank := map name | name in byName :: Recency(byName, name, allIds);
    var names := SortByRank(byName.Keys, rank);
    branches := [];
    for i := 0 to |names|
      invariant |branches| == i
      invariant forall k :: 0 <= k < i ==> names[k] in byName && IsBranch(branches[k], names[k], byName, allIds)
    {
      assert names[i] in names;
      branches := branches + [Branch(names[i], InLineageOrder(allIds, Members(byName[names[i]])))];
      assert IsBranch(branches[i], names[i], byName, allIds);
    }
    BranchesSorted(branches, names, byName, allIds, rank);
  }

  lemma BranchesSorted(branches: seq<Branch>, names: seq<string>, byName: map<string, seq<VersionId>>,
                       allIds: seq<VersionId>, rank: map<string, nat>)
    requires Datable(byName, allIds) && rank == map name | name in byName :: Recency(byName, name, allIds)
    requires Descending(names, byName.Keys, rank) && |branches| == |names|
    requires forall k :: 0 <= k < |names| ==> names[k] in byName && IsBranch(branches[k], names[k], byName, allIds)
    ensures SortedBranches(branches, byName, allIds)
  {
    hide Recency, Datable;
    forall name | name in byName ensures exists i :: 0 <= i < |branches| && branches[i].name == name {
      var i :| 0 <= i < |names| && names[i] == name;
      assert branches[i].name == name;
    }
  }

  /** The name, type and scope come from the newest declaration. */
  predicate Describes(f: Field, s: FieldSpec) {
    s.name == f.name && s.typ == f.typ && s.rowScoped == f.rowScoped
  }

  /** What `field_specs` promises of the spec for one key. */
  ghost predicate IsSpec(s: FieldSpec, versions: seq<Version>) {
    var ds, ids := Decls(versions), Ids(versions);
    && s.column in Order(ds) && s.column in Newest(FieldsOf(versions))
    && Describes(Newest(FieldsOf(versions))[s.column], s)
    && Datable(ByName(ds, s.column), ids)
    && SortedBranches(s.branches, ByName(ds, s.column), ids)
    && s.plain == PlainIsSafe(s.column, ByName(ds, s.column), OwnersOfName(ds), VersionsDeclaring(ds), ids)
  }

  predicate Holds(v: Version, d: Decl) {
    v.id == d.version && d in DeclsOf(v, |v.fields|)
  }

  lemma {:induction false} DeclVersions(versions: seq<Version>, d: Decl)
    requires d in Decls(versions)
    ensures exists i :: 0 <= i < |versions| && Holds(versions[i], d)
  {
    var last := versions[|versions| - 1];
    if d in DeclsOf(last, |last.fields|) {
      DeclVersion(last, |last.fields|, d);
    } else {
      DeclVersions(versions[..|versions| - 1], d);
      var i :| 0 <= i < |versions| - 1 && Holds(versions[i], d);
    }
  }

  lemma {:induction false} DeclVersion(v: Version, n: nat, d: Decl)
    requires n <= |v.fields| && d in DeclsOf(v, n)
    ensures d.version == v.id
    ensures exists i :: 0 <= i < n && v.fields[i] == v.fields[i].(name := d.name, column := Keyed(d.key))
  {
    if d in DeclsOf(v, n - 1) {
      DeclVersion(v, n - 1, d);
    } else {
      assert v.fields[n - 1] == v.fields[n - 1].(name := d.name, column := Keyed(d.key));
    }
  }

  lemma {:induction false} VersionsNamingMembers(ds: seq<Decl>, key: Key, name: string)
    ensures forall id :: id in VersionsNaming(ds, key, name) <==> Decl(id, name, key) in ds
  {
    if ds != [] {
      var rest, d := ds[..|ds| - 1], ds[|ds| - 1];
      VersionsNamingMembers(rest, key, name);
      assert ds == rest + [d];
    }
  }

  lemma ByNameDatable(versions: seq<Version>, key: Key)
    ensures Datable(ByName(Decls(versions), key), Ids(versions))
  {
    var ds, ids := Decls(versions), Ids(versions);
    forall name | name in ByName(ds, key)
      ensures ByName(ds, key)[name] != [] && forall id :: id in ByName(ds, key)[name] ==> id in ids
    {
      VersionsNamingMembers(ds, key, name);
      var d :| d in ds && d.key == key && d.name == name;
      assert d.version in VersionsNaming(ds, key, name);
      forall id | id in VersionsNaming(ds, key, name) ensures id in ids {
        DeclVersions(versions, Decl(id, name, key));
        var i :| 0 <= i < |versions| && versions[i].id == id;
        assert ids[i] == id;
      }
    }
  }

  /** The order of keys and the three dictionaries of names, and what one declaration
      does to them. The dictionary of newest fields is kept beside them. */
  datatype Index = Index(order: seq<Key>, namesForKey: map<Key, map<string, seq<VersionId>>>,
                         owners: map<string, set<Key>>, declaring: map<string, set<VersionId>>)

  function Add(index: Index, d: Decl): Index {
    var byName := GetOr(index.namesForKey, d.key, map[]);
    Index(
      if d.key in index.namesForKey then index.order else index.order + [d.key],
      index.namesForKey[d.key := byName[d.name := GetOr(byName, d.name, []) + [d.version]]],
      index.owners[d.name := GetOr(index.owners, d.name, {}) + {d.key}],
      index.declaring[d.name := GetOr(index.declaring, d.name, {}) + {d.version}])
  }

  function Indexed(ds: seq<Decl>): Index {
    if ds == [] then Index([], map[], map[], map[]) else Add(Indexed(ds[..|ds| - 1]), ds[|ds| - 1])
  }

  /** Folding the declarations in one by one leaves exactly what the lineage declares. */
  lemma {:induction false} IndexedExact(ds: seq<Decl>)
    ensures Indexed(ds) == Index(Order(ds), NamesForKey(ds), OwnersOfName(ds), VersionsDeclaring(ds))
  {
    if ds != [] {
      var rest, d := ds[..|ds| - 1], ds[|ds| - 1];
      IndexedExact(rest);
      assert ds == rest + [d];
      OrderMembers(rest);
      NamesForKeyStep(rest, d);
      ByNameStep(rest, d, d.key);
      OwnersStep(rest, d);
      DeclaringStep(rest, d);
    }
  }

  lemma IndexedStep(ds: seq<Decl>, d: Decl)
    ensures Indexed(ds + [d]) == Add(Indexed(ds), d)
  {
    assert (ds + [d])[..|ds|] == ds;
  }

  lemma DeclsStep(versions: seq<Version>, i: nat)
    requires i < |versions|
    ensures Decls(versions[..i + 1]) == Decls(versions[..i]) + DeclsOf(versions[i], |versions[i].fields|)
    ensures FieldsOf(versions[..i + 1]) == FieldsOf(versions[..i]) + versions[i].fields
    ensures Ids(versions[..i + 1]) == Ids(versions[..i]) + [versions[i].id]
    ensures AllVersionsKeyed(versions[..i + 1]) <==> AllVersionsKeyed(versions[..i]) && AllKeyed(versions[i].fields)
  {
    assert versions[..i + 1][..i] == versions[..i];
    assert versions[..i + 1] == versions[..i] + [versions[i]];
  }

  lemma NewestStep(fields: seq<Field>, f: Field)
    requires f.column.Keyed?
    ensures Newest(fields + [f]) == Newest(fields)[f.column.key := f]
  {
    assert (fields + [f])[..|fields|] == fields;
  }

  lemma {:induction false} NewestMember(fields: seq<Field>, key: Key)
    ensures key in Newest(fields) <==> exists f :: f in fields && f.column == Keyed(key)
    ensures key in Newest(fields) ==> Newest(fields)[key] in fields && Newest(fields)[key].column == Keyed(key)
  {
    if fields != [] {
      var rest, f := fields[..|fields| - 1], fields[|fields| - 1];
      NewestMember(rest, key);
      assert fields == rest + [f];
    }
  }

  lemma {:induction false} FieldsMember(versions: seq<Version>, f: Field)
    ensures f in FieldsOf(versions) <==> exists v :: v in versions && f in v.fields
  {
    if versions != [] {
      var rest, last := versions[..|versions| - 1], versions[|versions| - 1];
      FieldsMember(rest, f);
      assert versions == rest + [last];
    }
  }

  lemma {:induction false} DeclOfField(v: Version, n: nat, i: nat)
    requires i < n <= |v.fields| && v.fields[i].column.Keyed?
    ensures Decl(v.id, v.fields[i].name, v.fields[i].column.key) in DeclsOf(v, n)
  {
    if i < n - 1 { DeclOfField(v, n - 1, i); }
  }

  lemma {:induction false} DeclInLineage(versions: seq<Version>, v: Version, d: Decl)
    requires v in versions && d in DeclsOf(v, |v.fields|)
    ensures d in Decls(versions)
  {
    var last := versions[|versions| - 1];
    if v != last {
      assert versions == versions[..|versions| - 1] + [last];
      DeclInLineage(versions[..|versions| - 1], v, d);
    }
  }

  /** The newest field of a key bears one of the key's names; every ordered key has one. */
  lemma NewestIsDeclared(versions: seq<Version>, key: Key)
    ensures key in Newest(FieldsOf(versions)) <==> key in Order(Decls(versions))
    ensures key in Newest(FieldsOf(versions)) ==> Newest(FieldsOf(versions))[key].name in NamesOf(Decls(versions), key)
  {
    var fields, ds := FieldsOf(versions), Decls(versions);
    NewestMember(fields, key);
    OrderMembers(ds);
    if key in Newest(fields) {
      var f := Newest(fields)[key];
      FieldsMember(versions, f);
      var v :| v in versions && f in v.fields;
      var i :| 0 <= i < |v.fields| && v.fields[i] == f;
      DeclOfField(v, |v.fields|, i);
      DeclInLineage(versions, v, Decl(v.id, f.name, key));
      assert Decl(v.id, f.name, key) in ds;
    }
    if key in Order(ds) {
      var d :| d in ds && d.key == key;
      DeclVersions(versions, d);
      var k :| 0 <= k < |versions| && versions[k].id == d.version && d in DeclsOf(versions[k], |versions[k].fields|);
      DeclVersion(versions[k], |versions[k].fields|, d);
      var i :| 0 <= i < |versions[k].fields|
        && versions[k].fields[i] == versions[k].fields[i].(name := d.name, column := Keyed(d.key));
      assert versions[k] in versions && versions[k].fields[i] in versions[k].fields;
      FieldsMember(versions, versions[k].fields[i]);
    }
  }

  /** The body of the inner loop. */
  method Declare(index: Index, version: VersionId, name: string, key: Key) returns (r: Index)
    ensures r == Add(index, Decl(version, name, key))
  {
    r := index;
    if key !in r.namesForKey {
      r := r.(order := r.order + [key], namesForKey := r.namesForKey[key := map[]]);
    }
    var byName := r.namesForKey[key];
    r := r.(namesForKey := r.namesForKey[key := byName[name := GetOr(byName, name, []) + [version]]]);
    r := r.(owners := r.owners[name := GetOr(r.owners, name, {}) + {key}]);
    r := r.(declaring := r.declaring[name := GetOr(r.declaring, name, {}) + {version}]);
  }

  method IndexVersion(v: Version, index: Index, latest: map<Key, Field>, ghost done: seq<Decl>,
                      ghost fields: seq<Field>)
    returns (r: Result<Index, KeyError>, latest': map<Key, Field>)
    requires index == Indexed(done) && latest == Newest(fields)
    ensures r.Ok? <==> AllKeyed(v.fields)
    ensures r.Ok? ==> r.value == Indexed(done + DeclsOf(v, |v.fields|)) && latest' == Newest(fields + v.fields)
  {
    hide Add, Indexed, Newest;
    var current := index;
    latest' := latest;
    ghost var now := done;
    assert fields + v.fields[..0] == fields;
    for j := 0 to |v.fields|
      invariant forall k :: 0 <= k < j ==> v.fields[k].column.Keyed?
      invariant now == done + DeclsOf(v, j) && current == Indexed(now)
      invariant latest' == Newest(fields + v.fields[..j])
    {
      var f := v.fields[j];
      if !f.column.Keyed? {
        return Err(InvalidKey), latest';
      }
      ghost var d := Decl(v.id, f.name, f.column.key);
      IndexedStep(now, d);
      NewestStep(fields + v.fields[..j], f);
      assert fields + v.fields[..j + 1] == (fields + v.fields[..j]) + [f];
      assert DeclsOf(v, j + 1) == DeclsOf(v, j) + [d];
      assert done + DeclsOf(v, j + 1) == now + [d];
      now := now + [d];
      latest' := latest'[f.column.key := f];
      current := Declare(current, v.id, f.name, f.column.key);
    }
    assert v.fields[..|v.fields|] == v.fields;
    r := Ok(current);
  }

  /** The first loop of `field_specs`. */
  method IndexLineage(versions: seq<Version>)
    returns (r: Result<Index, KeyError>, latest: map<Key, Field>, allIds: seq<VersionId>)
    ensures r.Ok? <==> AllVersionsKeyed(versions)
    ensures r.Ok? ==> r.value == Indexed(Decls(versions)) && allIds == Ids(versions)
    ensures r.Ok? ==> latest == Newest(FieldsOf(versions))
  {
    var index := Index([], map[], map[], map[]);
    allIds, latest := [], map[];
    for i := 0 to |versions|
      invariant AllVersionsKeyed(versions[..i]) && allIds == Ids(versions[..i])
      invariant index == Indexed(Decls(versions[..i])) && latest == Newest(FieldsOf(versions[..i]))
    {
      DeclsStep(versions, i);
      allIds := allIds + [versions[i].id];
      var more;
      more, latest := IndexVersion(versions[i], index, latest, Decls(versions[..i]), FieldsOf(versions[..i]));
      if more.Err? {
        assert versions[i] in versions;
        return more, latest, allIds;
      }
      index := more.value;
    }
    assert versions[..|versions|] == versions;
    r := Ok(index);
  }

  method BuildSpec(key: Key, index: Index, latest: map<Key, Field>, allIds: seq<VersionId>,
                   ghost versions: seq<Version>)
    returns (s: FieldSpec)
    requires index == Indexed(Decls(versions)) && latest == Newest(FieldsOf(versions)) && allIds == Ids(versions)
    requires key in index.order
    ensures s.column == key && IsSpec(s, versions)
  {
    IndexedExact(Decls(versions));
    OrderMembers(Decls(versions));
    ByNameDatable(versions, key);
    NewestIsDeclared(versions, key);
    hide Decls, Ids, Order, Newest, FieldsOf, SortedBranches, Datable, PlainIsSafe, Indexed;
    var byName := index.namesForKey[key];
    var branches := SortBranches(byName, allIds);
    var f := latest[key];
    s := FieldSpec(key, f.name, f.typ, f.rowScoped, branches,
                   PlainIsSafe(key, byName, index.owners, index.declaring, allIds));
  }

  method ComputeFieldSpecs(versions: seq<Version>) returns (r: Result<seq<FieldSpec>, KeyError>)
    ensures r.Ok? <==> AllVersionsKeyed(versions)
    ensures r.Ok? ==> |r.value| == |Order(Decls(versions))|
    ensures r.Ok? ==> forall i :: 0 <= i < |r.value| ==>
              r.value[i].column == Order(Decls(versions))[i] && IsSpec(r.value[i], versions)
  {
    hide IsSpec, Indexed, Order, Decls, Ids, Newest, FieldsOf;
    var indexed, latest, allIds := IndexLineage(versions);
    if indexed.Err? { return Err(indexed.error); }
    var index := indexed.value;
    assert index.order == Order(Decls(versions)) by { IndexedExact(Decls(versions)); }
    var specs: seq<FieldSpec> := [];
    for i := 0 to |index.order|
      invariant |specs| == i
      invariant forall k :: 0 <= k < i ==> specs[k].column == index.order[k] && IsSpec(specs[k], versions)
    {
      var s := BuildSpec(index.order[i], index, latest, allIds, versions);
      specs := specs + [s];
    }
    r := Ok(specs);
  }

  /* ---- Newest and first, in terms of the lineage ---- */

  /** Version `v` declares the key in its field `i`. */
  predicate UsesAt(versions: seq<Version>, v: nat, i: nat, key: Key) {
    v < |versions| && i < |versions[v].fields| && versions[v].fields[i].column == Keyed(key)
  }

  /** No later field of the lineage bears the key. */
  ghost predicate LastUse(versions: seq<Version>, v: nat, i: nat, key: Key) {
    && UsesAt(versions, v, i, key)
    && forall w: nat, j: nat :: UsesAt(versions, w, j, key) ==> w < v || (w == v && j <= i)
  }

  lemma {:induction false} NewestConcat(a: seq<Field>, b: seq<Field>)
    ensures Newest(a + b) == Newest(a) + Newest(b)
  {
    if b == [] {
      assert a + b == a;
    } else {
      NewestConcat(a, b[..|b| - 1]);
      assert (a + b)[..|a + b| - 1] == a + b[..|b| - 1];
    }
  }

  lemma {:induction false} NewestInList(fields: seq<Field>, key: Key) returns (i: nat)
    requires key in Newest(fields)
    ensures i < |fields| && fields[i] == Newest(fields)[key] && fields[i].column == Keyed(key)
    ensures forall j :: i < j < |fields| ==> fields[j].column != Keyed(key)
  {
    var n := |fields| - 1;
    if fields[n].column == Keyed(key) {
      i := n;
    } else {
      i := NewestInList(fields[..n], key);
    }
  }

  lemma NotInList(fields: seq<Field>, key: Key)
    requires key !in Newest(fields)
    ensures forall j :: 0 <= j < |fields| ==> fields[j].column != Keyed(key)
  {
    NewestMember(fields, key);
  }

  /** The newest field of a key is its last use. */
  lemma {:induction false} NewestIsLastUse(versions: seq<Version>, key: Key) returns (v: nat, i: nat)
    requires key in Newest(FieldsOf(versions))
    ensures LastUse(versions, v, i, key) && Newest(FieldsOf(versions))[key] == versions[v].fields[i]
  {
    var n := |versions| - 1;
    NewestConcat(FieldsOf(versions[..n]), versions[n].fields);
    if key in Newest(versions[n].fields) {
      v := n;
      i := NewestInList(versions[n].fields, key);
    } else {
      NotInList(versions[n].fields, key);
      v, i := NewestIsLastUse(versions[..n], key);
      forall w: nat, j: nat | UsesAt(versions, w, j, key) ensures UsesAt(versions[..n], w, j, key) {
      }
    }
  }

  /** A column's name, type and scope are those of the last field that bears its key. */
  lemma SpecIsNewest(s: FieldSpec, versions: seq<Version>) returns (v: nat, i: nat)
    requires IsSpec(s, versions)
    ensures LastUse(versions, v, i, s.column)
    ensures var f := versions[v].fields[i]; s.name == f.name && s.typ == f.typ && s.rowScoped == f.rowScoped
  {
    v, i := NewestIsLastUse(versions, s.column);
  }

  /** Some use of the first key comes before every use of the second. */
  ghost predicate UsedBefore(versions: seq<Version>, first: Key, second: Key) {
    exists v: nat, i: nat :: UsesAt(versions, v, i, first) && AllUsesAfter(versions, v, i, second)
  }

  ghost predicate AllUsesAfter(versions: seq<Version>, v: nat, i: nat, key: Key) {
    forall w: nat, j: nat :: UsesAt(versions, w, j, key) ==> v < w || (v == w && i < j)
  }

  /** The lineage up to field `n` of its last version. */
  function Cut(versions: seq<Version>, n: nat): seq<Version>
    requires versions != [] && n <= |versions[|versions| - 1].fields|
  {
    var last := versions[|versions| - 1];
    versions[..|versions| - 1] + [last.(fields := last.fields[..n])]
  }

  lemma {:induction false} DeclsOfCut(v: Version, n: nat, m: nat)
    requires n <= m <= |v.fields|
    ensures DeclsOf(v.(fields := v.fields[..m]), n) == DeclsOf(v, n)
  {
    if n > 0 { DeclsOfCut(v, n - 1, m); }
  }

  lemma DeclsOfCutLineage(versions: seq<Version>, n: nat)
    requires versions != [] && n <= |versions[|versions| - 1].fields|
    ensures Decls(Cut(versions, n)) == Decls(versions[..|versions| - 1]) + DeclsOf(versions[|versions| - 1], n)
  {
    var last := versions[|versions| - 1];
    DeclsOfCut(last, n, n);
    assert Cut(versions, n)[..|versions| - 1] == versions[..|versions| - 1];
  }

  lemma OrderStep(ds: seq<Decl>, d: Decl)
    ensures Order(ds + [d]) == if d.key in Order(ds) then Order(ds) else Order(ds) + [d.key]
  {
    assert (ds + [d])[..|ds|] == ds;
  }

  /** A key is ordered exactly when some field of the lineage bears it. */
  lemma OrderedExactly(versions: seq<Version>, key: Key)
    ensures key in Order(Decls(versions)) <==> exists v: nat, i: nat :: UsesAt(versions, v, i, key)
  {
    NewestIsDeclared(versions, key);
    if key in Newest(FieldsOf(versions)) {
      var v, i := NewestIsLastUse(versions, key);
      assert UsesAt(versions, v, i, key);
    }
    if v: nat, i: nat :| UsesAt(versions, v, i, key) {
      assert versions[v] in versions && versions[v].fields[i] in versions[v].fields;
      FieldsMember(versions, versions[v].fields[i]);
      NewestMember(FieldsOf(versions), key);
    }
  }

  lemma UsesOfCut(versions: seq<Version>, n: nat, w: nat, j: nat, key: Key)
    requires versions != [] && 0 < n <= |versions[|versions| - 1].fields|
    ensures UsesAt(Cut(versions, n), w, j, key) <==>
            || UsesAt(Cut(versions, n - 1), w, j, key)
            || (w == |versions| - 1 && j == n - 1 && versions[w].fields[j].column == Keyed(key))
  {
  }

  lemma UsedBeforeGrows(versions: seq<Version>, n: nat, first: Key, second: Key)
    requires versions != [] && 0 < n <= |versions[|versions| - 1].fields|
    requires UsedBefore(Cut(versions, n - 1), first, second)
    ensures UsedBefore(Cut(versions, n), first, second)
  {
    hide UsesAt;
    var v: nat, i: nat :| UsesAt(Cut(versions, n - 1), v, i, first)
      && AllUsesAfter(Cut(versions, n - 1), v, i, second);
    UsesOfCut(versions, n, v, i, first);
    UseIsEarly(versions, n, v, i, first);
    forall w: nat, j: nat | UsesAt(Cut(versions, n), w, j, second) ensures v < w || (v == w && i < j) {
      UsesOfCut(versions, n, w, j, second);
    }
  }

  lemma UseIsEarly(versions: seq<Version>, n: nat, v: nat, i: nat, key: Key)
    requires versions != [] && 0 < n <= |versions[|versions| - 1].fields|
    requires UsesAt(Cut(versions, n - 1), v, i, key)
    ensures v < |versions| - 1 || (v == |versions| - 1 && i < n - 1)
  {
  }

  lemma NewKeyIsLast(versions: seq<Version>, n: nat, first: Key, second: Key)
    requires versions != [] && 0 < n <= |versions[|versions| - 1].fields|
    requires first in Order(Decls(Cut(versions, n - 1))) && second !in Order(Decls(Cut(versions, n - 1)))
    requires versions[|versions| - 1].fields[n - 1].column == Keyed(second)
    ensures UsedBefore(Cut(versions, n), first, second)
  {
    OrderedExactly(Cut(versions, n - 1), first);
    OrderedExactly(Cut(versions, n - 1), second);
    hide UsesAt, Decls, Order;
    var v: nat, i: nat :| UsesAt(Cut(versions, n - 1), v, i, first);
    UsesOfCut(versions, n, v, i, first);
    UseIsEarly(versions, n, v, i, first);
    forall w: nat, j: nat | UsesAt(Cut(versions, n), w, j, second) ensures v < w || (v == w && i < j) {
      UsesOfCut(versions, n, w, j, second);
    }
  }

  lemma EmptyVersionChangesNothing(versions: seq<Version>, first: Key, second: Key)
    requires versions != [] && UsedBefore(versions[..|versions| - 1], first, second)
    ensures UsedBefore(Cut(versions, 0), first, second)
  {
    var init := versions[..|versions| - 1];
    var v: nat, i: nat :| UsesAt(init, v, i, first) && AllUsesAfter(init, v, i, second);
    assert UsesAt(Cut(versions, 0), v, i, first);
    forall w: nat, j: nat | UsesAt(Cut(versions, 0), w, j, second) ensures v < w || (v == w && i < j) {
      assert UsesAt(init, w, j, second);
    }
  }

  lemma {:induction false} OrderUpTo(versions: seq<Version>, n: nat, a: nat, b: nat)
    requires versions != [] && n <= |versions[|versions| - 1].fields|
    requires a < b < |Order(Decls(Cut(versions, n)))|
    ensures var order := Order(Decls(Cut(versions, n))); UsedBefore(Cut(versions, n), order[a], order[b])
    decreases |versions|, n
  {
    hide *;
    OrderOfCut(versions, n);
    var init, f := versions[..|versions| - 1], versions[|versions| - 1].fields;
    if n == 0 {
      WholeIsCut(init);
      OrderUpTo(init, |init[|init| - 1].fields|, a, b);
      EmptyVersionChangesNothing(versions, Order(Decls(init))[a], Order(Decls(init))[b]);
    } else {
      var before := Order(Decls(Cut(versions, n - 1)));
      if b < |before| {
        OrderUpTo(versions, n - 1, a, b);
        UsedBeforeGrows(versions, n, before[a], before[b]);
      } else {
        NewKeyIsLast(versions, n, before[a], f[n - 1].column.key);
      }
    }
  }

  /** One more field adds at most its own key. */
  lemma OrderOfCut(versions: seq<Version>, n: nat)
    requires versions != [] && n <= |versions[|versions| - 1].fields|
    ensures n == 0 ==> Decls(Cut(versions, 0)) == Decls(versions[..|versions| - 1])
    ensures n > 0 ==>
              var before, column := Order(Decls(Cut(versions, n - 1))), versions[|versions| - 1].fields[n - 1].column;
              Order(Decls(Cut(versions, n)))
              == if column.Keyed? && column.key !in before then before + [column.key] else before
  {
    DeclsOfCutLineage(versions, n);
    hide Cut, Order, InLineageOrder;
    if n > 0 {
      DeclsOfCutLineage(versions, n - 1);
      var last := versions[|versions| - 1];
      var f, ds := last.fields[n - 1], Decls(Cut(versions, n - 1));
      hide Decls;
      if f.column.Keyed? {
        assert Decls(Cut(versions, n)) == ds + [Decl(last.id, f.name, f.column.key)];
        OrderStep(ds, Decl(last.id, f.name, f.column.key));
      } else {
        assert Decls(Cut(versions, n)) == ds;
      }
    }
  }

  lemma WholeIsCut(versions: seq<Version>)
    ensures versions != [] ==> Cut(versions, |versions[|versions| - 1].fields|) == versions
    ensures versions == [] ==> Order(Decls(versions)) == []
  {
    if versions != [] {
      var last := versions[|versions| - 1];
      assert last.fields[..|last.fields|] == last.fields;
    }
  }

  /** Columns come in the order in which the lineage first uses their keys. */
  lemma OrderIsFirstUse(versions: seq<Version>, a: nat, b: nat)
    requires a < b < |Order(Decls(versions))|
    ensures UsedBefore(versions, Order(Decls(versions))[a], Order(Decls(versions))[b])
  {
    WholeIsCut(versions);
    OrderUpTo(versions, |versions[|versions| - 1].fields|, a, b);
  }

  lemma InLineageOrderSorted(ids: seq<VersionId>, wanted: set<VersionId>, a: nat, b: nat) returns (i: nat, j: nat)
    requires a < b < |InLineageOrder(ids, wanted)|
    ensures i < j < |ids| && ids[i] == InLineageOrder(ids, wanted)[a] && ids[j] == InLineageOrder(ids, wanted)[b]
    decreases ids
  {
    var rest := InLineageOrder(ids[1..], wanted);
    if ids[0] !in wanted {
      i, j := InLineageOrderSorted(ids[1..], wanted, a, b);
      i, j := i + 1, j + 1;
    } else if a == 0 {
      assert InLineageOrder(ids, wanted)[b] == rest[b - 1];
      assert rest[b - 1] in rest;
      i := 0;
      var k :| 0 <= k < |ids[1..]| && ids[1..][k] == rest[b - 1];
      j := k + 1;
    } else {
      assert InLineageOrder(ids, wanted)[a] == rest[a - 1] && InLineageOrder(ids, wanted)[b] == rest[b - 1];
      i, j := InLineageOrderSorted(ids[1..], wanted, a - 1, b - 1);
      i, j := i + 1, j + 1;
    }
  }
}
