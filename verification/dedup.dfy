/** The dedup matcher: the same reading of a record as the view's, as a filter. */
module Dedup {
  import opened Common
  import opened Lineage
  import opened FieldSpecs
  import opened View

  type Extracted = map<string, Option<string>>

  /** The first non-null value of `name` over the staged objects. */
  function FirstValue(objects: seq<Extracted>, name: string): Option<string> {
    if objects == [] then None
    else if AsText(objects[0], name).Some? then AsText(objects[0], name)
    else FirstValue(objects[1..], name)
  }

  lemma {:induction false} FirstValueStep(objects: seq<Extracted>, name: string, i: nat)
    requires i < |objects|
    ensures FirstValue(objects[..i + 1], name)
         == if FirstValue(objects[..i], name).Some? then FirstValue(objects[..i], name) else AsText(objects[i], name)
  {
    if i > 0 {
      FirstValueStep(objects[1..], name, i - 1);
      assert objects[..i + 1][1..] == objects[1..][..i] && objects[..i][1..] == objects[1..][..i - 1];
    } else {
      assert objects[..1] == [objects[0]] && FirstValue([objects[0]][1..], name) == None;
    }
  }

  /** It is what the first object that has one says; a JSON null is no value. */
  lemma {:induction false} FirstValueExactly(objects: seq<Extracted>, name: string, value: string)
    ensures FirstValue(objects, name) == Some(value) <==>
            exists i :: 0 <= i < |objects| && FirstWith(objects, name, value, i)
    ensures FirstValue(objects, name) == None <==>
            forall i :: 0 <= i < |objects| ==> name !in objects[i] || objects[i][name] == None
  {
    if objects != [] {
      var rest := objects[1..];
      FirstValueExactly(rest, name, value);
      assert forall i :: 1 <= i < |objects| ==> objects[i] == rest[i - 1];
      if AsText(objects[0], name).None? {
        if i :| 0 <= i < |rest| && FirstWith(rest, name, value, i) {
          assert FirstWith(objects, name, value, i + 1);
        }
        if i :| 0 <= i < |objects| && FirstWith(objects, name, value, i) {
          assert FirstWith(rest, name, value, i - 1);
        }
      } else if AsText(objects[0], name) == Some(value) {
        assert FirstWith(objects, name, value, 0);
      }
    }
  }

  /** Object `i` holds this value, and no object before it holds any. */
  predicate FirstWith(objects: seq<Extracted>, name: string, value: string, i: nat)
    requires i < |objects|
  {
    && name in objects[i] && objects[i][name] == Some(value)
    && forall j :: 0 <= j < i ==> name !in objects[j] || objects[j][name] == None
  }

  method IdentityValues(objects: seq<Extracted>, names: seq<string>) returns (identity: map<string, string>)
    ensures forall name :: name in identity <==> name in names && FirstValue(objects, name).Some?
    ensures forall name :: name in identity ==> Some(identity[name]) == FirstValue(objects, name)
  {
    identity := map[];
    for i := 0 to |names|
      invariant forall name :: name in identity <==> name in names[..i] && FirstValue(objects, name).Some?
      invariant forall name :: name in identity ==> Some(identity[name]) == FirstValue(objects, name)
    {
      ghost var before := identity;
      var name := names[i];
      var known := name in identity;
      for j := 0 to |objects|
        invariant forall other :: other != name ==> (other in identity <==> other in before)
        invariant forall other :: other in before ==> other in identity && identity[other] == before[other]
        invariant !known ==> (name in identity <==> FirstValue(objects[..j], name).Some?)
        invariant !known && name in identity ==> Some(identity[name]) == FirstValue(objects[..j], name)
      {
        FirstValueStep(objects, name, j);
        var value := AsText(objects[j], name);
        if value.Some? && name !in identity {
          identity := identity[name := value.value];
        }
      }
      assert objects[..|objects|] == objects;
      assert names[..i + 1] == names[..i] + [name];
    }
    assert names[..|names|] == names;
  }

  predicate BranchMatches(b: Branch, value: string, r: Record) {
    r.version in b.versions && AsText(r.data, b.name) == Some(value)
  }

  /** The filter one identity column contributes. NULL compares as not equal. */
  predicate Matches(s: FieldSpec, value: string, r: Record) {
    if s.plain then AsText(r.data, s.name) == Some(value)
    else exists i :: 0 <= i < |s.branches| && BranchMatches(s.branches[i], value, r)
  }

  /** A record passes a column's filter exactly when the view shows the value there. */
  lemma MatcherAgreesWithView(s: FieldSpec, versions: seq<Version>, value: string, r: Record)
    requires WellFormed(versions) && IsSpec(s, versions) && r.version in Ids(versions)
    ensures Matches(s, value, r) <==> ViewRead(s, r) == Some(value)
  {
    KeyReadExact(s, versions, r.version);
    if s.plain {
      PlainReadsOwnName(s, versions, r.version);
    } else {
      hide IsSpec, WellFormed;
      NameInMember(s.branches, r.version);
      if i :| 0 <= i < |s.branches| && BranchMatches(s.branches[i], value, r) {
        BranchExact(s, versions, i, r.version);
        NameAtExact(s, versions, r.version, s.branches[i].name);
      }
    }
  }

  lemma PlainReadsOwnName(s: FieldSpec, versions: seq<Version>, id: VersionId)
    requires WellFormed(versions) && IsSpec(s, versions) && id in Ids(versions) && s.plain
    ensures KeyRead(s, id) == Some(s.name)
  {
    NewestIsDeclared(versions, s.column);
    assert s.plain == Safe(versions, s.column);
    KeyReadExact(s, versions, id);
    hide IsSpec, Safe, WellFormed;
    SafeMeansOneName(versions, s.column, s.name);
    NameAtExact(s, versions, id, s.name);
  }

  /** All identity columns are declared and valued. */
  predicate Complete(identityKeys: seq<Key>, specs: map<Key, FieldSpec>, objects: seq<Extracted>) {
    forall k :: k in identityKeys ==> k in specs && FirstValue(objects, specs[k].name).Some?
  }

  predicate MatchesAll(identityKeys: seq<Key>, specs: map<Key, FieldSpec>, objects: seq<Extracted>, r: Record) {
    forall k :: k in identityKeys ==>
      k in specs && FirstValue(objects, specs[k].name).Some?
        && Matches(specs[k], FirstValue(objects, specs[k].name).value, r)
  }

  /** `records` are the schema's rows in the order the query returns them. */
  method FindDedupMatch(records: seq<Record>, identityKeys: seq<Key>, objects: seq<Extracted>,
                        specs: map<Key, FieldSpec>)
    returns (found: Option<nat>)
    ensures found.Some? ==> found.value < |records| && MatchesAll(identityKeys, specs, objects, records[found.value])
    ensures found.Some? ==> forall i :: 0 <= i < found.value ==> !MatchesAll(identityKeys, specs, objects, records[i])
    ensures found.None? <==>
            !Complete(identityKeys, specs, objects)
            || forall r :: r in records ==> !MatchesAll(identityKeys, specs, objects, r)
  {
    var names: seq<string> := [];
    for i := 0 to |identityKeys|
      invariant forall k :: k in identityKeys[..i] && k in specs ==> specs[k].name in names
    {
      assert identityKeys[..i + 1] == identityKeys[..i] + [identityKeys[i]];
      if identityKeys[i] in specs { names := names + [specs[identityKeys[i]].name]; }
    }
    assert identityKeys[..|identityKeys|] == identityKeys;
    var identity := IdentityValues(objects, names);

    var filter: seq<(FieldSpec, string)> := [];
    for i := 0 to |identityKeys|
      invariant |filter| == i
      invariant forall k :: 0 <= k < i ==>
                  && identityKeys[k] in specs && filter[k].0 == specs[identityKeys[k]]
                  && FirstValue(objects, filter[k].0.name) == Some(filter[k].1)
    {
      var key := identityKeys[i];
      assert key in identityKeys;
      if key !in specs { return None; }
      if specs[key].name !in identity { return None; }
      filter := filter + [(specs[key], identity[specs[key].name])];
    }
    for i := 0 to |records|
      invariant forall k :: 0 <= k < i ==> !MatchesAll(identityKeys, specs, objects, records[k])
    {
      FilterMeansMatchesAll(filter, identityKeys, specs, objects, records[i]);
      if forall k :: 0 <= k < |filter| ==> Matches(filter[k].0, filter[k].1, records[i]) {
        assert records[i] in records;
        return Some(i);
      }
    }
    found := None;
  }

  lemma FilterMeansMatchesAll(filter: seq<(FieldSpec, string)>, identityKeys: seq<Key>, specs: map<Key, FieldSpec>,
                              objects: seq<Extracted>, r: Record)
    requires |filter| == |identityKeys|
    requires forall k :: 0 <= k < |filter| ==>
               && identityKeys[k] in specs && filter[k].0 == specs[identityKeys[k]]
               && FirstValue(objects, filter[k].0.name) == Some(filter[k].1)
    ensures (forall k :: 0 <= k < |filter| ==> Matches(filter[k].0, filter[k].1, r))
              <==> MatchesAll(identityKeys, specs, objects, r)
  {
    if MatchesAll(identityKeys, specs, objects, r) {
      forall k | 0 <= k < |filter| ensures Matches(filter[k].0, filter[k].1, r) {
        assert identityKeys[k] in identityKeys;
      }
    }
    if forall k :: 0 <= k < |filter| ==> Matches(filter[k].0, filter[k].1, r) {
      forall key | key in identityKeys
        ensures key in specs && FirstValue(objects, specs[key].name).Some?
                && Matches(specs[key], FirstValue(objects, specs[key].name).value, r)
      {
        var k :| 0 <= k < |identityKeys| && identityKeys[k] == key;
        assert Matches(filter[k].0, filter[k].1, r);
      }
    }
  }

  /** A match is a record whose view row shows, in every identity column, the
      document's value: across renames and reuse of names. */
  lemma MatchMeansSameIdentity(identityKeys: seq<Key>, specs: map<Key, FieldSpec>, objects: seq<Extracted>,
                               versions: seq<Version>, r: Record)
    requires WellFormed(versions) && r.version in Ids(versions)
    requires forall k :: k in specs ==> specs[k].column == k && IsSpec(specs[k], versions)
    ensures MatchesAll(identityKeys, specs, objects, r) <==>
            Complete(identityKeys, specs, objects)
            && forall k :: k in identityKeys ==> ViewRead(specs[k], r) == FirstValue(objects, specs[k].name)
  {
    forall k | k in identityKeys && k in specs && FirstValue(objects, specs[k].name).Some?
      ensures Matches(specs[k], FirstValue(objects, specs[k].name).value, r)
         <==> ViewRead(specs[k], r) == FirstValue(objects, specs[k].name)
    {
      MatcherAgreesWithView(specs[k], versions, FirstValue(objects, specs[k].name).value, r);
    }
  }

  /* ---- Objects staged under an older version ---- */

  /** The first value the view would show in a column for the staged objects, as rows
      of the version they were extracted under. */
  function OwnValue(objects: seq<Extracted>, s: FieldSpec, staged: VersionId): Option<string> {
    if objects == [] then None
    else if ViewRead(s, Record(staged, objects[0])).Some? then ViewRead(s, Record(staged, objects[0]))
    else OwnValue(objects[1..], s, staged)
  }

  lemma {:induction false} OwnValueByName(objects: seq<Extracted>, s: FieldSpec, staged: VersionId)
    requires KeyRead(s, staged) == Some(s.name)
    ensures OwnValue(objects, s, staged) == FirstValue(objects, s.name)
  {
    if objects != [] { OwnValueByName(objects[1..], s, staged); }
  }

  ghost predicate ReadsOwnValue(s: FieldSpec, staged: VersionId) {
    forall objects :: OwnValue(objects, s, staged) == FirstValue(objects, s.name)
  }

  /** The matcher takes a document's value under the column's newest name. That is the
      value of the document's own column, for all staged objects, if and only if the
      version they were extracted under gives the column that very name. */
  lemma OwnValueExactly(s: FieldSpec, versions: seq<Version>, staged: VersionId)
    requires WellFormed(versions) && IsSpec(s, versions) && staged in Ids(versions)
    ensures ReadsOwnValue(s, staged) <==> NameAt(s, staged) == Some(s.name)
  {
    KeyReadExact(s, versions, staged);
    hide IsSpec, WellFormed;
    if NameAt(s, staged) == Some(s.name) {
      forall objects ensures OwnValue(objects, s, staged) == FirstValue(objects, s.name) {
        OwnValueByName(objects, s, staged);
      }
    } else {
      var objects: seq<Extracted> := [map[s.name := Some("x")]];
      assert FirstValue(objects, s.name) == Some("x");
      assert objects[1..] == [] && OwnValue(objects, s, staged) == None;
    }
  }

  /** So where that holds for every identity column, a match is a record whose view row
      shows in each of them what the document's own view row would show. */
  lemma MatchMeansSameRow(identityKeys: seq<Key>, specs: map<Key, FieldSpec>, objects: seq<Extracted>,
                          versions: seq<Version>, staged: VersionId, r: Record)
    requires WellFormed(versions) && staged in Ids(versions) && r.version in Ids(versions)
    requires forall k :: k in specs ==> specs[k].column == k && IsSpec(specs[k], versions)
    requires forall k :: k in identityKeys && k in specs ==> NameAt(specs[k], staged) == Some(specs[k].name)
    ensures MatchesAll(identityKeys, specs, objects, r) <==>
            Complete(identityKeys, specs, objects)
            && forall k :: k in identityKeys ==> ViewRead(specs[k], r) == OwnValue(objects, specs[k], staged)
  {
    MatchMeansSameIdentity(identityKeys, specs, objects, versions, r);
    hide MatchesAll;
    forall k | k in identityKeys && k in specs
      ensures OwnValue(objects, specs[k], staged) == FirstValue(objects, specs[k].name) {
      KeyReadExact(specs[k], versions, staged);
      OwnValueByName(objects, specs[k], staged);
    }
  }

  /** Where it does not hold, another field's value is compared: a document extracted
      under the older of two versions, before the newer one reused the name. */
  lemma StaleDocumentComparesAnotherField(v: Version, w: Version, s: FieldSpec, value: string)
    requires TwoFields(v, w) && v.fields[0].name == w.fields[0].name
    requires IsSpec(s, [v, w]) && s.column == w.fields[0].column.key
    ensures var objects := [map[v.fields[0].name := Some(value)]];
            FirstValue(objects, s.name) == Some(value) && OwnValue(objects, s, v.id) == None
  {
    var versions, name := [v, w], v.fields[0].name;
    TwoFieldsWellFormed(v, w);
    IdOfVersion(versions, v);
    KeyReadExact(s, versions, v.id);
    NewestIsDeclared(versions, s.column);
    ReusedNameIndexes(v, w, s);
    assert s.name in ByName(Decls(versions), s.column);
    assert s.name == name;
    if NameAt(s, v.id).Some? {
      NameAtExact(s, versions, v.id, NameAt(s, v.id).value);
      DeclaredIn(versions, v, NameAt(s, v.id).value, s.column);
    }
    var objects: seq<Extracted> := [map[name := Some(value)]];
    assert objects[1..] == [];
  }
}
