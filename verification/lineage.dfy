/** Column keys: assignment over the edit history of one schema lineage. */
module Lineage {
  import opened Common

  type Key = nat

  /** A field's stored or supplied `column`: missing, well formed, or anything else. */
  datatype Column = Absent | Keyed(key: Key) | Malformed

  datatype Field = Field(name: string, column: Column, typ: string, rowScoped: bool)

  datatype KeyError = EmptyName | DuplicateName | InvalidKey | KeyUsedTwice | ForeignKey

  /** All fields of a lineage, oldest version first. */
  function Flat(versions: seq<seq<Field>>): seq<Field> {
    if versions == [] then [] else Flat(versions[..|versions| - 1]) + versions[|versions| - 1]
  }

  /** Name to key: the last keyed declaration of a name wins. */
  function NameMap(fields: seq<Field>): map<string, Key> {
    if fields == [] then map[]
    else
      var rest, f := NameMap(fields[..|fields| - 1]), fields[|fields| - 1];
      if f.column.Keyed? then rest[f.name := f.column.key] else rest
  }

  function Keys(fields: seq<Field>): set<Key> {
    set f | f in fields && f.column.Keyed? :: f.column.key
  }

  method LineageNameMap(versions: seq<seq<Field>>) returns (nameToKey: map<string, Key>, known: set<Key>)
    ensures nameToKey == NameMap(Flat(versions)) && known == Keys(Flat(versions))
  {
    nameToKey, known := map[], {};
    ghost var done: seq<Field> := [];
    for i := 0 to |versions|
      invariant done == Flat(versions[..i])
      invariant nameToKey == NameMap(done) && known == Keys(done)
    {
      ghost var before, fields := done, versions[i];
      for j := 0 to |versions[i]|
        invariant fields == versions[i] && done == before + fields[..j]
        invariant nameToKey == NameMap(done) && known == Keys(done)
      {
        var f := versions[i][j];
        KeysStep(done, f);
        NameMapStep(done, f);
        assert fields[..j + 1] == fields[..j] + [f];
        done := done + [f];
        if f.column.Keyed? {
          known := known + {f.column.key};
          nameToKey := nameToKey[f.name := f.column.key];
        }
      }
      assert fields[..|fields|] == fields;
      FlatStep(versions, i);
    }
    assert versions[..|versions|] == versions;
  }

  lemma FlatStep(versions: seq<seq<Field>>, i: nat)
    requires i < |versions|
    ensures Flat(versions[..i + 1]) == Flat(versions[..i]) + versions[i]
  {
    assert versions[..i + 1][..i] == versions[..i];
  }

  lemma NameMapStep(done: seq<Field>, f: Field)
    ensures NameMap(done + [f]) == if f.column.Keyed? then NameMap(done)[f.name := f.column.key] else NameMap(done)
  {
    assert (done + [f])[..|done|] == done;
  }

  lemma KeysStep(done: seq<Field>, f: Field)
    ensures Keys(done + [f]) == Keys(done) + if f.column.Keyed? then {f.column.key} else {}
  {
    assert forall g :: g in done + [f] <==> g in done || g == f;
  }

  lemma FreshKeyExists(taken: set<Key>) returns (k: Key)
    ensures forall t :: t in taken ==> t < k
  {
    k := 0;
    var left := taken;
    while left != {}
      invariant left <= taken
      invariant forall t :: t in taken && t !in left ==> t < k
      decreases left
    {
      var t :| t in left;
      left := left - {t};
      k := if t < k then k else t + 1;
    }
  }

  /** Any key nobody has taken. */
  method MintColumnKey(taken: set<Key>) returns (key: Key)
    ensures key !in taken
  {
    ghost var k := FreshKeyExists(taken);
    assert k !in taken;
    key :| key !in taken;
  }

  /* ---- What a request may be, and what may come back ---- */

  predicate Trusted(lineage: seq<seq<Field>>) {
    lineage != []
  }

  /** The key a field supplies and the server honours. */
  function Supplied(f: Field, trust: bool): Option<Key> {
    if trust && f.column.Keyed? then Some(f.column.key) else None
  }

  function SuppliedKeys(fields: seq<Field>, trust: bool): set<Key> {
    set f | f in fields && Supplied(f, trust).Some? :: Supplied(f, trust).value
  }

  predicate NamesFine(fields: seq<Field>) {
    && (forall i :: 0 <= i < |fields| ==> Strip(fields[i].name) != "")
    && (forall i, j :: 0 <= i < j < |fields| ==> Strip(fields[i].name) != Strip(fields[j].name))
  }

  predicate KeysFine(fields: seq<Field>, known: set<Key>) {
    && (forall i :: 0 <= i < |fields| ==> !fields[i].column.Malformed?)
    && (forall i :: 0 <= i < |fields| && fields[i].column.Keyed? ==> fields[i].column.key in known)
    && (forall i, j :: 0 <= i < j < |fields| && fields[i].column.Keyed? && fields[j].column.Keyed? ==>
         fields[i].column.key != fields[j].column.key)
  }

  predicate ValidRequest(fields: seq<Field>, lineage: seq<seq<Field>>) {
    NamesFine(fields) && (Trusted(lineage) ==> KeysFine(fields, Keys(Flat(lineage))))
  }

  predicate AllKeyed(fields: seq<Field>) {
    forall i :: 0 <= i < |fields| ==> fields[i].column.Keyed?
  }

  /** The key given to field `i`, whose predecessors got those of `out[..i]`. */
  predicate Chosen(fields: seq<Field>, lineage: seq<seq<Field>>, out: seq<Field>, i: nat)
    requires i < |out| <= |fields| && AllKeyed(out)
  {
    Fits(fields[i], Supplied(fields[i], Trusted(lineage)), lineage,
         SuppliedKeys(fields, Trusted(lineage)) + Keys(out[..i]), out[i].column.key)
  }

  predicate Fits(f: Field, supplied: Option<Key>, lineage: seq<seq<Field>>, used: set<Key>, key: Key) {
    var names, name := NameMap(Flat(lineage)), Strip(f.name);
    if supplied.Some? then key == supplied.value
    else if name in names && names[name] !in used then key == names[name]
    else key !in Keys(Flat(lineage)) + used
  }

  /** Every result `assign_column_keys` can return, over all choices of minted keys. */
  ghost predicate Outcome(fields: seq<Field>, lineage: seq<seq<Field>>, out: seq<Field>) {
    && ValidRequest(fields, lineage)
    && |out| == |fields|
    && AllKeyed(out)
    && (forall i :: 0 <= i < |fields| ==> out[i] == fields[i].(column := out[i].column))
    && (forall i :: 0 <= i < |fields| ==> Chosen(fields, lineage, out, i))
  }

  function StrippedNames(fields: seq<Field>): set<string> {
    set f | f in fields :: Strip(f.name)
  }

  /** Both checks of pass 1, one more field at a time. */
  lemma CheckStep(done: seq<Field>, f: Field, known: set<Key>)
    ensures NamesFine(done + [f]) <==>
            NamesFine(done) && Strip(f.name) != "" && Strip(f.name) !in StrippedNames(done)
    ensures StrippedNames(done + [f]) == StrippedNames(done) + {Strip(f.name)}
    ensures KeysFine(done + [f], known) <==>
            && KeysFine(done, known) && !f.column.Malformed?
            && (f.column.Keyed? ==> f.column.key in known && f.column.key !in SuppliedKeys(done, true))
  {
    NamesStep(done, f);
    SuppliedStep(done, f, known);
  }

  lemma SuppliedKeysStep(done: seq<Field>, f: Field, trust: bool)
    ensures SuppliedKeys(done + [f], trust)
         == SuppliedKeys(done, trust) + (if trust && f.column.Keyed? then {f.column.key} else {})
  {
    assert forall g :: g in done + [f] <==> g in done || g == f;
    assert f in done + [f];
    forall k | k in SuppliedKeys(done, trust) ensures k in SuppliedKeys(done + [f], trust) {
      var g :| g in done && Supplied(g, trust) == Some(k);
      assert g in done + [f];
    }
  }

  lemma NamesStep(done: seq<Field>, f: Field)
    ensures NamesFine(done + [f]) <==>
            NamesFine(done) && Strip(f.name) != "" && Strip(f.name) !in StrippedNames(done)
    ensures StrippedNames(done + [f]) == StrippedNames(done) + {Strip(f.name)}
  {
    var all := done + [f];
    assert all[|done|] == f && forall i :: 0 <= i < |done| ==> all[i] == done[i];
    assert forall g :: g in all <==> g in done || g == f;
    if NamesFine(all) {
      forall g | g in done ensures Strip(g.name) != Strip(f.name) {
        var i :| 0 <= i < |done| && done[i] == g;
        assert Strip(all[i].name) != Strip(all[|done|].name);
      }
    }
  }

  lemma SuppliedStep(done: seq<Field>, f: Field, known: set<Key>)
    ensures KeysFine(done + [f], known) <==>
            && KeysFine(done, known) && !f.column.Malformed?
            && (f.column.Keyed? ==> f.column.key in known && f.column.key !in SuppliedKeys(done, true))
  {
    var all := done + [f];
    assert all[|done|] == f && forall i :: 0 <= i < |done| ==> all[i] == done[i];
    if KeysFine(all, known) && f.column.Keyed? {
      forall g | g in done && g.column.Keyed? ensures g.column.key != f.column.key {
        var i :| 0 <= i < |done| && done[i] == g;
        assert all[i].column.Keyed? && all[|done|].column.Keyed?;
      }
    }
    if KeysFine(done, known) && f.column.Keyed? && f.column.key !in SuppliedKeys(done, true) {
      forall i | 0 <= i < |done| && all[i].column.Keyed? ensures all[i].column.key != f.column.key {
        assert done[i] in done && Supplied(done[i], true) == Some(done[i].column.key);
      }
    }
  }

  lemma PrefixFine(fields: seq<Field>, n: nat, known: set<Key>)
    requires n <= |fields|
    ensures NamesFine(fields) ==> NamesFine(fields[..n])
    ensures KeysFine(fields, known) ==> KeysFine(fields[..n], known)
  {
    assert forall i :: 0 <= i < n ==> fields[..n][i] == fields[i];
  }

  /** What is wrong with a field, after fields of these names and supplied keys. */
  function FieldFault(f: Field, names: set<string>, used: set<Key>, trust: bool, known: set<Key>): Option<KeyError> {
    if Strip(f.name) == "" then Some(EmptyName)
    else if Strip(f.name) in names then Some(DuplicateName)
    else if f.column.Absent? || !trust then None
    else if f.column.Malformed? then Some(InvalidKey)
    else if f.column.key in used then Some(KeyUsedTwice)
    else if f.column.key !in known then Some(ForeignKey)
    else None
  }

  predicate Fine(fields: seq<Field>, trust: bool, known: set<Key>) {
    NamesFine(fields) && (trust ==> KeysFine(fields, known))
  }

  /** Field `i` is the first with a fault, and `e` is it. */
  predicate FirstFault(fields: seq<Field>, trust: bool, known: set<Key>, i: nat, e: KeyError) {
    && i < |fields| && Fine(fields[..i], trust, known)
    && FieldFault(fields[i], StrippedNames(fields[..i]), SuppliedKeys(fields[..i], trust), trust, known) == Some(e)
  }

  lemma FaultStep(fields: seq<Field>, trust: bool, known: set<Key>, i: nat)
    requires i < |fields| && Fine(fields[..i], trust, known)
    ensures var f := fields[i];
            var fault := FieldFault(f, StrippedNames(fields[..i]), SuppliedKeys(fields[..i], trust), trust, known);
            && (fault.None? ==> Fine(fields[..i + 1], trust, known))
            && (fault.Some? ==> !Fine(fields, trust, known))
            && StrippedNames(fields[..i + 1]) == StrippedNames(fields[..i]) + {Strip(f.name)}
            && SuppliedKeys(fields[..i + 1], trust)
               == SuppliedKeys(fields[..i], trust) + (if trust && f.column.Keyed? then {f.column.key} else {})
  {
    assert fields[..i + 1] == fields[..i] + [fields[i]];
    CheckStep(fields[..i], fields[i], known);
    SuppliedKeysStep(fields[..i], fields[i], trust);
    PrefixFine(fields, i + 1, known);
    hide NamesFine, KeysFine, StrippedNames, SuppliedKeys, Strip;
  }

  /** Pass 1: validates the whole request and claims the supplied keys. */
  method ClaimSuppliedKeys(newFields: seq<Field>, trust: bool, known: set<Key>) returns (r: Result<set<Key>, KeyError>)
    ensures r.Ok? <==> NamesFine(newFields) && (trust ==> KeysFine(newFields, known))
    ensures r.Ok? ==> r.value == SuppliedKeys(newFields, trust)
    ensures r.Err? ==> exists i :: FirstFault(newFields, trust, known, i, r.error)
  {
    var seenNames: set<string> := {};
    var used: set<Key> := {};
    assert newFields[..0] == [] && Fine([], trust, known);
    assert Fine(newFields, trust, known) <==> NamesFine(newFields) && (trust ==> KeysFine(newFields, known));
    hide NamesFine, KeysFine, Fine, StrippedNames, SuppliedKeys, Strip;
    for i := 0 to |newFields|
      invariant Fine(newFields[..i], trust, known)
      invariant seenNames == StrippedNames(newFields[..i])
      invariant used == SuppliedKeys(newFields[..i], trust)
    {
      var f := newFields[i];
      var name := Strip(f.name);
      FaultStep(newFields, trust, known, i);
      if name == "" {
        assert FirstFault(newFields, trust, known, i, EmptyName);
        return Err(EmptyName);
      }
      if name in seenNames {
        assert FirstFault(newFields, trust, known, i, DuplicateName);
        return Err(DuplicateName);
      }
      seenNames := seenNames + {name};
      if !f.column.Absent? && trust {
        if f.column.Malformed? {
          assert FirstFault(newFields, trust, known, i, InvalidKey);
          return Err(InvalidKey);
        }
        if f.column.key in used {
          assert FirstFault(newFields, trust, known, i, KeyUsedTwice);
          return Err(KeyUsedTwice);
        }
        if f.column.key !in known {
          assert FirstFault(newFields, trust, known, i, ForeignKey);
          return Err(ForeignKey);
        }
        used := used + {f.column.key};
      }
    }
    assert newFields[..|newFields|] == newFields;
    r := Ok(used);
  }

  method AssignColumnKeys(newFields: seq<Field>, lineage: seq<seq<Field>>) returns (r: Result<seq<Field>, KeyError>)
    ensures r.Ok? <==> ValidRequest(newFields, lineage)
    ensures r.Ok? ==> Outcome(newFields, lineage, r.value)
    ensures r.Err? ==> exists i :: FirstFault(newFields, Trusted(lineage), Keys(Flat(lineage)), i, r.error)
  {
    hide NameMap, Flat, Chosen, Strip;
    var nameToKey, known := LineageNameMap(lineage);
    var trust := lineage != [];
    var claimed := ClaimSuppliedKeys(newFields, trust, known);
    if claimed.Err? {
      ghost var at: nat :| FirstFault(newFields, trust, known, at, claimed.error);
      assert trust == Trusted(lineage);
      return Err(claimed.error);
    }
    var used := claimed.value;

    var resolved: seq<Field> := [];
    for i := 0 to |newFields|
      invariant |resolved| == i && AllKeyed(resolved)
      invariant used == SuppliedKeys(newFields, trust) + Keys(resolved)
      invariant forall k :: 0 <= k < i ==> resolved[k] == newFields[k].(column := resolved[k].column)
      invariant forall k :: 0 <= k < i ==> Chosen(newFields, lineage, resolved, k)
    {
      var f := newFields[i];
      var key: Key;
      if trust && f.column.Keyed? {
        key := f.column.key;
        assert Supplied(newFields[i], trust) == Some(key);
      } else {
        var name := Strip(f.name);
        if name in nameToKey && nameToKey[name] !in used {
          key := nameToKey[name];
        } else {
          key := MintColumnKey(known + used);
        }
      }
      assert Fits(f, Supplied(f, trust), lineage, used, key);
      used := used + {key};
      ChosenNext(newFields, lineage, resolved, f.(column := Keyed(key)));
      KeysStep(resolved, f.(column := Keyed(key)));
      resolved := resolved + [f.(column := Keyed(key))];
    }
    r := Ok(resolved);
  }

  lemma ChosenNext(fields: seq<Field>, lineage: seq<seq<Field>>, out: seq<Field>, f: Field)
    requires |out| < |fields| && AllKeyed(out) && f.column.Keyed?
    requires forall k :: 0 <= k < |out| ==> Chosen(fields, lineage, out, k)
    requires Fits(fields[|out|], Supplied(fields[|out|], Trusted(lineage)), lineage,
                  SuppliedKeys(fields, Trusted(lineage)) + Keys(out), f.column.key)
    ensures AllKeyed(out + [f])
    ensures forall k :: 0 <= k <= |out| ==> Chosen(fields, lineage, out + [f], k)
  {
    forall k | 0 <= k <= |out| ensures Chosen(fields, lineage, out + [f], k) {
      assert (out + [f])[..k] == out[..k];
      if k < |out| { assert Chosen(fields, lineage, out, k); }
      else { assert out[..k] == out; }
    }
  }

  /* ---- Keys over every edit history ---- */

  /** The lineages that any sequence of saves can leave behind. */
  ghost predicate Built(versions: seq<seq<Field>>) {
    versions == [] ||
    var before, last := versions[..|versions| - 1], versions[|versions| - 1];
    Built(before) && exists request :: Outcome(request, before, last)
  }

  predicate DistinctKeys(fields: seq<Field>) {
    forall i, j :: 0 <= i < j < |fields| ==> fields[i].column != fields[j].column
  }

  lemma KeyInPrefix(fields: seq<Field>, j: nat, i: nat)
    requires j < i <= |fields| && fields[j].column.Keyed?
    ensures fields[j].column.key in Keys(fields[..i])
  {
    assert fields[j] in fields[..i];
  }

  /** One save: keys are pairwise distinct, and a key the lineage has ever used,
      even by a field since dropped, returns only where the request echoed it or
      the lineage's name map gives it back for that very name. */
  lemma OutcomeKeys(request: seq<Field>, lineage: seq<seq<Field>>, out: seq<Field>)
    requires Outcome(request, lineage, out)
    ensures DistinctKeys(out) && NamesFine(out)
    ensures forall i :: 0 <= i < |out| && out[i].column.key in Keys(Flat(lineage)) ==>
              || Supplied(request[i], Trusted(lineage)) == Some(out[i].column.key)
              || (Strip(request[i].name) in NameMap(Flat(lineage))
                && NameMap(Flat(lineage))[Strip(request[i].name)] == out[i].column.key)
  {
    var trust := Trusted(lineage);
    forall i | 0 <= i < |out| ensures out[i].name == request[i].name && Chosen(request, lineage, out, i) {
      assert out[i] == request[i].(column := out[i].column);
    }
    forall i, j | 0 <= i < j < |out| ensures out[i].column != out[j].column {
      assert Chosen(request, lineage, out, i) && Chosen(request, lineage, out, j);
      KeyInPrefix(out, i, j);
      if Supplied(request[i], trust).Some? {
        assert request[i] in request;
      }
      if Supplied(request[j], trust).Some? {
        assert request[j] in request;
        assert Supplied(request[j], trust).value in SuppliedKeys(request, trust);
      }
    }
  }

  /** No field of the request speaks for this key. */
  predicate Unclaimed(request: seq<Field>, key: Key) {
    forall i :: 0 <= i < |request| ==> request[i].column != Keyed(key)
  }

  /** One save, field by field: to an existing lineage a supplied key is kept, whatever
      the name; a field without one gets back the key its name last had, unless another
      field of the request has that key; and any other key is new to the lineage. */
  lemma KeysFollowRequest(request: seq<Field>, lineage: seq<seq<Field>>, out: seq<Field>, i: nat)
    requires Outcome(request, lineage, out) && i < |request|
    ensures out[i] == request[i].(column := out[i].column) && out[i].column.Keyed?
    ensures lineage != [] && request[i].column.Keyed? ==> out[i].column == request[i].column
    ensures lineage != [] && !request[i].column.Keyed? ==>
              var names, name := NameMap(Flat(lineage)), Strip(request[i].name);
              if name in names && Unclaimed(request, names[name]) && Unclaimed(out[..i], names[name])
              then out[i].column == Keyed(names[name]) else out[i].column.key !in Keys(Flat(lineage))
  {
    assert Chosen(request, lineage, out, i);
    if lineage != [] && !request[i].column.Keyed? {
      var names, name := NameMap(Flat(lineage)), Strip(request[i].name);
      if name in names { ClaimedKeys(request, names[name]); OwnKeys(out[..i], names[name]); }
      hide NameMap, Flat, Strip, SuppliedKeys, Keys, Unclaimed;
    }
  }

  lemma ClaimedKeys(request: seq<Field>, key: Key)
    ensures key in SuppliedKeys(request, true) <==> !Unclaimed(request, key)
  {
    if !Unclaimed(request, key) {
      var i :| 0 <= i < |request| && request[i].column == Keyed(key);
      assert request[i] in request;
    }
  }

  lemma OwnKeys(fields: seq<Field>, key: Key)
    ensures key in Keys(fields) <==> !Unclaimed(fields, key)
  {
    if !Unclaimed(fields, key) {
      var i :| 0 <= i < |fields| && fields[i].column == Keyed(key);
      assert fields[i] in fields;
    }
  }

  lemma {:induction false} BuiltVersion(versions: seq<seq<Field>>, v: nat) returns (request: seq<Field>)
    requires Built(versions) && v < |versions|
    ensures Built(versions[..v]) && Outcome(request, versions[..v], versions[v])
    decreases |versions|
  {
    var before := versions[..|versions| - 1];
    if v == |versions| - 1 {
      request :| Outcome(request, before, versions[v]);
    } else {
      request := BuiltVersion(before, v);
      assert before[..v] == versions[..v];
    }
  }

  /** Every version of every lineage has pairwise distinct keys and names. */
  lemma HistoryKeysDistinct(versions: seq<seq<Field>>)
    requires Built(versions)
    ensures forall v :: 0 <= v < |versions| ==>
              AllKeyed(versions[v]) && DistinctKeys(versions[v]) && NamesFine(versions[v])
  {
    forall v | 0 <= v < |versions|
      ensures AllKeyed(versions[v]) && DistinctKeys(versions[v]) && NamesFine(versions[v])
    {
      var request := BuiltVersion(versions, v);
      OutcomeKeys(request, versions[..v], versions[v]);
    }
  }

  /** Anywhere in any history: two versions share a key only where the later save
      echoed it or its name was the one the lineage remembered for it. A minted key
      is never one that any earlier field had, whether that field survives or not. */
  lemma KeysAreNeverReissued(versions: seq<seq<Field>>, u: nat, v: nat) returns (request: seq<Field>)
    requires Built(versions) && u < v < |versions|
    ensures Outcome(request, versions[..v], versions[v])
    ensures forall i, j ::
              0 <= i < |versions[v]| && 0 <= j < |versions[u]| && versions[v][i].column == versions[u][j].column ==>
              || request[i].column == versions[v][i].column
              || (Strip(request[i].name) in NameMap(Flat(versions[..v]))
                  && Keyed(NameMap(Flat(versions[..v]))[Strip(request[i].name)]) == versions[v][i].column)
  {
    request := BuiltVersion(versions, v);
    var earlier := versions[..v];
    OutcomeKeys(request, earlier, versions[v]);
    forall j | 0 <= j < |versions[u]| && versions[u][j].column.Keyed?
      ensures versions[u][j].column.key in Keys(Flat(earlier)) {
      FlatHas(earlier, u, j);
    }
  }

  lemma {:induction false} FlatHas(versions: seq<seq<Field>>, u: nat, j: nat)
    requires u < |versions| && j < |versions[u]|
    ensures versions[u][j] in Flat(versions)
  {
    var before := versions[..|versions| - 1];
    if u < |before| {
      FlatHas(before, u, j);
    } else {
      assert versions[u][j] in versions[u];
    }
  }

  /* ---- Saving the current version again ---- */

  /** The current version with the `column` of every field in `omitted` left out. */
  function Resent(current: seq<Field>, omitted: set<nat>): (r: seq<Field>)
    ensures |r| == |current|
    ensures forall i :: 0 <= i < |r| ==> r[i] == if i in omitted then current[i].(column := Absent) else current[i]
  {
    seq(|current|, i requires 0 <= i < |current| => if i in omitted then current[i].(column := Absent) else current[i])
  }

  lemma {:induction false} NameMapLast(fields: seq<Field>, i: nat)
    requires i < |fields| && fields[i].column.Keyed?
    requires forall j :: i < j < |fields| ==> fields[j].name != fields[i].name
    ensures fields[i].name in NameMap(fields) && NameMap(fields)[fields[i].name] == fields[i].column.key
  {
    if i < |fields| - 1 {
      NameMapLast(fields[..|fields| - 1], i);
    }
  }

  lemma {:induction false} NameMapKeys(fields: seq<Field>, name: string)
    requires name in NameMap(fields)
    ensures NameMap(fields)[name] in Keys(fields)
  {
    var rest, f := fields[..|fields| - 1], fields[|fields| - 1];
    assert fields == rest + [f];
    KeysStep(rest, f);
    if !(f.column.Keyed? && f.name == name) { NameMapKeys(rest, name); }
  }

  lemma NamesDiffer(fields: seq<Field>, i: nat, j: nat)
    requires NamesFine(fields) && i < j < |fields|
    ensures fields[i].name != fields[j].name
  {
    assert Strip(fields[i].name) != Strip(fields[j].name);
  }

  /** The whole-lineage name map answers for the current version's own names. */
  lemma CurrentNames(versions: seq<seq<Field>>, i: nat)
    requires Built(versions) && versions != []
    requires i < |versions[|versions| - 1]|
    ensures var f := versions[|versions| - 1][i];
            f.name in NameMap(Flat(versions)) && NameMap(Flat(versions))[f.name] == f.column.key
  {
    HistoryKeysDistinct(versions);
    var before := Flat(versions[..|versions| - 1]);
    var current := versions[|versions| - 1];
    var flat := Flat(versions);
    assert flat == before + current;
    var at := |before| + i;
    forall j | at < j < |flat| ensures flat[j].name != flat[at].name {
      assert flat[j] == current[j - |before|] && flat[at] == current[i];
      NamesDiffer(current, i, j - |before|);
    }
    NameMapLast(flat, at);
  }

  /** A field saved before whose key a request may name or leave out. */
  ghost predicate Stored(current: seq<Field>, lineage: seq<seq<Field>>) {
    && Trusted(lineage) && AllKeyed(current) && DistinctKeys(current) && NamesFine(current)
    && Keys(current) <= Keys(Flat(lineage))
  }

  lemma CurrentIsStored(versions: seq<seq<Field>>)
    requires Built(versions) && versions != []
    ensures Stored(versions[|versions| - 1], versions)
  {
    HistoryKeysDistinct(versions);
    var current := versions[|versions| - 1];
    assert Flat(versions) == Flat(versions[..|versions| - 1]) + current;
    assert forall f :: f in current ==> f in Flat(versions);
  }

  lemma ResentIsValid(current: seq<Field>, lineage: seq<seq<Field>>, omitted: set<nat>)
    requires Stored(current, lineage)
    ensures ValidRequest(Resent(current, omitted), lineage)
  {
    var request := Resent(current, omitted);
    forall i | 0 <= i < |request| ensures request[i].name == current[i].name {}
    forall i | 0 <= i < |request| && request[i].column.Keyed? ensures request[i].column.key in Keys(Flat(lineage)) {
      assert current[i] in current;
      assert current[i].column.key in Keys(current);
    }
    assert NamesFine(request);
  }

  /** The lineage's name map leads from the stripped name to the field's own key. */
  predicate Recalled(f: Field, lineage: seq<seq<Field>>) {
    && f.column.Keyed?
    && Strip(f.name) in NameMap(Flat(lineage))
    && NameMap(Flat(lineage))[Strip(f.name)] == f.column.key
  }

  lemma ResaveField(current: seq<Field>, lineage: seq<seq<Field>>, omitted: set<nat>, out: seq<Field>, i: nat)
    requires Stored(current, lineage) && Outcome(Resent(current, omitted), lineage, out)
    requires i < |out| && out[..i] == current[..i]
    ensures out[i] == current[i] <==> (i in omitted ==> Recalled(current[i], lineage))
  {
    var request := Resent(current, omitted);
    assert out[i] == request[i].(column := out[i].column);
    assert Chosen(request, lineage, out, i);
    assert current[i] in current;
    assert current[i].column.key in Keys(Flat(lineage));
    if i in omitted {
      NotYetUsed(current, omitted, i);
    }
  }

  lemma NotYetUsed(current: seq<Field>, omitted: set<nat>, i: nat)
    requires AllKeyed(current) && DistinctKeys(current) && i < |current| && i in omitted
    ensures current[i].column.key !in SuppliedKeys(Resent(current, omitted), true) + Keys(current[..i])
  {
    var request := Resent(current, omitted);
    forall f | f in request && Supplied(f, true).Some? ensures f.column != current[i].column {
      var j :| 0 <= j < |request| && request[j] == f;
      assert j != i && request[j] == current[j];
    }
    forall f | f in current[..i] && f.column.Keyed? ensures f.column != current[i].column {
      var j :| 0 <= j < i && current[j] == f;
    }
  }

  predicate AllRecalled(current: seq<Field>, lineage: seq<seq<Field>>, omitted: set<nat>) {
    forall i :: 0 <= i < |current| && i in omitted ==> Recalled(current[i], lineage)
  }

  /** Two sequences that go on agreeing exactly while `fine` holds agree exactly when it always holds. */
  lemma {:induction false} AgreeWhileFine<T>(a: seq<T>, b: seq<T>, fine: seq<bool>, n: nat)
    requires n <= |a| == |b| == |fine|
    requires forall i :: 0 <= i < n && a[..i] == b[..i] ==> (a[i] == b[i] <==> fine[i])
    ensures a[..n] == b[..n] <==> forall i :: 0 <= i < n ==> fine[i]
  {
    if n > 0 {
      AgreeWhileFine(a, b, fine, n - 1);
      assert a[..n] == a[..n - 1] + [a[n - 1]] && b[..n] == b[..n - 1] + [b[n - 1]];
    }
  }

  /** Saving the current version again, whichever `column` values the client left
      out, is accepted; and it gives back exactly the same fields if and only if
      every name sent without its key leads, once stripped, to that field's key. */
  lemma ResavingExact(versions: seq<seq<Field>>, omitted: set<nat>, out: seq<Field>)
    requires Built(versions) && versions != []
    ensures ValidRequest(Resent(versions[|versions| - 1], omitted), versions)
    ensures Outcome(Resent(versions[|versions| - 1], omitted), versions, out) ==>
              (out == versions[|versions| - 1] <==>
               AllRecalled(versions[|versions| - 1], versions, omitted))
  {
    var current := versions[|versions| - 1];
    CurrentIsStored(versions);
    ResentIsValid(current, versions, omitted);
    if Outcome(Resent(current, omitted), versions, out) {
      ResaveAll(current, versions, omitted, out);
    }
  }

  lemma ResaveAll(current: seq<Field>, lineage: seq<seq<Field>>, omitted: set<nat>, out: seq<Field>)
    requires Stored(current, lineage) && Outcome(Resent(current, omitted), lineage, out)
    ensures out == current <==> AllRecalled(current, lineage, omitted)
  {
    var fine := seq(|current|, i requires 0 <= i < |current| => i in omitted ==> Recalled(current[i], lineage));
    forall i | 0 <= i < |out| && out[..i] == current[..i] ensures out[i] == current[i] <==> fine[i] {
      ResaveField(current, lineage, omitted, out, i);
    }
    AgreeWhileFine(out, current, fine, |out|);
    assert out[..|out|] == out && current[..|out|] == current;
  }

  /** With trimmed names nothing is ever lost. */
  lemma ResavingTrimmed(versions: seq<seq<Field>>, omitted: set<nat>, out: seq<Field>)
    requires Built(versions) && versions != []
    requires Outcome(Resent(versions[|versions| - 1], omitted), versions, out)
    requires forall f :: f in versions[|versions| - 1] ==> Trimmed(f.name)
    ensures out == versions[|versions| - 1]
  {
    var current := versions[|versions| - 1];
    CurrentIsStored(versions);
    forall i | 0 <= i < |out| && i in omitted ensures Recalled(current[i], versions) {
      assert current[i] in current;
      StripTrims(current[i].name);
      CurrentNames(versions, i);
    }
    ResavingExact(versions, omitted, out);
  }

  const PADDED := Field(" a", Keyed(0), "string", false)

  lemma PaddedLineage()
    ensures Built([[PADDED]])
  {
    var request := [PADDED.(column := Absent)];
    var out := [PADDED];
    var versions: seq<seq<Field>> := [out];
    PaddedStrip();
    assert versions[..0] == [] && out[..0] == [] && Flat([]) == [];
    assert Chosen(request, [], out, 0);
    assert Outcome(request, [], out);
    assert Built([]) && versions[0] == out;
  }

  lemma PaddedStrip()
    ensures Strip(" a") == "a"
  {
    VisibleIsNotSpace('a');
    assert " a"[1..] == "a";
    assert StripLeft("a") == "a";
    assert StripLeft(" a") == StripLeft("a");
    assert StripRight("a") == "a";
  }

  lemma PaddedForgotten()
    ensures !Recalled(PADDED, [[PADDED]])
  {
    PaddedStrip();
    var versions := [[PADDED]];
    assert versions[..0] == [] && Flat(versions) == [] + [PADDED];
    assert [PADDED][..0] == [] && NameMap([PADDED]) == map[" a" := 0];
  }

  /** A padded name can be lost: saved once and sent back without its key, it is
      looked up under the stripped name, which the lineage does not hold. */
  lemma PaddedNameSplits(out: seq<Field>)
    requires Outcome(Resent([PADDED], {0}), [[PADDED]], out)
    ensures out != [PADDED]
  {
    PaddedLineage();
    PaddedForgotten();
    ResavingExact([[PADDED]], {0}, out);
    assert [[PADDED]][0][0] == PADDED && 0 in {0};
  }
}
