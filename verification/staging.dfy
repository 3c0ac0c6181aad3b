/** From extraction to confirm: what a draft nobody edited is stored as. */
module Staging {
  import opened Common
  import opened Lineage
  import opened Coerce
  import opened Extraction
  import Store

  /** A name determines the field. */
  predicate UniqueByName(fields: seq<Field>) {
    forall f, g :: f in fields && g in fields && f.name == g.name ==> f == g
  }

  predicate DeclaredBy(values: Values, fields: seq<Field>) {
    forall name :: name in values ==> exists f :: f in fields && f.name == name
  }

  /** A response that keeps to the requested shape: each part holds only fields of its scope. */
  predicate InShape(fields: seq<Field>, raw: Response) {
    ScopedFields(fields, true) != [] ==>
      && DeclaredBy(raw.document.values, ScopedFields(fields, false))
      && forall row :: row in raw.rows ==> DeclaredBy(row.values, ScopedFields(fields, true))
  }

  /** Coercing the values once more, against the whole field list, changes none. */
  predicate Normal(fields: seq<Field>, values: Values, rounding: Rounding) {
    forall name :: name in values ==> CoerceValue(values[name], TypeOf(fields, name), rounding) == values[name]
  }

  predicate NormalExtract(fields: seq<Field>, e: Extract, rounding: Rounding) {
    Normal(fields, e.values, rounding) && forall row :: row in e.rows ==> Normal(fields, row, rounding)
  }

  lemma {:induction false} ScopedMembers(fields: seq<Field>, rowScoped: bool, f: Field)
    ensures f in ScopedFields(fields, rowScoped) <==> f in fields && f.rowScoped == rowScoped
  {
    if fields != [] {
      ScopedMembers(fields[..|fields| - 1], rowScoped, f);
      assert fields == fields[..|fields| - 1] + [fields[|fields| - 1]];
    }
  }

  lemma {:induction false} TypeOfMember(fields: seq<Field>, f: Field)
    requires UniqueByName(fields) && f in fields
    ensures f.name in TypesByName(fields) && TypeOf(fields, f.name) == f.typ
  {
    var init, last := fields[..|fields| - 1], fields[|fields| - 1];
    assert fields == init + [last];
    if last.name != f.name { TypeOfMember(init, f); }
  }

  /** The two halves of the field list give a field the type the whole list gives it. */
  lemma ScopedType(fields: seq<Field>, rowScoped: bool, f: Field)
    requires UniqueByName(fields) && f in ScopedFields(fields, rowScoped)
    ensures TypeOf(ScopedFields(fields, rowScoped), f.name) == TypeOf(fields, f.name)
  {
    forall g ensures g in ScopedFields(fields, rowScoped) <==> g in fields && g.rowScoped == rowScoped {
      ScopedMembers(fields, rowScoped, g);
    }
    TypeOfMember(fields, f);
    TypeOfMember(ScopedFields(fields, rowScoped), f);
  }

  lemma CoercedIsNormal(fields: seq<Field>, scoped: seq<Field>, values: Values, rounding: Rounding)
    requires RoundsToDecimals(rounding)
    requires forall name :: name in values ==> TypeOf(scoped, name) == TypeOf(fields, name)
    ensures Normal(fields, CoerceExtracted(scoped, values, rounding), rounding)
  {
    hide CoerceValue, TypeOf;
    forall name | name in values
      ensures CoerceValue(CoerceExtracted(scoped, values, rounding)[name], TypeOf(fields, name), rounding)
                == CoerceExtracted(scoped, values, rounding)[name]
    {
      CoerceIdempotent(values[name], TypeOf(fields, name), rounding);
    }
  }

  lemma HalfIsNormal(fields: seq<Field>, rowScoped: bool, values: Values, rounding: Rounding)
    requires RoundsToDecimals(rounding) && UniqueByName(fields) && DeclaredBy(values, ScopedFields(fields, rowScoped))
    ensures Normal(fields, CoerceExtracted(ScopedFields(fields, rowScoped), values, rounding), rounding)
  {
    forall name | name in values ensures TypeOf(ScopedFields(fields, rowScoped), name) == TypeOf(fields, name) {
      var f :| f in ScopedFields(fields, rowScoped) && f.name == name;
      ScopedType(fields, rowScoped, f);
    }
    CoercedIsNormal(fields, ScopedFields(fields, rowScoped), values, rounding);
  }

  lemma ParsedIsNormal(fields: seq<Field>, raw: Response, rounding: Rounding)
    requires RoundsToDecimals(rounding) && UniqueByName(fields) && InShape(fields, raw)
    ensures NormalExtract(fields, Parsed(fields, raw, rounding), rounding)
  {
    var e := Parsed(fields, raw, rounding);
    hide Normal, CoerceExtracted;
    if ScopedFields(fields, true) == [] {
      CoercedIsNormal(fields, fields, raw.top.values, rounding);
    } else {
      HalfIsNormal(fields, false, raw.document.values, rounding);
      forall k | 0 <= k < |e.rows| ensures Normal(fields, e.rows[k], rounding) {
        HalfIsNormal(fields, true, raw.rows[k].values, rounding);
      }
    }
  }

  lemma {:induction false} MergedIsNormal(fields: seq<Field>, parts: seq<Extract>, rounding: Rounding)
    requires forall part :: part in parts ==> NormalExtract(fields, part, rounding)
    ensures NormalExtract(fields, Merged(parts), rounding)
  {
    if parts != [] {
      var init, last := parts[..|parts| - 1], parts[|parts| - 1];
      MergedIsNormal(fields, init, rounding);
      assert last in parts;
      var before, after, kept := Merged(init), Merged(parts), Kept(Zip(last.rows, last.rowConfidence));
      assert after == MergedWith(before, last);
      hide Merged, Kept, CoerceValue, TypeOf;
      forall row | row in after.rows ensures Normal(fields, row, rounding) {
        if row !in before.rows {
          var k :| 0 <= k < |kept| && kept[k].0 == row;
          KeptExactly(Zip(last.rows, last.rowConfidence), kept[k]);
          assert row in last.rows;
        }
      }
    }
  }

  lemma ExtractedIsNormal(fields: seq<Field>, fits: bool, whole: Response, chunks: seq<Response>, rounding: Rounding)
    requires RoundsToDecimals(rounding) && UniqueByName(fields)
    requires InShape(fields, whole) && forall raw :: raw in chunks ==> InShape(fields, raw)
    ensures NormalExtract(fields, Extracted(fields, fits, whole, chunks, rounding), rounding)
  {
    assert fields == [] ==> NormalExtract(fields, EMPTY, rounding);
    hide NormalExtract, InShape, Parsed, Merged;
    if fields == [] {
    } else if fits {
      ParsedIsNormal(fields, whole, rounding);
    } else {
      var parts := Parts(fields, chunks, rounding);
      forall part | part in parts ensures NormalExtract(fields, part, rounding) {
        var k :| 0 <= k < |parts| && parts[k] == part;
        ParsedIsNormal(fields, chunks[k], rounding);
      }
      MergedIsNormal(fields, parts, rounding);
    }
  }

  lemma ObjectIsNormal(fields: seq<Field>, values: Values, row: Values, rounding: Rounding)
    requires Normal(fields, values, rounding) && Normal(fields, row, rounding)
    ensures CoerceExtracted(fields, values + row, rounding) == values + row
    ensures CoerceExtracted(fields, values, rounding) == values
  {
    hide CoerceValue, TypeOf;
  }

  /** Values are coerced at extraction, by scope, and again at confirm, against all
      fields. When the responses keep to their shape the second pass changes nothing:
      a draft that nobody edited is stored as it was shown. */
  lemma UneditedDraftIsStoredAsShown(fields: seq<Field>, fits: bool, whole: Response, chunks: seq<Response>,
                                     rounding: Rounding)
    requires RoundsToDecimals(rounding) && UniqueByName(fields) && fields != []
    requires InShape(fields, whole) && forall raw :: raw in chunks ==> InShape(fields, raw)
    ensures var staged := Flattened(Extracted(fields, fits, whole, chunks, rounding), fields).0;
            staged != [] && Store.Materialize(fields, staged, rounding) == staged
  {
    var e := Extracted(fields, fits, whole, chunks, rounding);
    var staged := Flattened(e, fields).0;
    ExtractedIsNormal(fields, fits, whole, chunks, rounding);
    hide Extracted, CoerceExtracted, Normal, InShape;
    if e.rows == [] { ObjectIsNormal(fields, e.values, e.values, rounding); }
    forall k | 0 <= k < |staged| ensures CoerceExtracted(fields, staged[k], rounding) == staged[k] {
      if e.rows != [] {
        assert e.rows[k] in e.rows;
        ObjectIsNormal(fields, e.values, e.rows[k], rounding);
      }
    }
  }
}
