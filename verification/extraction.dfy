/** Structured extraction: parsing one response, merging the chunks of a long document,
    and flattening the result into the staged table. */
module Extraction {
  import opened Common
  import opened Lineage
  import opened Coerce

  type Values = map<string, Value>
  type Scores = map<string, real>
  type Rounding = Dec -> Dec

  /** One `{values, confidence}` pair; a missing or null part reads as empty. */
  datatype Half = Half(values: Values, confidence: Scores)

  /** A response: the pair at the top level, the document's pair, and the rows. */
  datatype Response = Response(top: Half, document: Half, rows: seq<Half>)

  datatype Extract = Extract(values: Values, confidence: Scores, rows: seq<Values>, rowConfidence: seq<Scores>)

  const EMPTY := Extract(map[], map[], [], [])

  /* ---- One response ---- */

  function ScopedFields(fields: seq<Field>, rowScoped: bool): seq<Field> {
    if fields == [] then []
    else ScopedFields(fields[..|fields| - 1], rowScoped)
         + if fields[|fields| - 1].rowScoped == rowScoped then [fields[|fields| - 1]] else []
  }

  method SplitByScope(fields: seq<Field>) returns (document: seq<Field>, row: seq<Field>)
    ensures document == ScopedFields(fields, false) && row == ScopedFields(fields, true)
  {
    document, row := [], [];
    for k := 0 to |fields|
      invariant document == ScopedFields(fields[..k], false) && row == ScopedFields(fields[..k], true)
    {
      assert fields[..k + 1][..k] == fields[..k];
      if fields[k].rowScoped { row := row + [fields[k]]; } else { document := document + [fields[k]]; }
    }
    assert fields[..|fields|] == fields;
  }

  function Parsed(fields: seq<Field>, raw: Response, rounding: Rounding): Extract {
    var document, row := ScopedFields(fields, false), ScopedFields(fields, true);
    if row == [] then Extract(CoerceExtracted(fields, raw.top.values, rounding), raw.top.confidence, [], [])
    else Extract(CoerceExtracted(document, raw.document.values, rounding), raw.document.confidence,
                 seq(|raw.rows|, k requires 0 <= k < |raw.rows| => CoerceExtracted(row, raw.rows[k].values, rounding)),
                 seq(|raw.rows|, k requires 0 <= k < |raw.rows| => raw.rows[k].confidence))
  }

  method ParseExtraction(fields: seq<Field>, raw: Response, rounding: Rounding) returns (r: Extract)
    ensures r == Parsed(fields, raw, rounding)
    ensures |r.rowConfidence| == |r.rows|
  {
    var documentFields, rowFields := SplitByScope(fields);
    if rowFields == [] {
      return Extract(CoerceExtracted(fields, raw.top.values, rounding), raw.top.confidence, [], []);
    }
    var rows: seq<Values>, rowConfidence: seq<Scores> := [], [];
    for k := 0 to |raw.rows|
      invariant |rows| == |rowConfidence| == k
      invariant forall i :: 0 <= i < k ==> rows[i] == CoerceExtracted(rowFields, raw.rows[i].values, rounding)
      invariant forall i :: 0 <= i < k ==> rowConfidence[i] == raw.rows[i].confidence
    {
      rows := rows + [CoerceExtracted(rowFields, raw.rows[k].values, rounding)];
      rowConfidence := rowConfidence + [raw.rows[k].confidence];
    }
    r := Extract(CoerceExtracted(documentFields, raw.document.values, rounding), raw.document.confidence,
                 rows, rowConfidence);
    assert r == Parsed(fields, raw, rounding);
  }

  /** The type the last field of this name in this scope declares. */
  function DeclaredType(fields: seq<Field>, rowScoped: bool, name: string): string {
    if fields == [] then "string"
    else
      var last := fields[|fields| - 1];
      if last.name == name && last.rowScoped == rowScoped then last.typ
      else DeclaredType(fields[..|fields| - 1], rowScoped, name)
  }

  lemma {:induction false} TypeInScope(fields: seq<Field>, rowScoped: bool, name: string)
    ensures TypeOf(ScopedFields(fields, rowScoped), name) == DeclaredType(fields, rowScoped, name)
  {
    if fields != [] {
      var n := |fields| - 1;
      TypeInScope(fields[..n], rowScoped, name);
      if fields[n].rowScoped == rowScoped {
        TypeOfMore(ScopedFields(fields[..n], rowScoped), fields[n], name);
      } else {
        assert ScopedFields(fields, rowScoped) == ScopedFields(fields[..n], rowScoped);
      }
    }
  }

  lemma TypeOfMore(fields: seq<Field>, f: Field, name: string)
    ensures TypeOf(fields + [f], name) == if f.name == name then f.typ else TypeOf(fields, name)
  {
    assert (fields + [f])[..|fields|] == fields;
  }

  /** The same names, every value coerced to the type its field declares in this scope,
      and one that no field of the scope declares as it came. */
  ghost predicate ReadAs(fields: seq<Field>, rowScoped: bool, raw: Values, read: Values, rounding: Rounding) {
    && read.Keys == raw.Keys
    && forall name :: name in raw ==>
         read[name] == CoerceValue(raw[name], DeclaredType(fields, rowScoped, name), rounding)
  }

  lemma ScopedReadAs(fields: seq<Field>, rowScoped: bool, raw: Values, rounding: Rounding)
    ensures ReadAs(fields, rowScoped, raw, CoerceExtracted(ScopedFields(fields, rowScoped), raw, rounding), rounding)
  {
    hide TypeOf, ScopedFields, DeclaredType, CoerceValue;
    forall name | name in raw
      ensures TypeOf(ScopedFields(fields, rowScoped), name) == DeclaredType(fields, rowScoped, name)
    {
      TypeInScope(fields, rowScoped, name);
    }
  }

  lemma {:induction false} NoRowFields(fields: seq<Field>)
    ensures ScopedFields(fields, true) == [] <==> forall i :: 0 <= i < |fields| ==> !fields[i].rowScoped
    ensures ScopedFields(fields, true) == [] ==> ScopedFields(fields, false) == fields
  {
    if fields != [] {
      var n := |fields| - 1;
      NoRowFields(fields[..n]);
      assert fields == fields[..n] + [fields[n]];
    }
  }

  /** A response to a schema with no row field is the pair at its top; any other is the
      document's pair and one row for each row it lists, in order. Both are read by the
      declarations of their own scope, and every score is kept as it came. */
  lemma ResponseIsRead(fields: seq<Field>, raw: Response, rounding: Rounding)
    ensures var e := Parsed(fields, raw, rounding);
            if forall i :: 0 <= i < |fields| ==> !fields[i].rowScoped then
              ReadAs(fields, false, raw.top.values, e.values, rounding)
              && e.confidence == raw.top.confidence && e.rows == [] && e.rowConfidence == []
            else
              && ReadAs(fields, false, raw.document.values, e.values, rounding)
              && e.confidence == raw.document.confidence
              && |e.rows| == |e.rowConfidence| == |raw.rows|
              && forall k :: 0 <= k < |raw.rows| ==>
                   ReadAs(fields, true, raw.rows[k].values, e.rows[k], rounding)
                   && e.rowConfidence[k] == raw.rows[k].confidence
  {
    NoRowFields(fields);
    ScopedReadAs(fields, false, raw.top.values, rounding);
    ScopedReadAs(fields, false, raw.document.values, rounding);
    hide ReadAs, CoerceExtracted, ScopedFields;
    forall k | 0 <= k < |raw.rows|
      ensures ReadAs(fields, true, raw.rows[k].values,
                     CoerceExtracted(ScopedFields(fields, true), raw.rows[k].values, rounding), rounding) {
      ScopedReadAs(fields, true, raw.rows[k].values, rounding);
    }
  }

  /* ---- Merging the chunks ---- */

  function Min(a: real, b: real): real { if a <= b then a else b }

  predicate Reports(part: Extract, name: string) {
    name in part.values && part.values[name] != Null
  }

  function Reported(part: Extract, name: string): real {
    if name in part.confidence then part.confidence[name] else 0.0
  }

  /** The score a non-null value is merged with: a value two chunks disagree on keeps
      the lower of its scores. */
  function NewConfidence(merged: Extract, part: Extract, name: string): real
    requires name in part.values
  {
    var reported := Reported(part, name);
    if name in merged.values && merged.values[name] != part.values[name] then
      Min(reported, if name in merged.confidence then merged.confidence[name] else reported)
    else reported
  }

  function ReportedNames(part: Extract): set<string> {
    set name | name in part.values && Reports(part, name)
  }

  predicate Blank(row: Values) {
    forall name :: name in row ==> row[name] == Null
  }

  /** The pairs `zip` yields. */
  function Zip(rows: seq<Values>, scores: seq<Scores>): (r: seq<(Values, Scores)>)
    ensures |r| == if |rows| <= |scores| then |rows| else |scores|
  {
    seq(if |rows| <= |scores| then |rows| else |scores|,
        k requires 0 <= k < |rows| && k < |scores| => (rows[k], scores[k]))
  }

  function Kept(pairs: seq<(Values, Scores)>): seq<(Values, Scores)> {
    if pairs == [] then []
    else Kept(pairs[..|pairs| - 1]) + if Blank(pairs[|pairs| - 1].0) then [] else [pairs[|pairs| - 1]]
  }

  function Firsts(pairs: seq<(Values, Scores)>): (r: seq<Values>)
    ensures |r| == |pairs| && forall k :: 0 <= k < |r| ==> r[k] == pairs[k].0
  {
    seq(|pairs|, k requires 0 <= k < |pairs| => pairs[k].0)
  }

  function Seconds(pairs: seq<(Values, Scores)>): (r: seq<Scores>)
    ensures |r| == |pairs| && forall k :: 0 <= k < |r| ==> r[k] == pairs[k].1
  {
    seq(|pairs|, k requires 0 <= k < |pairs| => pairs[k].1)
  }

  function MergedValues(merged: Extract, part: Extract): Values {
    var names := ReportedNames(part);
    map name | name in merged.values.Keys + names :: if name in names then part.values[name] else merged.values[name]
  }

  function MergedScores(merged: Extract, part: Extract): Scores {
    var names := ReportedNames(part);
    map name | name in merged.confidence.Keys + names :: if name in names then NewConfidence(merged, part, name)
      else merged.confidence[name]
  }

  /** One more chunk merged in. */
  function MergedWith(merged: Extract, part: Extract): Extract {
    var kept := Kept(Zip(part.rows, part.rowConfidence));
    Extract(MergedValues(merged, part), MergedScores(merged, part),
            merged.rows + Firsts(kept), merged.rowConfidence + Seconds(kept))
  }

  function Merged(parts: seq<Extract>): Extract {
    if parts == [] then EMPTY else MergedWith(Merged(parts[..|parts| - 1]), parts[|parts| - 1])
  }

  method MergeChunks(parts: seq<Extract>) returns (merged: Extract)
    ensures merged == Merged(parts)
  {
    merged := EMPTY;
    for k := 0 to |parts|
      invariant merged == Merged(parts[..k])
    {
      assert parts[..k + 1][..k] == parts[..k];
      ghost var before := merged;
      merged := MergeDocument(merged, parts[k]);
      merged := MergeRows(merged, parts[k]);
      assert merged == MergedWith(before, parts[k]);
    }
    assert parts[..|parts|] == parts;
  }

  /** The document half of one round. */
  method MergeDocument(before: Extract, part: Extract) returns (merged: Extract)
    ensures merged == before.(values := MergedValues(before, part), confidence := MergedScores(before, part))
  {
    var values, confidence := before.values, before.confidence;
    var todo := part.values.Keys;
    ghost var done: set<string> := {};
    while todo != {}
      invariant todo <= part.values.Keys && done == ReportedNames(part) - todo
      invariant values.Keys == before.values.Keys + done
      invariant confidence.Keys == before.confidence.Keys + done
      invariant forall name :: name in values ==>
                  values[name] == if name in done then part.values[name] else before.values[name]
      invariant forall name :: name in confidence ==>
                  confidence[name] == if name in done then NewConfidence(before, part, name)
                    else before.confidence[name]
      decreases todo
    {
      var name :| name in todo;
      todo := todo - {name};
      var value := part.values[name];
      if value != Null {
        var newConf := if name in part.confidence then part.confidence[name] else 0.0;
        if name in values && values[name] != value {
          newConf := Min(newConf, if name in confidence then confidence[name] else newConf);
        }
        assert newConf == NewConfidence(before, part, name);
        hide NewConfidence;
        values, confidence := values[name := value], confidence[name := newConf];
        done := done + {name};
      }
    }
    assert done == ReportedNames(part);
    DocumentMerged(before, part, values, confidence);
    merged := before.(values := values, confidence := confidence);
  }

  lemma DocumentMerged(before: Extract, part: Extract, values: Values, confidence: Scores)
    requires values.Keys == before.values.Keys + ReportedNames(part)
    requires confidence.Keys == before.confidence.Keys + ReportedNames(part)
    requires forall name :: name in values ==>
               values[name] == if name in ReportedNames(part) then part.values[name] else before.values[name]
    requires forall name :: name in confidence ==>
               confidence[name] == if name in ReportedNames(part) then NewConfidence(before, part, name)
                 else before.confidence[name]
    ensures values == MergedValues(before, part) && confidence == MergedScores(before, part)
  {
    hide NewConfidence;
  }

  /** The row half of one round. */
  method MergeRows(before: Extract, part: Extract) returns (merged: Extract)
    ensures var kept := Kept(Zip(part.rows, part.rowConfidence));
            merged == before.(rows := before.rows + Firsts(kept), rowConfidence := before.rowConfidence + Seconds(kept))
  {
    var pairs := Zip(part.rows, part.rowConfidence);
    merged := before;
    assert before.rows + Firsts([]) == before.rows && before.rowConfidence + Seconds([]) == before.rowConfidence;
    for k := 0 to |pairs|
      invariant merged == before.(rows := before.rows + Firsts(Kept(pairs[..k])),
                                  rowConfidence := before.rowConfidence + Seconds(Kept(pairs[..k])))
    {
      assert pairs[..k + 1][..k] == pairs[..k];
      if !Blank(pairs[k].0) {
        assert Firsts(Kept(pairs[..k]) + [pairs[k]]) == Firsts(Kept(pairs[..k])) + [pairs[k].0];
        assert Seconds(Kept(pairs[..k]) + [pairs[k]]) == Seconds(Kept(pairs[..k])) + [pairs[k].1];
        merged := merged.(rows := merged.rows + [pairs[k].0], rowConfidence := merged.rowConfidence + [pairs[k].1]);
      }
    }
    assert pairs[..|pairs|] == pairs;
  }

  /* ---- What the merge means ---- */

  /** What the chunks said about one document field, in order. */
  function History(parts: seq<Extract>, name: string): seq<(Value, real)> {
    if parts == [] then []
    else
      var last := parts[|parts| - 1];
      History(parts[..|parts| - 1], name) + if Reports(last, name) then [(last.values[name], Reported(last, name))]
        else []
  }

  function Confidence(history: seq<(Value, real)>): real
    requires history != []
  {
    var n := |history| - 1;
    if n == 0 || history[n - 1].0 == history[n].0 then history[n].1
    else Min(history[n].1, Confidence(history[..n]))
  }

  lemma ConfidenceStep(history: seq<(Value, real)>, report: (Value, real))
    ensures Confidence(history + [report])
         == if history == [] || history[|history| - 1].0 == report.0 then report.1
           else Min(report.1, Confidence(history))
  {
    assert (history + [report])[..|history|] == history;
  }

  lemma OneName(merged: Extract, part: Extract, name: string)
    ensures Reports(part, name) ==>
              && name in MergedWith(merged, part).values && name in MergedWith(merged, part).confidence
              && MergedWith(merged, part).values[name] == part.values[name]
              && MergedWith(merged, part).confidence[name] == NewConfidence(merged, part, name)
    ensures !Reports(part, name) ==>
              && (name in MergedWith(merged, part).values <==> name in merged.values)
              && (name in MergedWith(merged, part).confidence <==> name in merged.confidence)
              && (name in merged.values ==> MergedWith(merged, part).values[name] == merged.values[name])
              && (name in merged.confidence ==> MergedWith(merged, part).confidence[name] == merged.confidence[name])
  {
    hide NewConfidence, Kept;
  }

  /** Document values: the last chunk that reported one wins, nulls never do. */
  lemma {:induction false} MergedDocument(parts: seq<Extract>, name: string)
    ensures var m, history := Merged(parts), History(parts, name);
            && (name in m.values <==> history != []) && (name in m.confidence <==> history != [])
            && (history != [] ==> m.values[name] == history[|history| - 1].0 != Null)
            && (history != [] ==> m.confidence[name] == Confidence(history))
  {
    if parts == [] {
      assert Merged(parts) == EMPTY;
    } else {
      var init, last := parts[..|parts| - 1], parts[|parts| - 1];
      MergedDocument(init, name);
      OneName(Merged(init), last, name);
      var before, history := History(init, name), History(parts, name);
      hide MergedWith;
      if Reports(last, name) {
        var report := (last.values[name], Reported(last, name));
        ConfidenceStep(before, report);
      } else {
        assert history == before;
      }
    }
  }

  /** The last report `j` that repeats its predecessor's value, or the first of all. */
  ghost predicate LastAgreement(history: seq<(Value, real)>, j: nat) {
    && j < |history| && (j == 0 || history[j - 1].0 == history[j].0)
    && forall i :: j < i < |history| ==> history[i - 1].0 != history[i].0
  }

  /** The merged score is the lowest reported since two successive reports last agreed;
      so it is never more than the winning chunk reported. */
  lemma {:induction false} ConfidenceIsPessimistic(history: seq<(Value, real)>) returns (j: nat, at: nat)
    requires history != []
    ensures LastAgreement(history, j) && j <= at < |history| && Confidence(history) == history[at].1
    ensures forall i :: j <= i < |history| ==> Confidence(history) <= history[i].1
  {
    var n := |history| - 1;
    if n == 0 || history[n - 1].0 == history[n].0 {
      j, at := n, n;
    } else {
      j, at := ConfidenceIsPessimistic(history[..n]);
      if history[n].1 <= Confidence(history[..n]) { at := n; }
    }
  }

  function AllPairs(parts: seq<Extract>): seq<(Values, Scores)> {
    if parts == [] then []
    else AllPairs(parts[..|parts| - 1]) + Zip(parts[|parts| - 1].rows, parts[|parts| - 1].rowConfidence)
  }

  lemma {:induction false} KeptConcat(a: seq<(Values, Scores)>, b: seq<(Values, Scores)>)
    ensures Kept(a + b) == Kept(a) + Kept(b)
  {
    if b == [] {
      assert a + b == a;
    } else {
      KeptConcat(a, b[..|b| - 1]);
      assert (a + b)[..|a + b| - 1] == a + b[..|b| - 1];
    }
  }

  lemma PairsConcat(a: seq<(Values, Scores)>, b: seq<(Values, Scores)>)
    ensures Firsts(a + b) == Firsts(a) + Firsts(b) && Seconds(a + b) == Seconds(a) + Seconds(b)
  {
  }

  /** Rows: all chunks' rows in order, the blank ones left out, in step with their scores. */
  lemma {:induction false} MergedRows(parts: seq<Extract>)
    ensures Merged(parts).rows == Firsts(Kept(AllPairs(parts)))
    ensures Merged(parts).rowConfidence == Seconds(Kept(AllPairs(parts)))
  {
    if parts != [] {
      var init, last := parts[..|parts| - 1], parts[|parts| - 1];
      MergedRows(init);
      KeptConcat(AllPairs(init), Zip(last.rows, last.rowConfidence));
      PairsConcat(Kept(AllPairs(init)), Kept(Zip(last.rows, last.rowConfidence)));
      hide Kept, Zip, MergedValues, MergedScores;
    }
  }

  /** A row is kept exactly when some value in it is not null. */
  lemma {:induction false} KeptExactly(pairs: seq<(Values, Scores)>, pair: (Values, Scores))
    ensures pair in Kept(pairs) <==> pair in pairs && exists name :: name in pair.0 && pair.0[name] != Null
  {
    if pairs != [] {
      var init, last := pairs[..|pairs| - 1], pairs[|pairs| - 1];
      KeptExactly(init, pair);
      assert pairs == init + [last];
    }
  }

  /** A merged table has no blank row. */
  lemma NoBlankRows(parts: seq<Extract>, k: nat)
    requires k < |Merged(parts).rows|
    ensures var row := Merged(parts).rows[k]; exists name :: name in row && row[name] != Null
  {
    MergedRows(parts);
    KeptExactly(AllPairs(parts), Kept(AllPairs(parts))[k]);
  }

  /** The same chunks, read in one piece or in several, give the same rows. */
  lemma MergedInPieces(a: seq<Extract>, b: seq<Extract>)
    ensures Merged(a + b).rows == Merged(a).rows + Merged(b).rows
    ensures Merged(a + b).rowConfidence == Merged(a).rowConfidence + Merged(b).rowConfidence
  {
    MergedRows(a);
    MergedRows(b);
    MergedRows(a + b);
    PairsOfConcat(a, b);
    KeptConcat(AllPairs(a), AllPairs(b));
    PairsConcat(Kept(AllPairs(a)), Kept(AllPairs(b)));
    hide *;
  }

  lemma {:induction false} PairsOfConcat(a: seq<Extract>, b: seq<Extract>)
    ensures AllPairs(a + b) == AllPairs(a) + AllPairs(b)
  {
    if b == [] {
      assert a + b == a;
    } else {
      PairsOfConcat(a, b[..|b| - 1]);
      LastPairs(a + b);
      LastPairs(b);
      hide AllPairs, Zip;
      assert (a + b)[..|a + b| - 1] == a + b[..|b| - 1];
    }
  }

  lemma LastPairs(parts: seq<Extract>)
    requires parts != []
    ensures var n := |parts| - 1;
            AllPairs(parts) == AllPairs(parts[..n]) + Zip(parts[n].rows, parts[n].rowConfidence)
  {
  }

  /* ---- The whole step ---- */

  /** Every chunk's response, read. */
  function Parts(fields: seq<Field>, chunks: seq<Response>, rounding: Rounding): seq<Extract> {
    seq(|chunks|, k requires 0 <= k < |chunks| => Parsed(fields, chunks[k], rounding))
  }

  /** One call when the text fits, else one per chunk. */
  function Extracted(fields: seq<Field>, fits: bool, whole: Response, chunks: seq<Response>,
                     rounding: Rounding): Extract {
    if fields == [] then EMPTY
    else if fits then Parsed(fields, whole, rounding)
    else Merged(Parts(fields, chunks, rounding))
  }

  /** Long documents: nothing a chunk says is lost. The rows of all chunks stay in order;
      of a document value the later chunks decide. */
  lemma ExtractedInPieces(fields: seq<Field>, whole: Response, a: seq<Response>, b: seq<Response>, rounding: Rounding)
    requires fields != []
    ensures var e := Extracted(fields, false, whole, a + b, rounding);
            var first := Extracted(fields, false, whole, a, rounding);
            var second := Extracted(fields, false, whole, b, rounding);
            && e.rows == first.rows + second.rows
            && e.rowConfidence == first.rowConfidence + second.rowConfidence
            && e.values == first.values + second.values
  {
    hide Merged, Parsed;
    assert Parts(fields, a + b, rounding) == Parts(fields, a, rounding) + Parts(fields, b, rounding);
    MergedInPieces(Parts(fields, a, rounding), Parts(fields, b, rounding));
    MergedValuesInPieces(Parts(fields, a, rounding), Parts(fields, b, rounding));
    hide Parts;
  }

  lemma {:induction false} MergedValuesInPieces(a: seq<Extract>, b: seq<Extract>)
    ensures Merged(a + b).values == Merged(a).values + Merged(b).values
  {
    if b == [] {
      assert a + b == a;
    } else {
      var init, last := b[..|b| - 1], b[|b| - 1];
      MergedValuesInPieces(a, init);
      assert (a + b)[..|a + b| - 1] == a + init && (a + b)[|a + b| - 1] == last;
      MergedLast(a + b);
      MergedLast(b);
      hide *;
      OneMorePart(Merged(a + init), Merged(init), Merged(a).values, last);
    }
  }

  lemma OneMorePart(all: Extract, some: Extract, before: Values, part: Extract)
    requires all.values == before + some.values
    ensures MergedValues(all, part) == before + MergedValues(some, part)
  {
    hide Reports;
  }

  lemma MergedLast(parts: seq<Extract>)
    requires parts != []
    ensures var n := |parts| - 1; Merged(parts).values == MergedValues(Merged(parts[..n]), parts[n])
  {
  }

  /** One chunk gives what a response that fits gives, without the nulls and the blank
      rows; a value that came without a score scores nothing. */
  lemma ExtractedFromOne(fields: seq<Field>, whole: Response, chunk: Response, rounding: Rounding)
    requires fields != []
    ensures var e := Extracted(fields, false, whole, [chunk], rounding);
            var p := Extracted(fields, true, chunk, [], rounding);
            && p == Parsed(fields, chunk, rounding)
            && (forall name :: name in e.values <==> name in p.values && p.values[name] != Null)
            && e.confidence.Keys == e.values.Keys
            && (forall name :: name in e.values ==>
                  && e.values[name] == p.values[name]
                  && e.confidence[name] == if name in p.confidence then p.confidence[name] else 0.0)
            && e.rows == Firsts(Kept(Zip(p.rows, p.rowConfidence)))
            && e.rowConfidence == Seconds(Kept(Zip(p.rows, p.rowConfidence)))
  {
    var p := Parsed(fields, chunk, rounding);
    var parts := Parts(fields, [chunk], rounding);
    assert parts == [p] && parts[..0] == [];
    assert Merged(parts) == MergedWith(EMPTY, p);
    hide Parsed, Kept, Zip, Firsts, Seconds;
    assert [] + Firsts(Kept(Zip(p.rows, p.rowConfidence))) == Firsts(Kept(Zip(p.rows, p.rowConfidence)));
    assert [] + Seconds(Kept(Zip(p.rows, p.rowConfidence))) == Seconds(Kept(Zip(p.rows, p.rowConfidence)));
  }

  function Longest(a: nat, b: nat): nat { if a < b then b else a }

  /** The staged table and its scores. `zip_longest` pairs every row and every score map. */
  function Flattened(e: Extract, fields: seq<Field>): (seq<Values>, seq<Scores>) {
    if fields == [] then ([], [])
    else if e.rows == [] then ([e.values], [e.confidence])
    else (seq(|e.rows|, k requires 0 <= k < |e.rows| => e.values + e.rows[k]),
          seq(Longest(|e.rows|, |e.rowConfidence|),
              k requires 0 <= k => e.confidence + if k < |e.rowConfidence| then e.rowConfidence[k] else map[]))
  }

  /** The two lists are equally long exactly when there are no scores without a row. */
  lemma FlattenedInStep(e: Extract, fields: seq<Field>)
    ensures var (data, scores) := Flattened(e, fields);
            |data| == |scores| <==> fields == [] || e.rows == [] || |e.rowConfidence| <= |e.rows|
  {
  }

  /** What extraction stages: nothing for a schema without fields; otherwise one object
      per row, or one object when there are no rows, each with a score map; an object
      has its row's value wherever the row has one, and the document's elsewhere. */
  lemma StagedTable(fields: seq<Field>, fits: bool, whole: Response, chunks: seq<Response>, rounding: Rounding)
    ensures var e := Extracted(fields, fits, whole, chunks, rounding);
            var (data, scores) := Flattened(e, fields);
            && |data| == |scores|
            && (|data| == 0 <==> fields == [])
            && (fields != [] ==> |data| == Longest(1, |e.rows|))
            && forall k, name :: 0 <= k < |data| ==>
                 (name in data[k] <==> name in e.values || (e.rows != [] && name in e.rows[k]))
                 && (name in data[k] ==> data[k][name] == if e.rows != [] && name in e.rows[k] then e.rows[k][name]
                   else e.values[name])
  {
    var e := Extracted(fields, fits, whole, chunks, rounding);
    if fields != [] && !fits {
      MergedRows(Parts(fields, chunks, rounding));
    }
    assert |e.rows| == |e.rowConfidence|;
    hide Extracted, Parsed, Merged;
  }

  /** And the scores lie beside the values in the same way. */
  lemma StagedScores(fields: seq<Field>, fits: bool, whole: Response, chunks: seq<Response>, rounding: Rounding)
    ensures var e := Extracted(fields, fits, whole, chunks, rounding);
            var (data, scores) := Flattened(e, fields);
            |e.rows| == |e.rowConfidence|
            && forall k, name :: 0 <= k < |scores| ==>
                 (name in scores[k] <==> name in e.confidence || (e.rows != [] && name in e.rowConfidence[k]))
                 && (name in scores[k] ==> scores[k][name] == if e.rows != [] && name in e.rowConfidence[k]
                   then e.rowConfidence[k][name] else e.confidence[name])
  {
    var e := Extracted(fields, fits, whole, chunks, rounding);
    if fields != [] && !fits {
      MergedRows(Parts(fields, chunks, rounding));
    }
    assert |e.rows| == |e.rowConfidence|;
    hide Extracted, Parsed, Merged;
  }
}
