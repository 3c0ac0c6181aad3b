/** Human labels for result columns. */
module Labels {
  import opened Common
  import opened Coerce

  datatype Col = Col(name: string, column: string)

  /** `f"{label} ({n})"` */
  function Candidate(name: string, n: nat): string {
    name + " (" + Digits(n) + ")"
  }

  lemma {:induction false} DigitsInjective(m: nat, n: nat)
    requires Digits(m) == Digits(n)
    ensures m == n
  {
    var s := Digits(m);
    if m >= 10 && n >= 10 {
      assert s[..|s| - 1] == Digits(m / 10) == Digits(n / 10);
      DigitsInjective(m / 10, n / 10);
      assert s[|s| - 1] == (m % 10) as char + '0' == (n % 10) as char + '0';
    }
  }

  lemma CandidatesDiffer(name: string, m: nat, n: nat)
    requires m != n
    ensures Candidate(name, m) != Candidate(name, n)
  {
    var a, b := Candidate(name, m), Candidate(name, n);
    if a == b {
      assert a[|name| + 2..|a| - 1] == Digits(m);
      assert b[|name| + 2..|b| - 1] == Digits(n);
      DigitsInjective(m, n);
    }
  }

  /** The smallest suffix that is free. */
  ghost predicate FirstFree(name: string, seen: set<string>, n: nat) {
    && n >= 2 && Candidate(name, n) !in seen
    && forall k :: 2 <= k < n ==> Candidate(name, k) in seen
  }

  /** There always is one, because the candidates differ and `seen` is finite. */
  method FreeSuffix(name: string, seen: set<string>) returns (n: nat)
    ensures FirstFree(name, seen, n)
  {
    n := 2;
    ghost var untried := seen;
    while Candidate(name, n) in seen
      invariant n >= 2 && untried <= seen
      invariant forall k :: 2 <= k < n ==> Candidate(name, k) in seen
      invariant forall k :: n <= k && Candidate(name, k) in seen ==> Candidate(name, k) in untried
      decreases |untried|
    {
      forall k | n + 1 <= k ensures Candidate(name, k) != Candidate(name, n) { CandidatesDiffer(name, k, n); }
      assert Candidate(name, n) in untried;
      hide Candidate;
      untried := untried - {Candidate(name, n)};
      n := n + 1;
    }
  }

  lemma FirstFreeUnique(name: string, seen: set<string>, m: nat, n: nat)
    requires FirstFree(name, seen, m) && FirstFree(name, seen, n)
    ensures m == n
  {
    assert m < n ==> Candidate(name, m) in seen;
    assert n < m ==> Candidate(name, n) in seen;
  }

  /** The text a column gets: its name, or the first free numbered variant of it. */
  ghost predicate IsLabel(name: string, seen: set<string>, text: string) {
    if name !in seen then text == name else exists n: nat :: FirstFree(name, seen, n) && text == Candidate(name, n)
  }

  datatype Labelling = Labelling(labels: map<string, string>, seen: set<string>)

  /** Going through the columns in order. */
  ghost predicate Labels(cols: seq<Col>, l: Labelling)
    decreases |cols|, 1
  {
    if cols == [] then l == Labelling(map[], {})
    else exists before, text :: LabelledLast(cols, before, text, l)
  }

  ghost predicate LabelledLast(cols: seq<Col>, before: Labelling, text: string, l: Labelling)
    requires cols != []
    decreases |cols|, 0
  {
    var last := cols[|cols| - 1];
    && Labels(cols[..|cols| - 1], before) && IsLabel(last.name, before.seen, text)
    && l == Labelling(before.labels[last.column := text], before.seen + {text})
  }

  function Columns(catalog: seq<seq<Col>>): seq<Col> {
    if catalog == [] then [] else Columns(catalog[..|catalog| - 1]) + catalog[|catalog| - 1]
  }

  ghost predicate LabelsOf(cols: seq<Col>, labels: map<string, string>) {
    exists seen :: Labels(cols, Labelling(labels, seen))
  }

  method ColumnLabels(catalog: seq<seq<Col>>) returns (labels: map<string, string>)
    ensures LabelsOf(Columns(catalog), labels)
  {
    labels := map[];
    var taken: set<string> := {};
    for e := 0 to |catalog|
      invariant Labels(Columns(catalog[..e]), Labelling(labels, taken))
    {
      var entry := catalog[e];
      assert Columns(catalog[..e]) + entry[..0] == Columns(catalog[..e]);
      for c := 0 to |entry|
        invariant Labels(Columns(catalog[..e]) + entry[..c], Labelling(labels, taken))
      {
        var col := entry[c];
        var text := col.name;
        if text in taken {
          var n := FreeSuffix(text, taken);
          text := Candidate(text, n);
        }
        LabelsStep(Columns(catalog[..e]) + entry[..c], col, Labelling(labels, taken), text);
        assert Columns(catalog[..e]) + entry[..c] + [col] == Columns(catalog[..e]) + entry[..c + 1];
        taken := taken + {text};
        labels := labels[col.column := text];
      }
      assert entry[..|entry|] == entry && catalog[..e + 1][..e] == catalog[..e];
    }
    assert catalog[..|catalog|] == catalog;
  }

  lemma LabelsStep(cols: seq<Col>, col: Col, l: Labelling, text: string)
    requires Labels(cols, l) && IsLabel(col.name, l.seen, text)
    ensures Labels(cols + [col], Labelling(l.labels[col.column := text], l.seen + {text}))
  {
    assert (cols + [col])[..|cols|] == cols;
    assert LabelledLast(cols + [col], l, text, Labelling(l.labels[col.column := text], l.seen + {text}));
  }

  /** Of two columns with one name the second is numbered 2. */
  lemma SecondIsNumberedTwo(name: string, a: string, b: string)
    ensures LabelsOf([Col(name, a), Col(name, b)], map[a := name][b := name + " (2)"])
  {
    var empty, one := Labelling(map[], {}), Labelling(map[][a := name], {} + {name});
    LabelsStep([], Col(name, a), empty, name);
    assert [] + [Col(name, a)] == [Col(name, a)];
    var second := name + " (2)";
    assert Candidate(name, 2) == second by { assert Digits(2) == "2"; }
    assert |second| != |name| && FirstFree(name, one.seen, 2);
    assert IsLabel(name, one.seen, second);
    LabelsStep([Col(name, a)], Col(name, b), one, second);
    assert [Col(name, a)] + [Col(name, b)] == [Col(name, a), Col(name, b)];
    assert Labels([Col(name, a), Col(name, b)], Labelling(map[a := name][b := second], one.seen + {second}));
  }

  /** The labelling is determined by the columns. */
  lemma {:induction false} LabelsDetermined(cols: seq<Col>, l: Labelling, m: Labelling)
    requires Labels(cols, l) && Labels(cols, m)
    ensures l == m
  {
    if cols != [] {
      var b, s :| LabelledLast(cols, b, s, l);
      var c, t :| LabelledLast(cols, c, t, m);
      LabelsDetermined(cols[..|cols| - 1], b, c);
      var name := cols[|cols| - 1].name;
      if name in b.seen {
        var i: nat :| FirstFree(name, b.seen, i) && s == Candidate(name, i);
        var j: nat :| FirstFree(name, b.seen, j) && t == Candidate(name, j);
        FirstFreeUnique(name, b.seen, i, j);
      }
    }
  }

  ghost predicate Distinct(labels: map<string, string>) {
    forall a, b :: a in labels && b in labels && labels[a] == labels[b] ==> a == b
  }

  /** Every column gets a label, nothing else does, and distinct columns never share one. */
  lemma {:induction false} LabelsAreDistinct(cols: seq<Col>, l: Labelling)
    requires Labels(cols, l)
    ensures Distinct(l.labels) && l.labels.Values <= l.seen
    ensures forall key :: key in l.labels <==> exists k :: 0 <= k < |cols| && cols[k].column == key
  {
    if cols != [] {
      var init, last := cols[..|cols| - 1], cols[|cols| - 1];
      var before, text :| LabelledLast(cols, before, text, l);
      LabelsAreDistinct(init, before);
      hide Labels, Candidate;
      assert cols == init + [last];
      assert text !in before.seen;
    }
  }

  /** A name no earlier column took as its label stays as it is. */
  lemma {:induction false} UnusedNamesAreKept(cols: seq<Col>, l: Labelling)
    requires Labels(cols, l)
    requires forall i, j :: 0 <= i < j < |cols| ==> cols[i].name != cols[j].name && cols[i].column != cols[j].column
    requires forall i, j, n: nat :: 0 <= i < |cols| && 0 <= j < |cols| ==> cols[i].name != Candidate(cols[j].name, n)
    ensures l.labels.Keys == (set k | 0 <= k < |cols| :: cols[k].column)
    ensures l.seen == set k | 0 <= k < |cols| :: cols[k].name
    ensures forall k :: 0 <= k < |cols| ==> l.labels[cols[k].column] == cols[k].name
  {
    if cols != [] {
      var init, last := cols[..|cols| - 1], cols[|cols| - 1];
      var before, text :| LabelledLast(cols, before, text, l);
      assert forall k :: 0 <= k < |init| ==> init[k] == cols[k];
      UnusedNamesAreKept(init, before);
      assert cols == init + [last] && last.name !in before.seen;
    }
  }

  /* ---- Relabelling result rows ---- */

  function NewName(labels: map<string, string>, key: string): string {
    if key in labels then labels[key] else key
  }

  /** A row is its cells in order; two cells under one name collapse to the later. */
  function Relabelled<V>(row: seq<(string, V)>, labels: map<string, string>): map<string, V> {
    if row == [] then map[]
    else Relabelled(row[..|row| - 1], labels)[NewName(labels, row[|row| - 1].0) := row[|row| - 1].1]
  }

  predicate IsDict<V>(row: seq<(string, V)>) {
    forall i, j :: 0 <= i < j < |row| ==> row[i].0 != row[j].0
  }

  /** No two cells of the row get the same new name. */
  predicate NoClash<V>(row: seq<(string, V)>, labels: map<string, string>) {
    forall i, j :: 0 <= i < j < |row| ==> NewName(labels, row[i].0) != NewName(labels, row[j].0)
  }

  lemma {:induction false} RelabelledNames<V>(row: seq<(string, V)>, labels: map<string, string>)
    ensures forall name ::
              name in Relabelled(row, labels) <==> exists k :: 0 <= k < |row| && NewName(labels, row[k].0) == name
  {
    if row != [] {
      var init, last := row[..|row| - 1], row[|row| - 1];
      RelabelledNames(init, labels);
      hide NewName;
      assert row == init + [last];
    }
  }

  lemma MapGrows<V>(m: map<string, V>, name: string, v: V)
    ensures |m[name := v]| == |m| + if name in m then 0 else 1
  {
    var n := m[name := v];
    assert n.Keys == m.Keys + {name} && |n.Keys| == |n| && |m.Keys| == |m|;
  }

  lemma NoClashStep<V>(row: seq<(string, V)>, labels: map<string, string>)
    requires row != []
    ensures NoClash(row, labels)
       <==> (&& NoClash(row[..|row| - 1], labels)
             && forall k :: 0 <= k < |row| - 1 ==> NewName(labels, row[k].0) != NewName(labels, row[|row| - 1].0))
  {
    var init := row[..|row| - 1];
    assert forall k :: 0 <= k < |init| ==> init[k] == row[k];
    hide NewName;
  }

  /** The row keeps its size exactly when no two cells clash. */
  lemma {:induction false} RelabelledSize<V>(row: seq<(string, V)>, labels: map<string, string>)
    ensures |Relabelled(row, labels)| <= |row|
    ensures |Relabelled(row, labels)| == |row| <==> NoClash(row, labels)
  {
    if row != [] {
      var init, last := row[..|row| - 1], row[|row| - 1];
      RelabelledSize(init, labels);
      RelabelledNames(init, labels);
      NoClashStep(row, labels);
      MapGrows(Relabelled(init, labels), NewName(labels, last.0), last.1);
      assert Relabelled(row, labels) == Relabelled(init, labels)[NewName(labels, last.0) := last.1];
      hide Relabelled, NewName, NoClash;
      assert forall k :: 0 <= k < |init| ==> init[k] == row[k];
    }
  }

  lemma {:induction false} RelabelledCell<V>(row: seq<(string, V)>, labels: map<string, string>, k: nat)
    requires NoClash(row, labels) && k < |row|
    ensures NewName(labels, row[k].0) in Relabelled(row, labels)
    ensures Relabelled(row, labels)[NewName(labels, row[k].0)] == row[k].1
  {
    if k < |row| - 1 { RelabelledCell(row[..|row| - 1], labels, k); }
  }

  /** The label of one column is the name of another, which has none. */
  predicate TakesName(key: string, other: string, labels: map<string, string>) {
    key in labels && other !in labels && labels[key] == other
  }

  /** A row keeps all its cells if and only if no column without a label is named like
      the label of another column of the row. */
  lemma RowsKeepCellsExactly<V>(row: seq<(string, V)>, labels: map<string, string>)
    requires IsDict(row) && Distinct(labels)
    ensures |Relabelled(row, labels)| == |row|
       <==> forall i, j :: 0 <= i < |row| && 0 <= j < |row| ==> !TakesName(row[i].0, row[j].0, labels)
  {
    RelabelledSize(row, labels);
    hide Relabelled;
    if !NoClash(row, labels) {
      var i, j :| 0 <= i < j < |row| && NewName(labels, row[i].0) == NewName(labels, row[j].0);
      assert row[i].0 in labels <==> row[j].0 !in labels;
    }
    if i, j :| 0 <= i < |row| && 0 <= j < |row| && TakesName(row[i].0, row[j].0, labels) {
      assert NewName(labels, row[i].0) == NewName(labels, row[j].0);
      assert i != j;
    }
  }

  ghost predicate Shows<V>(row: map<string, V>, name: string, value: V) {
    name in row && row[name] == value
  }

  /** So a row all of whose columns are labelled keeps every cell under its label. */
  lemma LabelledRowsKeepCells<V>(row: seq<(string, V)>, labels: map<string, string>)
    requires IsDict(row) && Distinct(labels) && forall k :: 0 <= k < |row| ==> row[k].0 in labels
    ensures |Relabelled(row, labels)| == |row|
    ensures forall k :: 0 <= k < |row| ==> Shows(Relabelled(row, labels), labels[row[k].0], row[k].1)
  {
    RelabelledSize(row, labels);
    forall k | 0 <= k < |row| ensures Shows(Relabelled(row, labels), labels[row[k].0], row[k].1) {
      RelabelledCell(row, labels, k);
    }
  }
}
