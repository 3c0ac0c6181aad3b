/** The guard, the qualifier repair and the scope injection of generated SQL. */
module SqlGuard {
  import opened Common
  import opened SqlAst

  datatype GuardError = ParseFailed | NotOneStatement | NotASelect | SelectInto | ContainsWrite | UnknownRelation

  datatype ParseOutcome = ParseError | Parsed(statements: seq<Option<Query>>)

  /** sqlglot: parsing text into statements and printing a tree. */
  datatype Dialect = Dialect(parse: string -> ParseOutcome, render: Query -> string)

  ghost predicate Inverse(d: Dialect) {
    forall q :: d.parse(d.render(q)) == Parsed([Some(q)])
  }

  predicate IsSelect(q: Query) {
    q.Select? || (q.With? && IsSelect(q.main))
  }

  predicate Into(q: Query) {
    if q.Select? then q.into else q.With? && Into(q.main)
  }

  predicate WriteFree(q: Query) {
    forall n :: n in Walk(q) ==> !n.WriteNode?
  }

  function NonNull(statements: seq<Option<Query>>): seq<Query> {
    if statements == [] then []
    else (if statements[0].Some? then [statements[0].value] else []) + NonNull(statements[1..])
  }

  function ParseAndGuard(outcome: ParseOutcome): Result<Query, GuardError> {
    if outcome.ParseError? then Err(ParseFailed)
    else
      var statements := NonNull(outcome.statements);
      if |statements| != 1 then Err(NotOneStatement)
      else
        var statement := statements[0];
        if !IsSelect(statement) then Err(NotASelect)
        else if Into(statement) then Err(SelectInto)
        else if !WriteFree(statement) then Err(ContainsWrite)
        else Ok(statement)
  }

  function LowerAll(names: set<string>): set<string> {
    set v | v in names :: Lower(v)
  }

  /** One flat set for the whole tree, wherever a CTE is declared. */
  function CteNames(q: Query): set<string> {
    set n | n in Walk(q) && n.CteNode? && n.name != "" :: Lower(n.name)
  }

  predicate NameKnown(s: Source, known: set<string>) {
    s.Named? && s.name != "" ==> Lower(s.name) in known
  }

  predicate NamesAllowed(q: Query, allowed: set<string>) {
    forall n :: n in Walk(q) && n.TableNode? ==> NameKnown(n.leaf, LowerAll(allowed) + CteNames(q))
  }

  function StripLeaf(s: Source): Source {
    if s.Named? && s.name != "" then s.(qualifiers := []) else s
  }

  function Stripped(q: Query): Query {
    Rewrite(q, StripLeaf)
  }

  /** A reference the injection replaces. */
  predicate Eligible(s: Source, allowed: set<string>, reserved: set<string>) {
    s.Named? && s.name != "" && Lower(s.name) !in reserved && Lower(s.name) in LowerAll(allowed)
  }

  /** `FROM v a` becomes `FROM (SELECT * FROM v WHERE p) AS a`. */
  function WrapLeaf(s: Source, allowed: set<string>, reserved: set<string>, p: Expr): Source {
    if Eligible(s, allowed, reserved) then
      Derived(Select(Star, Named([], s.name, None), p, None, false), s.alias.GetOr(s.name))
    else s
  }

  function Wrap(allowed: set<string>, reserved: set<string>, p: Expr): Source -> Source {
    s => WrapLeaf(s, allowed, reserved, p)
  }

  function Injected(q: Query, allowed: set<string>, p: Expr): Query {
    Rewrite(q, Wrap(allowed, CteNames(q), p))
  }

  function CountEligible(nodes: seq<Node>, allowed: set<string>, reserved: set<string>): nat {
    if nodes == [] then 0
    else
      var last := nodes[|nodes| - 1];
      CountEligible(nodes[..|nodes| - 1], allowed, reserved)
        + (if last.TableNode? && Eligible(last.leaf, allowed, reserved) then 1 else 0)
  }

  /** What `normalize_sql` returns, as a function of the text. */
  function Normalized(d: Dialect, sql: string, allowed: set<string>, scope: Option<Expr>): Result<string, GuardError> {
    match ParseAndGuard(d.parse(sql))
    case Err(e) => Err(e)
    case Ok(q) =>
      if !NamesAllowed(q, allowed) then Err(UnknownRelation)
      else
        var rendered := d.render(Prepared(q, allowed, scope));
        match ParseAndGuard(d.parse(rendered))
        case Err(e) => Err(e)
        case Ok(again) => if NamesAllowed(again, allowed) then Ok(rendered) else Err(UnknownRelation)
  }

  function Prepared(q: Query, allowed: set<string>, scope: Option<Expr>): Query {
    if scope.Some? then Injected(Stripped(q), allowed, scope.value) else Stripped(q)
  }

  /** A parsed statement. Its tree is mutated through the table nodes `find_all`
      hands out, which the array of the two methods below stands for. */
  class Statement {
    var tree: Query

    constructor (q: Query)
      ensures tree == q
    {
      tree := q;
    }
  }

  method StripQualifiers(statement: Statement, allowed: set<string>) returns (r: Result<(), GuardError>)
    modifies statement
    ensures r.Ok? <==> NamesAllowed(old(statement.tree), allowed)
    ensures r.Err? ==> r.error == UnknownRelation
    ensures r.Ok? ==> statement.tree == Stripped(old(statement.tree))
  {
    var walked := Walk(statement.tree);
    var known := LowerAll(allowed) + CteNames(statement.tree);
    var nodes := new Node[|walked|](i requires 0 <= i < |walked| => walked[i]);
    var i := 0;
    while i < nodes.Length
      invariant 0 <= i <= nodes.Length
      invariant statement.tree == old(statement.tree)
      invariant forall k :: 0 <= k < i && walked[k].TableNode? ==> NameKnown(walked[k].leaf, known)
      invariant forall k :: 0 <= k < i ==> nodes[k] == MapNode(walked[k], StripLeaf)
      invariant forall k :: i <= k < nodes.Length ==> nodes[k] == walked[k]
    {
      if nodes[i].TableNode? && nodes[i].leaf.Named? && nodes[i].leaf.name != "" {
        if Lower(nodes[i].leaf.name) !in known {
          assert walked[i] in walked;
          return Err(UnknownRelation);
        }
        nodes[i] := TableNode(nodes[i].leaf.(qualifiers := []));
      }
      i := i + 1;
    }
    assert nodes[..] == MapNodes(walked, StripLeaf);
    FillMapped(statement.tree, StripLeaf);
    statement.tree := Fill(statement.tree, nodes[..]);
    r := Ok(());
  }

  method InjectScope(statement: Statement, allowed: set<string>, predicate_: Expr) returns (injected: nat)
    modifies statement
    ensures statement.tree == Injected(old(statement.tree), allowed, predicate_)
    ensures injected == CountEligible(Walk(old(statement.tree)), allowed, CteNames(old(statement.tree)))
  {
    var tables := Walk(statement.tree);
    var reserved := CteNames(statement.tree);
    var allowedLower := LowerAll(allowed);
    var nodes := new Node[|tables|](i requires 0 <= i < |tables| => tables[i]);
    injected := 0;
    var i := 0;
    while i < |tables|
      invariant 0 <= i <= |tables|
      invariant statement.tree == old(statement.tree)
      invariant injected == CountEligible(tables[..i], allowed, reserved)
      invariant nodes[..] == MapNodes(tables[..i], Wrap(allowed, reserved, predicate_)) + tables[i..]
    {
      assert nodes[..][i] == tables[i];
      assert tables[..i + 1][..i] == tables[..i];
      StepNodes(tables, i, Wrap(allowed, reserved, predicate_));
      if tables[i].TableNode? && tables[i].leaf.Named? {
        var table := tables[i].leaf;
        var name := Lower(table.name);
        if !(table.name == "" || name in reserved || name !in allowedLower) {
          var ident := if table.alias.Some? then table.alias.value else table.name;
          var scoped := Select(Star, Named([], table.name, None), predicate_, None, false);
          nodes[i] := TableNode(Derived(scoped, ident));
          injected := injected + 1;
        }
      }
      assert nodes[..] == (MapNodes(tables[..i], Wrap(allowed, reserved, predicate_)) + tables[i..])[i := nodes[i]];
      i := i + 1;
    }
    assert tables[..i] == tables;
    assert nodes[..] == MapNodes(tables, Wrap(allowed, reserved, predicate_));
    FillMapped(statement.tree, Wrap(allowed, reserved, predicate_));
    statement.tree := Fill(statement.tree, nodes[..]);
  }

  lemma StepNodes(nodes: seq<Node>, i: nat, f: Source -> Source)
    requires i < |nodes|
    ensures (MapNodes(nodes[..i], f) + nodes[i..])[i := MapNode(nodes[i], f)]
         == MapNodes(nodes[..i + 1], f) + nodes[i + 1..]
  {
  }

  method NormalizeSql(d: Dialect, sql: string, allowed: set<string>, scope: Option<Expr>)
    returns (r: Result<string, GuardError>)
    ensures r == Normalized(d, sql, allowed, scope)
  {
    var guarded := ParseAndGuard(d.parse(sql));
    if guarded.Err? { return Err(guarded.error); }
    var statement := new Statement(guarded.value);
    var repaired := StripQualifiers(statement, allowed);
    if repaired.Err? { return Err(repaired.error); }
    if scope.Some? {
      var _ := InjectScope(statement, allowed, scope.value);
    }
    var rendered := d.render(statement.tree);
    var again := ParseAndGuard(d.parse(rendered));
    if again.Err? { return Err(again.error); }
    var verified := new Statement(again.value);
    var rechecked := StripQualifiers(verified, allowed);
    if rechecked.Err? { return Err(rechecked.error); }
    r := Ok(rendered);
  }

  /* ---- Normalisation is sound and complete ---- */

  predicate Acceptable(q: Query, allowed: set<string>) {
    IsSelect(q) && !Into(q) && WriteFree(q) && NamesAllowed(q, allowed)
  }

  predicate Unqualified(q: Query) {
    forall n :: n in Walk(q) && n.TableNode? && n.leaf.Named? && n.leaf.name != "" ==> n.leaf.qualifiers == []
  }

  function Bare(s: Source): Source {
    if s.Named? then Named([], s.name, None) else s
  }

  function WrapNode(allowed: set<string>, reserved: set<string>): Source -> Source {
    s => if Eligible(s, allowed, reserved) then Bare(s) else s
  }

  lemma KeepsShape(q: Query, f: Source -> Source)
    ensures IsSelect(Rewrite(q, f)) == IsSelect(q)
    ensures Into(Rewrite(q, f)) == Into(q)
  {
  }

  /** A leaf transformation that renames nothing keeps every name the guard looks at. */
  lemma KeepsNames(q: Query, f: Source -> Source, g: Source -> Source, allowed: set<string>)
    requires KeepsOneTable(f, g)
    requires RenamesNothing(g)
    ensures CteNames(Rewrite(q, f)) == CteNames(q)
    ensures WriteFree(Rewrite(q, f)) == WriteFree(q)
    ensures NamesAllowed(Rewrite(q, f), allowed) == NamesAllowed(q, allowed)
  {
    WalkRewritten(q, f, g);
    Images(Walk(q), g);
    SameCteNames(q, Rewrite(q, f), g);
    SameWrites(q, Rewrite(q, f), g);
    SameNames(q, Rewrite(q, f), g, allowed);
  }

  ghost predicate RenamesNothing(g: Source -> Source) {
    forall s: Source :: s.Named? ==> g(s).Named? && g(s).name == s.name
  }

  ghost predicate ImageOf(before: seq<Node>, after: seq<Node>, g: Source -> Source) {
    && (forall n :: n in before ==> MapNode(n, g) in after)
    && (forall n :: n in after ==> exists m :: m in before && MapNode(m, g) == n)
  }

  lemma Images(before: seq<Node>, g: Source -> Source)
    ensures ImageOf(before, MapNodes(before, g), g)
  {
    var after := MapNodes(before, g);
    forall n | n in before ensures MapNode(n, g) in after {
      var i :| 0 <= i < |before| && before[i] == n;
      assert after[i] == MapNode(n, g);
    }
    forall n | n in after ensures exists m :: m in before && MapNode(m, g) == n {
      var i :| 0 <= i < |after| && after[i] == n;
      assert before[i] in before && MapNode(before[i], g) == n;
    }
  }

  lemma SameCteNames(q: Query, r: Query, g: Source -> Source)
    requires ImageOf(Walk(q), Walk(r), g)
    ensures CteNames(q) == CteNames(r)
  {
    forall name | name in CteNames(q) ensures name in CteNames(r) {
      var n :| n in Walk(q) && n.CteNode? && n.name != "" && Lower(n.name) == name;
      assert MapNode(n, g) == n;
    }
    forall name | name in CteNames(r) ensures name in CteNames(q) {
      var n :| n in Walk(r) && n.CteNode? && n.name != "" && Lower(n.name) == name;
    }
  }

  lemma SameWrites(q: Query, r: Query, g: Source -> Source)
    requires ImageOf(Walk(q), Walk(r), g)
    ensures WriteFree(q) == WriteFree(r)
  {
    if !WriteFree(q) {
      var n :| n in Walk(q) && n.WriteNode?;
      assert MapNode(n, g) == n;
    }
  }

  lemma SameNames(q: Query, r: Query, g: Source -> Source, allowed: set<string>)
    requires ImageOf(Walk(q), Walk(r), g)
    requires RenamesNothing(g)
    requires CteNames(q) == CteNames(r)
    ensures NamesAllowed(q, allowed) == NamesAllowed(r, allowed)
  {
    TablesAreNamed(q);
    var known := LowerAll(allowed) + CteNames(q);
    if NamesAllowed(q, allowed) {
      forall n | n in Walk(r) && n.TableNode? ensures NameKnown(n.leaf, known) {
        var m :| m in Walk(q) && MapNode(m, g) == n;
        assert NameKnown(m.leaf, known);
      }
    } else {
      var n :| n in Walk(q) && n.TableNode? && !NameKnown(n.leaf, known);
      assert MapNode(n, g) in Walk(r) && !NameKnown(MapNode(n, g).leaf, known);
    }
  }

  lemma {:induction false} TablesAreNamedExpr(e: Expr)
    ensures forall n :: n in WalkExpr(e) && n.TableNode? ==> n.leaf.Named?
  {
    match e
    case Lit(_) =>
    case Col(_, _) =>
    case Apply(_, l, r) => TablesAreNamedExpr(l); TablesAreNamedExpr(r);
    case And(l, r) => TablesAreNamedExpr(l); TablesAreNamedExpr(r);
    case OneOf(o, _) => TablesAreNamedExpr(o);
    case Overlaps(o, _) => TablesAreNamedExpr(o);
    case Scalar(q) => TablesAreNamed(q);
    case Exists(q) => TablesAreNamed(q);
    case InQuery(o, q) => TablesAreNamedExpr(o); TablesAreNamed(q);
  }

  lemma {:induction false} TablesAreNamedItems(items: Items)
    ensures forall n :: n in WalkItems(items) && n.TableNode? ==> n.leaf.Named?
  {
    if items.Item? { TablesAreNamedExpr(items.expr); TablesAreNamedItems(items.rest); }
  }

  lemma {:induction false} TablesAreNamedSource(s: Source)
    ensures forall n :: n in WalkSource(s) && n.TableNode? ==> n.leaf.Named?
  {
    match s
    case NoSource =>
    case Named(_, _, _) =>
    case Derived(q, _) => TablesAreNamed(q);
    case Join(_, l, r, on) => TablesAreNamedSource(l); TablesAreNamedSource(r); TablesAreNamedExpr(on);
  }

  lemma {:induction false} TablesAreNamed(q: Query)
    ensures forall n :: n in Walk(q) && n.TableNode? ==> n.leaf.Named?
  {
    match q
    case Select(items, source, filter, _, _) =>
      TablesAreNamedItems(items); TablesAreNamedSource(source); TablesAreNamedExpr(filter);
    case With(_, body, main) => TablesAreNamed(body); TablesAreNamed(main);
    case SetOp(_, l, r) => TablesAreNamed(l); TablesAreNamed(r);
    case Write(_) =>
  }

  lemma WalkWrapped(s: Source, allowed: set<string>, reserved: set<string>, p: Expr)
    requires s.Named? && WalkExpr(p) == []
    ensures WalkSource(WrapLeaf(s, allowed, reserved, p))
              == [TableNode(if Eligible(s, allowed, reserved) then Bare(s) else s)]
  {
    if Eligible(s, allowed, reserved) {
      var inner := Select(Star, Bare(s), p, None, false);
      assert Walk(inner) == WalkItems(Star) + WalkSource(Bare(s)) + WalkExpr(p);
    }
  }

  lemma WrapKeepsOneTable(allowed: set<string>, reserved: set<string>, p: Expr)
    requires WalkExpr(p) == []
    ensures KeepsOneTable(Wrap(allowed, reserved, p), WrapNode(allowed, reserved))
    ensures RenamesNothing(WrapNode(allowed, reserved))
  {
    forall s: Source | s.Named?
      ensures WalkSource(Wrap(allowed, reserved, p)(s)) == [TableNode(WrapNode(allowed, reserved)(s))]
    {
      WalkWrapped(s, allowed, reserved, p);
    }
  }

  lemma UnqualifiedImage(q: Query, r: Query, g: Source -> Source)
    requires ImageOf(Walk(q), Walk(r), g)
    requires forall n :: n in Walk(q) && n.TableNode? && g(n.leaf).Named? && g(n.leaf).name != "" ==>
               g(n.leaf).qualifiers == []
    ensures Unqualified(r)
  {
    forall n | n in Walk(r) && n.TableNode? && n.leaf.Named? && n.leaf.name != ""
      ensures n.leaf.qualifiers == []
    {
      var m :| m in Walk(q) && MapNode(m, g) == n;
    }
  }

  lemma StripKeeps(q: Query, allowed: set<string>)
    ensures CteNames(Stripped(q)) == CteNames(q)
    ensures Acceptable(Stripped(q), allowed) == Acceptable(q, allowed)
    ensures Unqualified(Stripped(q))
  {
    KeepsShape(q, StripLeaf);
    KeepsNames(q, StripLeaf, StripLeaf, allowed);
    WalkRewritten(q, StripLeaf, StripLeaf);
    Images(Walk(q), StripLeaf);
    TablesAreNamed(q);
    UnqualifiedImage(q, Stripped(q), StripLeaf);
  }

  lemma InjectKeeps(q: Query, allowed: set<string>, p: Expr)
    requires WalkExpr(p) == []
    ensures CteNames(Injected(q, allowed, p)) == CteNames(q)
    ensures Acceptable(Injected(q, allowed, p), allowed) == Acceptable(q, allowed)
    ensures Unqualified(q) ==> Unqualified(Injected(q, allowed, p))
  {
    var reserved := CteNames(q);
    var f, g := Wrap(allowed, reserved, p), WrapNode(allowed, reserved);
    WrapKeepsOneTable(allowed, reserved, p);
    KeepsShape(q, f);
    KeepsNames(q, f, g, allowed);
    if Unqualified(q) { InjectUnqualified(q, allowed, p); }
  }

  lemma InjectUnqualified(q: Query, allowed: set<string>, p: Expr)
    requires WalkExpr(p) == [] && Unqualified(q)
    ensures Unqualified(Injected(q, allowed, p))
  {
    var reserved := CteNames(q);
    var g := WrapNode(allowed, reserved);
    WrapKeepsOneTable(allowed, reserved, p);
    WalkRewritten(q, Wrap(allowed, reserved, p), g);
    Images(Walk(q), g);
    UnqualifiedImage(q, Injected(q, allowed, p), g);
  }

  /** Success exactly on one acceptable SELECT, whatever the scope; the output text
      parses to the prepared tree, which is acceptable again and free of qualifiers,
      so the re-check never rejects it. */
  lemma NormalizeExact(d: Dialect, sql: string, allowed: set<string>, scope: Option<Expr>)
    requires Inverse(d)
    requires scope.Some? ==> WalkExpr(scope.value) == []
    ensures Normalized(d, sql, allowed, scope).Ok? <==>
            && d.parse(sql).Parsed?
            && |NonNull(d.parse(sql).statements)| == 1
            && Acceptable(NonNull(d.parse(sql).statements)[0], allowed)
    ensures Normalized(d, sql, allowed, scope).Ok? ==>
              var out := Prepared(NonNull(d.parse(sql).statements)[0], allowed, scope);
              && d.parse(Normalized(d, sql, allowed, scope).value) == Parsed([Some(out)])
              && Acceptable(out, allowed) && Unqualified(out)
              && CteNames(out) == CteNames(NonNull(d.parse(sql).statements)[0])
  {
    var guarded := ParseAndGuard(d.parse(sql));
    if guarded.Ok? {
      var q := guarded.value;
      var out := Prepared(q, allowed, scope);
      StripKeeps(q, allowed);
      if scope.Some? { InjectKeeps(Stripped(q), allowed, scope.value); }
      assert d.parse(d.render(out)) == Parsed([Some(out)]);
      assert NonNull([Some(out)]) == [out];
    }
  }

  /* ---- Every reference gains exactly one predicate ---- */

  /** For each walked node, how many `SELECT * FROM . WHERE p` layers directly enclose it. */
  function LayersExpr(e: Expr, p: Expr): (r: seq<nat>)
    ensures |r| == |WalkExpr(e)|
  {
    match e
    case Lit(_) => []
    case Col(_, _) => []
    case Apply(_, l, r) => LayersExpr(l, p) + LayersExpr(r, p)
    case And(l, r) => LayersExpr(l, p) + LayersExpr(r, p)
    case OneOf(o, _) => LayersExpr(o, p)
    case Overlaps(o, _) => LayersExpr(o, p)
    case Scalar(q) => Layers(q, p, 0)
    case Exists(q) => Layers(q, p, 0)
    case InQuery(o, q) => LayersExpr(o, p) + Layers(q, p, 0)
  }

  function LayersItems(items: Items, p: Expr): (r: seq<nat>)
    ensures |r| == |WalkItems(items)|
  {
    match items
    case Star => []
    case NoItems => []
    case Item(_, e, rest) => LayersExpr(e, p) + LayersItems(rest, p)
  }

  function LayersSource(s: Source, p: Expr, depth: nat): (r: seq<nat>)
    ensures |r| == |WalkSource(s)|
  {
    match s
    case NoSource => []
    case Named(_, _, _) => [depth]
    case Derived(q, _) => Layers(q, p, depth)
    case Join(_, l, r, on) => LayersSource(l, p, 0) + LayersSource(r, p, 0) + LayersExpr(on, p)
  }

  predicate Filters(items: Items, source: Source, filter: Expr, fin: Option<string>, p: Expr) {
    items.Star? && (source.Named? || source.Derived?) && filter == p && fin.None?
  }

  function Layers(q: Query, p: Expr, depth: nat): (r: seq<nat>)
    ensures |r| == |Walk(q)|
  {
    match q
    case Select(items, source, filter, fin, _) =>
      LayersItems(items, p)
      + LayersSource(source, p, if Filters(items, source, filter, fin, p) then depth + 1 else 0)
      + LayersExpr(filter, p)
    case With(_, body, main) => [0] + Layers(body, p, 0) + Layers(main, p, 0)
    case SetOp(_, l, r) => Layers(l, p, 0) + Layers(r, p, 0)
    case Write(_) => [0]
  }

  /** One more layer on exactly the eligible table nodes. */
  function Gained(nodes: seq<Node>, layers: seq<nat>, allowed: set<string>, reserved: set<string>): (r: seq<nat>)
    requires |nodes| == |layers|
    ensures |r| == |nodes|
  {
    seq(|nodes|, k requires 0 <= k < |nodes| =>
      layers[k] + if nodes[k].TableNode? && Eligible(nodes[k].leaf, allowed, reserved) then 1 else 0)
  }

  /** Rewriting never turns an expression into a table-free one. */
  lemma {:induction false} TableFreeExpr(e: Expr, allowed: set<string>, reserved: set<string>, p: Expr, q: Expr)
    requires WalkExpr(p) == [] && WalkExpr(q) == []
    ensures RewriteExpr(e, Wrap(allowed, reserved, p)) == q <==> e == q
  {
    var f := Wrap(allowed, reserved, p);
    if WalkExpr(e) == [] {
      UntouchedExpr(e, f);
    } else {
      WrapKeepsOneTable(allowed, reserved, p);
      WalkRewrittenExpr(e, f, WrapNode(allowed, reserved));
    }
  }

  lemma {:induction false} UntouchedExpr(e: Expr, f: Source -> Source)
    requires WalkExpr(e) == []
    ensures RewriteExpr(e, f) == e
  {
    FillMappedExpr(e, f);
    FillNothingExpr(e);
  }

  lemma {:induction false} FillNothingExpr(e: Expr)
    requires WalkExpr(e) == []
    ensures FillExpr(e, []) == e
  {
    match e
    case Lit(_) =>
    case Col(_, _) =>
    case Apply(_, l, r) => FillNothingExpr(l); FillNothingExpr(r);
    case And(l, r) => FillNothingExpr(l); FillNothingExpr(r);
    case OneOf(o, _) => FillNothingExpr(o);
    case Overlaps(o, _) => FillNothingExpr(o);
    case Scalar(q) => FillNothing(q);
    case Exists(q) => FillNothing(q);
    case InQuery(o, q) => FillNothingExpr(o); FillNothing(q);
  }

  lemma {:induction false} FillNothingItems(items: Items)
    requires WalkItems(items) == []
    ensures FillItems(items, []) == items
  {
    if items.Item? { FillNothingExpr(items.expr); FillNothingItems(items.rest); }
  }

  lemma {:induction false} FillNothingSource(s: Source)
    requires WalkSource(s) == []
    ensures FillSource(s, []) == s
  {
    match s
    case NoSource =>
    case Derived(q, _) => FillNothing(q);
    case Join(_, l, r, on) => FillNothingSource(l); FillNothingSource(r); FillNothingExpr(on);
  }

  lemma {:induction false} FillNothing(q: Query)
    requires Walk(q) == []
    ensures Fill(q, []) == q
  {
    match q
    case Select(items, source, filter, _, _) =>
      FillNothingItems(items); FillNothingSource(source); FillNothingExpr(filter);
    case SetOp(_, l, r) => FillNothing(l); FillNothing(r);
  }

  lemma GainedAppend(a: seq<Node>, la: seq<nat>, b: seq<Node>, lb: seq<nat>, allowed: set<string>,
                     reserved: set<string>)
    requires |a| == |la| && |b| == |lb|
    ensures Gained(a + b, la + lb, allowed, reserved)
         == Gained(a, la, allowed, reserved) + Gained(b, lb, allowed, reserved)
  {
  }

  lemma {:induction false} GainsOneExpr(e: Expr, allowed: set<string>, reserved: set<string>, p: Expr)
    requires WalkExpr(p) == []
    ensures LayersExpr(RewriteExpr(e, Wrap(allowed, reserved, p)), p)
         == Gained(WalkExpr(e), LayersExpr(e, p), allowed, reserved)
  {
    match e
    case Lit(_) =>
    case Col(_, _) =>
    case Apply(_, l, r) =>
      GainsOneExpr(l, allowed, reserved, p); GainsOneExpr(r, allowed, reserved, p);
      GainedAppend(WalkExpr(l), LayersExpr(l, p), WalkExpr(r), LayersExpr(r, p), allowed, reserved);
    case And(l, r) =>
      GainsOneExpr(l, allowed, reserved, p); GainsOneExpr(r, allowed, reserved, p);
      GainedAppend(WalkExpr(l), LayersExpr(l, p), WalkExpr(r), LayersExpr(r, p), allowed, reserved);
    case OneOf(o, _) => GainsOneExpr(o, allowed, reserved, p);
    case Overlaps(o, _) => GainsOneExpr(o, allowed, reserved, p);
    case Scalar(q) => GainsOne(q, allowed, reserved, p, 0);
    case Exists(q) => GainsOne(q, allowed, reserved, p, 0);
    case InQuery(o, q) =>
      GainsOneExpr(o, allowed, reserved, p); GainsOne(q, allowed, reserved, p, 0);
      GainedAppend(WalkExpr(o), LayersExpr(o, p), Walk(q), Layers(q, p, 0), allowed, reserved);
  }

  lemma {:induction false} GainsOneItems(items: Items, allowed: set<string>, reserved: set<string>, p: Expr)
    requires WalkExpr(p) == []
    ensures LayersItems(RewriteItems(items, Wrap(allowed, reserved, p)), p)
         == Gained(WalkItems(items), LayersItems(items, p), allowed, reserved)
  {
    match items
    case Star =>
    case NoItems =>
    case Item(_, e, rest) =>
      GainsOneExpr(e, allowed, reserved, p); GainsOneItems(rest, allowed, reserved, p);
      GainedAppend(WalkExpr(e), LayersExpr(e, p), WalkItems(rest), LayersItems(rest, p), allowed, reserved);
  }

  lemma {:induction false} GainsOneSource(s: Source, allowed: set<string>, reserved: set<string>, p: Expr, depth: nat)
    requires WalkExpr(p) == []
    ensures LayersSource(RewriteSource(s, Wrap(allowed, reserved, p)), p, depth)
         == Gained(WalkSource(s), LayersSource(s, p, depth), allowed, reserved)
  {
    match s
    case NoSource =>
    case Named(_, name, _) =>
      var inner := Select(Star, Named([], name, None), p, None, false);
      assert LayersExpr(p, p) == [];
      assert Layers(inner, p, depth) == [] + [depth + 1] + [];
    case Derived(q, _) => GainsOne(q, allowed, reserved, p, depth);
    case Join(_, l, r, on) =>
      GainsOneSource(l, allowed, reserved, p, 0); GainsOneSource(r, allowed, reserved, p, 0);
      GainsOneExpr(on, allowed, reserved, p);
      GainedAppend(WalkSource(l), LayersSource(l, p, 0), WalkSource(r), LayersSource(r, p, 0), allowed, reserved);
      GainedAppend(WalkSource(l) + WalkSource(r), LayersSource(l, p, 0) + LayersSource(r, p, 0),
                   WalkExpr(on), LayersExpr(on, p), allowed, reserved);
  }

  lemma GainedAppend3(a: seq<Node>, la: seq<nat>, b: seq<Node>, lb: seq<nat>, c: seq<Node>, lc: seq<nat>,
                      allowed: set<string>, reserved: set<string>)
    requires |a| == |la| && |b| == |lb| && |c| == |lc|
    ensures Gained(a + b + c, la + lb + lc, allowed, reserved)
         == Gained(a, la, allowed, reserved) + Gained(b, lb, allowed, reserved) + Gained(c, lc, allowed, reserved)
  {
    GainedAppend(a, la, b, lb, allowed, reserved);
    GainedAppend(a + b, la + lb, c, lc, allowed, reserved);
  }

  /** The injection adds one layer of `p` to each eligible reference and none elsewhere. */
  lemma {:induction false} GainsOne(q: Query, allowed: set<string>, reserved: set<string>, p: Expr, depth: nat)
    requires WalkExpr(p) == []
    ensures Layers(Rewrite(q, Wrap(allowed, reserved, p)), p, depth)
         == Gained(Walk(q), Layers(q, p, depth), allowed, reserved)
  {
    match q
    case Select(items, source, filter, fin, into) =>
      var inner := if Filters(items, source, filter, fin, p) then depth + 1 else 0;
      FiltersKept(items, source, filter, fin, allowed, reserved, p);
      GainsOneItems(items, allowed, reserved, p);
      GainsOneSource(source, allowed, reserved, p, inner);
      GainsOneExpr(filter, allowed, reserved, p);
      GainedAppend3(WalkItems(items), LayersItems(items, p), WalkSource(source), LayersSource(source, p, inner),
                    WalkExpr(filter), LayersExpr(filter, p), allowed, reserved);
    case With(name, body, main) =>
      GainsOne(body, allowed, reserved, p, 0); GainsOne(main, allowed, reserved, p, 0);
      assert Gained([CteNode(name)], [0], allowed, reserved) == [0];
      GainedAppend3([CteNode(name)], [0], Walk(body), Layers(body, p, 0), Walk(main), Layers(main, p, 0), allowed,
        reserved);
    case SetOp(_, l, r) =>
      GainsOne(l, allowed, reserved, p, 0); GainsOne(r, allowed, reserved, p, 0);
      GainedAppend(Walk(l), Layers(l, p, 0), Walk(r), Layers(r, p, 0), allowed, reserved);
    case Write(kind) =>
      assert Gained([WriteNode(kind)], [0], allowed, reserved) == [0];
  }

  lemma FiltersKept(items: Items, source: Source, filter: Expr, fin: Option<string>,
                    allowed: set<string>, reserved: set<string>, p: Expr)
    requires WalkExpr(p) == []
    ensures var f := Wrap(allowed, reserved, p);
            Filters(RewriteItems(items, f), RewriteSource(source, f), RewriteExpr(filter, f), fin, p)
            == Filters(items, source, filter, fin, p)
  {
    TableFreeExpr(filter, allowed, reserved, p, p);
  }
}
