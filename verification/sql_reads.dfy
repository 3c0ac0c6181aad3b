/** What a normalised statement reads, and which statements are let through, in terms of
    the tree itself. */
module SqlReads {
  import opened Common
  import opened SqlAst
  import opened SqlSemantics
  import opened SqlGuard
  import opened SqlScoping

  /* ---- Which rows the two scopes keep ---- */

  /** Positions of two base columns in every generated view. */
  const DOCUMENT_ID := 1
  const TOPIC_IDS := 6

  /** The row's document has one of the topics; a row without topics has none of them. */
  predicate TaggedWith(row: Row, topicIds: set<string>) {
    TOPIC_IDS < |row| && row[TOPIC_IDS].Ids? && row[TOPIC_IDS].ids * topicIds != {}
  }

  predicate OfDocument(row: Row, documentIds: seq<string>) {
    DOCUMENT_ID < |row| && row[DOCUMENT_ID].Text? && row[DOCUMENT_ID].s in documentIds
  }

  /** The rows that pass a test, in their order. */
  function Passing(rows: seq<Row>, test: Row -> bool): seq<Row> {
    if rows == [] then [] else (if test(rows[0]) then [rows[0]] else []) + Passing(rows[1..], test)
  }

  /** A database whose allowed views hold only the rows that pass. */
  function Restricted(db: map<string, Table>, allowed: set<string>, test: Row -> bool): map<string, Table> {
    map n | n in db ::
      if n != "" && n in LowerAll(allowed) then Table(db[n].columns, Passing(db[n].rows, test)) else db[n]
  }

  lemma {:induction false} LookupAt(head: seq<Head>, column: string, i: nat)
    requires i < |head| && head[i].column == Lower(column)
    requires forall k :: 0 <= k < i ==> head[k].column != Lower(column)
    ensures Lookup(head, "", column) == i
  {
    if i > 0 { LookupAt(head[1..], column, i - 1); }
  }

  lemma BaseColumnAt(t: Table, ops: Ops, row: Row, i: nat)
    requires BASE_COLUMNS <= t.columns && (i == DOCUMENT_ID || i == TOPIC_IDS)
    ensures EvalExpr(Col("", BASE_COLUMNS[i]), Env(ops, map[], map[]), [Binding(Exposed(t, "").head, row)] + [])
         == if i < |row| then row[i] else Null
  {
    var head := Exposed(t, "").head;
    assert Lower("document_id") == "document_id" && Lower("topic_ids") == "topic_ids";
    assert forall k :: 0 <= k < |BASE_COLUMNS| ==> head[k].column == t.columns[k] == BASE_COLUMNS[k];
    LookupAt(head, BASE_COLUMNS[i], i);
  }

  lemma {:induction false} KeptArePassing(rows: seq<Row>, p: Expr, ops: Ops, head: seq<Head>, test: Row -> bool)
    requires forall row :: True(EvalExpr(p, Env(ops, map[], map[]), [Binding(head, row)] + [])) == test(row)
    ensures Keep(rows, EvalRows(p, Env(ops, map[], map[]), head, rows, [])) == Passing(rows, test)
  {
    if rows == [] {
      assert EvalRows(p, Env(ops, map[], map[]), head, rows, []) == [];
    } else {
      KeepFirst(p, Env(ops, map[], map[]), head, rows);
      KeptArePassing(rows[1..], p, ops, head, test);
    }
  }

  /** The topic scope keeps a row exactly when it carries one of the topics. */
  lemma TopicScopeKeeps(t: Table, topicIds: set<string>, ops: Ops)
    requires BASE_COLUMNS <= t.columns
    ensures FilterTable(t, TopicScope(topicIds), ops)
         == Table(t.columns, Passing(t.rows, row => TaggedWith(row, topicIds)))
  {
    var head := Exposed(t, "").head;
    forall row
      ensures True(EvalExpr(TopicScope(topicIds), Env(ops, map[], map[]), [Binding(head, row)] + []))
           == TaggedWith(row, topicIds)
    {
      BaseColumnAt(t, ops, row, TOPIC_IDS);
    }
    KeptArePassing(t.rows, TopicScope(topicIds), ops, head, row => TaggedWith(row, topicIds));
  }

  /** The document scope keeps a row exactly when its document is in the list. */
  lemma DocumentScopeKeeps(t: Table, documentIds: seq<string>, ops: Ops)
    requires BASE_COLUMNS <= t.columns
    ensures FilterTable(t, DocumentScope(documentIds), ops)
         == Table(t.columns, Passing(t.rows, row => OfDocument(row, documentIds)))
  {
    var head := Exposed(t, "").head;
    forall row
      ensures True(EvalExpr(DocumentScope(documentIds), Env(ops, map[], map[]), [Binding(head, row)] + []))
           == OfDocument(row, documentIds)
    {
      BaseColumnAt(t, ops, row, DOCUMENT_ID);
    }
    KeptArePassing(t.rows, DocumentScope(documentIds), ops, head, row => OfDocument(row, documentIds));
  }

  /** Row by row: which rows stay, and that untagged rows never do. */
  lemma {:induction false} PassingExactly(rows: seq<Row>, test: Row -> bool)
    ensures forall row :: row in Passing(rows, test) <==> row in rows && test(row)
    ensures forall row :: multiset(Passing(rows, test))[row] == if test(row) then multiset(rows)[row] else 0
  {
    if rows != [] {
      PassingExactly(rows[1..], test);
      assert rows == [rows[0]] + rows[1..];
    }
  }

  lemma TopicScopeRows(t: Table, topicIds: set<string>, ops: Ops, row: Row, own: set<string>)
    requires BASE_COLUMNS <= t.columns && row in t.rows && |row| == |t.columns| && row[TOPIC_IDS] == Ids(own)
    ensures row in FilterTable(t, TopicScope(topicIds), ops).rows <==> own * topicIds != {}
    ensures own == {} ==> row !in FilterTable(t, TopicScope(topicIds), ops).rows
  {
    TopicScopeKeeps(t, topicIds, ops);
    PassingExactly(t.rows, row => TaggedWith(row, topicIds));
  }

  lemma DocumentScopeRows(t: Table, documentIds: seq<string>, ops: Ops, row: Row, document: string)
    requires BASE_COLUMNS <= t.columns && row in t.rows && |row| == |t.columns| && row[DOCUMENT_ID] == Text(document)
    ensures row in FilterTable(t, DocumentScope(documentIds), ops).rows <==> document in documentIds
  {
    DocumentScopeKeeps(t, documentIds, ops);
    PassingExactly(t.rows, row => OfDocument(row, documentIds));
  }

  /** End to end for a topic scope: the returned text gives what the unqualified
      statement gives on views that hold only rows with one of the topics. */
  lemma TopicQueryMeaning(d: Dialect, sql: string, allowed: set<string>, topicIds: set<string>, ops: Ops,
                          db: map<string, Table>)
    requires Inverse(d) && Normalized(d, sql, allowed, Some(TopicScope(topicIds))).Ok?
    requires forall n :: n in LowerAll(allowed) && n in db ==> BASE_COLUMNS <= db[n].columns
    requires LowerAll(allowed) !! CteNames(ParseAndGuard(d.parse(sql)).value)
    ensures var q := ParseAndGuard(d.parse(sql)).value;
            var out := ParseAndGuard(d.parse(Normalized(d, sql, allowed, Some(TopicScope(topicIds))).value));
            && out.Ok?
            && Run(out.value, ops, db) == Run(Stripped(q), ops,
              Restricted(db, allowed, row => TaggedWith(row, topicIds)))
  {
    NormalizedScopes(d, sql, allowed, TopicScope(topicIds), topicIds, [], ops, db);
    hide Run, Normalized, ParseAndGuard, Stripped, CteNames, FilterTable;
    forall n | n in db && n != "" && n in LowerAll(allowed)
      ensures FilterTable(db[n], TopicScope(topicIds), ops)
           == Table(db[n].columns, Passing(db[n].rows, row => TaggedWith(row, topicIds)))
    {
      TopicScopeKeeps(db[n], topicIds, ops);
    }
    assert ScopedDb(db, allowed, TopicScope(topicIds), ops)
             == Restricted(db, allowed, row => TaggedWith(row, topicIds));
  }

  lemma DocumentQueryMeaning(d: Dialect, sql: string, allowed: set<string>, documentIds: seq<string>, ops: Ops,
                             db: map<string, Table>)
    requires Inverse(d) && Normalized(d, sql, allowed, Some(DocumentScope(documentIds))).Ok?
    requires forall n :: n in LowerAll(allowed) && n in db ==> BASE_COLUMNS <= db[n].columns
    requires LowerAll(allowed) !! CteNames(ParseAndGuard(d.parse(sql)).value)
    ensures var q := ParseAndGuard(d.parse(sql)).value;
            var out := ParseAndGuard(d.parse(Normalized(d, sql, allowed, Some(DocumentScope(documentIds))).value));
            && out.Ok?
            && Run(out.value, ops, db)
               == Run(Stripped(q), ops, Restricted(db, allowed, row => OfDocument(row, documentIds)))
  {
    NormalizedScopes(d, sql, allowed, DocumentScope(documentIds), {}, documentIds, ops, db);
    hide Run, Normalized, ParseAndGuard, Stripped, CteNames, FilterTable;
    forall n | n in db && n != "" && n in LowerAll(allowed)
      ensures FilterTable(db[n], DocumentScope(documentIds), ops)
           == Table(db[n].columns, Passing(db[n].rows, row => OfDocument(row, documentIds)))
    {
      DocumentScopeKeeps(db[n], documentIds, ops);
    }
    assert ScopedDb(db, allowed, DocumentScope(documentIds), ops)
        == Restricted(db, allowed, row => OfDocument(row, documentIds));
  }

  /* ---- Which statements are let through ---- */

  /** What a tree contains: whether anything is written, the folded names of its
      relations, and those of its CTEs. */
  datatype Facts = Facts(writes: bool, relations: set<string>, ctes: set<string>) {
    function And(other: Facts): Facts {
      Facts(writes || other.writes, relations + other.relations, ctes + other.ctes)
    }
  }

  const NOTHING := Facts(false, {}, {})

  function Name(name: string): set<string> {
    if name == "" then {} else {Lower(name)}
  }

  function FactsOfExpr(e: Expr): Facts {
    match e
    case Lit(_) => NOTHING
    case Col(_, _) => NOTHING
    case Apply(_, l, r) => FactsOfExpr(l).And(FactsOfExpr(r))
    case And(l, r) => FactsOfExpr(l).And(FactsOfExpr(r))
    case OneOf(o, _) => FactsOfExpr(o)
    case Overlaps(o, _) => FactsOfExpr(o)
    case Scalar(q) => FactsOf(q)
    case Exists(q) => FactsOf(q)
    case InQuery(o, q) => FactsOfExpr(o).And(FactsOf(q))
  }

  function FactsOfItems(items: Items): Facts {
    if items.Item? then FactsOfExpr(items.expr).And(FactsOfItems(items.rest)) else NOTHING
  }

  function FactsOfSource(s: Source): Facts {
    match s
    case NoSource => NOTHING
    case Named(_, name, _) => Facts(false, Name(name), {})
    case Derived(q, _) => FactsOf(q)
    case Join(_, l, r, on) => FactsOfSource(l).And(FactsOfSource(r)).And(FactsOfExpr(on))
  }

  function FactsOf(q: Query): Facts {
    match q
    case Select(items, source, filter, _, _) => FactsOfItems(items).And(FactsOfSource(source)).And(FactsOfExpr(filter))
    case With(name, body, main) => Facts(false, {}, Name(name)).And(FactsOf(body)).And(FactsOf(main))
    case SetOp(_, l, r) => FactsOf(l).And(FactsOf(r))
    case Write(_) => Facts(true, {}, {})
  }

  /** The query that a statement's CTEs lead up to. */
  function Body(q: Query): Query {
    if q.With? then Body(q.main) else q
  }

  function FactsOfNode(n: Node): Facts {
    match n
    case TableNode(leaf) => if leaf.Named? then Facts(false, Name(leaf.name), {}) else NOTHING
    case CteNode(name) => Facts(false, {}, Name(name))
    case WriteNode(_) => Facts(true, {}, {})
  }

  function FactsOfNodes(nodes: seq<Node>): Facts {
    if nodes == [] then NOTHING else FactsOfNode(nodes[0]).And(FactsOfNodes(nodes[1..]))
  }

  lemma {:induction false} FactsAppend(a: seq<Node>, b: seq<Node>)
    ensures FactsOfNodes(a + b) == FactsOfNodes(a).And(FactsOfNodes(b))
  {
    if a == [] {
      assert a + b == b;
    } else {
      FactsAppend(a[1..], b);
      assert (a + b)[1..] == a[1..] + b;
    }
  }

  lemma {:induction false} WalkedExpr(e: Expr)
    ensures FactsOfNodes(WalkExpr(e)) == FactsOfExpr(e)
  {
    match e
    case Lit(_) =>
    case Col(_, _) =>
    case Apply(_, l, r) => WalkedExpr(l); WalkedExpr(r); FactsAppend(WalkExpr(l), WalkExpr(r));
    case And(l, r) => WalkedExpr(l); WalkedExpr(r); FactsAppend(WalkExpr(l), WalkExpr(r));
    case OneOf(o, _) => WalkedExpr(o);
    case Overlaps(o, _) => WalkedExpr(o);
    case Scalar(q) => Walked(q);
    case Exists(q) => Walked(q);
    case InQuery(o, q) => WalkedExpr(o); Walked(q); FactsAppend(WalkExpr(o), Walk(q));
  }

  lemma {:induction false} WalkedItems(items: Items)
    ensures FactsOfNodes(WalkItems(items)) == FactsOfItems(items)
  {
    if items.Item? {
      WalkedExpr(items.expr);
      WalkedItems(items.rest);
      FactsAppend(WalkExpr(items.expr), WalkItems(items.rest));
    }
  }

  lemma {:induction false} WalkedSource(s: Source)
    ensures FactsOfNodes(WalkSource(s)) == FactsOfSource(s)
  {
    match s
    case NoSource =>
    case Named(_, _, _) => assert WalkSource(s) == [TableNode(s)] && [TableNode(s)][1..] == [];
    case Derived(q, _) => Walked(q);
    case Join(_, l, r, on) =>
      WalkedSource(l); WalkedSource(r); WalkedExpr(on);
      FactsAppend(WalkSource(l), WalkSource(r));
      FactsAppend(WalkSource(l) + WalkSource(r), WalkExpr(on));
  }

  /** The walk over the tree misses nothing. */
  lemma {:induction false} Walked(q: Query)
    ensures FactsOfNodes(Walk(q)) == FactsOf(q)
  {
    match q
    case Select(items, source, filter, _, _) =>
      WalkedItems(items); WalkedSource(source); WalkedExpr(filter);
      FactsAppend(WalkItems(items), WalkSource(source));
      FactsAppend(WalkItems(items) + WalkSource(source), WalkExpr(filter));
    case With(name, body, main) =>
      Walked(body); Walked(main);
      assert [CteNode(name)][1..] == [];
      FactsAppend([CteNode(name)], Walk(body));
      FactsAppend([CteNode(name)] + Walk(body), Walk(main));
    case SetOp(_, l, r) => Walked(l); Walked(r); FactsAppend(Walk(l), Walk(r));
    case Write(kind) => assert [WriteNode(kind)][1..] == [];
  }

  lemma {:induction false} FactsMembers(nodes: seq<Node>)
    ensures FactsOfNodes(nodes).writes <==> exists n :: n in nodes && n.WriteNode?
    ensures forall name :: name in FactsOfNodes(nodes).relations <==>
              exists n :: n in nodes && n.TableNode? && n.leaf.Named? && n.leaf.name != "" && Lower(n.leaf.name) == name
    ensures forall name :: name in FactsOfNodes(nodes).ctes <==>
              exists n :: n in nodes && n.CteNode? && n.name != "" && Lower(n.name) == name
  {
    if nodes != [] {
      FactsMembers(nodes[1..]);
      assert nodes == [nodes[0]] + nodes[1..];
    }
  }

  /** One statement among any number of empty ones. */
  predicate OnlyStatement(statements: seq<Option<Query>>, k: nat) {
    && k < |statements| && statements[k].Some?
    && forall i :: 0 <= i < |statements| && i != k ==> statements[i].None?
  }

  lemma {:induction false} NoStatement(statements: seq<Option<Query>>)
    ensures NonNull(statements) == [] <==> forall s :: s in statements ==> s.None?
  {
    if statements != [] {
      var rest := statements[1..];
      NoStatement(rest);
      assert statements == [statements[0]] + rest;
      assert statements[0] in statements && forall s :: s in statements <==> s == statements[0] || s in rest;
    }
  }

  lemma {:induction false} OneStatementAt(statements: seq<Option<Query>>, k: nat)
    requires OnlyStatement(statements, k)
    ensures NonNull(statements) == [statements[k].value]
  {
    if k == 0 {
      assert forall s :: s in statements[1..] ==> s.None?;
      NoStatement(statements[1..]);
    } else {
      forall i | 0 <= i < |statements| - 1 && i != k - 1 ensures statements[1..][i].None? {
        assert statements[1..][i] == statements[i + 1];
      }
      OneStatementAt(statements[1..], k - 1);
    }
  }

  lemma {:induction false} OneStatement(statements: seq<Option<Query>>)
    requires |NonNull(statements)| == 1
    ensures exists k :: OnlyStatement(statements, k)
  {
    if statements[0].Some? {
      NoStatement(statements[1..]);
      forall i | 0 < i < |statements| ensures statements[i].None? { assert statements[i] == statements[1..][i - 1]; }
      assert OnlyStatement(statements, 0);
    } else {
      OneStatement(statements[1..]);
      var k: nat :| OnlyStatement(statements[1..], k);
      forall i | 0 <= i < |statements| && i != k + 1 ensures statements[i].None? {
        if i > 0 { assert statements[i] == statements[1..][i - 1]; }
      }
      assert OnlyStatement(statements, k + 1);
    }
  }

  /** The tree is a SELECT into nothing, behind any CTEs, writes nothing anywhere, and
      names only allowed views and its own CTEs. */
  predicate Harmless(q: Query, allowed: set<string>) {
    && Body(q).Select? && !Body(q).into && !FactsOf(q).writes
    && forall name :: name in FactsOf(q).relations ==>
         name in FactsOf(q).ctes || exists v :: v in allowed && Lower(v) == name
  }

  lemma {:induction false} SelectExactly(q: Query)
    ensures IsSelect(q) <==> Body(q).Select?
    ensures Into(q) <==> Body(q).Select? && Body(q).into
  {
    if q.With? { SelectExactly(q.main); }
  }

  lemma CteNamesExactly(q: Query)
    ensures CteNames(q) == FactsOf(q).ctes
  {
    Walked(q);
    FactsMembers(Walk(q));
  }

  lemma AcceptableExactly(q: Query, allowed: set<string>)
    ensures Acceptable(q, allowed) <==> Harmless(q, allowed)
  {
    SelectExactly(q);
    CteNamesExactly(q);
    Walked(q);
    FactsMembers(Walk(q));
    hide Walk, CteNames, FactsOf, FactsOfNodes, IsSelect, Into, Body;
    assert forall name :: name in LowerAll(allowed) <==> exists v :: v in allowed && Lower(v) == name;
    if NamesAllowed(q, allowed) {
      forall name | name in FactsOf(q).relations ensures name in FactsOf(q).ctes || name in LowerAll(allowed) {
        var n :| n in Walk(q) && n.TableNode? && n.leaf.Named? && n.leaf.name != "" && Lower(n.leaf.name) == name;
      }
    }
    if Harmless(q, allowed) {
      forall n | n in Walk(q) && n.TableNode? ensures NameKnown(n.leaf, LowerAll(allowed) + CteNames(q)) {
        if n.leaf.Named? && n.leaf.name != "" { assert Lower(n.leaf.name) in FactsOf(q).relations; }
      }
    }
  }

  ghost predicate OneHarmless(statements: seq<Option<Query>>, allowed: set<string>) {
    exists k: nat :: OnlyStatement(statements, k) && Harmless(statements[k].value, allowed)
  }

  lemma OneHarmlessExactly(statements: seq<Option<Query>>, allowed: set<string>)
    ensures OneHarmless(statements, allowed)
       <==> |NonNull(statements)| == 1 && Acceptable(NonNull(statements)[0], allowed)
  {
    hide NonNull, Acceptable, Harmless;
    if |NonNull(statements)| == 1 {
      OneStatement(statements);
      var k: nat :| OnlyStatement(statements, k);
      OneStatementAt(statements, k);
      AcceptableExactly(NonNull(statements)[0], allowed);
    }
    if OneHarmless(statements, allowed) {
      var k: nat :| OnlyStatement(statements, k) && Harmless(statements[k].value, allowed);
      OneStatementAt(statements, k);
      AcceptableExactly(statements[k].value, allowed);
    }
  }

  /** Normalisation succeeds exactly on one harmless statement, whatever the scope. */
  lemma NormalizeAcceptsExactly(d: Dialect, sql: string, allowed: set<string>, scope: Option<Expr>)
    requires Inverse(d) && (scope.Some? ==> WalkExpr(scope.value) == [])
    ensures Normalized(d, sql, allowed, scope).Ok? <==>
            d.parse(sql).Parsed? && OneHarmless(d.parse(sql).statements, allowed)
  {
    NormalizeExact(d, sql, allowed, scope);
    hide *;
    if d.parse(sql).Parsed? { OneHarmlessExactly(d.parse(sql).statements, allowed); }
  }

  /* ---- What a statement's result depends on ---- */

  /** Each reference means under the second database what it meant under the first,
      whatever CTEs of the statement are in scope. */
  ghost predicate SameLeaves(nodes: seq<Node>, f: Source -> Source, ops: Ops, db: map<string, Table>,
                             other: map<string, Table>, reserved: set<string>)
  {
    forall n, ctes: map<string, Table>, outer ::
      n in nodes && n.TableNode? && n.leaf.Named? && CtesWithin(ctes, reserved) ==>
        EvalSource(f(n.leaf), Env(ops, other, ctes), outer) == EvalSource(n.leaf, Env(ops, db, ctes), outer)
  }

  predicate CtesWithin(ctes: map<string, Table>, reserved: set<string>) {
    forall n :: n in ctes && n != "" ==> n in reserved
  }

  lemma {:induction false} SameExpr(e: Expr, f: Source -> Source, ops: Ops, db: map<string, Table>,
                                    other: map<string, Table>, reserved: set<string>, ctes: map<string, Table>,
                                    scope: seq<Binding>)
    requires SameLeaves(WalkExpr(e), f, ops, db, other, reserved) && CtesWithin(ctes, reserved)
    requires CtesIn(WalkExpr(e), reserved)
    ensures EvalExpr(RewriteExpr(e, f), Env(ops, other, ctes), scope) == EvalExpr(e, Env(ops, db, ctes), scope)
    decreases e, 0
  {
    match e
    case Lit(_) =>
    case Col(_, _) =>
    case Apply(_, l, r) =>
      SameExpr(l, f, ops, db, other, reserved, ctes, scope); SameExpr(r, f, ops, db, other, reserved, ctes, scope);
    case And(l, r) =>
      SameExpr(l, f, ops, db, other, reserved, ctes, scope); SameExpr(r, f, ops, db, other, reserved, ctes, scope);
    case OneOf(o, _) => SameExpr(o, f, ops, db, other, reserved, ctes, scope);
    case Overlaps(o, _) => SameExpr(o, f, ops, db, other, reserved, ctes, scope);
    case Scalar(q) => SameQuery(q, f, ops, db, other, reserved, ctes, scope);
    case Exists(q) => SameQuery(q, f, ops, db, other, reserved, ctes, scope);
    case InQuery(o, q) =>
      SameExpr(o, f, ops, db, other, reserved, ctes, scope); SameQuery(q, f, ops, db, other, reserved, ctes, scope);
  }

  lemma {:induction false} SameRows(e: Expr, f: Source -> Source, ops: Ops, db: map<string, Table>,
                                    other: map<string, Table>, reserved: set<string>, ctes: map<string, Table>,
                                    head: seq<Head>, rows: seq<Row>, outer: seq<Binding>)
    requires SameLeaves(WalkExpr(e), f, ops, db, other, reserved) && CtesWithin(ctes, reserved)
    requires CtesIn(WalkExpr(e), reserved)
    ensures EvalRows(RewriteExpr(e, f), Env(ops, other, ctes), head, rows, outer)
         == EvalRows(e, Env(ops, db, ctes), head, rows, outer)
    decreases e, 1
  {
    forall i | 0 <= i < |rows|
      ensures EvalExpr(RewriteExpr(e, f), Env(ops, other, ctes), [Binding(head, rows[i])] + outer)
           == EvalExpr(e, Env(ops, db, ctes), [Binding(head, rows[i])] + outer)
    {
      SameExpr(e, f, ops, db, other, reserved, ctes, [Binding(head, rows[i])] + outer);
    }
  }

  lemma {:induction false} SameItems(items: Items, f: Source -> Source, ops: Ops, db: map<string, Table>,
                                     other: map<string, Table>, reserved: set<string>, ctes: map<string, Table>,
                                     head: seq<Head>, b: Binding, outer: seq<Binding>)
    requires SameLeaves(WalkItems(items), f, ops, db, other, reserved) && CtesWithin(ctes, reserved)
    requires CtesIn(WalkItems(items), reserved)
    ensures ProjectRow(RewriteItems(items, f), Env(ops, other, ctes), b, outer)
         == ProjectRow(items, Env(ops, db, ctes), b, outer)
    ensures ItemNames(RewriteItems(items, f), head) == ItemNames(items, head)
    decreases items, 0
  {
    if items.Item? {
      SameExpr(items.expr, f, ops, db, other, reserved, ctes, [b] + outer);
      SameItems(items.rest, f, ops, db, other, reserved, ctes, head, b, outer);
    }
  }

  lemma {:induction false} SameProjection(items: Items, f: Source -> Source, ops: Ops, db: map<string, Table>,
                                          other: map<string, Table>, reserved: set<string>, ctes: map<string, Table>,
                                          head: seq<Head>, rows: seq<Row>, outer: seq<Binding>)
    requires SameLeaves(WalkItems(items), f, ops, db, other, reserved) && CtesWithin(ctes, reserved)
    requires CtesIn(WalkItems(items), reserved)
    ensures ProjectRows(RewriteItems(items, f), Env(ops, other, ctes), head, rows, outer)
         == ProjectRows(items, Env(ops, db, ctes), head, rows, outer)
    ensures ItemNames(RewriteItems(items, f), head) == ItemNames(items, head)
    decreases items, 1
  {
    SameItems(items, f, ops, db, other, reserved, ctes, head, Binding([], []), outer);
    forall i | 0 <= i < |rows|
      ensures ProjectRow(RewriteItems(items, f), Env(ops, other, ctes), Binding(head, rows[i]), outer)
           == ProjectRow(items, Env(ops, db, ctes), Binding(head, rows[i]), outer)
    {
      SameItems(items, f, ops, db, other, reserved, ctes, head, Binding(head, rows[i]), outer);
    }
  }

  lemma {:induction false} SameSource(s: Source, f: Source -> Source, ops: Ops, db: map<string, Table>,
                                      other: map<string, Table>, reserved: set<string>, ctes: map<string, Table>,
                                      outer: seq<Binding>)
    requires SameLeaves(WalkSource(s), f, ops, db, other, reserved) && CtesWithin(ctes, reserved)
    requires CtesIn(WalkSource(s), reserved)
    ensures EvalSource(RewriteSource(s, f), Env(ops, other, ctes), outer) == EvalSource(s, Env(ops, db, ctes), outer)
    decreases s, 0
  {
    match s
    case NoSource =>
    case Named(_, _, _) => assert TableNode(s) in WalkSource(s);
    case Derived(q, _) => SameQuery(q, f, ops, db, other, reserved, ctes, outer);
    case Join(_, l, r, on) =>
      SameSource(l, f, ops, db, other, reserved, ctes, outer);
      SameSource(r, f, ops, db, other, reserved, ctes, outer);
      var left, right := EvalSource(l, Env(ops, db, ctes), outer), EvalSource(r, Env(ops, db, ctes), outer);
      SameRows(on, f, ops, db, other, reserved, ctes, left.head + right.head, Pairs(left.rows, right.rows), outer);
  }

  lemma {:induction false} SameQuery(q: Query, f: Source -> Source, ops: Ops, db: map<string, Table>,
                                     other: map<string, Table>, reserved: set<string>, ctes: map<string, Table>,
                                     outer: seq<Binding>)
    requires SameLeaves(Walk(q), f, ops, db, other, reserved) && CtesWithin(ctes, reserved)
    requires CtesIn(Walk(q), reserved)
    ensures EvalQuery(Rewrite(q, f), Env(ops, other, ctes), outer) == EvalQuery(q, Env(ops, db, ctes), outer)
    decreases q, 0
  {
    var env := Env(ops, db, ctes);
    match q
    case Select(items, source, filter, _, _) =>
      SameSource(source, f, ops, db, other, reserved, ctes, outer);
      var rel := EvalSource(source, env, outer);
      SameRows(filter, f, ops, db, other, reserved, ctes, rel.head, rel.rows, outer);
      var kept := Keep(rel.rows, EvalRows(filter, env, rel.head, rel.rows, outer));
      SameProjection(items, f, ops, db, other, reserved, ctes, rel.head, kept, outer);
    case With(name, body, main) =>
      SameQuery(body, f, ops, db, other, reserved, ctes, outer);
      assert CteNode(name) in Walk(q);
      SameQuery(main, f, ops, db, other, reserved, ctes[Lower(name) := EvalQuery(body, env, outer)], outer);
    case SetOp(_, l, r) =>
      SameQuery(l, f, ops, db, other, reserved, ctes, outer); SameQuery(r, f, ops, db, other, reserved, ctes, outer);
    case Write(_) =>
  }

  /** The repair: on any database, the repaired statement means what the original means
      where each qualified reference finds the relation that its bare name has here.
      Aliases, columns and everything else stay as they were. */
  lemma RepairMeaning(q: Query, ops: Ops, db: map<string, Table>, asWritten: map<string, Table>)
    requires forall n :: n in Walk(q) && n.TableNode? && n.leaf.Named? && n.leaf.name != "" ==>
               Finds(n.leaf, asWritten, db, CteNames(q))
    ensures Run(Stripped(q), ops, db) == Run(q, ops, asWritten)
  {
    assert CtesIn(Walk(q), CteNames(q));
    forall n, ctes: map<string, Table>, outer | n in Walk(q) && n.TableNode? && n.leaf.Named?
      && CtesWithin(ctes, CteNames(q))
      ensures EvalSource(StripLeaf(n.leaf), Env(ops, db, ctes), outer)
                == EvalSource(n.leaf, Env(ops, asWritten, ctes), outer)
    {
      if n.leaf.name != "" { assert Finds(n.leaf, asWritten, db, CteNames(q)); LowerNonEmpty(n.leaf.name); }
    }
    SameQuery(q, StripLeaf, ops, asWritten, db, CteNames(q), map[], []);
  }

  lemma LowerNonEmpty(name: string)
    requires name != ""
    ensures Lower(name) != ""
  {
    assert |Lower(name)| == |name|;
  }

  /** A reference finds in one database what its bare name has in the other; if it is
      qualified, no CTE has its name. */
  predicate Finds(leaf: Source, asWritten: map<string, Table>, db: map<string, Table>, ctes: set<string>)
    requires leaf.Named?
  {
    var written, bare := Stored(leaf.qualifiers, leaf.name), Lower(leaf.name);
    && (leaf.qualifiers != [] ==> bare !in ctes)
    && (written in asWritten <==> bare in db) && (bare in db ==> asWritten[written] == db[bare])
  }

  lemma {:induction false} RewriteSameExpr(e: Expr, f: Source -> Source)
    requires forall n :: n in WalkExpr(e) && n.TableNode? ==> f(n.leaf) == n.leaf
    ensures RewriteExpr(e, f) == e
  {
    match e
    case Lit(_) =>
    case Col(_, _) =>
    case Apply(_, l, r) => RewriteSameExpr(l, f); RewriteSameExpr(r, f);
    case And(l, r) => RewriteSameExpr(l, f); RewriteSameExpr(r, f);
    case OneOf(o, _) => RewriteSameExpr(o, f);
    case Overlaps(o, _) => RewriteSameExpr(o, f);
    case Scalar(q) => RewriteSame(q, f);
    case Exists(q) => RewriteSame(q, f);
    case InQuery(o, q) => RewriteSameExpr(o, f); RewriteSame(q, f);
  }

  lemma {:induction false} RewriteSameItems(items: Items, f: Source -> Source)
    requires forall n :: n in WalkItems(items) && n.TableNode? ==> f(n.leaf) == n.leaf
    ensures RewriteItems(items, f) == items
  {
    if items.Item? { RewriteSameExpr(items.expr, f); RewriteSameItems(items.rest, f); }
  }

  lemma {:induction false} RewriteSameSource(s: Source, f: Source -> Source)
    requires forall n :: n in WalkSource(s) && n.TableNode? ==> f(n.leaf) == n.leaf
    ensures RewriteSource(s, f) == s
  {
    match s
    case NoSource =>
    case Named(_, _, _) => assert TableNode(s) in WalkSource(s);
    case Derived(q, _) => RewriteSame(q, f);
    case Join(_, l, r, on) => RewriteSameSource(l, f); RewriteSameSource(r, f); RewriteSameExpr(on, f);
  }

  lemma {:induction false} RewriteSame(q: Query, f: Source -> Source)
    requires forall n :: n in Walk(q) && n.TableNode? ==> f(n.leaf) == n.leaf
    ensures Rewrite(q, f) == q
  {
    match q
    case Select(items, source, filter, _, _) =>
      RewriteSameItems(items, f); RewriteSameSource(source, f); RewriteSameExpr(filter, f);
    case With(_, body, main) => RewriteSame(body, f); RewriteSame(main, f);
    case SetOp(_, l, r) => RewriteSame(l, f); RewriteSame(r, f);
    case Write(_) =>
  }

  /** Repairing an unqualified statement changes nothing. */
  lemma RepairNothing(q: Query)
    requires Unqualified(q)
    ensures Stripped(q) == q
  {
    RewriteSame(q, StripLeaf);
  }

  /** The result of an acceptable unqualified statement depends on no stored relation
      but the allowed views and those that share a name with one of its CTEs. */
  lemma ReadsOnlyKnown(q: Query, allowed: set<string>, ops: Ops, db: map<string, Table>, other: map<string, Table>)
    requires Acceptable(q, allowed) && Unqualified(q)
    requires forall n :: n in LowerAll(allowed) + CteNames(q) ==>
               (n in db <==> n in other) && (n in db ==> db[n] == other[n])
    ensures Run(q, ops, db) == Run(q, ops, other)
  {
    RepairNothing(q);
    forall n | n in Walk(q) && n.TableNode? && n.leaf.Named? && n.leaf.name != ""
      ensures Finds(n.leaf, other, db, CteNames(q))
    {
      assert NameKnown(n.leaf, LowerAll(allowed) + CteNames(q));
      assert n.leaf.qualifiers == [] && Stored([], n.leaf.name) == Lower(n.leaf.name);
    }
    RepairMeaning(q, ops, db, other);
  }

  /** So what a successful normalisation returns reads nothing else. */
  lemma NormalizedReadsOnlyKnown(d: Dialect, sql: string, allowed: set<string>, scope: Option<Expr>, ops: Ops,
                                 db: map<string, Table>, other: map<string, Table>)
    requires Inverse(d) && (scope.Some? ==> WalkExpr(scope.value) == []) && Normalized(d, sql, allowed, scope).Ok?
    requires forall n :: n in LowerAll(allowed) + CteNames(ParseAndGuard(d.parse(sql)).value) ==>
               (n in db <==> n in other) && (n in db ==> db[n] == other[n])
    ensures var out := ParseAndGuard(d.parse(Normalized(d, sql, allowed, scope).value));
            out.Ok? && Run(out.value, ops, db) == Run(out.value, ops, other)
  {
    NormalizeExact(d, sql, allowed, scope);
    var out := Prepared(ParseAndGuard(d.parse(sql)).value, allowed, scope);
    assert NonNull([Some(out)]) == [out];
    hide Walk, CteNames, Prepared, Run;
    ReadsOnlyKnown(out, allowed, ops, db, other);
  }
}
