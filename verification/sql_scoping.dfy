/** Scope injection preserves meaning: the rewritten query sees exactly what the
    original would see if every allowed view held only its in-scope rows. */
module SqlScoping {
  import opened Common
  import opened SqlAst
  import opened SqlSemantics
  import opened SqlGuard

  /* ---- The predicates ---- */

  function TopicScope(topicIds: set<string>): Expr {
    Overlaps(Col("", "topic_ids"), topicIds)
  }

  function DocumentScope(documentIds: seq<string>): Expr {
    OneOf(Col("", "document_id"), documentIds)
  }

  /** Reads nothing but bare columns out of `columns`: no qualifier, no subquery. */
  predicate Local(p: Expr, columns: seq<string>) {
    match p
    case Lit(_) => true
    case Col(qualifier, column) => qualifier == "" && Lower(column) in columns
    case Apply(_, l, r) => Local(l, columns) && Local(r, columns)
    case And(l, r) => Local(l, columns) && Local(r, columns)
    case OneOf(o, _) => Local(o, columns)
    case Overlaps(o, _) => Local(o, columns)
    case _ => false
  }

  /** The base columns of every generated view. */
  const BASE_COLUMNS := ["id", "document_id", "row_index", "schema_version_id", "is_duplicate_of", "created_at",
    "topic_ids"]

  lemma ScopesAreLocal(topicIds: set<string>, documentIds: seq<string>, more: seq<string>)
    ensures Local(TopicScope(topicIds), BASE_COLUMNS + more)
    ensures Local(DocumentScope(documentIds), BASE_COLUMNS + more)
  {
    var columns := BASE_COLUMNS + more;
    assert columns[1] == "document_id" && columns[6] == "topic_ids";
    assert Lower("document_id") == "document_id" && Lower("topic_ids") == "topic_ids";
  }

  /* ---- The reference meaning: a database whose views are filtered ---- */

  function FilterTable(t: Table, p: Expr, ops: Ops): Table {
    Table(t.columns, Keep(t.rows, EvalRows(p, Env(ops, map[], map[]), Exposed(t, "").head, t.rows, [])))
  }

  function ScopedDb(db: map<string, Table>, allowed: set<string>, p: Expr, ops: Ops): map<string, Table> {
    map n | n in db :: if n != "" && n in LowerAll(allowed) then FilterTable(db[n], p, ops) else db[n]
  }

  function ScopedEnv(env: Env, allowed: set<string>, p: Expr): Env {
    env.(db := ScopedDb(env.db, allowed, p, env.ops))
  }

  /** Every allowed view has the columns the predicate reads. */
  predicate Covers(p: Expr, allowed: set<string>, db: map<string, Table>) {
    forall n :: n in LowerAll(allowed) && n in db ==> Local(p, db[n].columns)
  }

  /* ---- When the flat set of CTE names is right ---- */

  /** Every reference is unqualified, and one that shares its name with some CTE of
      the tree is in the scope (`bound`) of such a CTE. */
  predicate WellScopedExpr(e: Expr, allowed: set<string>, reserved: set<string>, bound: set<string>) {
    match e
    case Lit(_) => true
    case Col(_, _) => true
    case Apply(_, l, r) => WellScopedExpr(l, allowed, reserved, bound) && WellScopedExpr(r, allowed, reserved, bound)
    case And(l, r) => WellScopedExpr(l, allowed, reserved, bound) && WellScopedExpr(r, allowed, reserved, bound)
    case OneOf(o, _) => WellScopedExpr(o, allowed, reserved, bound)
    case Overlaps(o, _) => WellScopedExpr(o, allowed, reserved, bound)
    case Scalar(q) => WellScoped(q, allowed, reserved, bound)
    case Exists(q) => WellScoped(q, allowed, reserved, bound)
    case InQuery(o, q) => WellScopedExpr(o, allowed, reserved, bound) && WellScoped(q, allowed, reserved, bound)
  }

  predicate WellScopedItems(items: Items, allowed: set<string>, reserved: set<string>, bound: set<string>) {
    items.Item? ==>
      WellScopedExpr(items.expr, allowed, reserved, bound) && WellScopedItems(items.rest, allowed, reserved, bound)
  }

  predicate WellScopedName(name: string, allowed: set<string>, reserved: set<string>, bound: set<string>) {
    name != "" && Lower(name) in LowerAll(allowed) ==> (Lower(name) in reserved <==> Lower(name) in bound)
  }

  predicate WellScopedSource(s: Source, allowed: set<string>, reserved: set<string>, bound: set<string>) {
    match s
    case NoSource => true
    case Named(qualifiers, name, _) => (name != "" ==> qualifiers == [])
      && WellScopedName(name, allowed, reserved, bound)
    case Derived(q, _) => WellScoped(q, allowed, reserved, bound)
    case Join(_, l, r, on) =>
      && WellScopedSource(l, allowed, reserved, bound)
      && WellScopedSource(r, allowed, reserved, bound)
      && WellScopedExpr(on, allowed, reserved, bound)
  }

  predicate WellScoped(q: Query, allowed: set<string>, reserved: set<string>, bound: set<string>) {
    match q
    case Select(items, source, filter, _, _) =>
      && WellScopedItems(items, allowed, reserved, bound)
      && WellScopedSource(source, allowed, reserved, bound)
      && WellScopedExpr(filter, allowed, reserved, bound)
    case With(name, body, main) =>
      WellScoped(body, allowed, reserved, bound) && WellScoped(main, allowed, reserved, bound + {Lower(name)})
    case SetOp(_, l, r) => WellScoped(l, allowed, reserved, bound) && WellScoped(r, allowed, reserved, bound)
    case Write(_) => true
  }

  /* ---- A local predicate means the same wherever it is put ---- */

  lemma {:induction false} LookupLocal(h1: seq<Head>, h2: seq<Head>, column: string)
    requires Columns(h1) == Columns(h2)
    requires Lower(column) in Columns(h1)
    ensures Lookup(h1, "", column) == Lookup(h2, "", column) >= 0
  {
    assert |h1| == |Columns(h1)| == |Columns(h2)| == |h2|;
    assert h1[0].column == Columns(h1)[0] == Columns(h2)[0] == h2[0].column;
    if h1[0].column != Lower(column) {
      assert Columns(h1) == [h1[0].column] + Columns(h1[1..]);
      assert Columns(h2) == [h2[0].column] + Columns(h2[1..]);
      assert Columns(h1)[1..] == Columns(h1[1..]) && Columns(h2)[1..] == Columns(h2[1..]);
      LookupLocal(h1[1..], h2[1..], column);
    }
  }

  lemma {:induction false} EvalLocal(p: Expr, e1: Env, e2: Env, h1: seq<Head>, h2: seq<Head>, row: Row,
                                     outer1: seq<Binding>, outer2: seq<Binding>)
    requires e1.ops == e2.ops && Columns(h1) == Columns(h2) && Local(p, Columns(h1))
    ensures EvalExpr(p, e1, [Binding(h1, row)] + outer1) == EvalExpr(p, e2, [Binding(h2, row)] + outer2)
  {
    match p
    case Lit(_) =>
    case Col(_, column) => LookupLocal(h1, h2, column);
    case Apply(_, l, r) =>
      EvalLocal(l, e1, e2, h1, h2, row, outer1, outer2); EvalLocal(r, e1, e2, h1, h2, row, outer1, outer2);
    case And(l, r) =>
      EvalLocal(l, e1, e2, h1, h2, row, outer1, outer2); EvalLocal(r, e1, e2, h1, h2, row, outer1, outer2);
    case OneOf(o, _) => EvalLocal(o, e1, e2, h1, h2, row, outer1, outer2);
    case Overlaps(o, _) => EvalLocal(o, e1, e2, h1, h2, row, outer1, outer2);
  }

  lemma ColumnsExposed(t: Table, alias: string)
    ensures Columns(Exposed(t, alias).head) == t.columns
  {
  }

  lemma MaskLocal(p: Expr, t: Table, env: Env, alias: string, outer: seq<Binding>)
    requires Local(p, t.columns)
    ensures EvalRows(p, env, Exposed(t, alias).head, t.rows, outer)
         == EvalRows(p, Env(env.ops, map[], map[]), Exposed(t, "").head, t.rows, [])
  {
    var blank := Env(env.ops, map[], map[]);
    var h1, h2 := Exposed(t, alias).head, Exposed(t, "").head;
    ColumnsExposed(t, alias); ColumnsExposed(t, "");
    forall i | 0 <= i < |t.rows|
      ensures EvalExpr(p, env, [Binding(h1, t.rows[i])] + outer) == EvalExpr(p, blank, [Binding(h2, t.rows[i])] + [])
    {
      EvalLocal(p, env, blank, h1, h2, t.rows[i], outer, []);
    }
  }

  lemma ProjectStar(env: Env, head: seq<Head>, rows: seq<Row>, outer: seq<Binding>)
    ensures ProjectRows(Star, env, head, rows, outer) == rows
  {
  }

  /** The derived table that replaces a reference holds the view's in-scope rows. */
  lemma WrapperMeaning(name: string, p: Expr, env: Env, outer: seq<Binding>)
    requires name != "" && Lower(name) !in env.ctes
    requires Lower(name) in env.db ==> Local(p, env.db[Lower(name)].columns)
    ensures EvalQuery(Select(Star, Named([], name, None), p, None, false), env, outer)
         == if Lower(name) in env.db then FilterTable(env.db[Lower(name)], p, env.ops) else EMPTY_TABLE
  {
    var t := Fetch(env, [], name);
    var rel := Exposed(t, name);
    ColumnsExposed(t, name);
    if Lower(name) in env.db {
      MaskLocal(p, t, env, name, outer);
      ProjectStar(env, rel.head, Keep(rel.rows, EvalRows(p, env, rel.head, rel.rows, outer)), outer);
    } else {
      assert rel.rows == [];
      ProjectStar(env, rel.head, [], outer);
    }
  }

  /* ---- The theorem, by induction over the tree ---- */

  /** What every lemma below assumes of its surroundings. */
  ghost predicate Fits(env: Env, allowed: set<string>, reserved: set<string>, p: Expr) {
    && Covers(p, allowed, env.db)
    && forall n :: n in env.ctes && n != "" ==> n in reserved
  }

  ghost predicate CtesIn(nodes: seq<Node>, reserved: set<string>) {
    forall n :: n in nodes && n.CteNode? && n.name != "" ==> Lower(n.name) in reserved
  }

  lemma {:induction false} ScopedExpr(e: Expr, allowed: set<string>, reserved: set<string>, p: Expr, env: Env,
                                      scope: seq<Binding>)
    requires Fits(env, allowed, reserved, p) && CtesIn(WalkExpr(e), reserved)
    requires WellScopedExpr(e, allowed, reserved, env.ctes.Keys)
    ensures EvalExpr(RewriteExpr(e, Wrap(allowed, reserved, p)), env, scope)
              == EvalExpr(e, ScopedEnv(env, allowed, p), scope)
    decreases e, 0
  {
    match e
    case Lit(_) =>
    case Col(_, _) =>
    case Apply(_, l, r) =>
      ScopedExpr(l, allowed, reserved, p, env, scope); ScopedExpr(r, allowed, reserved, p, env, scope);
    case And(l, r) =>
      ScopedExpr(l, allowed, reserved, p, env, scope); ScopedExpr(r, allowed, reserved, p, env, scope);
    case OneOf(o, _) => ScopedExpr(o, allowed, reserved, p, env, scope);
    case Overlaps(o, _) => ScopedExpr(o, allowed, reserved, p, env, scope);
    case Scalar(q) => ScopedQuery(q, allowed, reserved, p, env, scope);
    case Exists(q) => ScopedQuery(q, allowed, reserved, p, env, scope);
    case InQuery(o, q) =>
      ScopedExpr(o, allowed, reserved, p, env, scope); ScopedQuery(q, allowed, reserved, p, env, scope);
  }

  lemma {:induction false} ScopedRows(e: Expr, allowed: set<string>, reserved: set<string>, p: Expr, env: Env,
                                      head: seq<Head>, rows: seq<Row>, outer: seq<Binding>)
    requires Fits(env, allowed, reserved, p) && CtesIn(WalkExpr(e), reserved)
    requires WellScopedExpr(e, allowed, reserved, env.ctes.Keys)
    ensures EvalRows(RewriteExpr(e, Wrap(allowed, reserved, p)), env, head, rows, outer)
         == EvalRows(e, ScopedEnv(env, allowed, p), head, rows, outer)
    decreases e, 1
  {
    var e' := RewriteExpr(e, Wrap(allowed, reserved, p));
    forall i | 0 <= i < |rows|
      ensures EvalExpr(e', env, [Binding(head, rows[i])] + outer)
           == EvalExpr(e, ScopedEnv(env, allowed, p), [Binding(head, rows[i])] + outer)
    {
      ScopedExpr(e, allowed, reserved, p, env, [Binding(head, rows[i])] + outer);
    }
  }

  lemma {:induction false} ScopedItems(items: Items, allowed: set<string>, reserved: set<string>, p: Expr, env: Env,
                                       head: seq<Head>, b: Binding, outer: seq<Binding>)
    requires Fits(env, allowed, reserved, p) && CtesIn(WalkItems(items), reserved)
    requires WellScopedItems(items, allowed, reserved, env.ctes.Keys)
    ensures ProjectRow(RewriteItems(items, Wrap(allowed, reserved, p)), env, b, outer)
         == ProjectRow(items, ScopedEnv(env, allowed, p), b, outer)
    ensures ItemNames(RewriteItems(items, Wrap(allowed, reserved, p)), head) == ItemNames(items, head)
    decreases items, 0
  {
    if items.Item? {
      ScopedExpr(items.expr, allowed, reserved, p, env, [b] + outer);
      ScopedItems(items.rest, allowed, reserved, p, env, head, b, outer);
    }
  }

  lemma {:induction false} ScopedProjection(items: Items, allowed: set<string>, reserved: set<string>, p: Expr,
                                            env: Env,
                                            head: seq<Head>, rows: seq<Row>, outer: seq<Binding>)
    requires Fits(env, allowed, reserved, p) && CtesIn(WalkItems(items), reserved)
    requires WellScopedItems(items, allowed, reserved, env.ctes.Keys)
    ensures ProjectRows(RewriteItems(items, Wrap(allowed, reserved, p)), env, head, rows, outer)
         == ProjectRows(items, ScopedEnv(env, allowed, p), head, rows, outer)
    ensures ItemNames(RewriteItems(items, Wrap(allowed, reserved, p)), head) == ItemNames(items, head)
    decreases items, 1
  {
    ScopedItems(items, allowed, reserved, p, env, head, Binding([], []), outer);
    var items' := RewriteItems(items, Wrap(allowed, reserved, p));
    forall i | 0 <= i < |rows|
      ensures ProjectRow(items', env, Binding(head, rows[i]), outer)
           == ProjectRow(items, ScopedEnv(env, allowed, p), Binding(head, rows[i]), outer)
    {
      ScopedItems(items, allowed, reserved, p, env, head, Binding(head, rows[i]), outer);
    }
  }

  lemma ScopedName(s: Source, allowed: set<string>, reserved: set<string>, p: Expr, env: Env, outer: seq<Binding>)
    requires s.Named? && Fits(env, allowed, reserved, p)
    requires WellScopedSource(s, allowed, reserved, env.ctes.Keys)
    ensures EvalSource(WrapLeaf(s, allowed, reserved, p), env, outer)
              == EvalSource(s, ScopedEnv(env, allowed, p), outer)
  {
    if Eligible(s, allowed, reserved) {
      WrapperMeaning(s.name, p, env, outer);
    }
  }

  lemma {:induction false} ScopedSource(s: Source, allowed: set<string>, reserved: set<string>, p: Expr, env: Env,
                                        outer: seq<Binding>)
    requires Fits(env, allowed, reserved, p) && CtesIn(WalkSource(s), reserved)
    requires WellScopedSource(s, allowed, reserved, env.ctes.Keys)
    ensures EvalSource(RewriteSource(s, Wrap(allowed, reserved, p)), env, outer)
              == EvalSource(s, ScopedEnv(env, allowed, p), outer)
    decreases s, 0
  {
    match s
    case NoSource =>
    case Named(_, _, _) => ScopedName(s, allowed, reserved, p, env, outer);
    case Derived(q, _) => ScopedQuery(q, allowed, reserved, p, env, outer);
    case Join(_, l, r, on) =>
      ScopedSource(l, allowed, reserved, p, env, outer);
      ScopedSource(r, allowed, reserved, p, env, outer);
      var scoped := ScopedEnv(env, allowed, p);
      var left, right := EvalSource(l, scoped, outer), EvalSource(r, scoped, outer);
      ScopedRows(on, allowed, reserved, p, env, left.head + right.head, Pairs(left.rows, right.rows), outer);
  }

  lemma {:induction false} ScopedQuery(q: Query, allowed: set<string>, reserved: set<string>, p: Expr, env: Env,
                                       outer: seq<Binding>)
    requires Fits(env, allowed, reserved, p) && CtesIn(Walk(q), reserved)
    requires WellScoped(q, allowed, reserved, env.ctes.Keys)
    ensures EvalQuery(Rewrite(q, Wrap(allowed, reserved, p)), env, outer)
              == EvalQuery(q, ScopedEnv(env, allowed, p), outer)
    decreases q, 0
  {
    var scoped := ScopedEnv(env, allowed, p);
    match q
    case Select(items, source, filter, _, _) =>
      ScopedSource(source, allowed, reserved, p, env, outer);
      var rel := EvalSource(source, scoped, outer);
      ScopedRows(filter, allowed, reserved, p, env, rel.head, rel.rows, outer);
      var kept := Keep(rel.rows, EvalRows(filter, scoped, rel.head, rel.rows, outer));
      ScopedProjection(items, allowed, reserved, p, env, rel.head, kept, outer);
    case With(name, body, main) =>
      ScopedQuery(body, allowed, reserved, p, env, outer);
      var inner := env.(ctes := env.ctes[Lower(name) := EvalQuery(body, scoped, outer)]);
      assert inner.ctes.Keys == env.ctes.Keys + {Lower(name)};
      assert CteNode(name) in Walk(q);
      ScopedQuery(main, allowed, reserved, p, inner, outer);
      assert ScopedEnv(inner, allowed, p) == scoped.(ctes := inner.ctes);
    case SetOp(_, l, r) =>
      ScopedQuery(l, allowed, reserved, p, env, outer); ScopedQuery(r, allowed, reserved, p, env, outer);
    case Write(_) =>
  }

  /* ---- Whole statements ---- */

  function Run(q: Query, ops: Ops, db: map<string, Table>): Table {
    EvalQuery(q, Env(ops, db, map[]), [])
  }

  /** Running the injected statement is running the original on filtered views. */
  lemma InjectionPreservesMeaning(q: Query, allowed: set<string>, p: Expr, ops: Ops, db: map<string, Table>)
    requires WellScoped(q, allowed, CteNames(q), {})
    requires Covers(p, allowed, db)
    ensures Run(Injected(q, allowed, p), ops, db) == Run(q, ops, ScopedDb(db, allowed, p, ops))
  {
    var env := Env(ops, db, map[]);
    assert env.ctes.Keys == {};
    ScopedQuery(q, allowed, CteNames(q), p, env, []);
  }

  /** CTE names disjoint from the views are well scoped wherever they stand. */
  lemma {:induction false} DisjointWellScopedExpr(e: Expr, allowed: set<string>, reserved: set<string>,
                                                  bound: set<string>)
    requires LowerAll(allowed) !! reserved && forall n :: n in bound && n != "" ==> n in reserved
    requires CtesIn(WalkExpr(e), reserved) && PlainNames(WalkExpr(e))
    ensures WellScopedExpr(e, allowed, reserved, bound)
  {
    match e
    case Lit(_) =>
    case Col(_, _) =>
    case Apply(_, l, r) => DisjointWellScopedExpr(l, allowed, reserved, bound); DisjointWellScopedExpr(r, allowed,
      reserved, bound);
    case And(l, r) => DisjointWellScopedExpr(l, allowed, reserved, bound); DisjointWellScopedExpr(r, allowed,
      reserved, bound);
    case OneOf(o, _) => DisjointWellScopedExpr(o, allowed, reserved, bound);
    case Overlaps(o, _) => DisjointWellScopedExpr(o, allowed, reserved, bound);
    case Scalar(q) => DisjointWellScoped(q, allowed, reserved, bound);
    case Exists(q) => DisjointWellScoped(q, allowed, reserved, bound);
    case InQuery(o, q) => DisjointWellScopedExpr(o, allowed, reserved, bound); DisjointWellScoped(q, allowed,
      reserved, bound);
  }

  ghost predicate PlainNames(nodes: seq<Node>) {
    forall n :: n in nodes && n.TableNode? && n.leaf.Named? && n.leaf.name != "" ==> n.leaf.qualifiers == []
  }

  lemma {:induction false} DisjointWellScopedItems(items: Items, allowed: set<string>, reserved: set<string>,
                                                   bound: set<string>)
    requires LowerAll(allowed) !! reserved && forall n :: n in bound && n != "" ==> n in reserved
    requires CtesIn(WalkItems(items), reserved) && PlainNames(WalkItems(items))
    ensures WellScopedItems(items, allowed, reserved, bound)
  {
    if items.Item? {
      DisjointWellScopedExpr(items.expr, allowed, reserved, bound);
      DisjointWellScopedItems(items.rest, allowed, reserved, bound);
    }
  }

  lemma {:induction false} DisjointWellScopedSource(s: Source, allowed: set<string>, reserved: set<string>,
                                                    bound: set<string>)
    requires LowerAll(allowed) !! reserved && forall n :: n in bound && n != "" ==> n in reserved
    requires CtesIn(WalkSource(s), reserved) && PlainNames(WalkSource(s))
    ensures WellScopedSource(s, allowed, reserved, bound)
  {
    match s
    case NoSource =>
    case Named(_, _, _) => assert TableNode(s) in WalkSource(s);
    case Derived(q, _) => DisjointWellScoped(q, allowed, reserved, bound);
    case Join(_, l, r, on) =>
      DisjointWellScopedSource(l, allowed, reserved, bound);
      DisjointWellScopedSource(r, allowed, reserved, bound);
      DisjointWellScopedExpr(on, allowed, reserved, bound);
  }

  lemma {:induction false} DisjointWellScoped(q: Query, allowed: set<string>, reserved: set<string>, bound: set<string>)
    requires LowerAll(allowed) !! reserved && forall n :: n in bound && n != "" ==> n in reserved
    requires CtesIn(Walk(q), reserved) && PlainNames(Walk(q))
    ensures WellScoped(q, allowed, reserved, bound)
  {
    match q
    case Select(items, source, filter, _, _) =>
      DisjointWellScopedItems(items, allowed, reserved, bound);
      DisjointWellScopedSource(source, allowed, reserved, bound);
      DisjointWellScopedExpr(filter, allowed, reserved, bound);
    case With(name, body, main) =>
      assert CteNode(name) in Walk(q);
      DisjointWellScoped(body, allowed, reserved, bound);
      DisjointWellScoped(main, allowed, reserved, bound + {Lower(name)});
    case SetOp(_, l, r) =>
      DisjointWellScoped(l, allowed, reserved, bound); DisjointWellScoped(r, allowed, reserved, bound);
    case Write(_) =>
  }

  lemma DisjointNamesPreserveMeaning(q: Query, allowed: set<string>, p: Expr, ops: Ops, db: map<string, Table>)
    requires LowerAll(allowed) !! CteNames(q) && PlainNames(Walk(q))
    requires Covers(p, allowed, db)
    ensures Run(Injected(q, allowed, p), ops, db) == Run(q, ops, ScopedDb(db, allowed, p, ops))
  {
    DisjointWellScoped(q, allowed, CteNames(q), {});
    InjectionPreservesMeaning(q, allowed, p, ops, db);
  }

  /* ---- Injecting twice ---- */

  lemma MaskTail(e: Expr, env: Env, head: seq<Head>, rows: seq<Row>, outer: seq<Binding>)
    requires rows != []
    ensures EvalRows(e, env, head, rows, outer)
         == [EvalExpr(e, env, [Binding(head, rows[0])] + outer)] + EvalRows(e, env, head, rows[1..], outer)
  {
  }

  lemma KeepFirst(e: Expr, env: Env, head: seq<Head>, rows: seq<Row>)
    requires rows != []
    ensures Keep(rows, EvalRows(e, env, head, rows, []))
         == (if True(EvalExpr(e, env, [Binding(head, rows[0])] + [])) then [rows[0]] else [])
            + Keep(rows[1..], EvalRows(e, env, head, rows[1..], []))
  {
    MaskTail(e, env, head, rows, []);
    hide EvalExpr, EvalRows;
  }

  lemma AndIsTrue(p: Expr, r: Expr, env: Env, scope: seq<Binding>)
    ensures True(EvalExpr(And(p, r), env, scope)) == (True(EvalExpr(p, env, scope)) && True(EvalExpr(r, env, scope)))
  {
  }

  /** Filtering by `p` and then by `r` is filtering by `p AND r`. */
  lemma {:induction false} KeepTwice(p: Expr, r: Expr, env: Env, head: seq<Head>, rows: seq<Row>)
    ensures var once := Keep(rows, EvalRows(p, env, head, rows, []));
            Keep(once, EvalRows(r, env, head, once, [])) == Keep(rows, EvalRows(And(p, r), env, head, rows, []))
  {
    if rows == [] {
      assert EvalRows(p, env, head, rows, []) == [] && EvalRows(And(p, r), env, head, rows, []) == [];
    } else {
      hide *;
      var rest := rows[1..];
      KeepTwice(p, r, env, head, rest);
      KeepFirst(p, env, head, rows);
      KeepFirst(And(p, r), env, head, rows);
      var binding := [Binding(head, rows[0])] + [];
      AndIsTrue(p, r, env, binding);
      var keptRest := Keep(rest, EvalRows(p, env, head, rest, []));
      if True(EvalExpr(p, env, binding)) {
        KeepFirst(r, env, head, [rows[0]] + keptRest);
        assert ([rows[0]] + keptRest)[1..] == keptRest;
      } else {
        assert [] + keptRest == keptRest;
      }
    }
  }

  lemma {:induction false} KeepSame(rows: seq<Row>, m1: seq<Value>, m2: seq<Value>)
    requires |m1| == |m2| == |rows| && forall i :: 0 <= i < |rows| ==> True(m1[i]) == True(m2[i])
    ensures Keep(rows, m1) == Keep(rows, m2)
  {
    if rows != [] { KeepSame(rows[1..], m1[1..], m2[1..]); }
  }

  lemma AndMask(p: Expr, r: Expr, env: Env, head: seq<Head>, rows: seq<Row>)
    ensures forall i :: 0 <= i < |rows| ==>
              True(EvalRows(And(p, r), env, head, rows, [])[i])
              == (True(EvalRows(p, env, head, rows, [])[i]) && True(EvalRows(r, env, head, rows, [])[i]))
  {
    forall i | 0 <= i < |rows|
      ensures EvalRows(And(p, r), env, head, rows, [])[i]
           == And3(EvalRows(p, env, head, rows, [])[i], EvalRows(r, env, head, rows, [])[i])
    {
      assert EvalRows(And(p, r), env, head, rows, [])[i] == EvalExpr(And(p, r), env, [Binding(head, rows[i])] + []);
    }
  }

  lemma FilterTwice(t: Table, p: Expr, r: Expr, ops: Ops)
    ensures FilterTable(FilterTable(t, p, ops), r, ops) == FilterTable(t, And(p, r), ops)
    ensures FilterTable(t, And(p, p), ops) == FilterTable(t, p, ops)
  {
    var env, head := Env(ops, map[], map[]), Exposed(t, "").head;
    KeepTwice(p, r, env, head, t.rows);
    AndMask(p, p, env, head, t.rows);
    KeepSame(t.rows, EvalRows(And(p, p), env, head, t.rows, []), EvalRows(p, env, head, t.rows, []));
  }

  lemma ScopedDbTwice(db: map<string, Table>, allowed: set<string>, p: Expr, r: Expr, ops: Ops)
    ensures ScopedDb(ScopedDb(db, allowed, p, ops), allowed, r, ops) == ScopedDb(db, allowed, And(p, r), ops)
    ensures ScopedDb(db, allowed, And(p, p), ops) == ScopedDb(db, allowed, p, ops)
  {
    forall n | n in db && n != "" && n in LowerAll(allowed)
      ensures FilterTable(FilterTable(db[n], p, ops), r, ops) == FilterTable(db[n], And(p, r), ops)
      ensures FilterTable(db[n], And(p, p), ops) == FilterTable(db[n], p, ops)
    {
      FilterTwice(db[n], p, r, ops);
    }
  }

  lemma {:induction false} LocalTableFree(p: Expr, columns: seq<string>)
    requires Local(p, columns)
    ensures WalkExpr(p) == []
  {
    match p
    case Lit(_) =>
    case Col(_, _) =>
    case Apply(_, l, r) => LocalTableFree(l, columns); LocalTableFree(r, columns);
    case And(l, r) => LocalTableFree(l, columns); LocalTableFree(r, columns);
    case OneOf(o, _) => LocalTableFree(o, columns);
    case Overlaps(o, _) => LocalTableFree(o, columns);
  }

  lemma InjectionKeepsPlain(q: Query, allowed: set<string>, p: Expr)
    requires WalkExpr(p) == [] && PlainNames(Walk(q))
    ensures PlainNames(Walk(Injected(q, allowed, p)))
    ensures CteNames(Injected(q, allowed, p)) == CteNames(q)
  {
    var g := WrapNode(allowed, CteNames(q));
    InjectKeeps(q, allowed, p);
    WrapKeepsOneTable(allowed, CteNames(q), p);
    WalkRewritten(q, Wrap(allowed, CteNames(q), p), g);
    Images(Walk(q), g);
  }

  /** Injecting `p` and then `r` means injecting `p AND r`. */
  lemma InjectingBoth(q: Query, allowed: set<string>, p: Expr, r: Expr, ops: Ops, db: map<string, Table>)
    requires LowerAll(allowed) !! CteNames(q) && PlainNames(Walk(q))
    requires WalkExpr(p) == [] && WalkExpr(r) == [] && Covers(p, allowed, db) && Covers(r, allowed, db)
    ensures Run(Injected(Injected(q, allowed, p), allowed, r), ops, db) == Run(Injected(q, allowed, And(p, r)), ops, db)
  {
    InjectionKeepsPlain(q, allowed, p);
    DisjointNamesPreserveMeaning(Injected(q, allowed, p), allowed, r, ops, db);
    DisjointNamesPreserveMeaning(q, allowed, p, ops, ScopedDb(db, allowed, r, ops));
    DisjointNamesPreserveMeaning(q, allowed, And(p, r), ops, db);
    ScopedDbTwice(db, allowed, r, p, ops);
    ScopedDbSwap(db, allowed, p, r, ops);
  }

  /** Injecting the same predicate again, although it wraps every reference once more,
      changes no result. */
  lemma InjectingAgain(q: Query, allowed: set<string>, p: Expr, ops: Ops, db: map<string, Table>)
    requires LowerAll(allowed) !! CteNames(q) && PlainNames(Walk(q))
    requires WalkExpr(p) == [] && Covers(p, allowed, db)
    ensures Run(Injected(Injected(q, allowed, p), allowed, p), ops, db) == Run(Injected(q, allowed, p), ops, db)
  {
    InjectionKeepsPlain(q, allowed, p);
    DisjointNamesPreserveMeaning(Injected(q, allowed, p), allowed, p, ops, db);
    DisjointNamesPreserveMeaning(q, allowed, p, ops, ScopedDb(db, allowed, p, ops));
    DisjointNamesPreserveMeaning(q, allowed, p, ops, db);
    ScopedDbTwice(db, allowed, p, p, ops);
  }

  lemma ScopedDbSwap(db: map<string, Table>, allowed: set<string>, p: Expr, r: Expr, ops: Ops)
    ensures ScopedDb(db, allowed, And(p, r), ops) == ScopedDb(db, allowed, And(r, p), ops)
  {
    forall n | n in db && n != "" && n in LowerAll(allowed)
      ensures FilterTable(db[n], And(p, r), ops) == FilterTable(db[n], And(r, p), ops)
    {
      var env, head, rows := Env(ops, map[], map[]), Exposed(db[n], "").head, db[n].rows;
      AndMask(p, r, env, head, rows); AndMask(r, p, env, head, rows);
      KeepSame(rows, EvalRows(And(p, r), env, head, rows, []), EvalRows(And(r, p), env, head, rows, []));
    }
  }

  /* ---- From the text that comes in to the rows that come out ---- */

  /** Whenever normalisation with a scope succeeds, on a statement whose CTE names are
      disjoint from the views: running what the database parses out of the returned
      text gives what the statement itself, unqualified, gives on filtered views. */
  lemma NormalizedMeaning(d: Dialect, sql: string, allowed: set<string>, scope: Expr, ops: Ops, db: map<string, Table>)
    requires Inverse(d) && WalkExpr(scope) == [] && Covers(scope, allowed, db)
    requires Normalized(d, sql, allowed, Some(scope)).Ok?
    requires LowerAll(allowed) !! CteNames(ParseAndGuard(d.parse(sql)).value)
    ensures var q := ParseAndGuard(d.parse(sql)).value;
            var out := ParseAndGuard(d.parse(Normalized(d, sql, allowed, Some(scope)).value));
            out.Ok? && Run(out.value, ops, db) == Run(Stripped(q), ops, ScopedDb(db, allowed, scope, ops))
  {
    var q := ParseAndGuard(d.parse(sql)).value;
    NormalizeExact(d, sql, allowed, Some(scope));
    assert NonNull([Some(Prepared(q, allowed, Some(scope)))]) == [Prepared(q, allowed, Some(scope))];
    StripKeeps(q, allowed);
    hide Stripped, Injected, CteNames, ScopedDb, Inverse, Covers;
    DisjointNamesPreserveMeaning(Stripped(q), allowed, scope, ops, db);
  }

  /** In particular for the two scopes there are, on views with the base columns and
      any others. */
  lemma NormalizedScopes(d: Dialect, sql: string, allowed: set<string>, scope: Expr, topicIds: set<string>,
                         documentIds: seq<string>, ops: Ops, db: map<string, Table>)
    requires Inverse(d) && (scope == TopicScope(topicIds) || scope == DocumentScope(documentIds))
    requires forall n :: n in LowerAll(allowed) && n in db ==> BASE_COLUMNS <= db[n].columns
    requires Normalized(d, sql, allowed, Some(scope)).Ok?
    requires LowerAll(allowed) !! CteNames(ParseAndGuard(d.parse(sql)).value)
    ensures var q := ParseAndGuard(d.parse(sql)).value;
            var out := ParseAndGuard(d.parse(Normalized(d, sql, allowed, Some(scope)).value));
            out.Ok? && Run(out.value, ops, db) == Run(Stripped(q), ops, ScopedDb(db, allowed, scope, ops))
  {
    forall n | n in LowerAll(allowed) && n in db ensures Local(scope, db[n].columns) {
      ScopesAreLocal(topicIds, documentIds, db[n].columns[|BASE_COLUMNS|..]);
      assert db[n].columns == BASE_COLUMNS + db[n].columns[|BASE_COLUMNS|..];
    }
    NormalizedMeaning(d, sql, allowed, scope, ops, db);
  }

  /* ---- The flat set of CTE names, exactly ---- */

  /** One reference to an allowed view, standing where the CTEs `ctes` are in scope:
      for every database, predicate and meaning of the operators it reads the
      filtered view, if and only if it does not share its name with a CTE that is
      declared somewhere in the statement but is not in scope here. */
  lemma ReferenceIsScopedExactly(name: string, alias: Option<string>, allowed: set<string>, reserved: set<string>,
                                 ctes: map<string, Table>)
    requires name != "" && Lower(name) in LowerAll(allowed)
    requires forall n :: n in ctes && n != "" ==> n in reserved
    ensures (forall ops: Ops, db: map<string, Table>, p: Expr, outer: seq<Binding> :: Covers(p, allowed, db) ==>
              ReadsScoped(Named([], name, alias), allowed, reserved, p, Env(ops, db, ctes), outer))
       <==> (Lower(name) in reserved ==> Lower(name) in ctes)
  {
    var s := Named([], name, alias);
    if Lower(name) in reserved ==> Lower(name) in ctes {
      forall ops: Ops, db: map<string, Table>, p: Expr, outer: seq<Binding> | Covers(p, allowed, db)
        ensures ReadsScoped(s, allowed, reserved, p, Env(ops, db, ctes), outer)
      {
        ScopedName(s, allowed, reserved, p, Env(ops, db, ctes), outer);
      }
    } else {
      var db := map[Lower(name) := Table([], [[]])];
      var p := Lit(Bool(false));
      assert Covers(p, allowed, db);
      assert !ReadsScoped(s, allowed, reserved, p, Env(PlainOps(), db, ctes), []) by {
        var t := db[Lower(name)];
        assert EvalRows(p, Env(PlainOps(), map[], map[]), Exposed(t, "").head, t.rows, []) == [Bool(false)];
        assert FilterTable(t, p, PlainOps()).rows == [];
      }
    }
  }

  ghost predicate ReadsScoped(s: Source, allowed: set<string>, reserved: set<string>, p: Expr, env: Env,
                              outer: seq<Binding>) {
    EvalSource(WrapLeaf(s, allowed, reserved, p), env, outer) == EvalSource(s, ScopedEnv(env, allowed, p), outer)
  }

  function PlainOps(): Ops {
    Ops((_, _, _) => Null, _ => Null, (_, _) => Null, (_, _, _, _) => [], (_, l, _) => l, (_, t) => t,
        _ => EMPTY_TABLE)
  }

  /** A whole statement outside the theorem's reach: a CTE inside a subquery carries
      the name of the view that the outer query reads, and nothing is injected. */
  lemma SharedNameExample()
    ensures var cte := With("v", Select(NoItems, NoSource, NO_FILTER, None, false),
              Select(Star, Named([], "v", None), NO_FILTER, None, false));
            var q := Select(Star, Named([], "v", None), Exists(cte), None, false);
            var p := Lit(Bool(false));
            var db := map["v" := Table([], [[]])];
            && Injected(q, {"v"}, p) == q
            && Run(Injected(q, {"v"}, p), PlainOps(), db) != Run(q, PlainOps(), ScopedDb(db, {"v"}, p, PlainOps()))
  {
    var view := Named([], "v", None);
    var one := Select(NoItems, NoSource, NO_FILTER, None, false);
    var read := Select(Star, view, NO_FILTER, None, false);
    var cte := With("v", one, read);
    var q := Select(Star, view, Exists(cte), None, false);
    var p := Lit(Bool(false));
    var ops := PlainOps();
    var t := Table([], [[]]);
    var db := map["v" := t];
    assert Lower("v") == "v";
    assert CteNode("v") in Walk(q);
    assert "v" in CteNames(q);
    assert RewriteSource(view, Wrap({"v"}, CteNames(q), p)) == view;
    OneRow(q, cte, ops, db);
    assert EvalRows(p, Env(ops, map[], map[]), Exposed(t, "").head, t.rows, []) == [Bool(false)];
    assert FilterTable(t, p, ops) == EMPTY_TABLE;
    var scoped := Env(ops, ScopedDb(db, {"v"}, p, ops), map[]);
    assert "v" in LowerAll({"v"});
    assert scoped.db["v"] == EMPTY_TABLE;
    assert EvalSource(view, scoped, []).rows == [];
  }

  lemma OneRow(q: Query, cte: Query, ops: Ops, db: map<string, Table>)
    requires cte == With("v", Select(NoItems, NoSource, NO_FILTER, None, false),
               Select(Star, Named([], "v", None), NO_FILTER, None, false))
    requires q == Select(Star, Named([], "v", None), Exists(cte), None, false)
    requires "v" in db && db["v"] == Table([], [[]])
    ensures |Run(q, ops, db).rows| == 1
  {
    var env := Env(ops, db, map[]);
    assert Lower("v") == "v";
    var outer := [Binding([], [])];
    var one := Select(NoItems, NoSource, NO_FILTER, None, false);
    assert EvalRows(NO_FILTER, env, [], [[]], outer) == [Bool(true)];
    assert Keep([[]], [Bool(true)]) == [[]] + Keep([], []);
    assert EvalQuery(one, env, outer).rows == [[]];
    var inner := env.(ctes := map["v" := EvalQuery(one, env, outer)]);
    var read := Select(Star, Named([], "v", None), NO_FILTER, None, false);
    var rel := EvalSource(read.source, inner, outer);
    assert rel.rows == [[]];
    assert EvalRows(NO_FILTER, inner, rel.head, rel.rows, outer) == [Bool(true)];
    assert EvalQuery(read, inner, outer).rows == [[]];
    assert EvalQuery(cte, env, outer).rows == [[]];
    var top := EvalSource(q.source, env, []);
    assert top.head == [] && top.rows == [[]];
    assert [Binding([], [])] + [] == outer;
    assert EvalRows(Exists(cte), env, top.head, top.rows, []) == [Bool(true)];
  }
}
