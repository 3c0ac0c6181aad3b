/** The part of a parsed Postgres statement that the guard looks at, with the two
    tree operations it is built from: `Walk` (sqlglot's `find_all`) and `Rewrite`
    (replacing table nodes). */
module SqlAst {
  import opened Common

  datatype Value = Null | Bool(b: bool) | Num(n: int) | Text(s: string) | Ids(ids: set<string>)

  datatype Expr =
    | Lit(value: Value)
    | Col(qualifier: string, column: string)         // qualifier "" when bare
    | Apply(fn: string, left: Expr, right: Expr)     // any scalar operator or function
    | And(left: Expr, right: Expr)
    | OneOf(operand: Expr, values: seq<string>)      // operand IN ('..', '..')
    | Overlaps(operand: Expr, ids: set<string>)      // operand && ARRAY[..]::uuid[]
    | Scalar(query: Query)
    | Exists(query: Query)
    | InQuery(operand: Expr, query: Query)

  datatype Items = Star | NoItems | Item(name: string, expr: Expr, rest: Items)

  datatype Source =
    | NoSource
    | Named(qualifiers: seq<string>, name: string, alias: Option<string>)  // name "" for a table function
    | Derived(query: Query, exposedAs: string)
    | Join(kind: string, left: Source, right: Source, on: Expr)

  /** `finish` stands for GROUP BY, aggregation, HAVING, ORDER BY, LIMIT and DISTINCT. */
  datatype Query =
    | Select(items: Items, source: Source, filter: Expr, finish: Option<string>, into: bool)
    | With(name: string, body: Query, main: Query)   // one non-recursive CTE
    | SetOp(op: string, left: Query, right: Query)
    | Write(kind: string)                            // INSERT, DELETE, DROP, ...

  const NO_FILTER := Lit(Bool(true))

  /** What `find_all` can stop at. */
  datatype Node = TableNode(leaf: Source) | CteNode(name: string) | WriteNode(kind: string)

  function WalkExpr(e: Expr): seq<Node> {
    match e
    case Lit(_) => []
    case Col(_, _) => []
    case Apply(_, l, r) => WalkExpr(l) + WalkExpr(r)
    case And(l, r) => WalkExpr(l) + WalkExpr(r)
    case OneOf(o, _) => WalkExpr(o)
    case Overlaps(o, _) => WalkExpr(o)
    case Scalar(q) => Walk(q)
    case Exists(q) => Walk(q)
    case InQuery(o, q) => WalkExpr(o) + Walk(q)
  }

  function WalkItems(items: Items): seq<Node> {
    match items
    case Star => []
    case NoItems => []
    case Item(_, e, rest) => WalkExpr(e) + WalkItems(rest)
  }

  function WalkSource(s: Source): seq<Node> {
    match s
    case NoSource => []
    case Named(_, _, _) => [TableNode(s)]
    case Derived(q, _) => Walk(q)
    case Join(_, l, r, on) => WalkSource(l) + WalkSource(r) + WalkExpr(on)
  }

  /** Every table, CTE and write node of the tree. */
  function Walk(q: Query): seq<Node> {
    match q
    case Select(items, source, filter, _, _) => WalkItems(items) + WalkSource(source) + WalkExpr(filter)
    case With(name, body, main) => [CteNode(name)] + Walk(body) + Walk(main)
    case SetOp(_, l, r) => Walk(l) + Walk(r)
    case Write(kind) => [WriteNode(kind)]
  }

  /** The tree with every table node replaced by its image under `f`. */
  function RewriteExpr(e: Expr, f: Source -> Source): Expr {
    match e
    case Lit(_) => e
    case Col(_, _) => e
    case Apply(fn, l, r) => Apply(fn, RewriteExpr(l, f), RewriteExpr(r, f))
    case And(l, r) => And(RewriteExpr(l, f), RewriteExpr(r, f))
    case OneOf(o, vs) => OneOf(RewriteExpr(o, f), vs)
    case Overlaps(o, ids) => Overlaps(RewriteExpr(o, f), ids)
    case Scalar(q) => Scalar(Rewrite(q, f))
    case Exists(q) => Exists(Rewrite(q, f))
    case InQuery(o, q) => InQuery(RewriteExpr(o, f), Rewrite(q, f))
  }

  function RewriteItems(items: Items, f: Source -> Source): Items {
    match items
    case Star => items
    case NoItems => items
    case Item(n, e, rest) => Item(n, RewriteExpr(e, f), RewriteItems(rest, f))
  }

  function RewriteSource(s: Source, f: Source -> Source): Source {
    match s
    case NoSource => s
    case Named(_, _, _) => f(s)
    case Derived(q, a) => Derived(Rewrite(q, f), a)
    case Join(k, l, r, on) => Join(k, RewriteSource(l, f), RewriteSource(r, f), RewriteExpr(on, f))
  }

  function Rewrite(q: Query, f: Source -> Source): Query {
    match q
    case Select(items, source, filter, fin, into) =>
      Select(RewriteItems(items, f), RewriteSource(source, f), RewriteExpr(filter, f), fin, into)
    case With(n, body, main) => With(n, Rewrite(body, f), Rewrite(main, f))
    case SetOp(op, l, r) => SetOp(op, Rewrite(l, f), Rewrite(r, f))
    case Write(_) => q
  }

  /** The tree whose k-th walked node is `nodes[k]`: what in-place updates of the
      table nodes amount to. Only table nodes are ever replaced. */
  function FillExpr(e: Expr, nodes: seq<Node>): Expr
    requires |nodes| == |WalkExpr(e)|
  {
    match e
    case Lit(_) => e
    case Col(_, _) => e
    case Apply(fn, l, r) =>
      var n := |WalkExpr(l)|; Apply(fn, FillExpr(l, nodes[..n]), FillExpr(r, nodes[n..]))
    case And(l, r) =>
      var n := |WalkExpr(l)|; And(FillExpr(l, nodes[..n]), FillExpr(r, nodes[n..]))
    case OneOf(o, vs) => OneOf(FillExpr(o, nodes), vs)
    case Overlaps(o, ids) => Overlaps(FillExpr(o, nodes), ids)
    case Scalar(q) => Scalar(Fill(q, nodes))
    case Exists(q) => Exists(Fill(q, nodes))
    case InQuery(o, q) =>
      var n := |WalkExpr(o)|; InQuery(FillExpr(o, nodes[..n]), Fill(q, nodes[n..]))
  }

  function FillItems(items: Items, nodes: seq<Node>): Items
    requires |nodes| == |WalkItems(items)|
  {
    match items
    case Star => items
    case NoItems => items
    case Item(name, e, rest) =>
      var n := |WalkExpr(e)|; Item(name, FillExpr(e, nodes[..n]), FillItems(rest, nodes[n..]))
  }

  function FillSource(s: Source, nodes: seq<Node>): Source
    requires |nodes| == |WalkSource(s)|
  {
    match s
    case NoSource => s
    case Named(_, _, _) => if nodes[0].TableNode? then nodes[0].leaf else s
    case Derived(q, a) => Derived(Fill(q, nodes), a)
    case Join(k, l, r, on) =>
      var n := |WalkSource(l)|; var m := n + |WalkSource(r)|;
      Join(k, FillSource(l, nodes[..n]), FillSource(r, nodes[n..m]), FillExpr(on, nodes[m..]))
  }

  function Fill(q: Query, nodes: seq<Node>): Query
    requires |nodes| == |Walk(q)|
  {
    match q
    case Select(items, source, filter, fin, into) =>
      var n := |WalkItems(items)|; var m := n + |WalkSource(source)|;
      Select(FillItems(items, nodes[..n]), FillSource(source, nodes[n..m]), FillExpr(filter, nodes[m..]), fin, into)
    case With(name, body, main) =>
      var n := 1 + |Walk(body)|; With(name, Fill(body, nodes[1..n]), Fill(main, nodes[n..]))
    case SetOp(op, l, r) =>
      var n := |Walk(l)|; SetOp(op, Fill(l, nodes[..n]), Fill(r, nodes[n..]))
    case Write(_) => q
  }

  function MapNode(n: Node, f: Source -> Source): Node {
    if n.TableNode? then TableNode(f(n.leaf)) else n
  }

  function MapNodes(nodes: seq<Node>, f: Source -> Source): (r: seq<Node>)
    ensures |r| == |nodes|
  {
    seq(|nodes|, i requires 0 <= i < |nodes| => MapNode(nodes[i], f))
  }

  lemma MapNodesAppend(a: seq<Node>, b: seq<Node>, f: Source -> Source)
    ensures MapNodes(a + b, f) == MapNodes(a, f) + MapNodes(b, f)
  {
  }

  /* Updating every table node in place is the same as rewriting the tree. */

  lemma {:induction false} FillMappedExpr(e: Expr, f: Source -> Source)
    ensures FillExpr(e, MapNodes(WalkExpr(e), f)) == RewriteExpr(e, f)
  {
    match e
    case Lit(_) =>
    case Col(_, _) =>
    case Apply(_, l, r) => FillMappedExpr(l, f); FillMappedExpr(r, f); MapCut(WalkExpr(l), WalkExpr(r), f);
    case And(l, r) => FillMappedExpr(l, f); FillMappedExpr(r, f); MapCut(WalkExpr(l), WalkExpr(r), f);
    case OneOf(o, _) => FillMappedExpr(o, f);
    case Overlaps(o, _) => FillMappedExpr(o, f);
    case Scalar(q) => FillMapped(q, f);
    case Exists(q) => FillMapped(q, f);
    case InQuery(o, q) => FillMappedExpr(o, f); FillMapped(q, f); MapCut(WalkExpr(o), Walk(q), f);
  }

  lemma {:induction false} FillMappedItems(items: Items, f: Source -> Source)
    ensures FillItems(items, MapNodes(WalkItems(items), f)) == RewriteItems(items, f)
  {
    match items
    case Star =>
    case NoItems =>
    case Item(_, e, rest) => FillMappedExpr(e, f); FillMappedItems(rest, f); MapCut(WalkExpr(e), WalkItems(rest), f);
  }

  lemma {:induction false} FillMappedSource(s: Source, f: Source -> Source)
    ensures FillSource(s, MapNodes(WalkSource(s), f)) == RewriteSource(s, f)
  {
    match s
    case NoSource =>
    case Named(_, _, _) =>
    case Derived(q, _) => FillMapped(q, f);
    case Join(_, l, r, on) =>
      FillMappedSource(l, f); FillMappedSource(r, f); FillMappedExpr(on, f);
      MapCut3(WalkSource(l), WalkSource(r), WalkExpr(on), f);
  }

  lemma {:induction false} FillMapped(q: Query, f: Source -> Source)
    ensures Fill(q, MapNodes(Walk(q), f)) == Rewrite(q, f)
  {
    match q
    case Select(items, source, filter, _, _) =>
      FillMappedItems(items, f); FillMappedSource(source, f); FillMappedExpr(filter, f);
      MapCut3(WalkItems(items), WalkSource(source), WalkExpr(filter), f);
    case With(name, body, main) =>
      FillMapped(body, f); FillMapped(main, f);
      MapCut3([CteNode(name)], Walk(body), Walk(main), f);
    case SetOp(_, l, r) => FillMapped(l, f); FillMapped(r, f); MapCut(Walk(l), Walk(r), f);
    case Write(_) =>
  }

  lemma MapCut(a: seq<Node>, b: seq<Node>, f: Source -> Source)
    ensures MapNodes(a + b, f)[..|a|] == MapNodes(a, f) && MapNodes(a + b, f)[|a|..] == MapNodes(b, f)
  {
  }

  lemma MapCut3(a: seq<Node>, b: seq<Node>, c: seq<Node>, f: Source -> Source)
    ensures var all := MapNodes(a + b + c, f);
            && all[..|a|] == MapNodes(a, f)
            && all[|a|..|a| + |b|] == MapNodes(b, f)
            && all[|a| + |b|..] == MapNodes(c, f)
  {
  }

  /* A leaf transformation that keeps exactly one table node per leaf commutes with the walk. */

  ghost predicate KeepsOneTable(f: Source -> Source, g: Source -> Source) {
    forall s: Source :: s.Named? ==> WalkSource(f(s)) == [TableNode(g(s))]
  }

  lemma {:induction false} WalkRewrittenExpr(e: Expr, f: Source -> Source, g: Source -> Source)
    requires KeepsOneTable(f, g)
    ensures WalkExpr(RewriteExpr(e, f)) == MapNodes(WalkExpr(e), g)
  {
    match e
    case Lit(_) =>
    case Col(_, _) =>
    case Apply(_, l, r) =>
      WalkRewrittenExpr(l, f, g);
      WalkRewrittenExpr(r, f, g);
      MapNodesAppend(WalkExpr(l), WalkExpr(r), g);
    case And(l, r) =>
      WalkRewrittenExpr(l, f, g);
      WalkRewrittenExpr(r, f, g);
      MapNodesAppend(WalkExpr(l), WalkExpr(r), g);
    case OneOf(o, _) => WalkRewrittenExpr(o, f, g);
    case Overlaps(o, _) => WalkRewrittenExpr(o, f, g);
    case Scalar(q) => WalkRewritten(q, f, g);
    case Exists(q) => WalkRewritten(q, f, g);
    case InQuery(o, q) => WalkRewrittenExpr(o, f, g); WalkRewritten(q, f, g); MapNodesAppend(WalkExpr(o), Walk(q), g);
  }

  lemma {:induction false} WalkRewrittenItems(items: Items, f: Source -> Source, g: Source -> Source)
    requires KeepsOneTable(f, g)
    ensures WalkItems(RewriteItems(items, f)) == MapNodes(WalkItems(items), g)
  {
    match items
    case Star =>
    case NoItems =>
    case Item(_, e, rest) =>
      WalkRewrittenExpr(e, f, g); WalkRewrittenItems(rest, f, g); MapNodesAppend(WalkExpr(e), WalkItems(rest), g);
  }

  lemma {:induction false} WalkRewrittenSource(s: Source, f: Source -> Source, g: Source -> Source)
    requires KeepsOneTable(f, g)
    ensures WalkSource(RewriteSource(s, f)) == MapNodes(WalkSource(s), g)
  {
    match s
    case NoSource =>
    case Named(_, _, _) =>
    case Derived(q, _) => WalkRewritten(q, f, g);
    case Join(_, l, r, on) =>
      WalkRewrittenSource(l, f, g); WalkRewrittenSource(r, f, g); WalkRewrittenExpr(on, f, g);
      MapNodesAppend(WalkSource(l), WalkSource(r), g);
      MapNodesAppend(WalkSource(l) + WalkSource(r), WalkExpr(on), g);
  }

  lemma {:induction false} WalkRewritten(q: Query, f: Source -> Source, g: Source -> Source)
    requires KeepsOneTable(f, g)
    ensures Walk(Rewrite(q, f)) == MapNodes(Walk(q), g)
  {
    match q
    case Select(items, source, filter, _, _) =>
      WalkRewrittenItems(items, f, g); WalkRewrittenSource(source, f, g); WalkRewrittenExpr(filter, f, g);
      MapNodesAppend(WalkItems(items), WalkSource(source), g);
      MapNodesAppend(WalkItems(items) + WalkSource(source), WalkExpr(filter), g);
    case With(name, body, main) =>
      WalkRewritten(body, f, g); WalkRewritten(main, f, g);
      MapNodesAppend([CteNode(name)], Walk(body), g);
      MapNodesAppend([CteNode(name)] + Walk(body), Walk(main), g);
    case SetOp(_, l, r) => WalkRewritten(l, f, g); WalkRewritten(r, f, g); MapNodesAppend(Walk(l), Walk(r), g);
    case Write(_) =>
  }
}
