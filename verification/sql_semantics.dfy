/** What a query means: a denotational semantics for the trees of `SqlAst`. */
module SqlSemantics {
  import opened Common
  import opened SqlAst

  type Row = seq<Value>

  /** A relation as the database holds it; column names are folded to lower case. */
  datatype Table = Table(columns: seq<string>, rows: seq<Row>)

  /** A column as a FROM clause exposes it. */
  datatype Head = Head(source: string, column: string)

  datatype Rel = Rel(head: seq<Head>, rows: seq<Row>)

  /** One row in scope. A scope lists the innermost query's row first. */
  datatype Binding = Binding(head: seq<Head>, row: Row)

  /** The meaning of everything the rewriter never looks into. Every theorem holds
      for all of them: scalar operators, scalar-subquery and IN conventions, join
      kinds, set operations, the grouping, aggregation, ordering and limiting that turn
      the projected rows into the result, and table functions. */
  datatype Ops = Ops(
    apply: (string, Value, Value) -> Value,
    scalar: Table -> Value,
    member: (Value, Table) -> Value,
    join: (string, Rel, Rel, seq<Value>) -> seq<Row>,
    setOp: (string, Table, Table) -> Table,
    finish: (string, Table) -> Table,
    tableFunction: seq<string> -> Table)

  /** `db` holds the stored relations and `ctes` the CTEs in scope, by folded name. */
  datatype Env = Env(ops: Ops, db: map<string, Table>, ctes: map<string, Table>)

  const EMPTY_TABLE := Table([], [])

  function True(v: Value): bool { v == Bool(true) }

  /** SQL's three-valued AND; anything that is not a boolean counts as unknown. */
  function And3(a: Value, b: Value): Value {
    if a == Bool(false) || b == Bool(false) then Bool(false)
    else if True(a) && True(b) then Bool(true)
    else Null
  }

  /** Index of the first column that a reference can mean, or -1. */
  function Lookup(head: seq<Head>, qualifier: string, column: string): (i: int)
    ensures -1 <= i < |head|
  {
    if head == [] then -1
    else if head[0].column == Lower(column) && (qualifier == "" || head[0].source == Lower(qualifier)) then 0
    else
      var i := Lookup(head[1..], qualifier, column);
      if i < 0 then -1 else i + 1
  }

  function At(row: Row, i: int): Value {
    if 0 <= i < |row| then row[i] else Null
  }

  /** A column resolves in the innermost row that has it. */
  function Resolve(scope: seq<Binding>, qualifier: string, column: string): Value {
    if scope == [] then Null
    else
      var i := Lookup(scope[0].head, qualifier, column);
      if i >= 0 then At(scope[0].row, i) else Resolve(scope[1..], qualifier, column)
  }

  /** The rows whose mask entry is true. */
  function Keep(rows: seq<Row>, mask: seq<Value>): seq<Row>
    requires |mask| == |rows|
  {
    if rows == [] then []
    else (if True(mask[0]) then [rows[0]] else []) + Keep(rows[1..], mask[1..])
  }

  function Pairs(left: seq<Row>, right: seq<Row>): seq<Row> {
    if left == [] then [] else seq(|right|, i requires 0 <= i < |right| => left[0] + right[i]) + Pairs(left[1..], right)
  }

  /** `t` exposed in a FROM clause under `alias`. */
  function Exposed(t: Table, alias: string): Rel {
    Rel(seq(|t.columns|, i requires 0 <= i < |t.columns| => Head(Lower(alias), t.columns[i])), t.rows)
  }

  function Columns(head: seq<Head>): seq<string> {
    seq(|head|, i requires 0 <= i < |head| => head[i].column)
  }

  /** An unqualified name is a CTE if one is in scope, else a stored relation; a
      qualified one names a relation of another Postgres schema. */
  function Fetch(env: Env, qualifiers: seq<string>, name: string): Table {
    if name == "" then env.ops.tableFunction(qualifiers)
    else if qualifiers == [] && Lower(name) in env.ctes then env.ctes[Lower(name)]
    else if Stored(qualifiers, name) in env.db then env.db[Stored(qualifiers, name)]
    else EMPTY_TABLE
  }

  function Stored(qualifiers: seq<string>, name: string): string {
    if qualifiers == [] then Lower(name) else Lower(qualifiers[0]) + "." + Stored(qualifiers[1..], name)
  }

  function EvalExpr(e: Expr, env: Env, scope: seq<Binding>): Value
    decreases e, 0
  {
    match e
    case Lit(v) => v
    case Col(qualifier, column) => Resolve(scope, qualifier, column)
    case Apply(fn, l, r) => env.ops.apply(fn, EvalExpr(l, env, scope), EvalExpr(r, env, scope))
    case And(l, r) => And3(EvalExpr(l, env, scope), EvalExpr(r, env, scope))
    case OneOf(o, vs) =>
      (match EvalExpr(o, env, scope) case Text(s) => Bool(s in vs) case _ => Null)
    case Overlaps(o, ids) =>
      (match EvalExpr(o, env, scope) case Ids(own) => Bool(own * ids != {}) case _ => Null)
    case Scalar(q) => env.ops.scalar(EvalQuery(q, env, scope))
    case Exists(q) => Bool(EvalQuery(q, env, scope).rows != [])
    case InQuery(o, q) => env.ops.member(EvalExpr(o, env, scope), EvalQuery(q, env, scope))
  }

  /** The value of `e` on each row. */
  function EvalRows(e: Expr, env: Env, head: seq<Head>, rows: seq<Row>, outer: seq<Binding>): (vs: seq<Value>)
    ensures |vs| == |rows|
    decreases e, 1
  {
    seq(|rows|, i requires 0 <= i < |rows| => EvalExpr(e, env, [Binding(head, rows[i])] + outer))
  }

  function ProjectRow(items: Items, env: Env, b: Binding, outer: seq<Binding>): Row
    decreases items, 0
  {
    match items
    case Star => b.row
    case NoItems => []
    case Item(_, e, rest) => [EvalExpr(e, env, [b] + outer)] + ProjectRow(rest, env, b, outer)
  }

  function ProjectRows(items: Items, env: Env, head: seq<Head>, rows: seq<Row>, outer: seq<Binding>): (r: seq<Row>)
    ensures |r| == |rows|
    decreases items, 1
  {
    seq(|rows|, i requires 0 <= i < |rows| => ProjectRow(items, env, Binding(head, rows[i]), outer))
  }

  function ItemNames(items: Items, head: seq<Head>): seq<string> {
    match items
    case Star => Columns(head)
    case NoItems => []
    case Item(name, _, rest) => [Lower(name)] + ItemNames(rest, head)
  }

  /** A FROM clause sees the enclosing queries' rows, never its own siblings. */
  function EvalSource(s: Source, env: Env, outer: seq<Binding>): Rel
    decreases s, 0
  {
    match s
    case NoSource => Rel([], [[]])
    case Named(qualifiers, name, alias) => Exposed(Fetch(env, qualifiers, name), alias.GetOr(name))
    case Derived(q, exposedAs) => Exposed(EvalQuery(q, env, outer), exposedAs)
    case Join(kind, l, r, on) =>
      var left := EvalSource(l, env, outer);
      var right := EvalSource(r, env, outer);
      var head := left.head + right.head;
      Rel(head, env.ops.join(kind, left, right, EvalRows(on, env, head, Pairs(left.rows, right.rows), outer)))
  }

  function EvalQuery(q: Query, env: Env, outer: seq<Binding>): Table
    decreases q, 0
  {
    match q
    case Select(items, source, filter, fin, _) =>
      var rel := EvalSource(source, env, outer);
      var kept := Keep(rel.rows, EvalRows(filter, env, rel.head, rel.rows, outer));
      var projected := Table(ItemNames(items, rel.head), ProjectRows(items, env, rel.head, kept, outer));
      if fin.Some? then env.ops.finish(fin.value, projected) else projected
    case With(name, body, main) =>
      EvalQuery(main, env.(ctes := env.ctes[Lower(name) := EvalQuery(body, env, outer)]), outer)
    case SetOp(op, l, r) => env.ops.setOp(op, EvalQuery(l, env, outer), EvalQuery(r, env, outer))
    case Write(_) => EMPTY_TABLE
  }
}
