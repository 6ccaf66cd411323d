/** Query plans and the row lists they denote. */
module Plans {
  import opened Common
  import opened Varint
  import opened Values
  import opened Evaluation
  import opened Optimizer
  import opened Orders
  import opened Sorting

  datatype Row = Row(id: i64, values: seq<Value>)

  /** What all expressions of a query share. */
  datatype Ctx = Ctx(lib: Lib, params: seq<Value>)

  datatype SortKey = SortKey(expr: Expr, asc: bool)

  datatype SetKind = Union | Intersect | Except

  /** A scan is given by the rows of its table, a join by its predicate, if any, and the number of
      columns of its right side. */
  datatype Plan =
    | Dual
    | Scan(table: seq<Row>)
    | Filter(input: Plan, cond: Expr)
    | Project(input: Plan, exprs: seq<Expr>)
    | Join(left: Plan, right: Plan, on: Option<Expr>, leftOuter: bool, rightCols: nat)
    | OrderBy(input: Plan, keys: seq<SortKey>)
    | Limit(input: Plan, limit: Option<nat>, offset: nat)
    | Distinct(input: Plan)
    | SetOp(kind: SetKind, all: bool, left: Plan, right: Plan)

  /** The rows an operator yields, and the error that ends them, if one does. */
  datatype Out = Out(rows: seq<Row>, error: Option<Error>)

  function Cons(row: Row, o: Out): Out {
    Out([row] + o.rows, o.error)
  }

  function Tail(o: Out): Out
    requires o.rows != []
  {
    Out(o.rows[1..], o.error)
  }

  function Fail(x: Error): Out {
    Out([], Some(x))
  }

  function EvalOn(ctx: Ctx, e: Expr, row: Row): Result<Value> {
    Eval(e, Env(ctx.lib, row.values, row.id, ctx.params))
  }

  /** Whether a row satisfies a condition; there may be none. */
  function Holds(ctx: Ctx, p: Option<Expr>, row: Row): Result<bool> {
    match p
    case None => Ok(true)
    case Some(e) =>
      match EvalOn(ctx, e, row)
      case Err(x) => Err(x)
      case Ok(v) => Ok(IsTruthy(ctx.lib, v))
  }

  function FilterOut(ctx: Ctx, p: Expr, src: Out): Out
    decreases |src.rows|
  {
    if src.rows == [] then src
    else
      match Holds(ctx, Some(p), src.rows[0])
      case Err(x) => Fail(x)
      case Ok(keep) =>
        var rest := FilterOut(ctx, p, Tail(src));
        if keep then Cons(src.rows[0], rest) else rest
  }

  function Projected(ctx: Ctx, exprs: seq<Expr>, row: Row): Result<Row> {
    match EvalAll(exprs, Env(ctx.lib, row.values, row.id, ctx.params))
    case Err(x) => Err(x)
    case Ok(vs) => Ok(Row(row.id, vs))
  }

  function ProjectOut(ctx: Ctx, exprs: seq<Expr>, src: Out): Out
    decreases |src.rows|
  {
    if src.rows == [] then src
    else
      match Projected(ctx, exprs, src.rows[0])
      case Err(x) => Fail(x)
      case Ok(row) => Cons(row, ProjectOut(ctx, exprs, Tail(src)))
  }

  // ---- joins ----

  function Combined(l: Row, r: Row): Row {
    Row(l.id, l.values + r.values)
  }

  function Padded(l: Row, n: nat): Row {
    Row(l.id, l.values + seq(n, _ => Null))
  }

  /** The pairs of l with the right rows from idx on that satisfy the condition. */
  function Matches(ctx: Ctx, p: Option<Expr>, l: Row, right: seq<Row>, idx: nat): Out
    decreases |right| - idx
  {
    if idx >= |right| then Out([], None)
    else
      match Holds(ctx, p, Combined(l, right[idx]))
      case Err(x) => Fail(x)
      case Ok(keep) =>
        var rest := Matches(ctx, p, l, right, idx + 1);
        if keep then Cons(Combined(l, right[idx]), rest) else rest
  }

  function Append(a: Out, b: Out): Out {
    if a.error.Some? then a else Out(a.rows + b.rows, b.error)
  }

  /** The padded row of a left row that matched nothing, when the join keeps such rows. */
  function Outer(j: JoinSpec, l: Row, matched: bool): seq<Row> {
    if j.leftOuter && !matched then [Padded(l, j.rightCols)] else []
  }

  datatype JoinSpec = JoinSpec(on: Option<Expr>, leftOuter: bool, rightCols: nat)

  /** What is left for l from right row idx on, matched telling whether an earlier one matched. */
  function LeftRow(ctx: Ctx, j: JoinSpec, l: Row, right: seq<Row>, idx: nat, matched: bool): Out {
    var m := Matches(ctx, j.on, l, right, idx);
    Append(m, Out(Outer(j, l, matched || m.rows != []), None))
  }

  function JoinOut(ctx: Ctx, j: JoinSpec, src: Out, right: seq<Row>): Out
    decreases |src.rows|
  {
    if src.rows == [] then src
    else Append(LeftRow(ctx, j, src.rows[0], right, 0, false), JoinOut(ctx, j, Tail(src), right))
  }

  // ---- limits, duplicates, sets, order ----

  function LimitOut(limit: Option<nat>, offset: nat, src: Out): Out {
    if |src.rows| < offset then Out([], src.error)
    else
      var rest := src.rows[offset..];
      if limit.Some? && |rest| >= limit.value then Out(rest[..limit.value], None) else Out(rest, src.error)
  }

  /** Equality of rows for DISTINCT and set operations: NULLs are equal. */
  predicate RowsEq(lib: Lib, a: seq<Value>, b: seq<Value>) {
    if a == [] || b == [] then |a| == |b|
    else
      && a[0].Null? == b[0].Null?
      && (a[0].Null? || Compare(lib, a[0], b[0]) == Some(Equal))
      && RowsEq(lib, a[1..], b[1..])
  }

  predicate Seen(lib: Lib, seen: seq<seq<Value>>, vs: seq<Value>) {
    exists i :: 0 <= i < |seen| && RowsEq(lib, seen[i], vs)
  }

  function DistinctOut(lib: Lib, seen: seq<seq<Value>>, src: Out): Out
    decreases |src.rows|
  {
    if src.rows == [] then src
    else
      var row := src.rows[0];
      if Seen(lib, seen, row.values) then DistinctOut(lib, seen, Tail(src))
      else Cons(row, DistinctOut(lib, seen + [row.values], Tail(src)))
  }

  function Occurs(lib: Lib, rows: seq<Row>, row: Row): bool {
    exists i :: 0 <= i < |rows| && RowsEq(lib, rows[i].values, row.values)
  }

  /** The rows that occur, or do not occur, among others. */
  function Keep(lib: Lib, rows: seq<Row>, others: seq<Row>, present: bool): seq<Row> {
    if rows == [] then []
    else if Occurs(lib, others, rows[0]) == present then [rows[0]] + Keep(lib, rows[1..], others, present)
    else Keep(lib, rows[1..], others, present)
  }

  function CompareRows(lib: Lib): (Row, Row) -> Ordering {
    (a: Row, b: Row) => CompareValues(lib, a.values, b.values)
  }

  function SortedSet(lib: Lib, rows: seq<Row>): seq<Row> {
    Sort(CompareRows(lib), DistinctOut(lib, [], Out(rows, None)).rows)
  }

  /** The rows of a set operation on two row lists. */
  function SetRows(lib: Lib, kind: SetKind, all: bool, l: seq<Row>, r: seq<Row>): seq<Row> {
    match kind
    case Union => if all then l + r else SortedSet(lib, l + r)
    case Intersect => SortedSet(lib, Keep(lib, l, r, true))
    case Except => SortedSet(lib, Keep(lib, l, r, false))
  }

  function SetOut(lib: Lib, kind: SetKind, all: bool, l: Out, r: Out): Out {
    if l.error.Some? then Out([], l.error)
    else if r.error.Some? then Out([], r.error)
    else Out(SetRows(lib, kind, all, l.rows, r.rows), None)
  }

  datatype Keyed = Keyed(key: seq<Value>, row: Row)

  function KeyExprs(keys: seq<SortKey>): (es: seq<Expr>)
    ensures |es| == |keys| && forall i :: 0 <= i < |keys| ==> es[i] == keys[i].expr
  {
    seq(|keys|, i requires 0 <= i < |keys| => keys[i].expr)
  }

  /** The rows with their sort keys; the first failing key fails the whole. */
  function KeyAll(ctx: Ctx, keys: seq<SortKey>, rows: seq<Row>): Result<seq<Keyed>> {
    if rows == [] then Ok([])
    else
      match EvalAll(KeyExprs(keys), Env(ctx.lib, rows[0].values, rows[0].id, ctx.params))
      case Err(x) => Err(x)
      case Ok(key) =>
        match KeyAll(ctx, keys, rows[1..])
        case Err(x) => Err(x)
        case Ok(rest) => Ok([Keyed(key, rows[0])] + rest)
  }

  function Directions(keys: seq<SortKey>): (ascs: seq<bool>)
    ensures |ascs| == |keys| && forall i :: 0 <= i < |keys| ==> ascs[i] == keys[i].asc
  {
    seq(|keys|, i requires 0 <= i < |keys| => keys[i].asc)
  }

  /** Keys compare by their first difference, reversed where the direction is descending. */
  function CompareKeys(lib: Lib, ascs: seq<bool>, a: seq<Value>, b: seq<Value>): Ordering {
    if ascs == [] || a == [] || b == [] then Equal
    else
      var o := OrderKey(lib, a[0], b[0]);
      var o' := if ascs[0] then o else Flip(o);
      if o' != Equal then o' else CompareKeys(lib, ascs[1..], a[1..], b[1..])
  }

  function CompareKeyed(lib: Lib, ascs: seq<bool>): (Keyed, Keyed) -> Ordering {
    (a: Keyed, b: Keyed) => CompareKeys(lib, ascs, a.key, b.key)
  }

  function RowsOf(s: seq<Keyed>): (rows: seq<Row>)
    ensures |rows| == |s| && forall i :: 0 <= i < |s| ==> rows[i] == s[i].row
  {
    seq(|s|, i requires 0 <= i < |s| => s[i].row)
  }

  function SortOut(ctx: Ctx, keys: seq<SortKey>, src: Out): Out {
    if src.error.Some? then Out([], src.error)
    else
      match KeyAll(ctx, keys, src.rows)
      case Err(x) => Fail(x)
      case Ok(keyed) => Out(RowsOf(Sort(CompareKeyed(ctx.lib, Directions(keys)), keyed)), None)
  }

  /** What a plan denotes. */
  function Denote(ctx: Ctx, plan: Plan): Out {
    match plan
    case Dual => Out([Row(0, [])], None)
    case Scan(table) => Out(table, None)
    case Filter(input, p) => FilterOut(ctx, p, Denote(ctx, input))
    case Project(input, exprs) => ProjectOut(ctx, exprs, Denote(ctx, input))
    case Join(left, right, on, leftOuter, rightCols) =>
      var r := Denote(ctx, right);
      if r.error.Some? then Out([], r.error)
      else JoinOut(ctx, JoinSpec(on, leftOuter, rightCols), Denote(ctx, left), r.rows)
    case OrderBy(input, keys) => SortOut(ctx, keys, Denote(ctx, input))
    case Limit(input, limit, offset) => LimitOut(limit, offset, Denote(ctx, input))
    case Distinct(input) => DistinctOut(ctx.lib, [], Denote(ctx, input))
    case SetOp(kind, all, left, right) => SetOut(ctx.lib, kind, all, Denote(ctx, left), Denote(ctx, right))
  }
}
