/** Pull iterators: operators that keep their place and yield one row a call. */
module Executors {
  import opened Common
  import opened Varint
  import opened Values
  import opened Evaluation
  import opened Orders
  import opened Sorting
  import opened Plans

  /** An operator with its iteration state. */
  datatype Exec =
    | DualExec(done: bool)
    | ScanExec(ahead: seq<Row>)
    | FilterExec(input: Exec, cond: Expr)
    | ProjectExec(input: Exec, exprs: seq<Expr>)
    | JoinExec(left: Exec, right: Exec, spec: JoinSpec, rightReady: bool, rightRows: seq<Row>,
               current: Option<Row>, rightIdx: nat, matched: bool)
    | SortExec(input: Exec, keys: seq<SortKey>, produced: Option<seq<Row>>)
    | LimitExec(input: Exec, limit: Option<nat>, offset: nat, skipped: nat, emitted: nat)
    | DistinctExec(input: Exec, seen: seq<seq<Value>>)
    | SetOpExec(left: Exec, right: Exec, kind: SetKind, all: bool, produced: Option<seq<Row>>)

  function Build(plan: Plan): Exec {
    match plan
    case Dual => DualExec(false)
    case Scan(table) => ScanExec(table)
    case Filter(input, p) => FilterExec(Build(input), p)
    case Project(input, exprs) => ProjectExec(Build(input), exprs)
    case Join(left, right, on, leftOuter, rightCols) =>
      JoinExec(Build(left), Build(right), JoinSpec(on, leftOuter, rightCols), false, [], None, 0, false)
    case OrderBy(input, keys) => SortExec(Build(input), keys, None)
    case Limit(input, limit, offset) => LimitExec(Build(input), limit, offset, 0, 0)
    case Distinct(input) => DistinctExec(Build(input), [])
    case SetOp(kind, all, left, right) => SetOpExec(Build(left), Build(right), kind, all, None)
  }

  function Depth(e: Exec): nat {
    match e
    case DualExec(_) => 0
    case ScanExec(_) => 0
    case FilterExec(input, _) => 1 + Depth(input)
    case ProjectExec(input, _) => 1 + Depth(input)
    case JoinExec(left, right, _, _, _, _, _, _) => 1 + Max(Depth(left), Depth(right))
    case SortExec(input, _, _) => 1 + Depth(input)
    case LimitExec(input, _, _, _, _) => 1 + Depth(input)
    case DistinctExec(input, _) => 1 + Depth(input)
    case SetOpExec(left, right, _, _, _) => 1 + Max(Depth(left), Depth(right))
  }

  /** Counters within their limits. */
  predicate Fit(e: Exec) {
    match e
    case DualExec(_) => true
    case ScanExec(_) => true
    case FilterExec(input, _) => Fit(input)
    case ProjectExec(input, _) => Fit(input)
    case JoinExec(left, right, _, _, _, _, _, _) => Fit(left) && Fit(right)
    case SortExec(input, _, _) => Fit(input)
    case LimitExec(input, limit, offset, skipped, emitted) =>
      Fit(input) && skipped <= offset && (limit.Some? ==> emitted <= limit.value)
    case DistinctExec(input, _) => Fit(input)
    case SetOpExec(left, right, _, _, _) => Fit(left) && Fit(right)
  }

  /** What a join yields from its state on, its right side being known. */
  function JoinRest(ctx: Ctx, spec: JoinSpec, current: Option<Row>, rightIdx: nat, matched: bool, left: Out, right: seq<Row>): Out {
    match current
    case None => JoinOut(ctx, spec, left, right)
    case Some(l) => Append(LeftRow(ctx, spec, l, right, rightIdx, matched), JoinOut(ctx, spec, left, right))
  }

  /** The rows an operator has still to yield. */
  function Rest(ctx: Ctx, e: Exec): Out {
    match e
    case DualExec(done) => if done then Out([], None) else Out([Row(0, [])], None)
    case ScanExec(ahead) => Out(ahead, None)
    case FilterExec(input, p) => FilterOut(ctx, p, Rest(ctx, input))
    case ProjectExec(input, exprs) => ProjectOut(ctx, exprs, Rest(ctx, input))
    case JoinExec(left, right, spec, rightReady, rightRows, current, rightIdx, matched) =>
      if rightReady then JoinRest(ctx, spec, current, rightIdx, matched, Rest(ctx, left), rightRows)
      else
        var r := Rest(ctx, right);
        if r.error.Some? then Out([], r.error)
        else JoinRest(ctx, spec, current, rightIdx, matched, Rest(ctx, left), r.rows)
    case SortExec(input, keys, produced) =>
      if produced.Some? then Out(produced.value, None) else SortOut(ctx, keys, Rest(ctx, input))
    case LimitExec(input, limit, offset, skipped, emitted) =>
      var limit' := if limit.Some? && emitted <= limit.value then Some(limit.value - emitted) else limit;
      LimitOut(limit', if skipped <= offset then offset - skipped else 0, Rest(ctx, input))
    case DistinctExec(input, seen) => DistinctOut(ctx.lib, seen, Rest(ctx, input))
    case SetOpExec(left, right, kind, all, produced) =>
      if produced.Some? then Out(produced.value, None)
      else SetOut(ctx.lib, kind, all, Rest(ctx, left), Rest(ctx, right))
  }

  /** An operator freshly built yields what its plan denotes. */
  lemma {:induction false} BuildMeaning(ctx: Ctx, plan: Plan)
    ensures Rest(ctx, Build(plan)) == Denote(ctx, plan) && Fit(Build(plan))
  {
    hide FilterOut, ProjectOut, JoinOut, SortOut, LimitOut, DistinctOut, SetOut;
    match plan
    case Dual =>
    case Scan(_) =>
    case Filter(input, _) => BuildMeaning(ctx, input);
    case Project(input, _) => BuildMeaning(ctx, input);
    case Join(left, right, _, _, _) =>
      BuildMeaning(ctx, left);
      BuildMeaning(ctx, right);
    case OrderBy(input, _) => BuildMeaning(ctx, input);
    case Limit(input, _, _) => BuildMeaning(ctx, input);
    case Distinct(input) => BuildMeaning(ctx, input);
    case SetOp(_, _, left, right) =>
      BuildMeaning(ctx, left);
      BuildMeaning(ctx, right);
  }

  /** e yields r and goes on as e': the next row, the error, or nothing more, for good. */
  predicate Pulled(ctx: Ctx, e: Exec, r: Result<Option<Row>>, e': Exec) {
    var o := Rest(ctx, e);
    if o.rows != [] then
      r == Ok(Some(o.rows[0])) && Fit(e') && Depth(e') == Depth(e) && Rest(ctx, e') == Tail(o)
    else if o.error.Some? then r == Err(o.error.value)
    else r == Ok(None) && Fit(e') && Depth(e') == Depth(e) && Rest(ctx, e') == o
  }

  /** Pulling, for the input of another operator. */
  lemma PulledCases(ctx: Ctx, e: Exec, r: Result<Option<Row>>, e': Exec)
    requires Pulled(ctx, e, r, e')
    ensures r.Err? ==> Rest(ctx, e) == Fail(r.error)
    ensures r == Ok(None) ==> Rest(ctx, e) == Out([], None) == Rest(ctx, e') && Fit(e') && Depth(e') == Depth(e)
    ensures r.Ok? && r.value.Some? ==>
              && Rest(ctx, e).rows != [] && Rest(ctx, e) == Cons(r.value.value, Rest(ctx, e'))
              && Fit(e') && Depth(e') == Depth(e)
  {
    hide Rest, Depth, Fit;
    var o := Rest(ctx, e);
    if o.rows != [] {
      assert o.rows == [o.rows[0]] + o.rows[1..];
    }
  }

  lemma PulledFrom(ctx: Ctx, e: Exec, r: Result<Option<Row>>, e': Exec)
    requires r.Err? ==> Rest(ctx, e) == Fail(r.error)
    requires r == Ok(None) ==> Rest(ctx, e) == Out([], None) == Rest(ctx, e') && Fit(e') && Depth(e') == Depth(e)
    requires r.Ok? && r.value.Some? ==>
               Rest(ctx, e) == Cons(r.value.value, Rest(ctx, e')) && Fit(e') && Depth(e') == Depth(e)
    ensures Pulled(ctx, e, r, e')
  {
    hide Rest, Depth, Fit;
    if r.Ok? && r.value.Some? {
      var o := Rest(ctx, e);
      assert o.rows[1..] == Rest(ctx, e').rows;
    }
  }

  // ---- steps of the row lists ----

  lemma FilterNone(ctx: Ctx, p: Expr, o: Out)
    ensures o.rows == [] ==> FilterOut(ctx, p, o) == o
  {
  }

  lemma ProjectNone(ctx: Ctx, exprs: seq<Expr>, o: Out)
    ensures o.rows == [] ==> ProjectOut(ctx, exprs, o) == o
  {
  }

  lemma DistinctNone(ctx: Ctx, seen: seq<seq<Value>>, o: Out)
    ensures o.rows == [] ==> DistinctOut(ctx.lib, seen, o) == o
  {
  }

  lemma FilterStep(ctx: Ctx, p: Expr, row: Row, rest: Out)
    ensures var keep := Holds(ctx, Some(p), row);
            FilterOut(ctx, p, Cons(row, rest)) ==
            if keep.Err? then Fail(keep.error)
            else if keep.value then Cons(row, FilterOut(ctx, p, rest))
            else FilterOut(ctx, p, rest)
  {
    hide Holds;
    assert Tail(Cons(row, rest)) == rest;
  }

  lemma ProjectStep(ctx: Ctx, exprs: seq<Expr>, row: Row, rest: Out)
    ensures var made := Projected(ctx, exprs, row);
            ProjectOut(ctx, exprs, Cons(row, rest)) ==
            if made.Err? then Fail(made.error) else Cons(made.value, ProjectOut(ctx, exprs, rest))
  {
    hide Projected;
    assert Tail(Cons(row, rest)) == rest;
  }

  lemma DistinctStep(lib: Lib, seen: seq<seq<Value>>, row: Row, rest: Out)
    ensures DistinctOut(lib, seen, Cons(row, rest)) ==
            if Seen(lib, seen, row.values) then DistinctOut(lib, seen, rest)
            else Cons(row, DistinctOut(lib, seen + [row.values], rest))
  {
    hide Seen;
    assert Tail(Cons(row, rest)) == rest;
  }

  lemma FilterRest(ctx: Ctx, input: Exec, p: Expr)
    ensures Rest(ctx, FilterExec(input, p)) == FilterOut(ctx, p, Rest(ctx, input))
    ensures Fit(FilterExec(input, p)) == Fit(input) && Depth(FilterExec(input, p)) == 1 + Depth(input)
  {
    hide FilterOut;
  }

  lemma ProjectRest(ctx: Ctx, input: Exec, exprs: seq<Expr>)
    ensures Rest(ctx, ProjectExec(input, exprs)) == ProjectOut(ctx, exprs, Rest(ctx, input))
    ensures Fit(ProjectExec(input, exprs)) == Fit(input) && Depth(ProjectExec(input, exprs)) == 1 + Depth(input)
  {
    hide ProjectOut;
  }

  lemma DistinctRest(ctx: Ctx, input: Exec, seen: seq<seq<Value>>)
    ensures Rest(ctx, DistinctExec(input, seen)) == DistinctOut(ctx.lib, seen, Rest(ctx, input))
    ensures Fit(DistinctExec(input, seen)) == Fit(input) && Depth(DistinctExec(input, seen)) == 1 + Depth(input)
  {
    hide DistinctOut;
  }

  // ---- operators ----

  /** One row of any operator. */
  method Next(ctx: Ctx, e: Exec) returns (r: Result<Option<Row>>, e': Exec)
    requires Fit(e)
    ensures Pulled(ctx, e, r, e')
    decreases Depth(e), 1
  {
    match e {
      case DualExec(done) =>
        if done {
          return Ok(None), e;
        }
        return Ok(Some(Row(0, []))), DualExec(true);
      case ScanExec(ahead) =>
        if ahead == [] {
          return Ok(None), e;
        }
        return Ok(Some(ahead[0])), ScanExec(ahead[1..]);
      case FilterExec(_, _) => r, e' := NextFilter(ctx, e);
      case ProjectExec(_, _) => r, e' := NextProject(ctx, e);
      case DistinctExec(_, _) => r, e' := NextDistinct(ctx, e);
      case JoinExec(_, _, _, _, _, _, _, _) => r, e' := NextJoin(ctx, e);
      case SortExec(_, _, _) => r, e' := NextSort(ctx, e);
      case LimitExec(_, _, _, _, _) => r, e' := NextLimit(ctx, e);
      case SetOpExec(_, _, _, _, _) => r, e' := NextSetOp(ctx, e);
    }
  }

  /** Pulls input rows until one satisfies the condition. */
  method NextFilter(ctx: Ctx, e: Exec) returns (r: Result<Option<Row>>, e': Exec)
    requires e.FilterExec? && Fit(e)
    ensures Pulled(ctx, e, r, e')
    decreases Depth(e), 0
  {
    hide *;
    var input := e.input;
    e' := e;
    FilterRest(ctx, input, e.cond);
    while true
      invariant e == FilterExec(e.input, e.cond) && Fit(input) && 1 + Depth(input) == Depth(e)
      invariant Rest(ctx, e) == FilterOut(ctx, e.cond, Rest(ctx, input))
      decreases |Rest(ctx, input).rows|
    {
      var got, next := Next(ctx, input);
      PulledCases(ctx, input, got, next);
      if got.Err? || got.value.None? {
        FilterNone(ctx, e.cond, Rest(ctx, input));
        FilterRest(ctx, next, e.cond);
        r, e' := got, FilterExec(next, e.cond);
        OutIs(got);
        PulledFrom(ctx, e, r, e');
        return;
      }
      var row := got.value.value;
      ConsLength(row, Rest(ctx, next));
      FilterStep(ctx, e.cond, row, Rest(ctx, next));
      FilterRest(ctx, next, e.cond);
      input := next;
      var keep := Holds(ctx, Some(e.cond), row);
      if keep.Err? {
        r := Err(keep.error);
        PulledFrom(ctx, e, r, e');
        return;
      }
      if keep.value {
        r, e' := got, FilterExec(input, e.cond);
        PulledFrom(ctx, e, r, e');
        return;
      }
    }
  }

  lemma OutIs(r: Result<Option<Row>>)
    ensures r.Err? ==> Fail(r.error) == Out([], Some(r.error))
  {
  }

  lemma ConsLength(row: Row, o: Out)
    ensures |Cons(row, o).rows| == 1 + |o.rows|
  {
  }

  /** Evaluates the select list on the next input row. */
  method NextProject(ctx: Ctx, e: Exec) returns (r: Result<Option<Row>>, e': Exec)
    requires e.ProjectExec? && Fit(e)
    ensures Pulled(ctx, e, r, e')
    decreases Depth(e), 0
  {
    hide *;
    e' := e;
    ProjectRest(ctx, e.input, e.exprs);
    var got, next := Next(ctx, e.input);
    PulledCases(ctx, e.input, got, next);
    if got.Err? || got.value.None? {
      ProjectNone(ctx, e.exprs, Rest(ctx, e.input));
      ProjectRest(ctx, next, e.exprs);
      OutIs(got);
      r, e' := got, ProjectExec(next, e.exprs);
    } else {
      var row := got.value.value;
      ProjectStep(ctx, e.exprs, row, Rest(ctx, next));
      ProjectRest(ctx, next, e.exprs);
      var row' := Projected(ctx, e.exprs, row);
      if row'.Err? {
        r := Err(row'.error);
      } else {
        r, e' := Ok(Some(row'.value)), ProjectExec(next, e.exprs);
      }
    }
    PulledFrom(ctx, e, r, e');
  }

  /** Pulls input rows until one has not been seen before. */
  method NextDistinct(ctx: Ctx, e: Exec) returns (r: Result<Option<Row>>, e': Exec)
    requires e.DistinctExec? && Fit(e)
    ensures Pulled(ctx, e, r, e')
    decreases Depth(e), 0
  {
    hide *;
    var input, seen := e.input, e.seen;
    e' := e;
    DistinctRest(ctx, input, seen);
    while true
      invariant e == DistinctExec(e.input, seen) && Fit(input) && 1 + Depth(input) == Depth(e)
      invariant Rest(ctx, e) == DistinctOut(ctx.lib, seen, Rest(ctx, input))
      decreases |Rest(ctx, input).rows|
    {
      var got, next := Next(ctx, input);
      PulledCases(ctx, input, got, next);
      if got.Err? || got.value.None? {
        DistinctNone(ctx, seen, Rest(ctx, input));
        DistinctRest(ctx, next, seen);
        OutIs(got);
        r, e' := got, DistinctExec(next, seen);
        PulledFrom(ctx, e, r, e');
        return;
      }
      var row := got.value.value;
      ConsLength(row, Rest(ctx, next));
      DistinctStep(ctx.lib, seen, row, Rest(ctx, next));
      DistinctRest(ctx, next, seen + [row.values]);
      DistinctRest(ctx, next, seen);
      input := next;
      if !Seen(ctx.lib, seen, row.values) {
        r, e' := got, DistinctExec(input, seen + [row.values]);
        PulledFrom(ctx, e, r, e');
        return;
      }
    }
  }

  // ---- limits ----

  lemma LimitSkips(limit: Option<nat>, offset: nat, row: Row, rest: Out)
    requires offset > 0
    ensures LimitOut(limit, offset, Cons(row, rest)) == LimitOut(limit, offset - 1, rest)
  {
    assert Cons(row, rest).rows[1..] == rest.rows;
    if |rest.rows| >= offset - 1 {
      assert Cons(row, rest).rows[offset..] == rest.rows[offset - 1..];
    }
  }

  lemma LimitTakes(limit: Option<nat>, row: Row, rest: Out)
    requires limit != Some(0)
    ensures LimitOut(limit, 0, Cons(row, rest)) ==
            Cons(row, LimitOut(if limit.Some? then Some(limit.value - 1) else None, 0, rest))
  {
    var all := Cons(row, rest).rows;
    assert all[0..] == all && rest.rows[0..] == rest.rows;
    if limit.Some? && |all| >= limit.value {
      assert all[..limit.value] == [row] + rest.rows[..limit.value - 1];
    }
  }

  lemma LimitNone(limit: Option<nat>, offset: nat, src: Out)
    ensures src.rows == [] && (offset > 0 || limit != Some(0)) ==> LimitOut(limit, offset, src) == src
    ensures offset == 0 && limit == Some(0) ==> LimitOut(limit, offset, src) == Out([], None)
  {
  }

  function Less(limit: Option<nat>, emitted: nat): Option<nat>
    requires limit.Some? ==> emitted <= limit.value
  {
    if limit.Some? then Some(limit.value - emitted) else None
  }

  lemma LimitRest(ctx: Ctx, input: Exec, limit: Option<nat>, offset: nat, skipped: nat, emitted: nat)
    requires skipped <= offset && (limit.Some? ==> emitted <= limit.value)
    ensures Rest(ctx, LimitExec(input, limit, offset, skipped, emitted)) ==
            LimitOut(Less(limit, emitted), offset - skipped, Rest(ctx, input))
    ensures Fit(LimitExec(input, limit, offset, skipped, emitted)) == Fit(input)
    ensures Depth(LimitExec(input, limit, offset, skipped, emitted)) == 1 + Depth(input)
  {
    hide LimitOut;
  }

  lemma LessIs(limit: Option<nat>, emitted: nat)
    requires limit.Some? ==> emitted <= limit.value
    ensures Less(limit, emitted) == Some(0) <==> limit == Some(emitted)
    ensures limit.Some? && emitted < limit.value ==> Less(limit, emitted) == Some(limit.value - emitted) && Less(limit, emitted + 1) == Some(limit.value - emitted - 1)
    ensures limit == None ==> Less(limit, emitted) == None && Less(limit, emitted + 1) == None
  {
  }

  /** Skips the offset, then yields rows up to the limit, pulling nothing beyond it. */
  method NextLimit(ctx: Ctx, e: Exec) returns (r: Result<Option<Row>>, e': Exec)
    requires e.LimitExec? && Fit(e)
    ensures Pulled(ctx, e, r, e')
    decreases Depth(e), 0
  {
    hide *;
    var input, skipped := e.input, e.skipped;
    LimitParts(e);
    ghost var limit := Less(e.limit, e.emitted);
    e' := e;
    LimitRest(ctx, input, e.limit, e.offset, skipped, e.emitted);
    while skipped < e.offset
      invariant skipped <= e.offset && Fit(input) && 1 + Depth(input) == Depth(e)
      invariant Rest(ctx, e) == LimitOut(limit, e.offset - skipped, Rest(ctx, input))
      decreases e.offset - skipped
    {
      var got, next := Next(ctx, input);
      PulledCases(ctx, input, got, next);
      if got.Err? || got.value.None? {
        LimitNone(limit, e.offset - skipped, Rest(ctx, input));
        LimitRest(ctx, next, e.limit, e.offset, skipped, e.emitted);
        OutIs(got);
        r, e' := got, LimitExec(next, e.limit, e.offset, skipped, e.emitted);
        PulledFrom(ctx, e, r, e');
        return;
      }
      LimitSkips(limit, e.offset - skipped, got.value.value, Rest(ctx, next));
      LimitRest(ctx, next, e.limit, e.offset, skipped, e.emitted);
      input, skipped := next, skipped + 1;
    }
    LessIs(e.limit, e.emitted);
    if e.limit.Some? && e.emitted >= e.limit.value {
      LimitNone(limit, 0, Rest(ctx, input));
      LimitRest(ctx, input, e.limit, e.offset, skipped, e.emitted);
      r, e' := Ok(None), LimitExec(input, e.limit, e.offset, skipped, e.emitted);
      PulledFrom(ctx, e, r, e');
      return;
    }
    var got, next := Next(ctx, input);
    PulledCases(ctx, input, got, next);
    r := got;
    if got.Err? || got.value.None? {
      LimitNone(limit, 0, Rest(ctx, input));
      LimitRest(ctx, next, e.limit, e.offset, skipped, e.emitted);
      OutIs(got);
      e' := LimitExec(next, e.limit, e.offset, skipped, e.emitted);
    } else {
      LimitTakes(limit, got.value.value, Rest(ctx, next));
      e' := LimitExec(next, e.limit, e.offset, skipped, e.emitted + 1);
      LimitRest(ctx, next, e.limit, e.offset, skipped, e.emitted + 1);
    }
    PulledFrom(ctx, e, r, e');
  }

  lemma LimitParts(e: Exec)
    requires e.LimitExec? && Fit(e)
    ensures Fit(e.input) && e.skipped <= e.offset && (e.limit.Some? ==> e.emitted <= e.limit.value)
    ensures e == LimitExec(e.input, e.limit, e.offset, e.skipped, e.emitted)
  {
  }

  // ---- joins ----

  lemma AppendFail(x: Error, b: Out)
    ensures Append(Fail(x), b) == Fail(x)
  {
  }

  lemma AppendNone(b: Out)
    ensures Append(Out([], None), b) == b
  {
  }

  lemma AppendCons(row: Row, a: Out, b: Out)
    ensures Append(Cons(row, a), b) == Cons(row, Append(a, b))
  {
    assert [row] + a.rows + b.rows == [row] + (a.rows + b.rows);
  }

  /** Looking at the next right row. */
  lemma LeftRowStep(ctx: Ctx, j: JoinSpec, l: Row, right: seq<Row>, idx: nat, matched: bool)
    requires idx < |right|
    ensures var keep := Holds(ctx, j.on, Combined(l, right[idx]));
            LeftRow(ctx, j, l, right, idx, matched) ==
            if keep.Err? then Fail(keep.error)
            else if keep.value then Cons(Combined(l, right[idx]), LeftRow(ctx, j, l, right, idx + 1, true))
            else LeftRow(ctx, j, l, right, idx + 1, matched)
  {
    hide Holds;
    var keep := Holds(ctx, j.on, Combined(l, right[idx]));
    var m := Matches(ctx, j.on, l, right, idx + 1);
    if keep.Ok? && keep.value {
      AppendCons(Combined(l, right[idx]), m, Out(Outer(j, l, true), None));
    }
  }

  lemma LeftRowEnd(ctx: Ctx, j: JoinSpec, l: Row, right: seq<Row>, idx: nat, matched: bool)
    requires idx >= |right|
    ensures LeftRow(ctx, j, l, right, idx, matched) ==
            if j.leftOuter && !matched then Cons(Padded(l, j.rightCols), Out([], None)) else Out([], None)
  {
  }

  lemma JoinStep(ctx: Ctx, j: JoinSpec, row: Row, rest: Out, right: seq<Row>)
    ensures JoinOut(ctx, j, Cons(row, rest), right) ==
            Append(LeftRow(ctx, j, row, right, 0, false), JoinOut(ctx, j, rest, right))
  {
    hide LeftRow;
    assert Tail(Cons(row, rest)) == rest;
  }

  lemma JoinNone(ctx: Ctx, j: JoinSpec, o: Out, right: seq<Row>)
    ensures o.rows == [] ==> JoinOut(ctx, j, o, right) == o
  {
  }

  lemma JoinRestIs(ctx: Ctx, spec: JoinSpec, l: Row, rightIdx: nat, matched: bool, left: Out, right: seq<Row>)
    ensures JoinRest(ctx, spec, None, rightIdx, matched, left, right) == JoinOut(ctx, spec, left, right)
    ensures JoinRest(ctx, spec, Some(l), rightIdx, matched, left, right) ==
            Append(LeftRow(ctx, spec, l, right, rightIdx, matched), JoinOut(ctx, spec, left, right))
  {
  }

  lemma JoinExecRest(ctx: Ctx, e: Exec)
    requires e.JoinExec?
    ensures Fit(e) == (Fit(e.left) && Fit(e.right)) && Depth(e) == 1 + Max(Depth(e.left), Depth(e.right))
    ensures Depth(e.left) < Depth(e) && Depth(e.right) < Depth(e)
    ensures e.rightReady ==>
              Rest(ctx, e) == JoinRest(ctx, e.spec, e.current, e.rightIdx, e.matched, Rest(ctx, e.left), e.rightRows)
    ensures !e.rightReady && Rest(ctx, e.right).error.Some? ==> Rest(ctx, e) == Out([], Rest(ctx, e.right).error)
    ensures !e.rightReady && Rest(ctx, e.right).error.None? ==>
              Rest(ctx, e) == JoinRest(ctx, e.spec, e.current, e.rightIdx, e.matched, Rest(ctx, e.left), Rest(ctx, e.right).rows)
  {
    hide JoinRest;
  }

  /** Materialises the right side once, then pairs each left row with every right row, padding a left
      row that matched none if the join is an outer one. */
  method NextJoin(ctx: Ctx, e: Exec) returns (r: Result<Option<Row>>, e': Exec)
    requires e.JoinExec? && Fit(e)
    ensures Pulled(ctx, e, r, e')
    decreases Depth(e), 0
  {
    hide *;
    JoinExecRest(ctx, e);
    e' := e;
    var right := e.rightRows;
    if !e.rightReady {
      var all := CollectAll(ctx, e.right);
      if all.Err? {
        r := Err(all.error);
        OutIs(r);
        PulledFrom(ctx, e, r, e');
        return;
      }
      right := all.value;
    }
    var left, current, idx: nat, matched := e.left, e.current, e.rightIdx, e.matched;
    while true
      invariant Fit(left) && Depth(left) == Depth(e.left)
      invariant Rest(ctx, e) == JoinRest(ctx, e.spec, current, idx, matched, Rest(ctx, left), right)
      decreases 2 * |Rest(ctx, left).rows| + if current.Some? then 1 else 0
    {
      if current.None? {
        var got, next := Next(ctx, left);
        PulledCases(ctx, left, got, next);
        EmptyJoinRest(ctx, e.spec, idx, matched, Rest(ctx, left), right);
        if got.Err? || got.value.None? {
          JoinNone(ctx, e.spec, Rest(ctx, left), right);
          EmptyJoinRest(ctx, e.spec, idx, matched, Rest(ctx, next), right);
          OutIs(got);
          r, e' := got, JoinExec(next, e.right, e.spec, true, right, None, idx, matched);
          JoinExecRest(ctx, e');
          PulledFrom(ctx, e, r, e');
          return;
        }
        JoinStep(ctx, e.spec, got.value.value, Rest(ctx, next), right);
        JoinRestIs(ctx, e.spec, got.value.value, 0, false, Rest(ctx, next), right);
        ConsLength(got.value.value, Rest(ctx, next));
        left, current, idx, matched := next, Some(got.value.value), 0, false;
      }
      var l := current.value;
      ghost var others := JoinOut(ctx, e.spec, Rest(ctx, left), right);
      while idx < |right|
        invariant Rest(ctx, e) == JoinRest(ctx, e.spec, current, idx, matched, Rest(ctx, left), right)
        decreases |right| - idx
      {
        JoinRestIs(ctx, e.spec, l, idx, matched, Rest(ctx, left), right);
        LeftRowStep(ctx, e.spec, l, right, idx, matched);
        var pair := Combined(l, right[idx]);
        var keep := Holds(ctx, e.spec.on, pair);
        idx := idx + 1;
        if keep.Err? {
          AppendFail(keep.error, others);
          r := Err(keep.error);
          PulledFrom(ctx, e, r, e');
          return;
        }
        if keep.value {
          AppendCons(pair, LeftRow(ctx, e.spec, l, right, idx, true), others);
          r, e' := Ok(Some(pair)), JoinExec(left, e.right, e.spec, true, right, current, idx, true);
          JoinRestIs(ctx, e.spec, l, idx, true, Rest(ctx, left), right);
          JoinExecRest(ctx, e');
          PulledFrom(ctx, e, r, e');
          return;
        }
        JoinRestIs(ctx, e.spec, l, idx, matched, Rest(ctx, left), right);
      }
      JoinRestIs(ctx, e.spec, l, idx, matched, Rest(ctx, left), right);
      LeftRowEnd(ctx, e.spec, l, right, idx, matched);
      AppendNone(others);
      current := None;
      EmptyJoinRest(ctx, e.spec, idx, matched, Rest(ctx, left), right);
      if e.spec.leftOuter && !matched {
        var pad := Padded(l, e.spec.rightCols);
        AppendCons(pad, Out([], None), others);
        r, e' := Ok(Some(pad)), JoinExec(left, e.right, e.spec, true, right, None, idx, matched);
        JoinExecRest(ctx, e');
        PulledFrom(ctx, e, r, e');
        return;
      }
    }
  }

  lemma EmptyJoinRest(ctx: Ctx, spec: JoinSpec, rightIdx: nat, matched: bool, left: Out, right: seq<Row>)
    ensures JoinRest(ctx, spec, None, rightIdx, matched, left, right) == JoinOut(ctx, spec, left, right)
  {
  }

  // ---- materialising operators ----

  /** Drains an operator. */
  method CollectAll(ctx: Ctx, e: Exec) returns (r: Result<seq<Row>>)
    requires Fit(e)
    ensures r == if Rest(ctx, e).error.Some? then Err(Rest(ctx, e).error.value) else Ok(Rest(ctx, e).rows)
    decreases Depth(e), 2
  {
    hide *;
    var cur, rows := e, [];
    while true
      invariant Fit(cur) && Depth(cur) == Depth(e)
      invariant Rest(ctx, e) == Out(rows + Rest(ctx, cur).rows, Rest(ctx, cur).error)
      decreases |Rest(ctx, cur).rows|
    {
      var got, next := Next(ctx, cur);
      PulledCases(ctx, cur, got, next);
      OutIs(got);
      if got.Err? { return Err(got.error); }
      if got.value.None? {
        assert rows + [] == rows;
        return Ok(rows);
      }
      ConsLength(got.value.value, Rest(ctx, next));
      ConsIs(got.value.value, Rest(ctx, next));
      assert rows + ([got.value.value] + Rest(ctx, next).rows) == rows + [got.value.value] + Rest(ctx, next).rows;
      cur, rows := next, rows + [got.value.value];
    }
  }

  lemma ConsIs(row: Row, o: Out)
    ensures Cons(row, o) == Out([row] + o.rows, o.error)
  {
  }

  function Joined(front: seq<Keyed>, rest: Result<seq<Keyed>>): Result<seq<Keyed>> {
    match rest
    case Err(x) => Err(x)
    case Ok(s) => Ok(front + s)
  }

  lemma JoinedMore(front: seq<Keyed>, k: Keyed, rest: Result<seq<Keyed>>)
    ensures Joined(front, Joined([k], rest)) == Joined(front + [k], rest)
  {
    if rest.Ok? {
      assert front + ([k] + rest.value) == front + [k] + rest.value;
    }
  }

  lemma JoinedEnds(front: seq<Keyed>, rest: Result<seq<Keyed>>)
    ensures Joined([], rest) == rest && Joined(front, Ok([])) == Ok(front)
    ensures rest.Err? ==> Joined(front, rest) == rest
  {
    assert front + [] == front;
    if rest.Ok? {
      assert [] + rest.value == rest.value;
    }
  }

  /** Evaluates the sort keys of each row, in order. */
  method KeyRows(ctx: Ctx, keys: seq<SortKey>, rows: seq<Row>) returns (r: Result<seq<Keyed>>)
    ensures r == KeyAll(ctx, keys, rows)
  {
    hide *;
    var keyed: seq<Keyed> := [];
    assert rows[0..] == rows;
    KeyAllNone(ctx, keys);
    JoinedEnds([], KeyAll(ctx, keys, rows));
    for i := 0 to |rows|
      invariant KeyAll(ctx, keys, rows) == Joined(keyed, KeyAll(ctx, keys, rows[i..]))
    {
      KeyAllStep(ctx, keys, rows, i);
      var key := KeyOf(ctx, keys, rows[i]);
      if key.Err? {
        JoinedEnds(keyed, Err(key.error));
        return Err(key.error);
      }
      JoinedMore(keyed, Keyed(key.value, rows[i]), KeyAll(ctx, keys, rows[i + 1..]));
      keyed := keyed + [Keyed(key.value, rows[i])];
    }
    assert rows[|rows|..] == [];
    JoinedEnds(keyed, Ok([]));
    return Ok(keyed);
  }

  function KeyOf(ctx: Ctx, keys: seq<SortKey>, row: Row): Result<seq<Value>> {
    EvalAll(KeyExprs(keys), Env(ctx.lib, row.values, row.id, ctx.params))
  }

  lemma KeyAllNone(ctx: Ctx, keys: seq<SortKey>)
    ensures KeyAll(ctx, keys, []) == Ok([])
  {
  }

  lemma KeyAllStep(ctx: Ctx, keys: seq<SortKey>, rows: seq<Row>, i: nat)
    requires i < |rows|
    ensures var key := KeyOf(ctx, keys, rows[i]);
            KeyAll(ctx, keys, rows[i..]) ==
            if key.Err? then Err(key.error)
            else Joined([Keyed(key.value, rows[i])], KeyAll(ctx, keys, rows[i + 1..]))
  {
    hide EvalAll;
    assert rows[i..][0] == rows[i] && rows[i..][1..] == rows[i + 1..];
  }

  lemma SortExecRest(ctx: Ctx, e: Exec)
    requires e.SortExec?
    ensures Fit(e) == Fit(e.input) && Depth(e) == 1 + Depth(e.input)
    ensures e.produced.Some? ==> Rest(ctx, e) == Out(e.produced.value, None)
    ensures e.produced.None? ==> Rest(ctx, e) == SortOut(ctx, e.keys, Rest(ctx, e.input))
  {
    hide SortOut;
  }

  lemma SortOutIs(ctx: Ctx, keys: seq<SortKey>, src: Out)
    ensures src.error.Some? ==> SortOut(ctx, keys, src) == Fail(src.error.value)
    ensures src.error.None? && KeyAll(ctx, keys, src.rows).Err? ==>
              SortOut(ctx, keys, src) == Fail(KeyAll(ctx, keys, src.rows).error)
    ensures src.error.None? && KeyAll(ctx, keys, src.rows).Ok? ==>
              SortOut(ctx, keys, src) == Out(RowsOf(Sort(CompareKeyed(ctx.lib, Directions(keys)), KeyAll(ctx, keys, src.rows).value)), None)
  {
    hide KeyAll;
  }

  lemma ConsRows(rows: seq<Row>)
    ensures rows != [] ==> Out(rows, None) == Cons(rows[0], Out(rows[1..], None))
  {
  }

  /** Sorts the whole input at the first call. */
  method NextSort(ctx: Ctx, e: Exec) returns (r: Result<Option<Row>>, e': Exec)
    requires e.SortExec? && Fit(e)
    ensures Pulled(ctx, e, r, e')
    decreases Depth(e), 0
  {
    hide *;
    SortExecRest(ctx, e);
    e' := e;
    var rows: seq<Row>;
    if e.produced.Some? {
      rows := e.produced.value;
    } else {
      SortOutIs(ctx, e.keys, Rest(ctx, e.input));
      var all := CollectAll(ctx, e.input);
      if all.Err? {
        r := Err(all.error);
        PulledFrom(ctx, e, r, e');
        return;
      }
      var keyed := KeyRows(ctx, e.keys, all.value);
      if keyed.Err? {
        r := Err(keyed.error);
        PulledFrom(ctx, e, r, e');
        return;
      }
      rows := RowsOf(Sort(CompareKeyed(ctx.lib, Directions(e.keys)), keyed.value));
    }
    ConsRows(rows);
    if rows == [] {
      r, e' := Ok(None), SortExec(e.input, e.keys, Some([]));
      SortExecRest(ctx, e');
    } else {
      r, e' := Ok(Some(rows[0])), SortExec(e.input, e.keys, Some(rows[1..]));
      SortExecRest(ctx, e');
    }
    PulledFrom(ctx, e, r, e');
  }

  /** The first occurrence of each distinct row. */
  method Dedup(lib: Lib, rows: seq<Row>) returns (out: seq<Row>)
    ensures out == DistinctOut(lib, [], Out(rows, None)).rows
  {
    hide *;
    var seen: seq<seq<Value>> := [];
    out := [];
    assert rows[0..] == rows;
    for i := 0 to |rows|
      invariant DistinctOut(lib, [], Out(rows, None)).rows == out + DistinctOut(lib, seen, Out(rows[i..], None)).rows
    {
      assert rows[i..][0] == rows[i] && rows[i..][1..] == rows[i + 1..];
      ConsRows(rows[i..]);
      DistinctStep(lib, seen, rows[i], Out(rows[i + 1..], None));
      if !Seen(lib, seen, rows[i].values) {
        ConsIs(rows[i], DistinctOut(lib, seen + [rows[i].values], Out(rows[i + 1..], None)));
        seen := seen + [rows[i].values];
        out := out + [rows[i]];
      }
    }
    assert rows[|rows|..] == [];
    DistinctEnd(lib, seen);
  }

  lemma DistinctEnd(lib: Lib, seen: seq<seq<Value>>)
    ensures DistinctOut(lib, seen, Out([], None)).rows == []
  {
  }

  lemma SetOpExecRest(ctx: Ctx, e: Exec)
    requires e.SetOpExec?
    ensures Fit(e) == (Fit(e.left) && Fit(e.right)) && Depth(e) == 1 + Max(Depth(e.left), Depth(e.right))
    ensures Depth(e.left) < Depth(e) && Depth(e.right) < Depth(e)
    ensures e.produced.Some? ==> Rest(ctx, e) == Out(e.produced.value, None)
    ensures e.produced.None? ==> Rest(ctx, e) == SetOut(ctx.lib, e.kind, e.all, Rest(ctx, e.left), Rest(ctx, e.right))
  {
    hide SetOut;
  }

  lemma SetOutIs(lib: Lib, kind: SetKind, all: bool, l: Out, r: Out)
    ensures l.error.Some? ==> SetOut(lib, kind, all, l, r) == Fail(l.error.value)
    ensures l.error.None? && r.error.Some? ==> SetOut(lib, kind, all, l, r) == Fail(r.error.value)
    ensures l.error.None? && r.error.None? ==> SetOut(lib, kind, all, l, r) == Out(SetRows(lib, kind, all, l.rows, r.rows), None)
  {
    hide SetRows;
  }

  /** Combines two materialised inputs. */
  method Compute(lib: Lib, kind: SetKind, all: bool, l: seq<Row>, r: seq<Row>) returns (out: seq<Row>)
    ensures out == SetRows(lib, kind, all, l, r)
  {
    if kind == Union && all {
      return l + r;
    }
    out := Dedup(lib, match kind
                      case Union => l + r
                      case Intersect => Keep(lib, l, r, true)
                      case Except => Keep(lib, l, r, false));
    out := Sort(CompareRows(lib), out);
  }

  /** Computes the whole result at the first call. */
  method NextSetOp(ctx: Ctx, e: Exec) returns (r: Result<Option<Row>>, e': Exec)
    requires e.SetOpExec? && Fit(e)
    ensures Pulled(ctx, e, r, e')
    decreases Depth(e), 0
  {
    hide *;
    SetOpExecRest(ctx, e);
    e' := e;
    var rows: seq<Row>;
    if e.produced.Some? {
      rows := e.produced.value;
    } else {
      SetOutIs(ctx.lib, e.kind, e.all, Rest(ctx, e.left), Rest(ctx, e.right));
      var l := CollectAll(ctx, e.left);
      if l.Err? {
        r := Err(l.error);
        PulledFrom(ctx, e, r, e');
        return;
      }
      var right := CollectAll(ctx, e.right);
      if right.Err? {
        r := Err(right.error);
        PulledFrom(ctx, e, r, e');
        return;
      }
      rows := Compute(ctx.lib, e.kind, e.all, l.value, right.value);
    }
    ConsRows(rows);
    if rows == [] {
      r, e' := Ok(None), SetOpExec(e.left, e.right, e.kind, e.all, Some([]));
      SetOpExecRest(ctx, e');
    } else {
      r, e' := Ok(Some(rows[0])), SetOpExec(e.left, e.right, e.kind, e.all, Some(rows[1..]));
      SetOpExecRest(ctx, e');
    }
    PulledFrom(ctx, e, r, e');
  }

  /** Running a plan gives exactly the rows it denotes, or the error that stops it. */
  method RunPlan(ctx: Ctx, plan: Plan) returns (r: Result<seq<Row>>)
    ensures r == if Denote(ctx, plan).error.Some? then Err(Denote(ctx, plan).error.value) else Ok(Denote(ctx, plan).rows)
  {
    hide *;
    BuildMeaning(ctx, plan);
    r := CollectAll(ctx, Build(plan));
  }
}
