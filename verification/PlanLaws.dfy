/** What plans mean: folding keeps their rows, outer joins pad exactly the unmatched rows, set
    operations give sorted sets, DISTINCT keeps first occurrences, ORDER BY sorts stably. */
module PlanLaws {
  import opened Common
  import opened Varint
  import opened Values
  import opened Evaluation
  import opened Optimizer
  import opened Orders
  import opened Sorting
  import opened Plans

  // ---- constant folding of plans ----

  function FoldAll(lib: Lib, es: seq<Expr>): (r: seq<Expr>)
    ensures |r| == |es| && forall i :: 0 <= i < |es| ==> r[i] == Fold(lib, es[i])
  {
    seq(|es|, i requires 0 <= i < |es| => Fold(lib, es[i]))
  }

  function FoldOption(lib: Lib, e: Option<Expr>): Option<Expr> {
    match e
    case None => None
    case Some(x) => Some(Fold(lib, x))
  }

  function FoldKeys(lib: Lib, keys: seq<SortKey>): (r: seq<SortKey>)
    ensures |r| == |keys| && forall i :: 0 <= i < |keys| ==> r[i] == SortKey(Fold(lib, keys[i].expr), keys[i].asc)
  {
    seq(|keys|, i requires 0 <= i < |keys| => SortKey(Fold(lib, keys[i].expr), keys[i].asc))
  }

  /** Folds the expressions of a plan; set operations are left as they are. */
  function FoldPlan(lib: Lib, plan: Plan): Plan {
    match plan
    case Filter(input, p) => Filter(FoldPlan(lib, input), Fold(lib, p))
    case Project(input, exprs) => Project(FoldPlan(lib, input), FoldAll(lib, exprs))
    case Join(left, right, on, leftOuter, rightCols) =>
      Join(FoldPlan(lib, left), FoldPlan(lib, right), FoldOption(lib, on), leftOuter, rightCols)
    case OrderBy(input, keys) => OrderBy(FoldPlan(lib, input), FoldKeys(lib, keys))
    case Limit(input, limit, offset) => Limit(FoldPlan(lib, input), limit, offset)
    case Distinct(input) => Distinct(FoldPlan(lib, input))
    case _ => plan
  }

  /** Nothing is left to fold in a plan but below set operations. */
  predicate PlanFolded(lib: Lib, plan: Plan) {
    match plan
    case Filter(input, p) => NothingToFold(lib, p) && PlanFolded(lib, input)
    case Project(input, exprs) => PlanFolded(lib, input) && forall i :: 0 <= i < |exprs| ==> NothingToFold(lib, exprs[i])
    case Join(left, right, on, _, _) => PlanFolded(lib, left) && PlanFolded(lib, right) && (on.Some? ==> NothingToFold(lib, on.value))
    case OrderBy(input, keys) => PlanFolded(lib, input) && forall i :: 0 <= i < |keys| ==> NothingToFold(lib, keys[i].expr)
    case Limit(input, _, _) => PlanFolded(lib, input)
    case Distinct(input) => PlanFolded(lib, input)
    case _ => true
  }

  lemma {:induction false} FoldPlanComplete(lib: Lib, plan: Plan)
    ensures PlanFolded(lib, FoldPlan(lib, plan))
  {
    hide Fold, NothingToFold;
    forall e
      ensures NothingToFold(lib, Fold(lib, e))
    {
      FoldComplete(lib, e);
    }
    match plan
    case Filter(input, _) => FoldPlanComplete(lib, input);
    case Project(input, _) => FoldPlanComplete(lib, input);
    case Join(left, right, _, _, _) =>
      FoldPlanComplete(lib, left);
      FoldPlanComplete(lib, right);
    case OrderBy(input, _) => FoldPlanComplete(lib, input);
    case Limit(input, _, _) => FoldPlanComplete(lib, input);
    case Distinct(input) => FoldPlanComplete(lib, input);
    case _ =>
  }

  predicate AnyNegatesNull(es: seq<Expr>) {
    exists i :: 0 <= i < |es| && NegatesNull(es[i])
  }

  /** Whether some folded expression of the plan applies NOT to the literal NULL. */
  predicate PlanNegatesNull(plan: Plan) {
    match plan
    case Filter(input, p) => NegatesNull(p) || PlanNegatesNull(input)
    case Project(input, exprs) => AnyNegatesNull(exprs) || PlanNegatesNull(input)
    case Join(left, right, on, _, _) => (on.Some? && NegatesNull(on.value)) || PlanNegatesNull(left) || PlanNegatesNull(right)
    case OrderBy(input, keys) => AnyNegatesNull(KeyExprs(keys)) || PlanNegatesNull(input)
    case Limit(input, _, _) => PlanNegatesNull(input)
    case Distinct(input) => PlanNegatesNull(input)
    case _ => false
  }

  // What a folded plan means: every NOT NULL in a folded expression replaced by true.

  function RepairAll(es: seq<Expr>): (r: seq<Expr>)
    ensures |r| == |es| && forall i :: 0 <= i < |es| ==> r[i] == Repaired(es[i])
  {
    seq(|es|, i requires 0 <= i < |es| => Repaired(es[i]))
  }

  function RepairOption(e: Option<Expr>): Option<Expr> {
    match e
    case None => None
    case Some(x) => Some(Repaired(x))
  }

  function RepairKeys(keys: seq<SortKey>): (r: seq<SortKey>)
    ensures |r| == |keys| && forall i :: 0 <= i < |keys| ==> r[i] == SortKey(Repaired(keys[i].expr), keys[i].asc)
  {
    seq(|keys|, i requires 0 <= i < |keys| => SortKey(Repaired(keys[i].expr), keys[i].asc))
  }

  /** The plan with each NOT NULL that folding reaches replaced by true. */
  function RepairedPlan(plan: Plan): Plan {
    match plan
    case Filter(input, p) => Filter(RepairedPlan(input), Repaired(p))
    case Project(input, exprs) => Project(RepairedPlan(input), RepairAll(exprs))
    case Join(left, right, on, leftOuter, rightCols) =>
      Join(RepairedPlan(left), RepairedPlan(right), RepairOption(on), leftOuter, rightCols)
    case OrderBy(input, keys) => OrderBy(RepairedPlan(input), RepairKeys(keys))
    case Limit(input, limit, offset) => Limit(RepairedPlan(input), limit, offset)
    case Distinct(input) => Distinct(RepairedPlan(input))
    case _ => plan
  }

  lemma RepairAllSame(es: seq<Expr>)
    ensures RepairAll(es) == es <==> !AnyNegatesNull(es)
  {
    hide Repaired, NegatesNull;
    forall i | 0 <= i < |es|
      ensures Repaired(es[i]) == es[i] <==> !NegatesNull(es[i])
    {
      RepairedSame(es[i]);
    }
    if RepairAll(es) == es {
      forall i | 0 <= i < |es|
        ensures !NegatesNull(es[i])
      {
        assert RepairAll(es)[i] == Repaired(es[i]);
      }
    }
  }

  lemma RepairKeysSame(keys: seq<SortKey>)
    ensures RepairKeys(keys) == keys <==> !AnyNegatesNull(KeyExprs(keys))
  {
    hide Repaired, AnyNegatesNull;
    var es := KeyExprs(keys);
    RepairAllSame(es);
    if RepairAll(es) == es {
      forall i | 0 <= i < |keys|
        ensures RepairKeys(keys)[i] == keys[i]
      {
        assert RepairAll(es)[i] == es[i];
      }
    }
    if RepairKeys(keys) == keys {
      forall i | 0 <= i < |es|
        ensures RepairAll(es)[i] == es[i]
      {
        assert RepairKeys(keys)[i] == keys[i];
      }
    }
  }

  /** The replacement changes nothing exactly where there is no NOT NULL to fold. */
  lemma {:induction false} RepairedPlanSame(plan: Plan)
    ensures RepairedPlan(plan) == plan <==> !PlanNegatesNull(plan)
  {
    hide Repaired, NegatesNull, AnyNegatesNull, RepairAll, RepairKeys, KeyExprs;
    match plan
    case Filter(input, p) =>
      RepairedPlanSame(input);
      RepairedSame(p);
    case Project(input, exprs) =>
      RepairedPlanSame(input);
      RepairAllSame(exprs);
    case Join(left, right, on, _, _) =>
      RepairedPlanSame(left);
      RepairedPlanSame(right);
      if on.Some? {
        RepairedSame(on.value);
      }
    case OrderBy(input, keys) =>
      RepairedPlanSame(input);
      RepairKeysSame(keys);
    case Limit(input, _, _) => RepairedPlanSame(input);
    case Distinct(input) => RepairedPlanSame(input);
    case _ =>
  }

  lemma {:induction false} FoldAllMeaning(es: seq<Expr>, env: Env)
    ensures EvalAll(FoldAll(env.lib, es), env) == EvalAll(RepairAll(es), env)
  {
    hide Eval, Fold, Repaired;
    var fs, rs := FoldAll(env.lib, es), RepairAll(es);
    if es != [] {
      FoldAllMeaning(es[1..], env);
      FoldMeaning(es[0], env);
      assert fs[1..] == FoldAll(env.lib, es[1..]) && rs[1..] == RepairAll(es[1..]);
    }
  }

  lemma FoldHolds(ctx: Ctx, on: Option<Expr>, row: Row)
    ensures Holds(ctx, FoldOption(ctx.lib, on), row) == Holds(ctx, RepairOption(on), row)
  {
    hide Eval, Fold, Repaired;
    if on.Some? {
      FoldMeaning(on.value, Env(ctx.lib, row.values, row.id, ctx.params));
    }
  }

  lemma {:induction false} FoldFilter(ctx: Ctx, p: Expr, src: Out)
    ensures FilterOut(ctx, Fold(ctx.lib, p), src) == FilterOut(ctx, Repaired(p), src)
    decreases |src.rows|
  {
    hide Holds, Repaired, Fold;
    if src.rows != [] {
      FoldHolds(ctx, Some(p), src.rows[0]);
      FoldFilter(ctx, p, Tail(src));
    }
  }

  lemma {:induction false} FoldProject(ctx: Ctx, exprs: seq<Expr>, src: Out)
    ensures ProjectOut(ctx, FoldAll(ctx.lib, exprs), src) == ProjectOut(ctx, RepairAll(exprs), src)
    decreases |src.rows|
  {
    hide EvalAll, Repaired, Fold;
    if src.rows != [] {
      FoldAllMeaning(exprs, Env(ctx.lib, src.rows[0].values, src.rows[0].id, ctx.params));
      FoldProject(ctx, exprs, Tail(src));
    }
  }

  lemma {:induction false} FoldMatches(ctx: Ctx, on: Option<Expr>, l: Row, right: seq<Row>, idx: nat)
    ensures Matches(ctx, FoldOption(ctx.lib, on), l, right, idx) == Matches(ctx, RepairOption(on), l, right, idx)
    decreases |right| - idx
  {
    hide Holds, RepairOption, FoldOption;
    if idx < |right| {
      FoldHolds(ctx, on, Combined(l, right[idx]));
      FoldMatches(ctx, on, l, right, idx + 1);
    }
  }

  lemma {:induction false} FoldJoin(ctx: Ctx, j: JoinSpec, src: Out, right: seq<Row>)
    ensures JoinOut(ctx, j.(on := FoldOption(ctx.lib, j.on)), src, right) ==
            JoinOut(ctx, j.(on := RepairOption(j.on)), src, right)
    decreases |src.rows|
  {
    hide Matches, RepairOption, FoldOption;
    if src.rows != [] {
      FoldMatches(ctx, j.on, src.rows[0], right, 0);
      FoldJoin(ctx, j, Tail(src), right);
    }
  }

  lemma FoldKeyExprs(lib: Lib, keys: seq<SortKey>)
    ensures KeyExprs(FoldKeys(lib, keys)) == FoldAll(lib, KeyExprs(keys))
    ensures KeyExprs(RepairKeys(keys)) == RepairAll(KeyExprs(keys))
    ensures Directions(FoldKeys(lib, keys)) == Directions(keys) == Directions(RepairKeys(keys))
  {
  }

  lemma {:induction false} FoldKeyAll(ctx: Ctx, keys: seq<SortKey>, rows: seq<Row>)
    ensures KeyAll(ctx, FoldKeys(ctx.lib, keys), rows) == KeyAll(ctx, RepairKeys(keys), rows)
  {
    hide EvalAll, RepairKeys, FoldKeys;
    if rows != [] {
      FoldKeyExprs(ctx.lib, keys);
      FoldAllMeaning(KeyExprs(keys), Env(ctx.lib, rows[0].values, rows[0].id, ctx.params));
      FoldKeyAll(ctx, keys, rows[1..]);
    }
  }

  lemma FoldSort(ctx: Ctx, keys: seq<SortKey>, src: Out)
    ensures SortOut(ctx, FoldKeys(ctx.lib, keys), src) == SortOut(ctx, RepairKeys(keys), src)
  {
    hide KeyAll, RepairKeys, FoldKeys;
    FoldKeyExprs(ctx.lib, keys);
    FoldKeyAll(ctx, keys, src.rows);
  }

  /** A folded plan yields, in order, the rows and the error that the plan would if every NOT NULL that
      folding reaches were true. */
  lemma {:induction false} FoldPlanMeaning(ctx: Ctx, plan: Plan)
    ensures Denote(ctx, FoldPlan(ctx.lib, plan)) == Denote(ctx, RepairedPlan(plan))
  {
    hide FilterOut, ProjectOut, JoinOut, SortOut, LimitOut, DistinctOut, SetOut;
    hide Fold, FoldAll, FoldOption, FoldKeys, Repaired, RepairAll, RepairOption, RepairKeys, KeyExprs;
    match plan
    case Filter(input, p) =>
      FoldPlanMeaning(ctx, input);
      FoldFilter(ctx, p, Denote(ctx, FoldPlan(ctx.lib, input)));
    case Project(input, exprs) =>
      FoldPlanMeaning(ctx, input);
      FoldProject(ctx, exprs, Denote(ctx, FoldPlan(ctx.lib, input)));
    case Join(left, right, on, leftOuter, rightCols) =>
      FoldPlanMeaning(ctx, left);
      FoldPlanMeaning(ctx, right);
      FoldJoin(ctx, JoinSpec(on, leftOuter, rightCols), Denote(ctx, FoldPlan(ctx.lib, left)),
               Denote(ctx, FoldPlan(ctx.lib, right)).rows);
    case OrderBy(input, keys) =>
      FoldPlanMeaning(ctx, input);
      FoldSort(ctx, keys, Denote(ctx, FoldPlan(ctx.lib, input)));
    case Limit(input, _, _) => FoldPlanMeaning(ctx, input);
    case Distinct(input) => FoldPlanMeaning(ctx, input);
    case _ =>
  }

  /** Folding a plan without NOT NULL keeps its rows, in order, and its errors. */
  lemma FoldPlanPreserves(ctx: Ctx, plan: Plan)
    requires !PlanNegatesNull(plan)
    ensures Denote(ctx, FoldPlan(ctx.lib, plan)) == Denote(ctx, plan)
  {
    hide *;
    FoldPlanMeaning(ctx, plan);
    RepairedPlanSame(plan);
  }

  /** A plan whose rows folding changes: SELECT without FROM, WHERE NOT NULL, has no row; folded, it has the one
      that WHERE TRUE has. */
  lemma FoldPlanDiffers(ctx: Ctx)
    ensures var plan := Filter(Dual, Unary(Not, Literal(Null)));
            Denote(ctx, plan).rows == [] && |Denote(ctx, FoldPlan(ctx.lib, plan)).rows| == 1
  {
    var plan := Filter(Dual, Unary(Not, Literal(Null)));
    FoldPlanMeaning(ctx, plan);
    var repaired := Filter(Dual, Literal(Boolean(true)));
    assert RepairedPlan(plan) == repaired;
    var none := Tail(Denote(ctx, Dual));
    assert FilterOut(ctx, Unary(Not, Literal(Null)), none) == none;
    assert FilterOut(ctx, Literal(Boolean(true)), none) == none;
  }

  // ---- outer joins ----

  predicate Satisfies(ctx: Ctx, on: Option<Expr>, l: Row, r: Row) {
    Holds(ctx, on, Combined(l, r)) == Ok(true)
  }

  lemma {:induction false} MatchesExact(ctx: Ctx, on: Option<Expr>, l: Row, right: seq<Row>, idx: nat, row: Row)
    requires Matches(ctx, on, l, right, idx).error == None
    ensures row in Matches(ctx, on, l, right, idx).rows <==>
            exists i :: idx <= i < |right| && Satisfies(ctx, on, l, right[i]) && row == Combined(l, right[i])
    ensures Matches(ctx, on, l, right, idx).rows == [] <==> forall i :: idx <= i < |right| ==> !Satisfies(ctx, on, l, right[i])
    decreases |right| - idx
  {
    hide Holds;
    if idx < |right| {
      MatchesExact(ctx, on, l, right, idx + 1, row);
    }
  }

  /** A left row joins exactly the right rows that satisfy the condition; an outer join adds the row
      padded with NULLs exactly when there are none. */
  lemma LeftRowExact(ctx: Ctx, j: JoinSpec, l: Row, right: seq<Row>, row: Row)
    requires Matches(ctx, j.on, l, right, 0).error == None
    ensures LeftRow(ctx, j, l, right, 0, false).error == None
    ensures row in LeftRow(ctx, j, l, right, 0, false).rows <==>
            || (exists i :: 0 <= i < |right| && Satisfies(ctx, j.on, l, right[i]) && row == Combined(l, right[i]))
            || (j.leftOuter && row == Padded(l, j.rightCols) && forall i :: 0 <= i < |right| ==> !Satisfies(ctx, j.on, l, right[i]))
    ensures (forall i :: 0 <= i < |right| ==> !Satisfies(ctx, j.on, l, right[i])) ==>
              LeftRow(ctx, j, l, right, 0, false).rows == if j.leftOuter then [Padded(l, j.rightCols)] else []
  {
    hide Matches, Satisfies;
    MatchesExact(ctx, j.on, l, right, 0, row);
  }

  // ---- DISTINCT ----

  lemma {:induction false} RowsEqOrder(lib: Lib, a: seq<Value>, b: seq<Value>)
    requires AllPlain(lib, a) && AllPlain(lib, b) && FloatsOrdered(lib)
    ensures RowsEq(lib, a, b) <==> CompareValues(lib, a, b) == Equal
  {
    hide Compare, Plain, FloatsOrdered;
    if a != [] && b != [] {
      PlainEq(lib, a[0], b[0]);
      RowsEqOrder(lib, a[1..], b[1..]);
    }
  }

  lemma PlainEq(lib: Lib, x: Value, y: Value)
    requires Plain(lib, x) && Plain(lib, y) && FloatsOrdered(lib)
    ensures (x.Null? == y.Null? && (x.Null? || Compare(lib, x, y) == Some(Equal))) <==> OrderKey(lib, x, y) == Equal
  {
    hide CompareBytes;
  }

  /** No kept row equals an earlier kept row or one already seen. */
  lemma {:induction false} DistinctApart(lib: Lib, seen: seq<seq<Value>>, src: Out, i: nat)
    requires i < |DistinctOut(lib, seen, src).rows|
    ensures !Seen(lib, seen, DistinctOut(lib, seen, src).rows[i].values)
    ensures forall k :: 0 <= k < i ==>
              !RowsEq(lib, DistinctOut(lib, seen, src).rows[k].values, DistinctOut(lib, seen, src).rows[i].values)
    decreases |src.rows|
  {
    hide RowsEq;
    var row := src.rows[0];
    var out := DistinctOut(lib, seen, src).rows;
    if Seen(lib, seen, row.values) {
      DistinctApart(lib, seen, Tail(src), i);
    } else if i > 0 {
      var seen' := seen + [row.values];
      var rest := DistinctOut(lib, seen', Tail(src)).rows;
      assert out == [row] + rest;
      DistinctApart(lib, seen', Tail(src), i - 1);
      SeenMore(lib, seen, row.values, rest[i - 1].values);
    }
  }

  lemma SeenMore(lib: Lib, seen: seq<seq<Value>>, vs: seq<Value>, x: seq<Value>)
    ensures Seen(lib, seen + [vs], x) <==> Seen(lib, seen, x) || RowsEq(lib, vs, x)
  {
    hide RowsEq;
    var all := seen + [vs];
    assert all[|seen|] == vs;
    if Seen(lib, seen, x) {
      var i :| 0 <= i < |seen| && RowsEq(lib, seen[i], x);
      assert all[i] == seen[i];
    }
  }

  /** Every row, but for those already seen, equals a kept one, and every kept row is one of the rows. */
  lemma {:induction false} DistinctCovers(lib: Lib, seen: seq<seq<Value>>, src: Out, row: Row)
    requires row in src.rows && forall r :: r in src.rows ==> RowsEq(lib, r.values, r.values)
    ensures Seen(lib, seen, row.values) || exists k: Row :: k in DistinctOut(lib, seen, src).rows && RowsEq(lib, k.values, row.values)
    decreases |src.rows|
  {
    hide RowsEq;
    var first := src.rows[0];
    assert src.rows == [first] + Tail(src).rows;
    if Seen(lib, seen, first.values) {
      if row != first {
        DistinctCovers(lib, seen, Tail(src), row);
      }
    } else {
      var seen' := seen + [first.values];
      var rest := DistinctOut(lib, seen', Tail(src)).rows;
      var out := DistinctOut(lib, seen, src).rows;
      assert out == [first] + rest;
      assert first in out && forall k :: k in rest ==> k in out;
      if row != first {
        DistinctCovers(lib, seen', Tail(src), row);
        SeenMore(lib, seen, first.values, row.values);
      }
    }
  }

  lemma {:induction false} DistinctWithin(lib: Lib, seen: seq<seq<Value>>, src: Out, row: Row)
    requires row in DistinctOut(lib, seen, src).rows
    ensures row in src.rows
    decreases |src.rows|
  {
    hide RowsEq, Seen;
    var first := src.rows[0];
    assert src.rows == [first] + Tail(src).rows;
    if Seen(lib, seen, first.values) {
      DistinctWithin(lib, seen, Tail(src), row);
    } else {
      var rest := DistinctOut(lib, seen + [first.values], Tail(src)).rows;
      assert DistinctOut(lib, seen, src).rows == [first] + rest;
      if row != first {
        DistinctWithin(lib, seen + [first.values], Tail(src), row);
      }
    }
  }

  // ---- set operations ----

  predicate PlainRow(lib: Lib, row: Row) {
    AllPlain(lib, row.values)
  }

  ghost predicate AllPlainRows(lib: Lib, rows: seq<Row>) {
    forall r :: r in rows ==> PlainRow(lib, r)
  }

  /** Whether a row equal to row occurs. */
  ghost predicate Has(lib: Lib, rows: seq<Row>, row: Row) {
    exists k :: k in rows && RowsEq(lib, k.values, row.values)
  }

  lemma RowsLawful(lib: Lib)
    requires FloatsOrdered(lib)
    ensures Lawful(CompareRows(lib), (r: Row) => PlainRow(lib, r))
  {
    hide CompareValues, AllPlain, FloatsOrdered;
    var cmp, good := CompareRows(lib), (r: Row) => PlainRow(lib, r);
    forall x, y | good(x) && good(y)
      ensures cmp(y, x) == Flip(cmp(x, y))
    {
      ValuesFlip(lib, x.values, y.values);
    }
    forall x, y, z | good(x) && good(y) && good(z) && cmp(x, y) != Greater && cmp(y, z) != Greater
      ensures cmp(x, z) != Greater && (cmp(x, z) == Equal ==> cmp(x, y) == Equal && cmp(y, z) == Equal)
    {
      ValuesTrans(lib, x.values, y.values, z.values);
    }
  }

  /** The rows of a sorted set ascend strictly. */
  ghost predicate Ascends(lib: Lib, rows: seq<Row>) {
    forall i, j :: 0 <= i < j < |rows| ==> CompareValues(lib, rows[i].values, rows[j].values) == Less
  }

  lemma {:induction false} SameClassSize(lib: Lib, x: Row, s: seq<Row>, n: nat, m: nat)
    requires n < m < |s| && CompareRows(lib)(x, s[n]) == Equal && CompareRows(lib)(x, s[m]) == Equal
    ensures |Class(CompareRows(lib), x, s)| >= 2
  {
    hide CompareValues;
    if n > 0 {
      SameClassSize(lib, x, s[1..], n - 1, m - 1);
    } else {
      OneInClass(lib, x, s[1..], m - 1);
    }
  }

  lemma {:induction false} OneInClass(lib: Lib, x: Row, s: seq<Row>, m: nat)
    requires m < |s| && CompareRows(lib)(x, s[m]) == Equal
    ensures |Class(CompareRows(lib), x, s)| >= 1
  {
    hide CompareValues;
    if m > 0 {
      OneInClass(lib, x, s[1..], m - 1);
    }
  }

  /** With no two equal rows, a class holds one row at most. */
  lemma {:induction false} ClassSingle(lib: Lib, x: Row, s: seq<Row>)
    requires FloatsOrdered(lib) && PlainRow(lib, x) && AllPlainRows(lib, s)
    requires forall i, k :: 0 <= k < i < |s| ==> !RowsEq(lib, s[k].values, s[i].values)
    ensures |Class(CompareRows(lib), x, s)| <= 1
  {
    hide CompareValues, RowsEq, AllPlain, FloatsOrdered;
    if s != [] {
      ClassSingle(lib, x, s[1..]);
      var c := Class(CompareRows(lib), x, s[1..]);
      if CompareRows(lib)(x, s[0]) == Equal && c != [] {
        ClassHas(CompareRows(lib), x, s[1..], c[0]);
        var i :| 0 <= i < |s[1..]| && s[1..][i] == c[0];
        assert s[1..][i] == s[i + 1];
        RowsLawful(lib);
        LawAt(CompareRows(lib), (r: Row) => PlainRow(lib, r), x, s[0], s[0]);
        LawAt(CompareRows(lib), (r: Row) => PlainRow(lib, r), s[0], x, c[0]);
        LawAt(CompareRows(lib), (r: Row) => PlainRow(lib, r), x, c[0], c[0]);
        LawAt(CompareRows(lib), (r: Row) => PlainRow(lib, r), c[0], x, s[0]);
        LawAt(CompareRows(lib), (r: Row) => PlainRow(lib, r), s[0], c[0], c[0]);
        RowsEqOrder(lib, s[0].values, c[0].values);
      }
    }
  }

  /** Deduplicating and sorting gives a strictly ascending list with the same rows, up to equality. */
  lemma SortedSetMeaning(lib: Lib, rows: seq<Row>)
    requires FloatsOrdered(lib) && AllPlainRows(lib, rows)
    ensures Ascends(lib, SortedSet(lib, rows)) && AllPlainRows(lib, SortedSet(lib, rows))
    ensures forall row :: Has(lib, SortedSet(lib, rows), row) ==> Has(lib, rows, row)
    ensures forall row :: row in rows ==> Has(lib, SortedSet(lib, rows), row)
  {
    hide CompareValues, RowsEq, AllPlain, FloatsOrdered, DistinctOut;
    var cmp, good := CompareRows(lib), (r: Row) => PlainRow(lib, r);
    var d := DistinctOut(lib, [], Out(rows, None)).rows;
    var t := SortedSet(lib, rows);
    RowsLawful(lib);
    forall r | r in d
      ensures r in rows
    {
      DistinctWithin(lib, [], Out(rows, None), r);
    }
    AllHas(good, d);
    SortStable(cmp, good, d);
    forall r: Row
      ensures r in t <==> r in d
    {
      SortHas(cmp, d, r);
    }
    forall i, k | 0 <= k < i < |d|
      ensures !RowsEq(lib, d[k].values, d[i].values)
    {
      DistinctApart(lib, [], Out(rows, None), i);
    }
    StrictlyUp(lib, d, t);
    forall row | row in rows
      ensures Has(lib, t, row)
    {
      AllReflexive(lib, rows);
      DistinctCovers(lib, [], Out(rows, None), row);
    }
  }

  lemma AllReflexive(lib: Lib, rows: seq<Row>)
    requires FloatsOrdered(lib) && AllPlainRows(lib, rows)
    ensures forall r :: r in rows ==> RowsEq(lib, r.values, r.values)
  {
    hide CompareValues, RowsEq, AllPlain, FloatsOrdered;
    forall r | r in rows
      ensures RowsEq(lib, r.values, r.values)
    {
      ValuesFlip(lib, r.values, r.values);
      RowsEqOrder(lib, r.values, r.values);
    }
  }

  lemma StrictlyUp(lib: Lib, d: seq<Row>, t: seq<Row>)
    requires FloatsOrdered(lib) && AllPlainRows(lib, d) && AllPlainRows(lib, t)
    requires StablySorted(CompareRows(lib), (r: Row) => PlainRow(lib, r), d, t)
    requires forall i, k :: 0 <= k < i < |d| ==> !RowsEq(lib, d[k].values, d[i].values)
    ensures Ascends(lib, t)
  {
    hide CompareValues, RowsEq, AllPlain, FloatsOrdered;
    var cmp, good := CompareRows(lib), (r: Row) => PlainRow(lib, r);
    forall i, j | 0 <= i < j < |t|
      ensures CompareValues(lib, t[i].values, t[j].values) == Less
    {
      assert cmp(t[i], t[j]) != Greater;
      if cmp(t[i], t[j]) == Equal {
        RowsLawful(lib);
        LawAt(cmp, good, t[i], t[i], t[i]);
        SameClassSize(lib, t[i], t, i, j);
        ClassSingle(lib, t[i], d);
        assert false;
      }
    }
  }

  lemma RowsEqTrans(lib: Lib, x: Row, y: Row, z: Row)
    requires FloatsOrdered(lib) && PlainRow(lib, x) && PlainRow(lib, y) && PlainRow(lib, z)
    requires RowsEq(lib, x.values, y.values) && RowsEq(lib, y.values, z.values)
    ensures RowsEq(lib, x.values, z.values)
  {
    hide CompareValues, RowsEq, AllPlain, FloatsOrdered;
    RowsEqOrder(lib, x.values, y.values);
    RowsEqOrder(lib, y.values, z.values);
    RowsEqOrder(lib, x.values, z.values);
    ValuesTrans(lib, x.values, y.values, z.values);
    ValuesFlip(lib, x.values, y.values);
    ValuesFlip(lib, y.values, z.values);
    ValuesTrans(lib, z.values, y.values, x.values);
    ValuesFlip(lib, x.values, z.values);
  }

  /** Rows found in a, all of which are found in b, are found in b. */
  lemma HasTrans(lib: Lib, a: seq<Row>, b: seq<Row>, row: Row)
    requires FloatsOrdered(lib) && AllPlainRows(lib, a) && AllPlainRows(lib, b) && PlainRow(lib, row)
    requires Has(lib, a, row) && forall k :: k in a ==> Has(lib, b, k)
    ensures Has(lib, b, row)
  {
    hide RowsEq, PlainRow, FloatsOrdered;
    var k :| k in a && RowsEq(lib, k.values, row.values);
    var m :| m in b && RowsEq(lib, m.values, k.values);
    RowsEqTrans(lib, m, k, row);
  }

  lemma SortedSetHas(lib: Lib, rows: seq<Row>, row: Row)
    requires FloatsOrdered(lib) && AllPlainRows(lib, rows) && PlainRow(lib, row)
    ensures Has(lib, SortedSet(lib, rows), row) <==> Has(lib, rows, row)
  {
    hide SortedSet, PlainRow, FloatsOrdered, Has, Ascends;
    SortedSetMeaning(lib, rows);
    if Has(lib, rows, row) {
      HasTrans(lib, rows, SortedSet(lib, rows), row);
    }
  }

  lemma {:induction false} KeepExact(lib: Lib, rows: seq<Row>, others: seq<Row>, present: bool, row: Row)
    ensures row in Keep(lib, rows, others, present) <==> row in rows && Occurs(lib, others, row) == present
  {
    hide Occurs;
    if rows != [] {
      KeepExact(lib, rows[1..], others, present, row);
      assert rows == [rows[0]] + rows[1..];
    }
  }

  lemma OccursHas(lib: Lib, rows: seq<Row>, row: Row)
    ensures Occurs(lib, rows, row) <==> Has(lib, rows, row)
  {
    hide RowsEq;
    if Has(lib, rows, row) {
      var k :| k in rows && RowsEq(lib, k.values, row.values);
      var i :| 0 <= i < |rows| && rows[i] == k;
      assert RowsEq(lib, rows[i].values, row.values);
    }
  }

  /** Rows equal to each other are found together. */
  lemma HasSame(lib: Lib, rows: seq<Row>, k: Row, row: Row)
    requires FloatsOrdered(lib) && AllPlainRows(lib, rows) && PlainRow(lib, k) && PlainRow(lib, row)
    requires RowsEq(lib, k.values, row.values)
    ensures Has(lib, rows, k) <==> Has(lib, rows, row)
  {
    hide RowsEq, AllPlain, FloatsOrdered, CompareValues;
    RowsEqOrder(lib, k.values, row.values);
    RowsEqOrder(lib, row.values, k.values);
    ValuesFlip(lib, k.values, row.values);
    if Has(lib, rows, k) {
      var m :| m in rows && RowsEq(lib, m.values, k.values);
      RowsEqTrans(lib, m, k, row);
    }
    if Has(lib, rows, row) {
      var m :| m in rows && RowsEq(lib, m.values, row.values);
      RowsEqTrans(lib, m, row, k);
    }
  }

  lemma KeepHas(lib: Lib, rows: seq<Row>, others: seq<Row>, present: bool, row: Row)
    requires FloatsOrdered(lib) && AllPlainRows(lib, rows) && AllPlainRows(lib, others) && PlainRow(lib, row)
    ensures AllPlainRows(lib, Keep(lib, rows, others, present))
    ensures Has(lib, Keep(lib, rows, others, present), row) <==> Has(lib, rows, row) && Has(lib, others, row) == present
  {
    hide RowsEq, PlainRow, FloatsOrdered, Keep, Occurs;
    var kept := Keep(lib, rows, others, present);
    forall k: Row
      ensures k in kept <==> k in rows && Has(lib, others, k) == present
    {
      KeepExact(lib, rows, others, present, k);
      OccursHas(lib, others, k);
    }
    forall k | k in rows && RowsEq(lib, k.values, row.values)
      ensures Has(lib, others, k) == Has(lib, others, row)
    {
      HasSame(lib, others, k, row);
    }
  }

  /** UNION, INTERSECT and EXCEPT give strictly ascending rows: those of either side, of both sides, of
      the left side only. */
  lemma SetMeaning(lib: Lib, kind: SetKind, l: seq<Row>, r: seq<Row>, row: Row)
    requires FloatsOrdered(lib) && AllPlainRows(lib, l) && AllPlainRows(lib, r) && PlainRow(lib, row)
    ensures Ascends(lib, SetRows(lib, kind, false, l, r))
    ensures Has(lib, SetRows(lib, kind, false, l, r), row) <==>
            match kind
            case Union => Has(lib, l, row) || Has(lib, r, row)
            case Intersect => Has(lib, l, row) && Has(lib, r, row)
            case Except => Has(lib, l, row) && !Has(lib, r, row)
  {
    hide SortedSet, PlainRow, FloatsOrdered, Ascends, RowsEq, Keep;
    var all := match kind
               case Union => l + r
               case Intersect => Keep(lib, l, r, true)
               case Except => Keep(lib, l, r, false);
    KeepHas(lib, l, r, true, row);
    KeepHas(lib, l, r, false, row);
    SortedSetMeaning(lib, all);
    SortedSetHas(lib, all, row);
  }

  // ---- ORDER BY ----

  predicate PlainKey(lib: Lib, n: nat, k: Keyed) {
    |k.key| == n && AllPlain(lib, k.key)
  }

  lemma {:induction false} KeysFlip(lib: Lib, ascs: seq<bool>, a: seq<Value>, b: seq<Value>)
    requires FloatsOrdered(lib) && AllPlain(lib, a) && AllPlain(lib, b) && |a| == |b| == |ascs|
    ensures CompareKeys(lib, ascs, b, a) == Flip(CompareKeys(lib, ascs, a, b))
  {
    hide OrderKey, Plain, FloatsOrdered;
    if ascs != [] {
      ValueFlip(lib, a[0], b[0]);
      KeysFlip(lib, ascs[1..], a[1..], b[1..]);
    }
  }

  lemma {:induction false} KeysTrans(lib: Lib, ascs: seq<bool>, a: seq<Value>, b: seq<Value>, c: seq<Value>)
    requires FloatsOrdered(lib) && AllPlain(lib, a) && AllPlain(lib, b) && AllPlain(lib, c)
    requires |a| == |b| == |c| == |ascs|
    requires CompareKeys(lib, ascs, a, b) != Greater && CompareKeys(lib, ascs, b, c) != Greater
    ensures CompareKeys(lib, ascs, a, c) != Greater
    ensures CompareKeys(lib, ascs, a, c) == Equal ==>
              CompareKeys(lib, ascs, a, b) == Equal && CompareKeys(lib, ascs, b, c) == Equal
  {
    hide OrderKey, Plain, FloatsOrdered;
    if ascs != [] {
      KeyTrans(lib, ascs[0], a[0], b[0], c[0]);
      if OrderKey(lib, a[0], b[0]) == Equal && OrderKey(lib, b[0], c[0]) == Equal {
        KeysTrans(lib, ascs[1..], a[1..], b[1..], c[1..]);
      }
    }
  }

  lemma KeyTrans(lib: Lib, asc: bool, x: Value, y: Value, z: Value)
    requires FloatsOrdered(lib) && Plain(lib, x) && Plain(lib, y) && Plain(lib, z)
    ensures var o := (u, v) => if asc then OrderKey(lib, u, v) else Flip(OrderKey(lib, u, v));
            o(x, y) != Greater && o(y, z) != Greater ==>
              o(x, z) != Greater && (o(x, z) == Equal <==> o(x, y) == Equal && o(y, z) == Equal)
  {
    hide OrderKey, Plain, FloatsOrdered;
    ValueFlip(lib, x, y);
    ValueFlip(lib, y, z);
    ValueFlip(lib, x, z);
    if OrderKey(lib, x, y) != Greater && OrderKey(lib, y, z) != Greater {
      ValueTrans(lib, x, y, z);
    }
    if OrderKey(lib, z, y) != Greater && OrderKey(lib, y, x) != Greater {
      ValueTrans(lib, z, y, x);
    }
  }

  /** The first position at which two keys differ. */
  predicate FirstDiffers(lib: Lib, a: seq<Value>, b: seq<Value>, n: nat) {
    && n < |a| && n < |b| && OrderKey(lib, a[n], b[n]) != Equal
    && forall i :: 0 <= i < n ==> OrderKey(lib, a[i], b[i]) == Equal
  }

  /** There key a is the lesser one if the direction is ascending, and the greater one if it is descending. */
  ghost predicate InOrder(lib: Lib, ascs: seq<bool>, a: seq<Value>, b: seq<Value>) {
    forall n :: 0 <= n < |ascs| && FirstDiffers(lib, a, b, n) ==>
      OrderKey(lib, a[n], b[n]) == if ascs[n] then Less else Greater
  }

  predicate SameKey(lib: Lib, a: seq<Value>, b: seq<Value>) {
    |a| == |b| && forall i :: 0 <= i < |a| ==> OrderKey(lib, a[i], b[i]) == Equal
  }

  /** The rows with a given key, in their order. */
  function WithKey(lib: Lib, key: seq<Value>, s: seq<Keyed>): seq<Keyed> {
    if s == [] then []
    else if SameKey(lib, key, s[0].key) then [s[0]] + WithKey(lib, key, s[1..])
    else WithKey(lib, key, s[1..])
  }

  /** t has the rows of keyed in the order of their keys, rows with equal keys as they came. */
  ghost predicate OrderedBy(lib: Lib, ascs: seq<bool>, keyed: seq<Keyed>, t: seq<Keyed>) {
    && (forall i, j :: 0 <= i < j < |t| ==> InOrder(lib, ascs, t[i].key, t[j].key))
    && (forall k :: k in t ==> PlainKey(lib, |ascs|, k))
    && forall k :: PlainKey(lib, |ascs|, k) ==> WithKey(lib, k.key, t) == WithKey(lib, k.key, keyed)
  }

  /** Keys compare as their first difference does. */
  lemma {:induction false} KeysMeaning(lib: Lib, ascs: seq<bool>, a: seq<Value>, b: seq<Value>)
    requires |a| == |b| == |ascs|
    ensures CompareKeys(lib, ascs, a, b) != Greater <==> InOrder(lib, ascs, a, b)
    ensures CompareKeys(lib, ascs, a, b) == Equal <==> SameKey(lib, a, b)
  {
    hide OrderKey;
    if ascs != [] {
      var ascs', a', b' := ascs[1..], a[1..], b[1..];
      KeysMeaning(lib, ascs', a', b');
      if OrderKey(lib, a[0], b[0]) != Equal {
        assert FirstDiffers(lib, a, b, 0);
      } else {
        forall n | 0 < n < |ascs|
          ensures FirstDiffers(lib, a, b, n) <==> FirstDiffers(lib, a', b', n - 1)
          ensures ascs[n] == ascs'[n - 1] && a[n] == a'[n - 1] && b[n] == b'[n - 1]
        {
          DiffersLater(lib, a, b, n);
        }
        InOrderLater(lib, ascs, a, b);
        SameLater(lib, a, b);
      }
    }
  }

  lemma DiffersLater(lib: Lib, a: seq<Value>, b: seq<Value>, n: nat)
    requires |a| == |b| && 0 < n < |a| && OrderKey(lib, a[0], b[0]) == Equal
    ensures FirstDiffers(lib, a, b, n) <==> FirstDiffers(lib, a[1..], b[1..], n - 1)
  {
    hide OrderKey;
    var a', b' := a[1..], b[1..];
    if FirstDiffers(lib, a', b', n - 1) {
      forall i | 0 <= i < n
        ensures OrderKey(lib, a[i], b[i]) == Equal
      {
        assert i > 0 ==> a[i] == a'[i - 1] && b[i] == b'[i - 1];
      }
    }
    if FirstDiffers(lib, a, b, n) {
      forall i | 0 <= i < n - 1
        ensures OrderKey(lib, a'[i], b'[i]) == Equal
      {
        assert a'[i] == a[i + 1] && b'[i] == b[i + 1];
      }
    }
  }

  lemma InOrderLater(lib: Lib, ascs: seq<bool>, a: seq<Value>, b: seq<Value>)
    requires |a| == |b| == |ascs| > 0 && OrderKey(lib, a[0], b[0]) == Equal
    ensures InOrder(lib, ascs, a, b) <==> InOrder(lib, ascs[1..], a[1..], b[1..])
  {
    hide OrderKey, FirstDiffers;
    var ascs', a', b' := ascs[1..], a[1..], b[1..];
    assert !FirstDiffers(lib, a, b, 0) by {
      NotAtFirst(lib, a, b);
    }
    forall n | 0 < n < |ascs|
      ensures FirstDiffers(lib, a, b, n) <==> FirstDiffers(lib, a', b', n - 1)
    {
      DiffersLater(lib, a, b, n);
    }
    if InOrder(lib, ascs', a', b') {
      forall n | 0 <= n < |ascs| && FirstDiffers(lib, a, b, n)
        ensures OrderKey(lib, a[n], b[n]) == if ascs[n] then Less else Greater
      {
        assert FirstDiffers(lib, a', b', n - 1);
      }
    }
    if InOrder(lib, ascs, a, b) {
      forall n | 0 <= n < |ascs'| && FirstDiffers(lib, a', b', n)
        ensures OrderKey(lib, a'[n], b'[n]) == if ascs'[n] then Less else Greater
      {
        assert FirstDiffers(lib, a, b, n + 1);
      }
    }
  }

  lemma NotAtFirst(lib: Lib, a: seq<Value>, b: seq<Value>)
    requires a != [] && b != [] && OrderKey(lib, a[0], b[0]) == Equal
    ensures !FirstDiffers(lib, a, b, 0)
  {
    hide OrderKey;
  }

  lemma SameLater(lib: Lib, a: seq<Value>, b: seq<Value>)
    requires |a| == |b| > 0 && OrderKey(lib, a[0], b[0]) == Equal
    ensures SameKey(lib, a, b) <==> SameKey(lib, a[1..], b[1..])
  {
    hide OrderKey;
    if SameKey(lib, a[1..], b[1..]) {
      forall i | 0 <= i < |a|
        ensures OrderKey(lib, a[i], b[i]) == Equal
      {
        assert i > 0 ==> a[i] == a[1..][i - 1] && b[i] == b[1..][i - 1];
      }
    }
  }

  lemma {:induction false} WithKeyClass(lib: Lib, ascs: seq<bool>, x: Keyed, s: seq<Keyed>)
    requires |x.key| == |ascs| && forall k :: k in s ==> PlainKey(lib, |ascs|, k)
    ensures WithKey(lib, x.key, s) == Class(CompareKeyed(lib, ascs), x, s)
  {
    hide SameKey, CompareKeys, AllPlain;
    if s != [] {
      assert PlainKey(lib, |ascs|, s[0]);
      KeysMeaning(lib, ascs, x.key, s[0].key);
      WithKeyClass(lib, ascs, x, s[1..]);
    }
  }

  lemma OrderedIs(lib: Lib, ascs: seq<bool>, keyed: seq<Keyed>, t: seq<Keyed>)
    requires forall k :: k in keyed ==> PlainKey(lib, |ascs|, k)
    ensures OrderedBy(lib, ascs, keyed, t) <==>
            StablySorted(CompareKeyed(lib, ascs), (k: Keyed) => PlainKey(lib, |ascs|, k), keyed, t)
  {
    hide CompareKeys, AllPlain, InOrder, WithKey, Class;
    var cmp, good := CompareKeyed(lib, ascs), (k: Keyed) => PlainKey(lib, |ascs|, k);
    AllHas(good, t);
    if All(good, t) {
      forall i, j | 0 <= i < j < |t|
        ensures InOrder(lib, ascs, t[i].key, t[j].key) <==> cmp(t[i], t[j]) != Greater
      {
        KeysMeaning(lib, ascs, t[i].key, t[j].key);
      }
      forall x: Keyed | PlainKey(lib, |ascs|, x)
        ensures WithKey(lib, x.key, t) == Class(cmp, x, t) && WithKey(lib, x.key, keyed) == Class(cmp, x, keyed)
      {
        WithKeyClass(lib, ascs, x, t);
        WithKeyClass(lib, ascs, x, keyed);
      }
    }
  }

  /** ORDER BY yields the input rows by the first keys that differ, each key in its direction, and rows with equal keys
      in input order; no other list of them has that property. */
  lemma OrderByMeaning(lib: Lib, ascs: seq<bool>, keyed: seq<Keyed>, t: seq<Keyed>)
    requires FloatsOrdered(lib) && forall k :: k in keyed ==> PlainKey(lib, |ascs|, k)
    ensures OrderedBy(lib, ascs, keyed, t) <==> t == Sort(CompareKeyed(lib, ascs), keyed)
  {
    hide CompareKeys, AllPlain, FloatsOrdered, OrderedBy;
    var cmp, good := CompareKeyed(lib, ascs), (k: Keyed) => PlainKey(lib, |ascs|, k);
    KeyedLawful(lib, ascs);
    AllHas(good, keyed);
    SortStable(cmp, good, keyed);
    OrderedIs(lib, ascs, keyed, t);
    OrderedIs(lib, ascs, keyed, Sort(cmp, keyed));
    if StablySorted(cmp, good, keyed, t) {
      StableUnique(cmp, good, t, Sort(cmp, keyed));
    }
  }

  lemma KeyedLawful(lib: Lib, ascs: seq<bool>)
    requires FloatsOrdered(lib)
    ensures Lawful(CompareKeyed(lib, ascs), (k: Keyed) => PlainKey(lib, |ascs|, k))
  {
    hide CompareKeys, AllPlain, FloatsOrdered;
    var cmp, good := CompareKeyed(lib, ascs), (k: Keyed) => PlainKey(lib, |ascs|, k);
    forall x, y | good(x) && good(y)
      ensures cmp(y, x) == Flip(cmp(x, y))
    {
      KeysFlip(lib, ascs, x.key, y.key);
    }
    forall x, y, z | good(x) && good(y) && good(z) && cmp(x, y) != Greater && cmp(y, z) != Greater
      ensures cmp(x, z) != Greater && (cmp(x, z) == Equal ==> cmp(x, y) == Equal && cmp(y, z) == Equal)
    {
      KeysTrans(lib, ascs, x.key, y.key, z.key);
    }
  }

  /** The rows of src with the values of their sort keys. */
  ghost predicate AreKeyed(ctx: Ctx, keys: seq<SortKey>, rows: seq<Row>, keyed: seq<Keyed>) {
    && |keyed| == |rows|
    && forall i :: 0 <= i < |rows| ==> IsKeyed(ctx, keys, rows[i], keyed[i])
  }

  predicate IsKeyed(ctx: Ctx, keys: seq<SortKey>, row: Row, k: Keyed) {
    k.row == row && |k.key| == |keys| && forall n :: 0 <= n < |keys| ==> EvalOn(ctx, keys[n].expr, row) == Ok(k.key[n])
  }

  lemma {:induction false} KeyAllMeaning(ctx: Ctx, keys: seq<SortKey>, rows: seq<Row>)
    ensures KeyAll(ctx, keys, rows).Ok? ==> AreKeyed(ctx, keys, rows, KeyAll(ctx, keys, rows).value)
    ensures KeyAll(ctx, keys, rows).Err? ==>
              exists i, n :: 0 <= i < |rows| && 0 <= n < |keys| && EvalOn(ctx, keys[n].expr, rows[i]) == Err(KeyAll(ctx, keys, rows).error)
  {
    hide Eval, EvalAll;
    if rows != [] {
      KeyAllMeaning(ctx, keys, rows[1..]);
      EvalAllMeaning(KeyExprs(keys), Env(ctx.lib, rows[0].values, rows[0].id, ctx.params));
      var r := KeyAll(ctx, keys, rows);
      if r.Ok? {
        forall i | 0 <= i < |rows|
          ensures IsKeyed(ctx, keys, rows[i], r.value[i])
        {
          assert i > 0 ==> rows[i] == rows[1..][i - 1] && r.value[i] == r.value[1..][i - 1];
        }
      }
    }
  }

  /** What a sorted query yields: the rows of its input, ordered by the values of the key expressions on them, each
      key in the direction written beside it. */
  lemma SortedQuery(ctx: Ctx, input: Plan, keys: seq<SortKey>) returns (keyed: seq<Keyed>, sorted: seq<Keyed>)
    requires FloatsOrdered(ctx.lib)
    ensures var src, out := Denote(ctx, input), Denote(ctx, OrderBy(input, keys));
            && (src.error.Some? ==> out == Out([], src.error))
            && (src.error.None? && out.error.None? ==>
                  && AreKeyed(ctx, keys, src.rows, keyed)
                  && |sorted| == |out.rows| && (forall i :: 0 <= i < |sorted| ==> out.rows[i] == sorted[i].row)
                  && ((forall k :: k in keyed ==> AllPlain(ctx.lib, k.key)) ==>
                        OrderedBy(ctx.lib, seq(|keys|, n requires 0 <= n < |keys| => keys[n].asc), keyed, sorted)))
            && (src.error.None? && out.error.Some? ==>
                  out.rows == [] && exists i, n :: 0 <= i < |src.rows| && 0 <= n < |keys|
                                                   && EvalOn(ctx, keys[n].expr, src.rows[i]) == Err(out.error.value))
  {
    hide Eval, KeyAll, OrderedBy, CompareKeys, FloatsOrdered, AllPlain, Sort, EvalOn, IsKeyed;
    var src := Denote(ctx, input);
    keyed, sorted := [], [];
    KeyAllMeaning(ctx, keys, src.rows);
    if src.error.None? && KeyAll(ctx, keys, src.rows).Ok? {
      keyed := KeyAll(ctx, keys, src.rows).value;
      sorted := Sort(CompareKeyed(ctx.lib, Directions(keys)), keyed);
      assert Directions(keys) == seq(|keys|, n requires 0 <= n < |keys| => keys[n].asc);
      if forall k :: k in keyed ==> AllPlain(ctx.lib, k.key) {
        KeyedWidth(ctx, keys, src.rows, keyed);
        OrderByMeaning(ctx.lib, Directions(keys), keyed, sorted);
      }
    }
  }

  lemma KeyedWidth(ctx: Ctx, keys: seq<SortKey>, rows: seq<Row>, keyed: seq<Keyed>)
    requires AreKeyed(ctx, keys, rows, keyed) && forall k :: k in keyed ==> AllPlain(ctx.lib, k.key)
    ensures forall k :: k in keyed ==> PlainKey(ctx.lib, |Directions(keys)|, k)
  {
    hide AllPlain, EvalOn;
    forall k | k in keyed
      ensures PlainKey(ctx.lib, |Directions(keys)|, k)
    {
      var i :| 0 <= i < |keyed| && keyed[i] == k;
      assert IsKeyed(ctx, keys, rows[i], keyed[i]);
    }
  }
}
