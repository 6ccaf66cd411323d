/** What the operators of a plan yield, row by row and column by column. */
module PlanMeanings {
  import opened Common
  import opened Varint
  import opened Values
  import opened Evaluation
  import opened Orders
  import opened Plans
  import opened EvalLaws
  import opened PlanLaws
  import opened Sorting

  // ---- conditions ----

  /** A row satisfies a condition if its value there is true: not NULL, and not false. */
  lemma HoldsMeaning(ctx: Ctx, p: Option<Expr>, row: Row)
    ensures p == None ==> Holds(ctx, p, row) == Ok(true)
    ensures p.Some? && EvalOn(ctx, p.value, row).Err? ==> Holds(ctx, p, row) == Err(EvalOn(ctx, p.value, row).error)
    ensures p.Some? && EvalOn(ctx, p.value, row).Ok? ==> Holds(ctx, p, row) == Ok(IsTrue(ctx.lib, EvalOn(ctx, p.value, row).value))
  {
    hide Eval, IsTruthy, IsTrue;
    if p.Some? && EvalOn(ctx, p.value, row).Ok? {
      TruthMeaning(ctx.lib, EvalOn(ctx, p.value, row).value);
    }
  }

  /** Places in ascending order, all before end. */
  predicate Places(at: seq<nat>, end: nat) {
    && (forall i :: 0 <= i < |at| ==> at[i] < end)
    && forall i, j :: 0 <= i < j < |at| ==> at[i] < at[j]
  }

  /** The rows of one list that another picks. */
  predicate Picks(rows: seq<Row>, from: seq<Row>, at: seq<nat>) {
    |rows| == |at| && Places(at, |from|) && forall i :: 0 <= i < |at| ==> rows[i] == from[at[i]]
  }

  /** Up to a place the condition evaluates, and exactly the rows on which it is true are picked. */
  ghost predicate KeptExactly(ctx: Ctx, p: Expr, rows: seq<Row>, at: seq<nat>, end: nat) {
    && end <= |rows| && Places(at, end)
    && forall j :: 0 <= j < end ==> EvalOn(ctx, p, rows[j]).Ok? && (j in at <==> IsTrue(ctx.lib, EvalOn(ctx, p, rows[j]).value))
  }

  /** WHERE keeps, in order, the rows on which the condition is true, up to the first on which it fails. */
  lemma {:induction false} FilterMeaning(ctx: Ctx, p: Expr, src: Out) returns (at: seq<nat>, end: nat)
    ensures Picks(FilterOut(ctx, p, src).rows, src.rows, at) && KeptExactly(ctx, p, src.rows, at, end)
    ensures if end == |src.rows| then FilterOut(ctx, p, src).error == src.error
            else FilterOut(ctx, p, src).error.Some? && EvalOn(ctx, p, src.rows[end]) == Err(FilterOut(ctx, p, src).error.value)
    decreases |src.rows|
  {
    hide EvalOn, IsTrue, Holds, Picks, KeptExactly;
    at, end := [], 0;
    KeptNone(ctx, p, src.rows);
    if src.rows != [] {
      HoldsMeaning(ctx, Some(p), src.rows[0]);
      if Holds(ctx, Some(p), src.rows[0]).Ok? {
        var keep := Holds(ctx, Some(p), src.rows[0]).value;
        var at', end' := FilterMeaning(ctx, p, Tail(src));
        at, end := Later(keep, at'), end' + 1;
        PicksLater(FilterOut(ctx, p, Tail(src)).rows, src.rows, keep, at');
        KeptLater(ctx, p, src.rows, keep, at', end');
        assert Tail(src).rows == src.rows[1..] && FilterOut(ctx, p, src).error == FilterOut(ctx, p, Tail(src)).error;
      }
    }
  }

  lemma KeptNone(ctx: Ctx, p: Expr, rows: seq<Row>)
    ensures KeptExactly(ctx, p, rows, [], 0) && Picks([], rows, [])
  {
  }

  lemma KeptLater(ctx: Ctx, p: Expr, rows: seq<Row>, keep: bool, at: seq<nat>, end: nat)
    requires rows != [] && KeptExactly(ctx, p, rows[1..], at, end)
    requires EvalOn(ctx, p, rows[0]).Ok? && keep == IsTrue(ctx.lib, EvalOn(ctx, p, rows[0]).value)
    ensures KeptExactly(ctx, p, rows, Later(keep, at), end + 1)
    ensures end <= |rows| - 1 && (end < |rows| - 1 ==> rows[end + 1] == rows[1..][end])
  {
    hide EvalOn, IsTrue, Places;
    LaterPlaces(keep, at, end);
    var at' := Later(keep, at);
    forall j | 0 <= j < end + 1
      ensures EvalOn(ctx, p, rows[j]).Ok? && (j in at' <==> IsTrue(ctx.lib, EvalOn(ctx, p, rows[j]).value))
    {
      LaterHas(keep, at, j);
      assert j > 0 ==> rows[j] == rows[1..][j - 1];
    }
  }

  /** Places counted from one earlier, with the first place if it is kept. */
  function Later(keep: bool, at: seq<nat>): (r: seq<nat>)
    ensures |r| == |at| + (if keep then 1 else 0)
    ensures forall i :: 0 <= i < |at| ==> r[i + if keep then 1 else 0] == at[i] + 1
    ensures keep ==> r[0] == 0
  {
    (if keep then [0] else []) + seq(|at|, i requires 0 <= i < |at| => at[i] + 1)
  }

  lemma LaterPlaces(keep: bool, at: seq<nat>, end: nat)
    requires Places(at, end)
    ensures Places(Later(keep, at), end + 1)
  {
    hide Later;
    var r, k := Later(keep, at), if keep then 1 else 0;
    forall i | 0 <= i < |r|
      ensures r[i] < end + 1 && (i >= k ==> r[i] == at[i - k] + 1) && (i < k ==> r[i] == 0)
    {
      assert i >= k ==> r[(i - k) + k] == at[i - k] + 1;
    }
    forall i, j | 0 <= i < j < |r|
      ensures r[i] < r[j]
    {
      assert r[j] == at[j - k] + 1;
    }
  }

  lemma LaterHas(keep: bool, at: seq<nat>, j: nat)
    ensures j in Later(keep, at) <==> if j == 0 then keep else j - 1 in at
  {
    var r, k := Later(keep, at), if keep then 1 else 0;
    if j in r {
      var i :| 0 <= i < |r| && r[i] == j;
      assert i >= k ==> r[(i - k) + k] == at[i - k] + 1;
    }
    if j > 0 && j - 1 in at {
      var i :| 0 <= i < |at| && at[i] == j - 1;
      assert r[i + k] == j;
    }
  }

  lemma PicksLater(rows: seq<Row>, from: seq<Row>, keep: bool, at: seq<nat>)
    requires from != [] && Picks(rows, from[1..], at)
    ensures Picks(if keep then [from[0]] + rows else rows, from, Later(keep, at))
  {
    var r, k := Later(keep, at), if keep then 1 else 0;
    LaterPlaces(keep, at, |from| - 1);
    var rows' := if keep then [from[0]] + rows else rows;
    forall i | 0 <= i < |r|
      ensures rows'[i] == from[r[i]]
    {
      assert i >= k ==> r[(i - k) + k] == at[i - k] + 1 && rows'[i] == rows[i - k] == from[1..][at[i - k]];
    }
  }

  /** SELECT: column c of each row is the value of the c-th expression on the row it comes from, up to the first row
      on which one fails. */
  lemma {:induction false} ProjectMeaning(ctx: Ctx, exprs: seq<Expr>, src: Out)
    ensures var out := ProjectOut(ctx, exprs, src);
            && |out.rows| <= |src.rows|
            && (forall j :: 0 <= j < |out.rows| ==> IsProjected(ctx, exprs, src.rows[j], out.rows[j]))
            && if |out.rows| == |src.rows| then out.error == src.error
               else out.error.Some? && exists c :: 0 <= c < |exprs| && EvalOn(ctx, exprs[c], src.rows[|out.rows|]) == Err(out.error.value)
    decreases |src.rows|
  {
    hide Eval;
    if src.rows != [] {
      var row := src.rows[0];
      EvalAllMeaning(exprs, Env(ctx.lib, row.values, row.id, ctx.params));
      if Projected(ctx, exprs, row).Ok? {
        var rest := ProjectOut(ctx, exprs, Tail(src));
        ProjectMeaning(ctx, exprs, Tail(src));
        var out := ProjectOut(ctx, exprs, src);
        forall j | 0 <= j < |out.rows|
          ensures IsProjected(ctx, exprs, src.rows[j], out.rows[j])
        {
          assert j > 0 ==> src.rows[j] == Tail(src).rows[j - 1] && out.rows[j] == rest.rows[j - 1];
        }
        if |rest.rows| < |Tail(src).rows| {
          assert src.rows[|out.rows|] == Tail(src).rows[|rest.rows|];
        }
      }
    }
  }

  predicate IsProjected(ctx: Ctx, exprs: seq<Expr>, from: Row, row: Row) {
    row.id == from.id && |row.values| == |exprs| && forall c :: 0 <= c < |exprs| ==> EvalOn(ctx, exprs[c], from) == Ok(row.values[c])
  }

  // ---- joins ----

  /** The columns of a joined row: those of the left row, then those of the right one. */
  lemma CombinedMeaning(l: Row, r: Row, c: nat)
    ensures Combined(l, r).id == l.id && |Combined(l, r).values| == |l.values| + |r.values|
    ensures c < |l.values| ==> Combined(l, r).values[c] == l.values[c]
    ensures |l.values| <= c < |l.values| + |r.values| ==> Combined(l, r).values[c] == r.values[c - |l.values|]
  {
  }

  /** Those of a padded row: the left row's, then NULLs. */
  lemma PaddedMeaning(l: Row, n: nat, c: nat)
    ensures Padded(l, n).id == l.id && |Padded(l, n).values| == |l.values| + n
    ensures c < |l.values| ==> Padded(l, n).values[c] == l.values[c]
    ensures |l.values| <= c < |l.values| + n ==> Padded(l, n).values[c] == Null
  {
  }

  /** The right rows from idx to end that join are those at the places, which lie in this range. */
  ghost predicate JoinedAt(ctx: Ctx, p: Option<Expr>, l: Row, right: seq<Row>, idx: nat, at: seq<nat>, end: nat) {
    && idx <= end <= |right| && Places(at, end) && (forall i :: 0 <= i < |at| ==> idx <= at[i])
    && forall j :: idx <= j < end ==> Joins(ctx, p, l, right[j]) == Ok(j in at)
  }

  /** The rows are the left row combined with the right rows at the places. */
  predicate CombinedWith(l: Row, right: seq<Row>, rows: seq<Row>, at: seq<nat>) {
    |rows| == |at| && forall i :: 0 <= i < |at| ==> at[i] < |right| && rows[i] == Combined(l, right[at[i]])
  }

  /** The rows a left row joins with, in the order of the right side, up to the first pair on which the condition
      fails. */
  lemma {:induction false} MatchesMeaning(ctx: Ctx, p: Option<Expr>, l: Row, right: seq<Row>, idx: nat) returns (at: seq<nat>, end: nat)
    requires idx <= |right|
    ensures JoinedAt(ctx, p, l, right, idx, at, end) && CombinedWith(l, right, Matches(ctx, p, l, right, idx).rows, at)
    ensures if end == |right| then Matches(ctx, p, l, right, idx).error == None
            else && Matches(ctx, p, l, right, idx).error.Some? && end < |right|
                 && Joins(ctx, p, l, right[end]) == Err(Matches(ctx, p, l, right, idx).error.value)
    decreases |right| - idx
  {
    hide EvalOn, Holds, Combined, JoinedAt, CombinedWith, Joins;
    at, end := [], idx;
    JoinsNone(ctx, p, l, right, idx);
    if idx < |right| {
      JoinsIs(ctx, p, l, right[idx]);
      if Holds(ctx, p, Combined(l, right[idx])).Ok? {
        var rest := Matches(ctx, p, l, right, idx + 1).rows;
        at, end := MatchesMeaning(ctx, p, l, right, idx + 1);
        JoinsNext(ctx, p, l, right, idx, rest, at, end);
        if Holds(ctx, p, Combined(l, right[idx])).value {
          at := [idx] + at;
        }
      }
    }
  }

  lemma JoinsNone(ctx: Ctx, p: Option<Expr>, l: Row, right: seq<Row>, idx: nat)
    requires idx <= |right|
    ensures JoinedAt(ctx, p, l, right, idx, [], idx) && CombinedWith(l, right, [], [])
  {
  }

  lemma JoinsNext(ctx: Ctx, p: Option<Expr>, l: Row, right: seq<Row>, idx: nat, rows: seq<Row>, at: seq<nat>, end: nat)
    requires idx < |right| && JoinedAt(ctx, p, l, right, idx + 1, at, end) && CombinedWith(l, right, rows, at)
    ensures end <= |right|
    ensures Joins(ctx, p, l, right[idx]) == Ok(false) ==> JoinedAt(ctx, p, l, right, idx, at, end)
    ensures Joins(ctx, p, l, right[idx]) == Ok(true) ==> JoinedAt(ctx, p, l, right, idx, [idx] + at, end)
    ensures CombinedWith(l, right, [Combined(l, right[idx])] + rows, [idx] + at)
  {
    hide Joins, Combined, Places, CombinedWith;
    InAfter(idx, at);
    PlacesAfter(idx, at, end);
    CombinedAfter(l, right, idx, rows, at);
  }

  lemma PlacesAfter(first: nat, at: seq<nat>, end: nat)
    requires Places(at, end) && first < end && forall i :: 0 <= i < |at| ==> first < at[i]
    ensures Places([first] + at, end) && forall i :: 0 <= i < |[first] + at| ==> first <= ([first] + at)[i]
  {
  }

  lemma CombinedAfter(l: Row, right: seq<Row>, idx: nat, rows: seq<Row>, at: seq<nat>)
    requires idx < |right| && CombinedWith(l, right, rows, at)
    ensures CombinedWith(l, right, [Combined(l, right[idx])] + rows, [idx] + at)
  {
    hide Combined;
  }

  lemma InAfter(first: nat, at: seq<nat>)
    ensures forall j: nat :: j in [first] + at <==> j == first || j in at
  {
  }

  /** Whether two rows join: without a condition always, and else if it is true on the joined row. */
  ghost function Joins(ctx: Ctx, p: Option<Expr>, l: Row, r: Row): Result<bool> {
    match p
    case None => Ok(true)
    case Some(e) =>
      match EvalOn(ctx, e, Combined(l, r))
      case Err(x) => Err(x)
      case Ok(v) => Ok(IsTrue(ctx.lib, v))
  }

  lemma JoinsIs(ctx: Ctx, p: Option<Expr>, l: Row, r: Row)
    ensures Joins(ctx, p, l, r) == Holds(ctx, p, Combined(l, r))
  {
    hide EvalOn, Combined, IsTrue;
    HoldsMeaning(ctx, p, Combined(l, r));
  }

  // ---- limits, sets, duplicates ----

  /** LIMIT and OFFSET by places; the input's error is not met if the limit is reached before. */
  lemma LimitMeaning(limit: Option<nat>, offset: nat, src: Out)
    ensures var out := LimitOut(limit, offset, src);
            && (forall i :: 0 <= i < |out.rows| ==> offset + i < |src.rows| && out.rows[i] == src.rows[offset + i])
            && (limit.Some? ==> |out.rows| <= limit.value)
            && (if limit.Some? && offset + limit.value <= |src.rows| then |out.rows| == limit.value && out.error == None
                else |out.rows| == (if offset <= |src.rows| then |src.rows| - offset else 0) && out.error == src.error)
  {
  }

  /** UNION ALL is the rows of the left side, then those of the right; the left side's error comes first, and an error
      leaves no row. */
  lemma UnionAllMeaning(lib: Lib, kind: SetKind, all: bool, l: Out, r: Out)
    ensures l.error.None? && r.error.None? ==>
              var out := SetOut(lib, Union, true, l, r);
              && out.error == None && |out.rows| == |l.rows| + |r.rows|
              && (forall i :: 0 <= i < |l.rows| ==> out.rows[i] == l.rows[i])
              && forall i :: 0 <= i < |r.rows| ==> out.rows[|l.rows| + i] == r.rows[i]
    ensures l.error.Some? ==> SetOut(lib, kind, all, l, r) == Out([], l.error)
    ensures l.error.None? && r.error.Some? ==> SetOut(lib, kind, all, l, r) == Out([], r.error)
  {
  }

  /** Rows are duplicates if in every column both are NULL, or neither is and they are equal. */
  lemma {:induction false} RowsEqMeaning(lib: Lib, a: seq<Value>, b: seq<Value>)
    ensures RowsEq(lib, a, b) <==>
            |a| == |b| && forall c :: 0 <= c < |a| ==> (a[c] == Null && b[c] == Null) || (a[c] != Null && b[c] != Null && Alike(lib, a[c], b[c]))
  {
    hide Compare, Alike;
    if a != [] && b != [] {
      RowsEqMeaning(lib, a[1..], b[1..]);
      EqualIs(lib, a[0], b[0]);
      if |a| == |b| && forall c :: 0 <= c < |a| ==> (a[c] == Null && b[c] == Null) || (a[c] != Null && b[c] != Null && Alike(lib, a[c], b[c])) {
        forall c | 0 <= c < |a[1..]|
          ensures (a[1..][c] == Null && b[1..][c] == Null) || (a[1..][c] != Null && b[1..][c] != Null && Alike(lib, a[1..][c], b[1..][c]))
        {
          assert a[1..][c] == a[c + 1] && b[1..][c] == b[c + 1];
        }
      }
      if RowsEq(lib, a, b) {
        forall c | 0 <= c < |a|
          ensures (a[c] == Null && b[c] == Null) || (a[c] != Null && b[c] != Null && Alike(lib, a[c], b[c]))
        {
          assert c > 0 ==> a[c] == a[1..][c - 1] && b[c] == b[1..][c - 1];
        }
      }
    }
  }

  /** Row i equals no row picked before it. */
  predicate NonePicked(lib: Lib, rows: seq<Row>, at: seq<nat>, i: nat)
    requires i < |rows| && forall k :: 0 <= k < |at| ==> at[k] < |rows|
  {
    forall k :: 0 <= k < |at| && at[k] < i ==> !RowsEq(lib, rows[at[k]].values, rows[i].values)
  }

  /** DISTINCT keeps, in order, exactly the rows that equal no row kept before, and none seen earlier. */
  lemma {:induction false} DistinctMeaning(lib: Lib, seen: seq<seq<Value>>, src: Out) returns (at: seq<nat>)
    ensures DistinctOut(lib, seen, src).error == src.error && Picks(DistinctOut(lib, seen, src).rows, src.rows, at)
    ensures forall i :: 0 <= i < |src.rows| ==> (i in at <==> !Seen(lib, seen, src.rows[i].values) && NonePicked(lib, src.rows, at, i))
    decreases |src.rows|
  {
    hide RowsEq, Seen, NonePicked, Picks;
    at := [];
    PicksPlaces(DistinctOut(lib, seen, src).rows, src.rows);
    if src.rows != [] {
      var keep := !Seen(lib, seen, src.rows[0].values);
      var seen' := if keep then seen + [src.rows[0].values] else seen;
      var at' := DistinctMeaning(lib, seen', Tail(src));
      at := Later(keep, at');
      PicksLater(DistinctOut(lib, seen', Tail(src)).rows, src.rows, keep, at');
      PicksPlaces(DistinctOut(lib, seen, src).rows, src.rows);
      forall i | 0 <= i < |src.rows|
        ensures i in at <==> !Seen(lib, seen, src.rows[i].values) && NonePicked(lib, src.rows, at, i)
      {
        DistinctPlace(lib, seen, src.rows, keep, at', i);
        assert i > 0 ==> src.rows[i] == Tail(src).rows[i - 1];
      }
    }
  }

  lemma PicksPlaces(rows: seq<Row>, from: seq<Row>)
    ensures forall at :: Picks(rows, from, at) ==> |at| == |rows| && Places(at, |from|)
    ensures Picks([], from, [])
  {
  }

  lemma DistinctPlace(lib: Lib, seen: seq<seq<Value>>, rows: seq<Row>, keep: bool, at: seq<nat>, i: nat)
    requires i < |rows| && Places(at, |rows| - 1) && keep == !Seen(lib, seen, rows[0].values)
    requires var seen' := if keep then seen + [rows[0].values] else seen;
             i > 0 ==> (i - 1 in at <==> !Seen(lib, seen', rows[i].values) && NonePicked(lib, rows[1..], at, i - 1))
    ensures Places(Later(keep, at), |rows|)
    ensures i in Later(keep, at) <==> !Seen(lib, seen, rows[i].values) && NonePicked(lib, rows, Later(keep, at), i)
  {
    hide RowsEq, Seen, NonePicked, Later;
    LaterPlaces(keep, at, |rows| - 1);
    LaterHas(keep, at, i);
    NoneLater(lib, rows, keep, at, i);
    SeenMore(lib, seen, rows[0].values, rows[i].values);
  }

  lemma NoneLater(lib: Lib, rows: seq<Row>, keep: bool, at: seq<nat>, i: nat)
    requires i < |rows| && Places(at, |rows| - 1) && Places(Later(keep, at), |rows|)
    ensures i == 0 ==> NonePicked(lib, rows, Later(keep, at), i)
    ensures i > 0 ==> (NonePicked(lib, rows, Later(keep, at), i) <==>
                       NonePicked(lib, rows[1..], at, i - 1) && (keep ==> !RowsEq(lib, rows[0].values, rows[i].values)))
  {
    hide RowsEq, Later;
    if i > 0 {
      var r, k0 := Later(keep, at), if keep then 1 else 0;
      if NonePicked(lib, rows, r, i) {
        forall k | 0 <= k < |at| && at[k] < i - 1
          ensures !RowsEq(lib, rows[1..][at[k]].values, rows[1..][i - 1].values)
        {
          assert r[k + k0] == at[k] + 1;
        }
        assert keep ==> r[0] == 0;
      }
      if NonePicked(lib, rows[1..], at, i - 1) && (keep ==> !RowsEq(lib, rows[0].values, rows[i].values)) {
        forall k | 0 <= k < |r| && r[k] < i
          ensures !RowsEq(lib, rows[r[k]].values, rows[i].values)
        {
          assert k >= k0 ==> r[(k - k0) + k0] == at[k - k0] + 1 && rows[1..][at[k - k0]] == rows[r[k]];
        }
      }
    }
  }

  /** A row that equals none before it. */
  predicate FirstOf(lib: Lib, rows: seq<Row>, i: nat)
    requires i < |rows|
  {
    forall j :: 0 <= j < i ==> !RowsEq(lib, rows[j].values, rows[i].values)
  }

  /** Every row kept by DISTINCT is the first of those equal to it. */
  lemma DistinctFirst(lib: Lib, rows: seq<Row>, k: nat) returns (i: nat)
    requires FloatsOrdered(lib) && AllPlainRows(lib, rows) && k < |DistinctOut(lib, [], Out(rows, None)).rows|
    ensures i < |rows| && rows[i] == DistinctOut(lib, [], Out(rows, None)).rows[k] && FirstOf(lib, rows, i)
  {
    hide RowsEq, FloatsOrdered, PlainRow, DistinctOut;
    var at := DistinctMeaning(lib, [], Out(rows, None));
    i := at[k];
    forall j | 0 <= j < i
      ensures !RowsEq(lib, rows[j].values, rows[i].values)
    {
      if RowsEq(lib, rows[j].values, rows[i].values) {
        assert !(j in at);
        var n :| 0 <= n < |at| && at[n] < j && RowsEq(lib, rows[at[n]].values, rows[j].values);
        RowsEqTrans(lib, rows[at[n]], rows[j], rows[i]);
        assert false;
      }
    }
  }

  /** The first of the kept rows equal to each other was the first of all rows equal to it. */
  lemma {:induction false} KeepFirst(lib: Lib, rows: seq<Row>, others: seq<Row>, present: bool, i: nat) returns (m: nat)
    requires FloatsOrdered(lib) && AllPlainRows(lib, rows) && AllPlainRows(lib, others)
    requires i < |Keep(lib, rows, others, present)| && FirstOf(lib, Keep(lib, rows, others, present), i)
    ensures m < |rows| && rows[m] == Keep(lib, rows, others, present)[i] && FirstOf(lib, rows, m)
  {
    hide RowsEq, FloatsOrdered, PlainRow, Occurs;
    var kept, rest := Keep(lib, rows, others, present), Keep(lib, rows[1..], others, present);
    if Occurs(lib, others, rows[0]) == present {
      m := 0;
      if i > 0 {
        assert kept[i] == rest[i - 1] && kept[0] == rows[0] && forall j :: 0 <= j < i - 1 ==> rest[j] == kept[j + 1];
        m := KeepFirst(lib, rows[1..], others, present, i - 1);
        m := m + 1;
      }
    } else {
      m := KeepFirst(lib, rows[1..], others, present, i);
      KeepExact(lib, rows, others, present, kept[i]);
      if RowsEq(lib, rows[0].values, kept[i].values) {
        HasSame(lib, others, rows[0], kept[i]);
        OccursHas(lib, others, rows[0]);
        OccursHas(lib, others, kept[i]);
        assert false;
      }
      m := m + 1;
    }
    forall j | 0 <= j < m
      ensures !RowsEq(lib, rows[j].values, rows[m].values)
    {
      assert j > 0 ==> rows[j] == rows[1..][j - 1];
    }
  }

  /** The rows of UNION are rows of the left side followed by the right, those of INTERSECT and EXCEPT rows of the
      left side; each is the first of those equal to it. */
  lemma SetFirst(lib: Lib, kind: SetKind, l: seq<Row>, r: seq<Row>, row: Row) returns (i: nat)
    requires FloatsOrdered(lib) && AllPlainRows(lib, l) && AllPlainRows(lib, r) && row in SetRows(lib, kind, false, l, r)
    ensures var src := if kind == Union then l + r else l;
            i < |src| && src[i] == row && FirstOf(lib, src, i)
  {
    hide RowsEq, FloatsOrdered, PlainRow, Occurs, Sort, DistinctOut, Keep, FirstOf;
    var all := match kind
               case Union => l + r
               case Intersect => Keep(lib, l, r, true)
               case Except => Keep(lib, l, r, false);
    forall k: Row
      ensures k in all ==> PlainRow(lib, k)
    {
      KeepExact(lib, l, r, true, k);
      KeepExact(lib, l, r, false, k);
    }
    var d := DistinctOut(lib, [], Out(all, None)).rows;
    SortHas(CompareRows(lib), d, row);
    var k :| 0 <= k < |d| && d[k] == row;
    i := DistinctFirst(lib, all, k);
    if kind != Union {
      i := KeepFirst(lib, l, r, kind == Intersect, i);
    }
  }
}
