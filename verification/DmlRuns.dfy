/** Statements over a table: every run of them keeps it consistent. */
module DmlRuns {
  import opened Common
  import opened Varint
  import opened Values
  import opened Evaluation
  import Records
  import opened Dml
  import opened KVs = Table
  import Trees
  import BTrees
  import LeafPages
  import Overflow
  import Cursors
  import Deletion
  import opened TableRows

  /** The rows of a table and its tree. */
  datatype State = State(rows: Rows, tree: Trees.Tree)

  /** The records of the tree are those of the rows. */
  ghost predicate Agrees(t: Table, at: State) {
    Ascending(Trees.Flat(at.tree)) && Encodes(t.utf8, Trees.Flat(at.tree), at.rows)
  }

  lemma AgreesIs(t: Table)
    requires t.Sound()
    ensures Agrees(t, State(t.rows, t.tree))
  {
    hide *;
    t.SoundParts();
    AgreesBoth(t, t.rows, t.tree);
  }

  lemma WreckAgrees(t: Table)
    requires t.Wrecked()
    ensures Agrees(t, State(t.rows, t.tree)) && SchemaOk(t.schema)
  {
    hide BTrees.Spoilt, BTrees.Misread, Ascending, Encodes;
  }

  lemma AgreesBoth(t: Table, rows: Rows, tree: Trees.Tree)
    requires Ascending(Trees.Flat(tree)) && Encodes(t.utf8, Trees.Flat(tree), rows)
    ensures Agrees(t, State(rows, tree))
  {
  }

  /** The new value of one column. */
  datatype Assignment = Assignment(column: nat, expr: Expr)

  /** A row as statements see it: the alias column shows the rowid. */
  function Shown(s: Schema, k: i64, stored: seq<Value>): (r: seq<Value>)
    ensures |r| == |stored|
  {
    WithAlias(s, stored, Integer(k))
  }

  datatype Condition = Condition(expr: Option<Expr>, params: seq<Value>)

  function Meets(lib: Lib, s: Schema, cond: Condition, k: i64, stored: seq<Value>): Result<bool> {
    match cond.expr
    case None => Ok(true)
    case Some(e) =>
      match Eval(e, Env(lib, Shown(s, k, stored), k, cond.params))
      case Err(x) => Err(x)
      case Ok(v) => Ok(IsTruthy(lib, v))
  }

  /** What an assignment gives on a row: its expression evaluated there, and coerced. */
  function NewValue(t: Table, a: Assignment, row: seq<Value>, rowid: i64, params: seq<Value>): Result<Value> {
    match Eval(a.expr, Env(t.lib, row, rowid, params))
    case Err(x) => Err(x)
    case Ok(v) => t.coerce(v, a.column)
  }

  /** An assignment to the alias column. */
  predicate ToAlias(t: Table, a: Assignment) {
    t.schema.alias == Some(a.column)
  }

  /** One assignment leads from a row to the next: its column holds what it gives on the row, which must be a number
      in the alias column, and the others are as they were. */
  predicate Leads(t: Table, a: Assignment, row: seq<Value>, row': seq<Value>, rowid: i64, params: seq<Value>) {
    && |row'| == |row| && a.column < |row|
    && NewValue(t, a, row, rowid, params) == Ok(row'[a.column])
    && (ToAlias(t, a) ==> AsI64(t.lib, row'[a.column]).Some?)
    && forall c :: 0 <= c < |row| && c != a.column ==> row'[c] == row[c]
  }

  /** The rows that the first assignments lead through. */
  predicate LeadsThrough(t: Table, values: seq<Value>, rowid: i64, assigns: seq<Assignment>, params: seq<Value>, steps: seq<seq<Value>>) {
    && 0 < |steps| <= |assigns| + 1 && steps[0] == values
    && forall i :: 0 <= i < |steps| - 1 ==> Leads(t, assigns[i], steps[i], steps[i + 1], rowid, params)
  }

  /** Of the first n assignments, the i-th is the last one to the alias column. */
  predicate LastToAlias(t: Table, assigns: seq<Assignment>, n: nat, i: nat)
    requires n <= |assigns|
  {
    i < n && ToAlias(t, assigns[i]) && forall j :: i < j < n ==> !ToAlias(t, assigns[j])
  }

  /** The rowid is the number last given to the alias column, and the old one if none was. */
  predicate KeyGiven(t: Table, rowid: i64, assigns: seq<Assignment>, steps: seq<seq<Value>>, key: i64) {
    && 0 < |steps| <= |assigns| + 1
    && (forall i {:trigger LastToAlias(t, assigns, |steps| - 1, i)} :: 0 <= i < |steps| - 1 && LastToAlias(t, assigns, |steps| - 1, i) ==>
          assigns[i].column < |steps[i + 1]| && AsI64(t.lib, steps[i + 1][assigns[i].column]) == Some(key))
    && ((forall i :: 0 <= i < |steps| - 1 ==> !ToAlias(t, assigns[i])) ==> key == rowid)
  }

  /** An assignment fails on a row. */
  predicate FailsOn(t: Table, a: Assignment, row: seq<Value>, rowid: i64, params: seq<Value>, x: Error) {
    match NewValue(t, a, row, rowid, params)
    case Err(y) => x == y
    case Ok(w) => ToAlias(t, a) && AsI64(t.lib, w).None? && x == NonNumeric
  }

  /** A match with all its assignments done. */
  ghost predicate IsAssigned(t: Table, m: Match, assigns: seq<Assignment>, params: seq<Value>, to: Match) {
    exists steps :: LeadsThrough(t, m.values, m.key, assigns, params, steps) && |steps| == |assigns| + 1
                    && to.values == steps[|assigns|] && KeyGiven(t, m.key, assigns, steps, to.key)
  }

  /** The first assignment that fails does so with error x. */
  ghost predicate AssignFails(t: Table, m: Match, assigns: seq<Assignment>, params: seq<Value>, x: Error) {
    exists steps :: LeadsThrough(t, m.values, m.key, assigns, params, steps) && |steps| <= |assigns|
                    && FailsOn(t, assigns[|steps| - 1], steps[|steps| - 1], m.key, params, x)
  }

  lemma StepsNext(t: Table, values: seq<Value>, rowid: i64, assigns: seq<Assignment>, params: seq<Value>, steps: seq<seq<Value>>,
                  row: seq<Value>)
    requires LeadsThrough(t, values, rowid, assigns, params, steps) && |steps| <= |assigns|
    requires Leads(t, assigns[|steps| - 1], steps[|steps| - 1], row, rowid, params)
    ensures LeadsThrough(t, values, rowid, assigns, params, steps + [row])
  {
    hide Leads;
    var steps' := steps + [row];
    forall i | 0 <= i < |steps'| - 1
      ensures Leads(t, assigns[i], steps'[i], steps'[i + 1], rowid, params)
    {
      assert i < |steps| - 1 ==> Leads(t, assigns[i], steps[i], steps[i + 1], rowid, params);
    }
  }

  lemma KeyNext(t: Table, rowid: i64, assigns: seq<Assignment>, params: seq<Value>, steps: seq<seq<Value>>, key: i64,
                row: seq<Value>, key': i64)
    requires KeyGiven(t, rowid, assigns, steps, key) && |steps| <= |assigns|
    requires Leads(t, assigns[|steps| - 1], steps[|steps| - 1], row, rowid, params)
    requires if ToAlias(t, assigns[|steps| - 1])
             then assigns[|steps| - 1].column < |row| && Some(key') == AsI64(t.lib, row[assigns[|steps| - 1].column])
             else key' == key
    ensures KeyGiven(t, rowid, assigns, steps + [row], key')
  {
    hide Leads, ToAlias, AsI64;
    var steps', n := steps + [row], |steps| - 1;
    forall i: nat | i < |steps'| - 1 && LastToAlias(t, assigns, |steps'| - 1, i)
      ensures assigns[i].column < |steps'[i + 1]| && AsI64(t.lib, steps'[i + 1][assigns[i].column]) == Some(key')
    {
      if i < n {
        assert LastToAlias(t, assigns, n, i) && !ToAlias(t, assigns[n]);
        assert steps'[i + 1] == steps[i + 1];
      }
    }
  }

  lemma LeadsWidth(t: Table, a: Assignment, row: seq<Value>, row': seq<Value>, rowid: i64, params: seq<Value>)
    requires Leads(t, a, row, row', rowid, params)
    ensures |row'| == |row| && a.column < |row'|
  {
    hide NewValue, AsI64;
  }

  /** Assigns in turn, each assignment seeing the ones before it, up to the first that fails. */
  method AssignRow(t: Table, values: seq<Value>, rowid: i64, assigns: seq<Assignment>, params: seq<Value>)
    returns (r: Result<(seq<Value>, i64)>)
    requires forall i :: 0 <= i < |assigns| ==> assigns[i].column < |values|
    ensures r.Ok? ==> IsAssigned(t, Match(rowid, values), assigns, params, Match(r.value.1, r.value.0)) && |r.value.0| == |values|
    ensures r.Err? ==> AssignFails(t, Match(rowid, values), assigns, params, r.error)
  {
    hide Eval, AsI64, LeadsThrough, KeyGiven, Leads, NewValue, FailsOn, IsAssigned, AssignFails;
    var row, newRowid := values, rowid;
    ghost var steps := [values];
    StepsNone(t, values, rowid, assigns, params);
    for i := 0 to |assigns|
      invariant |row| == |values| && |steps| == i + 1 && steps[i] == row
      invariant LeadsThrough(t, values, rowid, assigns, params, steps) && KeyGiven(t, rowid, assigns, steps, newRowid)
    {
      var a := assigns[i];
      NewValueIs(t, a, row, rowid, params);
      var v := Eval(a.expr, Env(t.lib, row, rowid, params));
      if v.Err? {
        FailsAt(t, Match(rowid, values), assigns, params, steps, v.error);
        return Err(v.error);
      }
      var w := t.coerce(v.value, a.column);
      if w.Err? {
        FailsAt(t, Match(rowid, values), assigns, params, steps, w.error);
        return Err(w.error);
      }
      ghost var key := newRowid;
      if t.schema.alias == Some(a.column) {
        var k := AsI64(t.lib, w.value);
        if k.None? {
          FailsAt(t, Match(rowid, values), assigns, params, steps, NonNumeric);
          return Err(NonNumeric);
        }
        newRowid := k.value;
      }
      LeadsOn(t, a, row, rowid, params);
      row := row[a.column := w.value];
      LeadsWidth(t, a, steps[i], row, rowid, params);
      StepsNext(t, values, rowid, assigns, params, steps, row);
      KeyNext(t, rowid, assigns, params, steps, key, row, newRowid);
      steps := steps + [row];
    }
    AssignedIs(t, Match(rowid, values), assigns, params, steps, newRowid);
    return Ok((row, newRowid));
  }

  lemma StepsNone(t: Table, values: seq<Value>, rowid: i64, assigns: seq<Assignment>, params: seq<Value>)
    ensures LeadsThrough(t, values, rowid, assigns, params, [values]) && KeyGiven(t, rowid, assigns, [values], rowid)
  {
    hide AsI64, Leads;
  }

  lemma NewValueIs(t: Table, a: Assignment, row: seq<Value>, rowid: i64, params: seq<Value>)
    ensures NewValue(t, a, row, rowid, params) ==
            match Eval(a.expr, Env(t.lib, row, rowid, params))
            case Err(x) => Err(x)
            case Ok(v) => t.coerce(v, a.column)
  {
    hide Eval;
  }

  lemma LeadsOn(t: Table, a: Assignment, row: seq<Value>, rowid: i64, params: seq<Value>)
    requires a.column < |row| && NewValue(t, a, row, rowid, params).Ok?
    requires ToAlias(t, a) ==> AsI64(t.lib, NewValue(t, a, row, rowid, params).value).Some?
    ensures Leads(t, a, row, row[a.column := NewValue(t, a, row, rowid, params).value], rowid, params)
  {
    hide NewValue, AsI64;
  }

  lemma FailsAt(t: Table, m: Match, assigns: seq<Assignment>, params: seq<Value>, steps: seq<seq<Value>>, x: Error)
    requires LeadsThrough(t, m.values, m.key, assigns, params, steps) && 0 < |steps| <= |assigns|
    requires match NewValue(t, assigns[|steps| - 1], steps[|steps| - 1], m.key, params)
             case Err(y) => x == y
             case Ok(w) => ToAlias(t, assigns[|steps| - 1]) && AsI64(t.lib, w).None? && x == NonNumeric
    ensures AssignFails(t, m, assigns, params, x)
  {
    hide NewValue, AsI64, LeadsThrough;
  }

  lemma AssignedIs(t: Table, m: Match, assigns: seq<Assignment>, params: seq<Value>, steps: seq<seq<Value>>, key: i64)
    requires LeadsThrough(t, m.values, m.key, assigns, params, steps) && |steps| == |assigns| + 1
    requires KeyGiven(t, m.key, assigns, steps, key)
    ensures IsAssigned(t, m, assigns, params, Match(key, steps[|assigns|]))
  {
    hide LeadsThrough, KeyGiven;
  }

  datatype Match = Match(key: i64, values: seq<Value>)

  /** found lists, in key order, the matching rows whose keys are not in todo, which all come later. */
  ghost predicate Scanned(lib: Lib, s: Schema, rows: Rows, cond: Condition, todo: set<i64>, found: seq<Match>) {
    && (forall i :: 0 <= i < |found| ==>
          && found[i].key in rows && found[i].values == Shown(s, found[i].key, rows[found[i].key])
          && Meets(lib, s, cond, found[i].key, rows[found[i].key]) == Ok(true))
    && (forall k :: k in rows && k !in todo && Meets(lib, s, cond, k, rows[k]) == Ok(true) ==>
          exists i :: 0 <= i < |found| && found[i].key == k)
    && (forall i, j :: 0 <= i < j < |found| ==> found[i].key < found[j].key)
    && forall i, k :: 0 <= i < |found| && k in todo ==> found[i].key < k
  }

  lemma ScanStep(lib: Lib, s: Schema, rows: Rows, cond: Condition, todo: set<i64>, found: seq<Match>, k: i64)
    requires Scanned(lib, s, rows, cond, todo, found) && todo <= rows.Keys
    requires k in todo && forall x :: x in todo ==> k <= x
    ensures var keep := Meets(lib, s, cond, k, rows[k]);
            && (keep == Ok(true) ==> Scanned(lib, s, rows, cond, todo - {k}, found + [Match(k, Shown(s, k, rows[k]))]))
            && (keep == Ok(false) ==> Scanned(lib, s, rows, cond, todo - {k}, found))
  {
    hide Meets, Shown;
    var keep := Meets(lib, s, cond, k, rows[k]);
    if keep == Ok(true) {
      var found' := found + [Match(k, Shown(s, k, rows[k]))];
      assert found'[|found|].key == k;
      forall x | x in rows && x !in todo - {k} && Meets(lib, s, cond, x, rows[x]) == Ok(true)
        ensures exists i :: 0 <= i < |found'| && found'[i].key == x
      {
        if x != k {
          var i :| 0 <= i < |found| && found[i].key == x;
          assert found'[i].key == x;
        }
      }
    }
  }

  lemma ScanStart(lib: Lib, s: Schema, rows: Rows, cond: Condition)
    ensures Scanned(lib, s, rows, cond, rows.Keys, [])
  {
  }

  /** The matching rows in key order, as they stand before the statement changes any. */
  method ScanMatching(t: Table, cond: Condition) returns (r: Result<seq<Match>>)
    requires t.Sound()
    ensures r.Ok? ==> Scanned(t.lib, t.schema, t.rows, cond, {}, r.value)
    ensures r.Err? ==> exists k :: k in t.rows && Meets(t.lib, t.schema, cond, k, t.rows[k]) == Err(r.error)
  {
    hide *;
    t.SoundParts();
    SameRange();
    ghost var rest, todo := Trees.Flat(t.tree), t.rows.Keys;
    AheadAll(t.utf8, rest, t.rows);
    Cursors.AllRowids(rest);
    var cursor := new Cursors.BTreeCursor.Seek(t.sink, t.root, MIN_I64, t.tree, t.others);
    var next := cursor.Next();
    UnreadAll(rest, next, cursor.Remaining());
    var found: seq<Match> := [];
    ScanStart(t.lib, t.schema, t.rows, cond);
    while next.Some?
      invariant cursor.Valid() && rest == Unread(next, cursor.Remaining())
      invariant Ahead(t.utf8, rest, t.rows, todo) && Scanned(t.lib, t.schema, t.rows, cond, todo, found)
      decreases |rest|
    {
      UnreadHead(next, cursor.Remaining());
      AheadNext(t.utf8, rest, t.rows, todo);
      var k: i64 := next.value.key;
      ScanStep(t.lib, t.schema, t.rows, cond, todo, found, k);
      rest, todo := rest[1..], todo - {k};
      var row := Records.DecodeRowBytes(t.utf8, next.value.value);
      var keep := Meets(t.lib, t.schema, cond, k, row.value);
      if keep.Err? {
        return Err(keep.error);
      }
      if keep.value {
        found := found + [Match(k, Shown(t.schema, k, row.value))];
      }
      next := cursor.Next();
      UnreadAll(rest, next, cursor.Remaining());
    }
    UnreadEnd(next, cursor.Remaining());
    AheadDone(t.utf8, t.rows, todo);
    return Ok(found);
  }

  /** Spoilt: the n-th update was answered as done, but laid cells over each other. */
  datatype Report = Count(n: nat) | Spoilt(n: nat) | Stopped(why: Failure)

  /** The pages are then those of the table no longer. */
  predicate Over(r: Report) {
    r.Spoilt? || (r.Stopped? && r.why.TreeFailed?)
  }

  predicate AssignsFit(s: Schema, assigns: seq<Assignment>) {
    forall j :: 0 <= j < |assigns| ==> assigns[j].column < |s.columns|
  }

  /** The first of the rows found have left their keys; in rows' each is stored with its new values under its new key,
      and all other rows are as they were. */
  ghost predicate Rewritten(s: Schema, rows: Rows, found: seq<Match>, news: seq<Match>, rows': Rows) {
    && |news| <= |found|
    && (forall i :: 0 <= i < |news| ==> news[i].key in rows' && rows'[news[i].key] == Dml.Stored(s, news[i].values))
    && (forall k :: k in rows' && !KeyIn(news, k) ==> k in rows && !KeyIn(found[..|news|], k) && rows'[k] == rows[k])
    && forall k :: k in rows && !KeyIn(found[..|news|], k) ==> k in rows'
  }

  ghost predicate KeyIn(ms: seq<Match>, k: i64) {
    exists i :: 0 <= i < |ms| && ms[i].key == k
  }

  /** The first of all matches, which the scan found, have been updated. */
  ghost predicate UpdatedSome(t: Table, rows: Rows, cond: Condition, assigns: seq<Assignment>, found: seq<Match>, news: seq<Match>, rows': Rows) {
    && |news| <= |found| && Wide(t.schema, found) && AssignsFit(t.schema, assigns)
    && Scanned(t.lib, t.schema, rows, cond, {}, found)
    && (forall i :: 0 <= i < |news| ==> IsAssigned(t, found[i], assigns, cond.params, news[i]))
    && Rewritten(t.schema, rows, found, news, rows')
  }

  /** Why one match cannot be updated. */
  ghost predicate UpdateStops(t: Table, at: State, m: Match, assigns: seq<Assignment>, params: seq<Value>, why: Failure) {
    || (why.EvalFailed? && AssignFails(t, m, assigns, params, why.error))
    || exists to {:trigger IsAssigned(t, m, assigns, params, to)} ::
         && IsAssigned(t, m, assigns, params, to)
         && UpdateRefused(why, t.lib, t.schema, at.rows, to.values, m.key, to.key)
         && (why.TreeFailed? ==> Unroomy(t.utf8, Without(at.tree, Left(m.key, to.key)), to.key, Nulled(t.schema, to.values), false))
  }

  ghost predicate ScanFails(t: Table, rows: Rows, cond: Condition, why: Failure) {
    why.EvalFailed? && exists k :: k in rows && Meets(t.lib, t.schema, cond, k, rows[k]) == Err(why.error)
  }

  /** What an UPDATE did: all matches, or those before the one that was refused. */
  ghost predicate Updated(t: Table, rows: Rows, cond: Condition, assigns: seq<Assignment>, r: Report, found: seq<Match>, news: seq<Match>, at: State) {
    match r
    case Count(c) => c == |news| == |found| && UpdatedSome(t, rows, cond, assigns, found, news, at.rows)
    case Spoilt(c) => 0 < c == |news| <= |found| && UpdatedSome(t, rows, cond, assigns, found, news, at.rows)
    case Stopped(why) =>
      || (at.rows == rows && ScanFails(t, rows, cond, why))
      || (|news| < |found| && UpdatedSome(t, rows, cond, assigns, found, news, at.rows) &&
          UpdateStops(t, at, found[|news|], assigns, cond.params, why))
  }

  /** After some updates of those found: the other rows are as they were, and those still to come are there, under
      keys that no updated row has. */
  ghost predicate Updating(t: Table, rows: Rows, cond: Condition, assigns: seq<Assignment>, found: seq<Match>, news: seq<Match>, now: Rows) {
    && UpdatedSome(t, rows, cond, assigns, found, news, now) && |now| == |rows| && Untouched(t, rows, cond, now)
    && forall j :: |news| <= j < |found| ==> found[j].key in now && !KeyIn(news, found[j].key)
  }

  /** The rows that do not match are as they were. */
  ghost predicate Untouched(t: Table, rows: Rows, cond: Condition, now: Rows) {
    forall k :: k in rows && Meets(t.lib, t.schema, cond, k, rows[k]) != Ok(true) ==> k in now && now[k] == rows[k]
  }

  /** Updates the matching rows one after another, up to the first that fails. */
  method Update(t: Table, cond: Condition, assigns: seq<Assignment>) returns (r: Report, ghost found: seq<Match>, ghost news: seq<Match>)
    requires t.Valid() && AssignsFit(t.schema, assigns)
    modifies t`tree, t`rows, t`bad, t.sink
    ensures !Over(r) ==> t.Valid()
    ensures r.Spoilt? ==> t.Wrecked()
    ensures !Over(r) || r.Spoilt? ==> Trees.Same(old(t.sink.Pages()), t.sink.Pages(), t.others)
    ensures Consistent(t.lib, t.schema, t.rows) && Agrees(t, State(t.rows, t.tree)) && |t.rows| == |old(t.rows)|
    ensures Updated(t, old(t.rows), cond, assigns, r, found, news, State(t.rows, t.tree))
    ensures Untouched(t, old(t.rows), cond, t.rows)
  {
    hide *;
    t.ValidParts();
    ghost var rows := t.rows;
    Deletion.SameSelf(t.sink.Pages(), t.others);
    AgreesIs(t);
    EndsAre();
    OverIs();
    var matching := ScanMatching(t, cond);
    found, news := [], [];
    if matching.Err? {
      UpdateUnscanned(t, cond, assigns, matching.error);
      return Stopped(EvalFailed(matching.error)), found, news;
    }
    var todo := matching.value;
    found := todo;
    UpdatingNone(t, rows, cond, assigns, todo);
    for i := 0 to |todo|
      invariant t.Valid() && Agrees(t, State(t.rows, t.tree)) && |news| == i
      invariant Trees.Same(old(t.sink.Pages()), t.sink.Pages(), t.others)
      invariant Updating(t, rows, cond, assigns, todo, news, t.rows)
    {
      t.ValidParts();
      UpdatingParts(t, rows, cond, assigns, todo, news, t.rows);
      ghost var at, view := State(t.rows, t.tree), t.sink.Pages();
      var changed := AssignRow(t, todo[i].values, todo[i].key, assigns, cond.params);
      if changed.Err? {
        UpdateFails(t, rows, cond, assigns, todo, news, at, changed.error);
        return Stopped(EvalFailed(changed.error)), found, news;
      }
      ghost var to := Match(changed.value.1, changed.value.0);
      var done := t.UpdateRow(todo[i].key, changed.value.0, changed.value.1);
      if !done.Failed? || !done.why.TreeFailed? {
        Overflow.SameTrans(old(t.sink.Pages()), view, t.sink.Pages(), t.others);
      }
      if done.Failed? {
        UpdateEnds(t, rows, cond, assigns, todo, news, at, to, done.why);
        return Stopped(done.why), found, news;
      }
      if done.Done? {
        t.ValidParts();
        AgreesIs(t);
      } else {
        WreckAgrees(t);
      }
      UpdatingNext(t, rows, cond, assigns, todo, news, at.rows, to, t.rows);
      news := news + [to];
      if done.Spoiled? {
        UpdatedTo(t, rows, cond, assigns, todo, news, State(t.rows, t.tree));
        return Spoilt(i + 1), found, news;
      }
    }
    t.ValidParts();
    UpdatedTo(t, rows, cond, assigns, todo, news, State(t.rows, t.tree));
    return Count(|todo|), found, news;
  }

  lemma OverIs()
    ensures forall r: Report :: Over(r) <==> r.Spoilt? || (r.Stopped? && r.why.TreeFailed?)
  {
  }

  lemma UpdateUnscanned(t: Table, cond: Condition, assigns: seq<Assignment>, e: Error)
    requires exists k :: k in t.rows && Meets(t.lib, t.schema, cond, k, t.rows[k]) == Err(e)
    ensures Updated(t, t.rows, cond, assigns, Stopped(EvalFailed(e)), [], [], State(t.rows, t.tree))
    ensures Untouched(t, t.rows, cond, t.rows)
  {
    hide Meets;
  }

  lemma UpdatingNone(t: Table, rows: Rows, cond: Condition, assigns: seq<Assignment>, found: seq<Match>)
    requires Consistent(t.lib, t.schema, rows) && Scanned(t.lib, t.schema, rows, cond, {}, found) && AssignsFit(t.schema, assigns)
    ensures Updating(t, rows, cond, assigns, found, [], rows)
  {
    hide Meets, Shown, IsAssigned, Consistent;
    FoundWide(t.lib, t.schema, rows, cond, found);
  }

  lemma UpdatingParts(t: Table, rows: Rows, cond: Condition, assigns: seq<Assignment>, found: seq<Match>, news: seq<Match>, now: Rows)
    requires Updating(t, rows, cond, assigns, found, news, now) && |news| < |found|
    ensures found[|news|].key in now && |found[|news|].values| == |t.schema.columns|
    ensures forall j :: 0 <= j < |assigns| ==> assigns[j].column < |found[|news|].values|
    ensures |now| == |rows| && Untouched(t, rows, cond, now)
  {
    hide Meets, IsAssigned, Rewritten, Scanned, Untouched;
  }

  lemma RewrittenNext(s: Schema, rows: Rows, found: seq<Match>, news: seq<Match>, now: Rows, to: Match, now': Rows)
    requires Rewritten(s, rows, found, news, now) && |news| < |found| && found[|news|].key in now
    requires !KeyIn(news, found[|news|].key) && (to.key != found[|news|].key ==> to.key !in now)
    requires now' == (now - {found[|news|].key})[to.key := Dml.Stored(s, to.values)]
    ensures Rewritten(s, rows, found, news + [to], now')
  {
    hide Dml.Stored;
    var news', n := news + [to], |news|;
    var gone := found[n].key;
    forall k
      ensures KeyIn(news', k) <==> KeyIn(news, k) || k == to.key
      ensures KeyIn(found[..n + 1], k) <==> KeyIn(found[..n], k) || k == gone
    {
      KeyInNext(news, to, k);
      KeyInNext(found[..n], found[n], k);
      assert found[..n + 1] == found[..n] + [found[n]];
    }
    forall i | 0 <= i < |news'|
      ensures news'[i].key in now' && now'[news'[i].key] == Dml.Stored(s, news'[i].values)
    {
      assert i < n ==> news'[i] == news[i] && KeyIn(news, news[i].key);
    }
  }

  lemma KeyInNext(ms: seq<Match>, m: Match, k: i64)
    ensures KeyIn(ms + [m], k) <==> KeyIn(ms, k) || k == m.key
  {
    var ms' := ms + [m];
    assert ms'[|ms|] == m;
    if KeyIn(ms, k) {
      var i :| 0 <= i < |ms| && ms[i].key == k;
      assert ms'[i].key == k;
    }
  }

  lemma UpdatingNext(t: Table, rows: Rows, cond: Condition, assigns: seq<Assignment>, found: seq<Match>, news: seq<Match>, now: Rows,
                     to: Match, now': Rows)
    requires Updating(t, rows, cond, assigns, found, news, now) && |news| < |found|
    requires IsAssigned(t, found[|news|], assigns, cond.params, to)
    requires to.key != found[|news|].key ==> to.key !in now
    requires now' == (now - {found[|news|].key})[to.key := Dml.Stored(t.schema, to.values)]
    ensures Updating(t, rows, cond, assigns, found, news + [to], now')
  {
    hide Meets, IsAssigned, Dml.Stored, Shown, Rewritten, KeyIn, Wide, AssignsFit;
    var n := |news|;
    RewrittenNext(t.schema, rows, found, news, now, to, now');
    SameCount(now, found[n].key, to.key, Dml.Stored(t.schema, to.values));
    forall j | n + 1 <= j < |found|
      ensures found[j].key in now' && !KeyIn(news + [to], found[j].key)
    {
      assert found[n].key < found[j].key;
      KeyInNext(news, to, found[j].key);
    }
  }

  lemma UpdateFails(t: Table, rows: Rows, cond: Condition, assigns: seq<Assignment>, found: seq<Match>, news: seq<Match>, at: State, x: Error)
    requires Updating(t, rows, cond, assigns, found, news, at.rows) && |news| < |found|
    requires AssignFails(t, found[|news|], assigns, cond.params, x)
    ensures Updated(t, rows, cond, assigns, Stopped(EvalFailed(x)), found, news, at)
  {
    hide UpdatedSome, Untouched, AssignFails, IsAssigned;
  }

  lemma UpdateEnds(t: Table, rows: Rows, cond: Condition, assigns: seq<Assignment>, found: seq<Match>, news: seq<Match>, at: State, to: Match,
                   why: Failure)
    requires Updating(t, rows, cond, assigns, found, news, at.rows) && |news| < |found|
    requires IsAssigned(t, found[|news|], assigns, cond.params, to)
    requires UpdateRefused(why, t.lib, t.schema, at.rows, to.values, found[|news|].key, to.key)
    requires why.TreeFailed? ==>
               Unroomy(t.utf8, Without(at.tree, Left(found[|news|].key, to.key)), to.key, Nulled(t.schema, to.values), false)
    ensures Updated(t, rows, cond, assigns, Stopped(why), found, news, at)
  {
    hide UpdatedSome, Untouched, IsAssigned, UpdateRefused, Unroomy, Without, Left, Nulled, AssignFails;
  }

  lemma UpdatedTo(t: Table, rows: Rows, cond: Condition, assigns: seq<Assignment>, found: seq<Match>, news: seq<Match>, at: State)
    requires Updating(t, rows, cond, assigns, found, news, at.rows) && |news| <= |found|
    ensures |news| == |found| ==> Updated(t, rows, cond, assigns, Count(|news|), found, news, at)
    ensures |news| > 0 ==> Updated(t, rows, cond, assigns, Spoilt(|news|), found, news, at)
    ensures |at.rows| == |rows| && Untouched(t, rows, cond, at.rows)
  {
    hide UpdatedSome, Untouched;
  }

  predicate Wide(s: Schema, found: seq<Match>) {
    forall i :: 0 <= i < |found| ==> |found[i].values| == |s.columns|
  }

  lemma FoundWide(lib: Lib, s: Schema, rows: Rows, cond: Condition, found: seq<Match>)
    requires Consistent(lib, s, rows) && Scanned(lib, s, rows, cond, {}, found)
    ensures Wide(s, found)
  {
    hide Meets, Shown, Unique;
  }

  lemma SameCount(rows: Rows, k: i64, k': i64, values: seq<Value>)
    requires k in rows && (k' == k || k' !in rows)
    ensures |(rows - {k})[k' := values]| == |rows|
  {
    var left := rows - {k};
    assert left.Keys == rows.Keys - {k};
    assert |left.Keys| == |rows.Keys| - 1;
    assert left[k' := values].Keys == left.Keys + {k'};
    assert |left.Keys + {k'}| == |left.Keys| + 1;
  }

  /** Deletes exactly the matching rows. */
  method Delete(t: Table, cond: Condition) returns (r: Report)
    requires t.Valid()
    modifies t`tree, t`rows, t`bad, t.sink
    ensures t.Valid() && Trees.Same(old(t.sink.Pages()), t.sink.Pages(), t.others)
    ensures Deleted(t, old(t.rows), cond, r, t.rows)
  {
    hide *;
    t.ValidParts();
    Deletion.SameSelf(t.sink.Pages(), t.others);
    var matching := ScanMatching(t, cond);
    if matching.Err? {
      ScanFailsIs(t, cond, matching.error);
      return Stopped(EvalFailed(matching.error));
    }
    var todo, count := matching.value, 0;
    ghost var rows0 := t.rows;
    assert todo[..0] == [];
    KeysOfNone(t.rows);
    for i := 0 to |todo|
      invariant t.Sound() && Consistent(t.lib, t.schema, t.rows) && count == i
      invariant Trees.Same(old(t.sink.Pages()), t.sink.Pages(), t.others)
      invariant t.rows == rows0 - KeysOf(todo[..i])
    {
      DropKeeps(t.lib, t.schema, t.rows, {todo[i].key});
      KeysOfNext(todo, i, rows0);
      StillThere(t, rows0, cond, todo, i);
      ghost var view := t.sink.Pages();
      var gone := t.DropRow(todo[i].key);
      Overflow.SameTrans(old(t.sink.Pages()), view, t.sink.Pages(), t.others);
      if gone {
        count := count + 1;
      }
    }
    assert todo[..|todo|] == todo;
    DeletedAll(t, rows0, cond, todo);
    t.ValidIs();
    return Count(count);
  }

  ghost function KeysOf(found: seq<Match>): set<i64> {
    set m | m in found :: m.key
  }

  lemma KeysOfNone(rows: Rows)
    ensures rows - KeysOf([]) == rows
  {
  }

  lemma KeysOfNext(found: seq<Match>, i: nat, rows: Rows)
    requires i < |found|
    ensures rows - KeysOf(found[..i + 1]) == rows - KeysOf(found[..i]) - {found[i].key}
  {
    assert found[..i + 1] == found[..i] + [found[i]];
    assert KeysOf(found[..i + 1]) == KeysOf(found[..i]) + {found[i].key};
  }

  /** A match that has not been deleted yet is in the table. */
  lemma StillThere(t: Table, rows: Rows, cond: Condition, found: seq<Match>, i: nat)
    requires Scanned(t.lib, t.schema, rows, cond, {}, found) && i < |found|
    ensures found[i].key in rows - KeysOf(found[..i])
  {
    hide Meets, Shown;
  }

  lemma ScanFailsIs(t: Table, cond: Condition, e: Error)
    requires exists k :: k in t.rows && Meets(t.lib, t.schema, cond, k, t.rows[k]) == Err(e)
    ensures Deleted(t, t.rows, cond, Stopped(EvalFailed(e)), t.rows)
  {
    hide Meets;
  }

  /** What a DELETE did: exactly the matching rows are gone, or nothing. */
  ghost predicate Deleted(t: Table, rows: Rows, cond: Condition, r: Report, rows': Rows) {
    match r
    case Count(n) =>
      && (forall k :: k in rows' <==> k in rows && Meets(t.lib, t.schema, cond, k, rows[k]) != Ok(true))
      && (forall k :: k in rows' ==> rows'[k] == rows[k])
      && n == |rows| - |rows'|
    case Spoilt(_) => false
    case Stopped(why) => rows' == rows && ScanFails(t, rows, cond, why)
  }

  lemma DeletedAll(t: Table, rows: Rows, cond: Condition, found: seq<Match>)
    requires Scanned(t.lib, t.schema, rows, cond, {}, found)
    ensures Deleted(t, rows, cond, Count(|found|), rows - KeysOf(found))
  {
    hide Meets, Shown;
    var left := rows - KeysOf(found);
    forall k | k in rows
      ensures k in KeysOf(found) <==> Meets(t.lib, t.schema, cond, k, rows[k]) == Ok(true)
    {
      if k in KeysOf(found) {
        var m :| m in found && m.key == k;
      }
    }
    KeysCount(found);
    assert left.Keys == rows.Keys - KeysOf(found) && KeysOf(found) <= rows.Keys;
  }

  lemma {:induction false} KeysCount(found: seq<Match>)
    requires forall i, j :: 0 <= i < j < |found| ==> found[i].key < found[j].key
    ensures |KeysOf(found)| == |found|
  {
    if found != [] {
      var front, m := found[..|found| - 1], found[|found| - 1];
      KeysCount(front);
      assert found == front + [m];
      assert KeysOf(found) == KeysOf(front) + {m.key};
    }
  }

  // ---- INSERT ----

  /** A row of an INSERT: an expression for each target column, and the defaults of all columns. */
  datatype NewRow = NewRow(exprs: seq<Expr>, defaults: seq<Value>)

  datatype Inserting = Inserting(targets: seq<nat>, news: seq<NewRow>, params: seq<Value>)

  predicate InsertFits(s: Schema, ins: Inserting) {
    && (forall i :: 0 <= i < |ins.targets| ==> ins.targets[i] < |s.columns|)
    && forall i :: 0 <= i < |ins.news| ==> |ins.news[i].defaults| == |s.columns|
  }

  /** The values of a new row: the expressions, coerced, over the defaults. */
  function Filled(t: Table, values: seq<Value>, targets: seq<nat>, exprs: seq<Expr>, params: seq<Value>): Result<seq<Value>>
    requires |targets| == |exprs| && forall i :: 0 <= i < |targets| ==> targets[i] < |values|
    decreases |targets|
  {
    if targets == [] then Ok(values)
    else
      match Eval(exprs[0], Env(t.lib, [], 0, params))
      case Err(x) => Err(x)
      case Ok(v) =>
        match t.coerce(v, targets[0])
        case Err(x) => Err(x)
        case Ok(w) => Filled(t, values[targets[0] := w], targets[1..], exprs[1..], params)
  }

  /** The value that an expression of an INSERT gives a column. */
  function Given(t: Table, e: Expr, column: nat, params: seq<Value>): Result<Value> {
    match Eval(e, Env(t.lib, [], 0, params))
    case Err(x) => Err(x)
    case Ok(v) => t.coerce(v, column)
  }

  /** Each target column holds the value of its expression, the last one if it has several; every other column
      holds what it held. */
  ghost predicate IsFilled(t: Table, values: seq<Value>, targets: seq<nat>, exprs: seq<Expr>, params: seq<Value>, row: seq<Value>)
    requires |targets| == |exprs| && forall i :: 0 <= i < |targets| ==> targets[i] < |values|
  {
    && |row| == |values| && (forall i :: 0 <= i < |exprs| ==> Given(t, exprs[i], targets[i], params).Ok?)
    && (forall c :: 0 <= c < |values| && c !in targets ==> row[c] == values[c])
    && forall i :: 0 <= i < |exprs| && (forall k :: i < k < |exprs| ==> targets[k] != targets[i]) ==>
         row[targets[i]] == Given(t, exprs[i], targets[i], params).value
  }

  /** The error of the first expression that has one. */
  ghost predicate FailsFirst(t: Table, targets: seq<nat>, exprs: seq<Expr>, params: seq<Value>, x: Error)
    requires |targets| == |exprs|
  {
    exists i {:trigger exprs[i]} :: 0 <= i < |exprs| && Given(t, exprs[i], targets[i], params) == Err(x)
                && forall k :: 0 <= k < i ==> Given(t, exprs[k], targets[k], params).Ok?
  }

  /** What a new row holds, and how it fails. */
  lemma {:induction false} FilledMeaning(t: Table, values: seq<Value>, targets: seq<nat>, exprs: seq<Expr>, params: seq<Value>)
    requires |targets| == |exprs| && forall i :: 0 <= i < |targets| ==> targets[i] < |values|
    ensures var r := Filled(t, values, targets, exprs, params);
            && (r.Ok? ==> IsFilled(t, values, targets, exprs, params, r.value))
            && (r.Err? ==> FailsFirst(t, targets, exprs, params, r.error))
    decreases |targets|
  {
    hide Eval, Given;
    if targets != [] {
      var first := Given(t, exprs[0], targets[0], params);
      FilledStep(t, values, targets, exprs, params);
      if first.Ok? {
        var values' := values[targets[0] := first.value];
        FilledMeaning(t, values', targets[1..], exprs[1..], params);
        var r := Filled(t, values', targets[1..], exprs[1..], params);
        if r.Ok? {
          FilledMore(t, values, targets, exprs, params, r.value);
        } else {
          FailsLater(t, targets, exprs, params, r.error);
        }
      } else {
        assert exprs[0] == exprs[0];
      }
    }
  }

  lemma FilledStep(t: Table, values: seq<Value>, targets: seq<nat>, exprs: seq<Expr>, params: seq<Value>)
    requires targets != [] && |targets| == |exprs| && forall i :: 0 <= i < |targets| ==> targets[i] < |values|
    ensures Filled(t, values, targets, exprs, params) ==
            match Given(t, exprs[0], targets[0], params)
            case Err(x) => Err(x)
            case Ok(w) => Filled(t, values[targets[0] := w], targets[1..], exprs[1..], params)
  {
    hide Eval;
  }

  lemma FilledMore(t: Table, values: seq<Value>, targets: seq<nat>, exprs: seq<Expr>, params: seq<Value>, row: seq<Value>)
    requires targets != [] && |targets| == |exprs| && forall i :: 0 <= i < |targets| ==> targets[i] < |values|
    requires Given(t, exprs[0], targets[0], params).Ok?
    requires IsFilled(t, values[targets[0] := Given(t, exprs[0], targets[0], params).value], targets[1..], exprs[1..], params, row)
    ensures IsFilled(t, values, targets, exprs, params, row)
  {
    hide Given;
    var ts, es := targets[1..], exprs[1..];
    forall i | 0 <= i < |exprs|
      ensures Given(t, exprs[i], targets[i], params).Ok?
      ensures (forall k :: i < k < |exprs| ==> targets[k] != targets[i]) ==>
                row[targets[i]] == Given(t, exprs[i], targets[i], params).value
    {
      if i > 0 {
        assert ts[i - 1] == targets[i] && es[i - 1] == exprs[i];
        if forall k :: i < k < |exprs| ==> targets[k] != targets[i] {
          forall k | i - 1 < k < |es|
            ensures ts[k] != ts[i - 1]
          {
            assert ts[k] == targets[k + 1];
          }
        }
      } else if forall k :: 0 < k < |exprs| ==> targets[k] != targets[0] {
        assert targets[0] !in ts;
      }
    }
    forall c | 0 <= c < |values| && c !in targets
      ensures row[c] == values[c]
    {
      assert c !in ts && c != targets[0];
    }
  }

  lemma FailsLater(t: Table, targets: seq<nat>, exprs: seq<Expr>, params: seq<Value>, x: Error)
    requires targets != [] && |targets| == |exprs| && Given(t, exprs[0], targets[0], params).Ok?
    requires FailsFirst(t, targets[1..], exprs[1..], params, x)
    ensures FailsFirst(t, targets, exprs, params, x)
  {
    hide Given;
    var ts, es := targets[1..], exprs[1..];
    var i :| 0 <= i < |es| && Given(t, es[i], ts[i], params) == Err(x)
             && forall k :: 0 <= k < i ==> Given(t, es[k], ts[k], params).Ok?;
    forall k | 0 <= k < i + 1
      ensures Given(t, exprs[k], targets[k], params).Ok?
    {
      assert k > 0 ==> exprs[k] == es[k - 1] && targets[k] == ts[k - 1];
    }
    assert exprs[i + 1] == es[i] && targets[i + 1] == ts[i];
  }

  datatype Evaluated = RowOf(values: seq<Value>) | Unfit(why: Failure)

  function RowAt(t: Table, ins: Inserting, i: nat): Evaluated
    requires i < |ins.news| && InsertFits(t.schema, ins)
  {
    if |ins.news[i].exprs| != |ins.targets| then Unfit(WidthMismatch)
    else
      match Filled(t, ins.news[i].defaults, ins.targets, ins.news[i].exprs, ins.params)
      case Err(x) => Unfit(EvalFailed(x))
      case Ok(values) => RowOf(values)
  }

  method FillRow(t: Table, ins: Inserting, i: nat) returns (r: Evaluated)
    requires i < |ins.news| && InsertFits(t.schema, ins)
    ensures r == RowAt(t, ins, i) && (r.RowOf? ==> |r.values| == |t.schema.columns|)
    ensures r == Unfit(WidthMismatch) <==> |ins.news[i].exprs| != |ins.targets|
    ensures r.RowOf? ==> IsFilled(t, ins.news[i].defaults, ins.targets, ins.news[i].exprs, ins.params, r.values)
    ensures r.Unfit? && r.why != WidthMismatch ==>
              r.why.EvalFailed? && FailsFirst(t, ins.targets, ins.news[i].exprs, ins.params, r.why.error)
  {
    hide Eval, IsFilled, FailsFirst;
    var exprs, row := ins.news[i].exprs, ins.news[i].defaults;
    if |exprs| != |ins.targets| {
      return Unfit(WidthMismatch);
    }
    FilledMeaning(t, row, ins.targets, exprs, ins.params);
    assert ins.targets[0..] == ins.targets && exprs[0..] == exprs;
    for j := 0 to |exprs|
      invariant |row| == |t.schema.columns|
      invariant Filled(t, ins.news[i].defaults, ins.targets, exprs, ins.params) ==
                Filled(t, row, ins.targets[j..], exprs[j..], ins.params)
    {
      assert ins.targets[j..][1..] == ins.targets[j + 1..] && exprs[j..][1..] == exprs[j + 1..];
      var v := Eval(exprs[j], Env(t.lib, [], 0, ins.params));
      if v.Err? { return Unfit(EvalFailed(v.error)); }
      var w := t.coerce(v.value, ins.targets[j]);
      if w.Err? { return Unfit(EvalFailed(w.error)); }
      row := row[ins.targets[j] := w.value];
    }
    return RowOf(row);
  }

  /** A row went in under the rowid chosen for it: its own, or the one past the key the tree reports. */
  ghost predicate PlacedRow(t: Table, before: State, values: seq<Value>, rowid: i64, after: State)
    requires SchemaOk(t.schema)
  {
    && |values| == |t.schema.columns| && t.RowidFor(values, LastOf(before.tree)) == Some(rowid)
    && NotNullOk(t.schema, WithAlias(t.schema, values, Integer(rowid)))
    && NoClash(t.lib, t.schema, before.rows, values, None) && (t.schema.alias.Some? ==> rowid !in before.rows)
    && after.rows == before.rows[rowid := Dml.Stored(t.schema, values)]
    && Records.RowOk(Nulled(t.schema, values))
    && Trees.Flat(after.tree) == Upsert(Trees.Flat(before.tree), rowid, Records.RecordBytes(Nulled(t.schema, values)))
    && LeafPages.LastKept(Trees.RightLeaf(after.tree), before.tree) && Agrees(t, after)
  }

  /** Why the i-th row of an INSERT is refused. */
  ghost predicate RowStops(t: Table, at: State, ins: Inserting, i: nat, why: Failure)
    requires SchemaOk(t.schema) && InsertFits(t.schema, ins) && i < |ins.news|
  {
    match RowAt(t, ins, i)
    case Unfit(w) => why == w
    case RowOf(values) =>
      && |values| == |t.schema.columns|
      && var rowid := t.RowidFor(values, LastOf(at.tree));
         && InsertRefused(why, t.lib, t.schema, at.rows, values, rowid, false)
         && (why.TreeFailed? ==> Unroomy(t.utf8, at.tree, rowid.value, Nulled(t.schema, values), false))
  }

  /** The rows placed so far, one after the other. */
  ghost predicate PlacedAll(t: Table, ins: Inserting, placed: seq<i64>, states: seq<State>)
    requires SchemaOk(t.schema) && InsertFits(t.schema, ins)
  {
    && |placed| <= |ins.news| && |states| == |placed| + 1
    && forall i {:trigger placed[i]} :: 0 <= i < |placed| ==>
         var row := RowAt(t, ins, i);
         row.RowOf? && PlacedRow(t, states[i], row.values, placed[i], states[i + 1])
  }

  /** What an INSERT did: all rows stored, or those before the one that was refused. */
  ghost predicate Inserted(t: Table, ins: Inserting, r: Outcome, placed: seq<i64>, states: seq<State>)
    requires SchemaOk(t.schema) && InsertFits(t.schema, ins)
  {
    && PlacedAll(t, ins, placed, states)
    && (r.Done? ==> |placed| == |ins.news| && r.rowid == if placed == [] then 0 else placed[|placed| - 1])
    && (r.Spoiled? ==> SpoiledLast(t, ins, placed, states) && r.rowid == placed[|placed| - 1])
    && (r.Failed? ==> |placed| < |ins.news| && RowStops(t, states[|placed|], ins, |placed|, r.why))
  }

  /** The last row placed found no room, and did not panic. */
  ghost predicate SpoiledLast(t: Table, ins: Inserting, placed: seq<i64>, states: seq<State>)
    requires InsertFits(t.schema, ins)
  {
    && 0 < |placed| <= |ins.news| && |states| == |placed| + 1
    && var n := |placed| - 1;
       && RowAt(t, ins, n).RowOf?
       && Unroomy(t.utf8, states[n].tree, placed[n], Nulled(t.schema, RowAt(t, ins, n).values), true)
  }

  /** Inserts rows one after another, up to the first that fails. */
  method Insert(t: Table, ins: Inserting) returns (r: Outcome, ghost placed: seq<i64>, ghost states: seq<State>)
    requires t.Valid() && InsertFits(t.schema, ins)
    modifies t`tree, t`rows, t`bad, t.sink
    ensures !Ends(r) ==> t.Valid()
    ensures r.Spoiled? ==> t.Wrecked()
    ensures !Ends(r) || r.Spoiled? ==> Trees.Same(old(t.sink.Pages()), t.sink.Pages(), t.others)
    ensures Consistent(t.lib, t.schema, t.rows) && Agrees(t, State(t.rows, t.tree)) && SchemaOk(t.schema)
    ensures |states| == |placed| + 1 && states[0] == old(State(t.rows, t.tree)) && states[|placed|] == State(t.rows, t.tree)
    ensures Inserted(t, ins, r, placed, states)
  {
    hide *;
    t.ValidParts();
    Deletion.SameSelf(t.sink.Pages(), t.others);
    ZeroFits();
    AgreesIs(t);
    r, placed, states := Done(0), [], [State(t.rows, t.tree)];
    PlacedNone(t, ins, states);
    for i := 0 to |ins.news|
      invariant t.Valid() && Agrees(t, State(t.rows, t.tree)) && SchemaOk(t.schema) && Trees.Same(old(t.sink.Pages()), t.sink.Pages(), t.others)
      invariant |placed| == i && |states| == i + 1 && states[0] == old(State(t.rows, t.tree)) && states[i] == State(t.rows, t.tree)
      invariant r.Done? && r.rowid == (if placed == [] then 0 else placed[|placed| - 1])
      invariant PlacedAll(t, ins, placed, states)
    {
      t.ValidParts();
      var row := FillRow(t, ins, i);
      if row.Unfit? {
        UnfitStops(t, ins, i, states[i], row.why);
        r := Failed(row.why);
        InsertedIs(t, ins, r, placed, states);
        return;
      }
      ghost var view := t.sink.Pages();
      r := t.InsertRow(row.values, false);
      EndsAre();
      if !r.Failed? || !r.why.TreeFailed? {
        Overflow.SameTrans(old(t.sink.Pages()), view, t.sink.Pages(), t.others);
      }
      if r.Failed? {
        RefusedKeyed(t.lib, t.schema, t.rows, row.values, t.RowidFor(row.values, LastOf(t.tree)));
        RefusedStops(t, ins, i, states[i], r.why);
        InsertedIs(t, ins, r, placed, states);
        return;
      }
      if r.Done? {
        t.ValidParts();
        AgreesIs(t);
      } else {
        WreckAgrees(t);
      }
      PlacedRowIs(t, states[i], row.values, r.rowid, State(t.rows, t.tree));
      PlacedNext(t, ins, placed, states, r.rowid, State(t.rows, t.tree));
      placed, states := placed + [r.rowid], states + [State(t.rows, t.tree)];
      if r.Spoiled? {
        SpoiledIs(t, ins, placed, states);
        InsertedIs(t, ins, r, placed, states);
        return;
      }
    }
    t.ValidParts();
    EndsAre();
    InsertedIs(t, ins, r, placed, states);
  }

  lemma RefusedKeyed(lib: Lib, s: Schema, rows: Rows, given: seq<Value>, rowid: Option<i64>)
    ensures forall reply :: InsertRefused(TreeFailed(reply), lib, s, rows, given, rowid, false) ==> rowid.Some?
  {
  }

  lemma ZeroFits()
    ensures MIN_I64 <= 0 <= MAX_I64
  {
  }

  lemma PlacedNone(t: Table, ins: Inserting, states: seq<State>)
    requires SchemaOk(t.schema) && InsertFits(t.schema, ins) && |states| == 1
    ensures PlacedAll(t, ins, [], states)
  {
  }

  lemma PlacedNext(t: Table, ins: Inserting, placed: seq<i64>, states: seq<State>, rowid: i64, after: State)
    requires SchemaOk(t.schema) && InsertFits(t.schema, ins) && |placed| < |ins.news| && |states| == |placed| + 1
    requires PlacedAll(t, ins, placed, states) && RowAt(t, ins, |placed|).RowOf?
    requires PlacedRow(t, states[|placed|], RowAt(t, ins, |placed|).values, rowid, after)
    ensures PlacedAll(t, ins, placed + [rowid], states + [after])
  {
    hide RowAt, PlacedRow, InsertFits, SchemaOk;
    var placed', states' := placed + [rowid], states + [after];
    forall i | 0 <= i < |placed'|
      ensures RowAt(t, ins, i).RowOf? && PlacedRow(t, states'[i], RowAt(t, ins, i).values, placed'[i], states'[i + 1])
    {
      assert i < |placed| ==> placed'[i] == placed[i] && states'[i + 1] == states[i + 1];
    }
  }

  lemma PlacedRowIs(t: Table, before: State, values: seq<Value>, rowid: i64, after: State)
    requires SchemaOk(t.schema) && |values| == |t.schema.columns| && t.RowidFor(values, LastOf(before.tree)) == Some(rowid)
    requires NotNullOk(t.schema, WithAlias(t.schema, values, Integer(rowid)))
    requires NoClash(t.lib, t.schema, before.rows, values, None) && (t.schema.alias.Some? ==> rowid !in before.rows)
    requires after.rows == before.rows[rowid := Dml.Stored(t.schema, values)] && Records.RowOk(Nulled(t.schema, values))
    requires Trees.Flat(after.tree) == Upsert(Trees.Flat(before.tree), rowid, Records.RecordBytes(Nulled(t.schema, values)))
    requires LeafPages.LastKept(Trees.RightLeaf(after.tree), before.tree) && Agrees(t, after)
    ensures PlacedRow(t, before, values, rowid, after)
  {
  }

  lemma UnfitStops(t: Table, ins: Inserting, i: nat, at: State, why: Failure)
    requires SchemaOk(t.schema) && InsertFits(t.schema, ins) && i < |ins.news| && RowAt(t, ins, i) == Unfit(why)
    ensures RowStops(t, at, ins, i, why)
  {
  }

  lemma RefusedStops(t: Table, ins: Inserting, i: nat, at: State, why: Failure)
    requires SchemaOk(t.schema) && InsertFits(t.schema, ins) && i < |ins.news| && RowAt(t, ins, i).RowOf?
    requires |RowAt(t, ins, i).values| == |t.schema.columns|
    requires var values := RowAt(t, ins, i).values;
             var rowid := t.RowidFor(values, LastOf(at.tree));
             && InsertRefused(why, t.lib, t.schema, at.rows, values, rowid, false)
             && (why.TreeFailed? ==> rowid.Some? && Unroomy(t.utf8, at.tree, rowid.value, Nulled(t.schema, values), false))
    ensures RowStops(t, at, ins, i, why)
  {
    hide Unroomy;
  }

  lemma SpoiledIs(t: Table, ins: Inserting, placed: seq<i64>, states: seq<State>)
    requires InsertFits(t.schema, ins) && 0 < |placed| <= |ins.news| && |states| == |placed| + 1
    requires var n := |placed| - 1;
             && RowAt(t, ins, n).RowOf?
             && Unroomy(t.utf8, states[n].tree, placed[n], Nulled(t.schema, RowAt(t, ins, n).values), true)
    ensures SpoiledLast(t, ins, placed, states)
  {
    hide Unroomy, RowAt;
  }

  lemma InsertedIs(t: Table, ins: Inserting, r: Outcome, placed: seq<i64>, states: seq<State>)
    requires SchemaOk(t.schema) && InsertFits(t.schema, ins) && PlacedAll(t, ins, placed, states)
    requires r.Done? ==> |placed| == |ins.news| && r.rowid == if placed == [] then 0 else placed[|placed| - 1]
    requires r.Spoiled? ==> SpoiledLast(t, ins, placed, states) && r.rowid == placed[|placed| - 1]
    requires r.Failed? ==> |placed| < |ins.news| && |states| == |placed| + 1 && RowStops(t, states[|placed|], ins, |placed|, r.why)
    ensures Inserted(t, ins, r, placed, states)
  {
    hide PlacedRow, RowAt, SpoiledLast;
  }

  // ---- which insertions overwrite ----

  /** The tree reports no last key though row 1 is there, or the keys have run out. */
  ghost predicate Overwrites(at: State) {
    (LastOf(at.tree) == None && 1 in at.rows) || (LastOf(at.tree) == Some(MAX_I64) && MIN_I64 in at.rows)
  }

  /** Exactly then a placed row overwrites another, in a table without an alias column. */
  lemma PlacedOverwrites(t: Table, before: State, values: seq<Value>, rowid: i64, after: State)
    requires SchemaOk(t.schema) && Agrees(t, before) && PlacedRow(t, before, values, rowid, after)
    ensures rowid in before.rows <==> t.schema.alias.None? && Overwrites(before)
  {
    hide NoClash, NotNullOk, Trees.Flat, Trees.RightLeaf, Records.RecordBytes, Dml.Stored, Ascending, Encodes, LastOf,
         Nulled, Upsert, AsI64;
    LastIs(before.tree, t.utf8, before.rows);
    NextRowidExact(before.rows, LastOf(before.tree));
  }

  /** The last leaf is empty in an empty tree of one leaf only, as in a table nothing was deleted from. */
  predicate LastFound(t: Trees.Tree) {
    Trees.RightLeaf(t) == [] ==> t.LeafT?
  }

  lemma FoundKept(t: Table, before: State, values: seq<Value>, rowid: i64, after: State)
    requires SchemaOk(t.schema) && Agrees(t, before) && LastFound(before.tree) && PlacedRow(t, before, values, rowid, after)
    ensures LastFound(after.tree)
    ensures Overwrites(before) ==> LastOf(before.tree) == Some(MAX_I64)
  {
    hide NoClash, NotNullOk, Records.RecordBytes, Dml.Stored, Ascending, Nulled, Upsert, AsI64;
  }

  /** A picked rowid is one past the largest. */
  lemma PlacedTop(t: Table, before: State, values: seq<Value>, rowid: i64, after: State, top: int)
    requires SchemaOk(t.schema) && Agrees(t, before) && PlacedRow(t, before, values, rowid, after) && t.schema.alias.None?
    requires 0 <= top < MAX_I64 && forall k :: k in before.rows ==> k <= top
    ensures LastOf(before.tree) != Some(MAX_I64) && forall k :: k in after.rows ==> k <= top + 1
  {
    hide NoClash, NotNullOk, Trees.Flat, Trees.RightLeaf, Records.RecordBytes, Dml.Stored, Ascending, Encodes, LastOf,
         Nulled, Upsert, AsI64;
    LastIs(before.tree, t.utf8, before.rows);
  }

  /** As long as nothing was deleted and the keys do not run out, inserting overwrites no row. */
  lemma {:induction false} InsertKeeps(t: Table, ins: Inserting, placed: seq<i64>, states: seq<State>, top: int, n: nat)
    requires SchemaOk(t.schema) && InsertFits(t.schema, ins) && PlacedAll(t, ins, placed, states) && n <= |placed|
    requires Agrees(t, states[0])
    requires t.schema.alias.Some? ||
             (LastFound(states[0].tree) && 0 <= top && top + n <= MAX_I64 && forall k :: k in states[0].rows ==> k <= top)
    ensures Agrees(t, states[n])
    ensures forall k :: k in states[0].rows ==> k in states[n].rows && states[n].rows[k] == states[0].rows[k]
    ensures t.schema.alias.None? ==> LastFound(states[n].tree) && forall k :: k in states[n].rows ==> k <= top + n
  {
    hide PlacedRow, Overwrites, LastFound, RowAt, Agrees, LastOf, SchemaOk, InsertFits;
    if n > 0 {
      InsertKeeps(t, ins, placed, states, top, n - 1);
      var before, after := states[n - 1], states[n];
      var rowid, values := placed[n - 1], RowAt(t, ins, n - 1).values;
      assert PlacedRow(t, before, values, rowid, after);
      PlacedIs(t, before, values, rowid, after);
      PlacedOverwrites(t, before, values, rowid, after);
      if t.schema.alias.None? {
        FoundKept(t, before, values, rowid, after);
        PlacedTop(t, before, values, rowid, after, top + n - 1);
      }
    }
  }

  lemma PlacedIs(t: Table, before: State, values: seq<Value>, rowid: i64, after: State)
    requires SchemaOk(t.schema) && PlacedRow(t, before, values, rowid, after)
    ensures after.rows == before.rows[rowid := Dml.Stored(t.schema, values)] && Agrees(t, after)
  {
    hide Agrees, NoClash, NotNullOk, Upsert;
  }

  // ---- runs ----

  datatype Statement =
    | InsertRows(ins: Inserting)
    | UpdateRows(cond: Condition, assigns: seq<Assignment>)
    | DeleteRows(cond: Condition)

  predicate WellFormed(s: Schema, st: Statement) {
    match st
    case InsertRows(ins) => InsertFits(s, ins)
    case UpdateRows(_, assigns) => AssignsFit(s, assigns)
    case DeleteRows(_) => true
  }

  datatype Answer = Inserts(outcome: Outcome) | Changes(report: Report)

  /** A row found no room: the tree failed, and the statement with it, or the row was laid over others. */
  predicate Died(a: Answer) {
    match a
    case Inserts(o) => Ends(o)
    case Changes(r) => Over(r)
  }

  /** In the second case the statement was answered as done. */
  predicate Marred(a: Answer) {
    match a
    case Inserts(o) => o.Spoiled?
    case Changes(r) => r.Spoilt?
  }

  /** What a statement did to the table, and what it answered. */
  ghost predicate Did(t: Table, before: State, st: Statement, a: Answer, after: State)
    requires SchemaOk(t.schema) && WellFormed(t.schema, st)
  {
    match st
    case InsertRows(ins) =>
      a.Inserts? && exists placed, states :: InsertDid(t, ins, a.outcome, placed, states, before, after)
    case UpdateRows(cond, assigns) =>
      a.Changes? && exists found, news :: Updated(t, before.rows, cond, assigns, a.report, found, news, after)
    case DeleteRows(cond) => a.Changes? && Deleted(t, before.rows, cond, a.report, after.rows)
  }

  ghost predicate InsertDid(t: Table, ins: Inserting, r: Outcome, placed: seq<i64>, states: seq<State>, before: State, after: State)
    requires SchemaOk(t.schema) && InsertFits(t.schema, ins)
  {
    && |states| == |placed| + 1 && states[0] == before && states[|placed|] == after
    && Inserted(t, ins, r, placed, states)
  }

  method Do(t: Table, st: Statement) returns (a: Answer)
    requires t.Valid() && WellFormed(t.schema, st)
    modifies t`tree, t`rows, t`bad, t.sink
    ensures !Died(a) ==> t.Valid()
    ensures Marred(a) ==> t.Wrecked()
    ensures !Died(a) || Marred(a) ==> Trees.Same(old(t.sink.Pages()), t.sink.Pages(), t.others)
    ensures Consistent(t.lib, t.schema, t.rows) && Agrees(t, State(t.rows, t.tree)) && SchemaOk(t.schema)
    ensures Did(t, old(State(t.rows, t.tree)), st, a, State(t.rows, t.tree))
  {
    hide Consistent, Inserted, Updated, Agrees, Table.Sound, Table.Wrecked, Trees.Same, Overflow.PageSink.Pages, Meets;
    t.ValidParts();
    match st {
      case InsertRows(ins) =>
        var r, placed, states := Insert(t, ins);
        a := Inserts(r);
        assert InsertDid(t, ins, r, placed, states, old(State(t.rows, t.tree)), State(t.rows, t.tree));
      case UpdateRows(cond, assigns) =>
        var r, found, news := Update(t, cond, assigns);
        a := Changes(r);
      case DeleteRows(cond) =>
        var r := Delete(t, cond);
        AgreesIs(t);
        t.ValidParts();
        a := Changes(r);
    }
  }

  /** No row found the tree without room. */
  predicate Unharmed(answers: seq<Answer>) {
    answers == [] || !Died(answers[|answers| - 1])
  }

  lemma UnharmedIs(answers: seq<Answer>)
    ensures Unharmed(answers) <==> answers == [] || !Died(answers[|answers| - 1])
  {
  }

  /** Over any run of statements, failing ones included, each does what it answers; no two rows ever agree on a
      unique column, no NOT NULL column holds NULL, and the tree holds just the records of the rows. A statement whose
      row found no room ends the run: in a failure, or as done with a table that does not read as those rows. The
      pages of others stay as they were. */
  method Run(t: Table, sts: seq<Statement>) returns (answers: seq<Answer>, ghost states: seq<State>)
    requires t.Valid() && forall i :: 0 <= i < |sts| ==> WellFormed(t.schema, sts[i])
    modifies t`tree, t`rows, t`bad, t.sink
    ensures |answers| <= |sts| && |states| == |answers| + 1 && SchemaOk(t.schema)
    ensures states[0] == old(State(t.rows, t.tree)) && states[|answers|] == State(t.rows, t.tree)
    ensures forall i :: 0 <= i < |answers| ==> Did(t, states[i], sts[i], answers[i], states[i + 1])
    ensures forall i :: 0 <= i <= |answers| ==> Consistent(t.lib, t.schema, states[i].rows) && Agrees(t, states[i])
    ensures forall i :: 0 <= i < |answers| - 1 ==> !Died(answers[i])
    ensures Unharmed(answers) ==>
              |answers| == |sts| && t.Valid() && Trees.Same(old(t.sink.Pages()), t.sink.Pages(), t.others)
    ensures !Unharmed(answers) && Marred(answers[|answers| - 1]) ==>
              t.Wrecked() && Trees.Same(old(t.sink.Pages()), t.sink.Pages(), t.others)
  {
    hide *;
    t.ValidParts();
    AgreesIs(t);
    Deletion.SameSelf(t.sink.Pages(), t.others);
    answers, states := [], [State(t.rows, t.tree)];
    for i := 0 to |sts|
      invariant t.Valid() && |answers| == i && |states| == i + 1 && SchemaOk(t.schema)
      invariant states[0] == old(State(t.rows, t.tree)) && states[i] == State(t.rows, t.tree)
      invariant forall j :: 0 <= j < i ==> Did(t, states[j], sts[j], answers[j], states[j + 1]) && !Died(answers[j])
      invariant forall j :: 0 <= j <= i ==> Consistent(t.lib, t.schema, states[j].rows) && Agrees(t, states[j])
      invariant Trees.Same(old(t.sink.Pages()), t.sink.Pages(), t.others)
    {
      ghost var view := t.sink.Pages();
      var a := Do(t, sts[i]);
      answers, states := answers + [a], states + [State(t.rows, t.tree)];
      UnharmedIs(answers);
      if !Died(a) || Marred(a) {
        Overflow.SameTrans(old(t.sink.Pages()), view, t.sink.Pages(), t.others);
      }
      if Died(a) {
        return;
      }
    }
    UnharmedIs(answers);
  }
}
