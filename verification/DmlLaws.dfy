/** What statements see of a row and what they store of it, column by column. */
module DmlLaws {
  import opened Common
  import opened Varint
  import opened Values
  import opened Evaluation
  import opened Dml
  import opened EvalLaws
  import opened TableRows
  import opened DmlRuns

  /** A condition sees a row with the rowid in the alias column. */
  lemma ShownMeaning(s: Schema, k: i64, stored: seq<Value>, c: nat)
    ensures |Shown(s, k, stored)| == |stored|
    ensures c < |stored| ==> Shown(s, k, stored)[c] == if s.alias == Some(c) then Integer(k) else stored[c]
  {
  }

  /** UPDATE and DELETE touch the rows on which their condition is true: not NULL, and not false. */
  lemma MeetsMeaning(lib: Lib, s: Schema, cond: Condition, k: i64, stored: seq<Value>)
    ensures cond.expr == None ==> Meets(lib, s, cond, k, stored) == Ok(true)
    ensures cond.expr.Some? ==>
              var r := Eval(cond.expr.value, Env(lib, Shown(s, k, stored), k, cond.params));
              Meets(lib, s, cond, k, stored) == if r.Err? then Err(r.error) else Ok(IsTrue(lib, r.value))
  {
    hide Eval, IsTruthy, IsTrue, Shown;
    if cond.expr.Some? {
      var r := Eval(cond.expr.value, Env(lib, Shown(s, k, stored), k, cond.params));
      if r.Ok? {
        TruthMeaning(lib, r.value);
      }
    }
  }

  /** What a table holds of a row: NULL in the alias column, 0 and 1 for booleans, the text of JSON, and all other
      values as they are. */
  lemma KeptMeaning(s: Schema, values: seq<Value>, c: nat)
    ensures |Stored(s, values)| == |values|
    ensures c < |values| && s.alias == Some(c) ==> Stored(s, values)[c] == Null
    ensures c < |values| && s.alias != Some(c) ==>
              Stored(s, values)[c] == match values[c]
                                      case Boolean(b) => Integer(if b then 1 else 0)
                                      case Json(text) => Text(text)
                                      case v => v
  {
  }

  /** The integer that stands for a value given as rowid. */
  lemma RowidNumber(lib: Lib, v: Value)
    ensures v.Integer? ==> AsI64(lib, v) == Some(v.i)
    ensures v == Boolean(false) ==> AsI64(lib, v) == Some(0)
    ensures v == Boolean(true) ==> AsI64(lib, v) == Some(1)
    ensures v.Real? ==> AsI64(lib, v) == Some(lib.toInt(v.r))
    ensures v.Text? ==> AsI64(lib, v) == lib.parseInt(v.s)
    ensures v == Null || v.Blob? || v.Json? ==> AsI64(lib, v) == None
  {
  }

  /** The rowid of a new row: the one given in the alias column, and else 1 in a table without a last key, one more
      than that key, or the least of all behind the largest. */
  lemma RowidMeaning(t: Table, given: seq<Value>, last: Option<i64>)
    requires SchemaOk(t.schema) && |given| == |t.schema.columns|
    ensures var own := if t.schema.alias.Some? then given[t.schema.alias.value] else Null;
            && (own != Null ==> t.RowidFor(given, last) == AsI64(t.lib, own))
            && (own == Null && last == None ==> t.RowidFor(given, last) == Some(1))
            && (own == Null && last.Some? && last.value < 0x7fff_ffff_ffff_ffff ==> t.RowidFor(given, last) == Some(last.value + 1))
            && (own == Null && last == Some(0x7fff_ffff_ffff_ffff) ==> t.RowidFor(given, last) == Some(-0x8000_0000_0000_0000))
  {
    hide AsI64;
  }

  /** Two rows clash if they hold equal values, not NULL, in a unique column other than the alias. */
  lemma ClashMeaning(lib: Lib, s: Schema, stored: seq<Value>, values: seq<Value>)
    requires |stored| == |values| == |s.columns|
    ensures Clash(lib, s, stored, values) <==>
            exists c :: 0 <= c < |s.columns| && s.columns[c].unique && s.alias != Some(c)
                        && stored[c] != Null && values[c] != Null && Alike(lib, stored[c], values[c])
  {
    hide Compare, Alike;
    forall c | 0 <= c < |s.columns|
      ensures ClashAt(lib, s, stored, values, c) <==>
              s.columns[c].unique && s.alias != Some(c) && stored[c] != Null && values[c] != Null && Alike(lib, stored[c], values[c])
    {
      EqualIs(lib, stored[c], values[c]);
    }
  }
}
