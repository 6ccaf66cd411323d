/** Expressions and what they evaluate to on a row. */
module Evaluation {
  import opened Common
  import opened Varint
  import opened Values
  import Patterns

  datatype BinOp = Eq | NotEq | Lt | LtEq | Gt | GtEq | And | Or | Add | Sub | Mul | Div | Mod | Concat

  datatype UnOp = Not | Neg

  datatype Expr =
    | Literal(v: Value)
    | Column(column: nat)
    | RowId
    | Param(param: nat)
    | Binary(op: BinOp, left: Expr, right: Expr)
    | Unary(uop: UnOp, arg: Expr)
    | IsNull(arg: Expr, negated: bool)
    | Like(arg: Expr, pattern: Expr, negated: bool)
    | InList(arg: Expr, list: seq<Expr>, negated: bool)
    | Function(name: Str, args: seq<Expr>)
    | Cast(arg: Expr, ty: SqlType)
    | Case(operand: Option<Expr>, whens: seq<When>, otherwise: Option<Expr>)
    | Subquery

  datatype When = When(cond: Expr, result: Expr)

  /** What an expression is evaluated against. */
  datatype Env = Env(lib: Lib, row: seq<Value>, rowId: i64, params: seq<Value>)

  predicate IsArith(op: BinOp) {
    op == Add || op == Sub || op == Mul || op == Div || op == Mod
  }

  predicate IsComparison(op: BinOp) {
    op == Eq || op == NotEq || op == Lt || op == LtEq || op == Gt || op == GtEq
  }

  function Truth(lib: Lib, v: Value): Option<bool> {
    if v.Null? then None else Some(IsTruthy(lib, v))
  }

  function OutcomeOf(op: BinOp, o: Ordering): bool
    requires IsComparison(op)
  {
    match op
    case Eq => o == Equal
    case NotEq => o != Equal
    case Lt => o == Less
    case LtEq => o != Greater
    case Gt => o == Greater
    case GtEq => o != Less
  }

  function Abs(a: int): nat {
    if a >= 0 then a else -a
  }

  lemma DivShrinks(a: nat, b: nat)
    requires b > 0
    ensures 0 <= a / b <= a && (b >= 2 ==> 2 * (a / b) <= a) && 0 <= a % b <= a
  {
    var q, r := a / b, a % b;
    assert a == b * q + r;
    MulGrows(b, q);
  }

  lemma {:induction false} MulGrows(b: nat, q: nat)
    requires b > 0
    ensures b * q >= q && (b >= 2 ==> b * q >= 2 * q)
    decreases b
  {
    if b > 1 {
      MulGrows(b - 1, q);
      assert b * q == (b - 1) * q + q;
    }
  }

  /** Division of 64-bit integers toward zero, which panics where there is no quotient. */
  function DivI64(a: i64, b: i64): Result<Value> {
    if b == 0 || (a == MIN_I64 && b == -1) then Err(Panic)
    else
      DivShrinks(Abs(a), Abs(b));
      var q := Abs(a) / Abs(b);
      Ok(Integer(if (a >= 0) == (b >= 0) then q else -q))
  }

  /** The remainder, with the sign of the dividend. */
  function RemI64(a: i64, b: i64): Result<Value> {
    if b == 0 || (a == MIN_I64 && b == -1) then Err(Panic)
    else
      DivShrinks(Abs(a), Abs(b));
      var r := Abs(a) % Abs(b);
      Ok(Integer(if a >= 0 then r else -r))
  }

  /** A numeric result: an integer when both operands were and it is whole. */
  function Numeric(lib: Lib, bothInt: bool, r: F64): Value {
    if bothInt && lib.whole(r) then Integer(lib.toInt(r)) else Real(r)
  }

  function EvalArith(lib: Lib, op: BinOp, l: Value, r: Value): Result<Value>
    requires IsArith(op)
  {
    if l.Null? || r.Null? then Ok(Null)
    else
      var bothInt := l.Integer? && r.Integer?;
      var x, y := AsF64(lib, l), AsF64(lib, r);
      if x.None? || y.None? then Err(NonNumeric)
      else
        match op
        case Add => Ok(Numeric(lib, bothInt, lib.add(x.value, y.value)))
        case Sub => Ok(Numeric(lib, bothInt, lib.sub(x.value, y.value)))
        case Mul => Ok(Numeric(lib, bothInt, lib.mul(x.value, y.value)))
        case Div =>
          if lib.isZero(y.value) then Ok(Null)
          else if bothInt then DivI64(lib.toInt(x.value), lib.toInt(y.value))
          else Ok(Numeric(lib, bothInt, lib.div(x.value, y.value)))
        case Mod =>
          if lib.isZero(y.value) then Ok(Null)
          else if bothInt then RemI64(lib.toInt(x.value), lib.toInt(y.value))
          else Ok(Numeric(lib, bothInt, lib.rem(x.value, y.value)))
  }

  /** AND, OR with three truth values; comparisons, concatenation and arithmetic yield NULL on NULL. */
  function EvalBinary(lib: Lib, op: BinOp, l: Value, r: Value): Result<Value> {
    var a, b := Truth(lib, l), Truth(lib, r);
    if op == And then
      if a == Some(false) || b == Some(false) then Ok(Boolean(false))
      else if a == Some(true) && b == Some(true) then Ok(Boolean(true))
      else Ok(Null)
    else if op == Or then
      if a == Some(true) || b == Some(true) then Ok(Boolean(true))
      else if a == Some(false) && b == Some(false) then Ok(Boolean(false))
      else Ok(Null)
    else if IsArith(op) then EvalArith(lib, op, l, r)
    else if l.Null? || r.Null? then Ok(Null)
    else if op == Concat then Ok(Text(lib.display(l) + lib.display(r)))
    else
      match Compare(lib, l, r)
      case None => Err(Incomparable)
      case Some(o) => Ok(Boolean(OutcomeOf(op, o)))
  }

  function EvalUnary(lib: Lib, op: UnOp, v: Value): Value {
    match op
    case Neg => (
      match v
      case Integer(i) => Integer(WrapNeg(i))
      case Real(r) => Real(lib.neg(r))
      case Null => Null
      case _ => Real(lib.neg(if AsF64(lib, v).Some? then AsF64(lib, v).value else lib.ofInt(0))))
    case Not => if v.Null? then Null else Boolean(!IsTruthy(lib, v))
  }

  /** Whether a value, displayed, matches a pattern, both in lower case. */
  predicate LikeMatch(lib: Lib, pattern: Value, v: Value) {
    Patterns.LikeRec(lib.lower(lib.display(pattern)), lib.lower(lib.display(v)))
  }

  /** The value of an expression, or the error of the first part that fails. */
  function Eval(e: Expr, env: Env): Result<Value>
    decreases e, 1
  {
    match e
    case Literal(v) => Ok(v)
    case Column(i) => if i < |env.row| then Ok(env.row[i]) else Err(ColumnOutOfRange(i))
    case RowId => Ok(Integer(env.rowId))
    case Param(i) => if i < |env.params| then Ok(env.params[i]) else Err(MissingParam(i))
    case Unary(op, arg) => (
      match Eval(arg, env)
      case Err(x) => Err(x)
      case Ok(v) => Ok(EvalUnary(env.lib, op, v)))
    case Binary(op, l, r) => (
      match Eval(l, env)
      case Err(x) => Err(x)
      case Ok(a) =>
        match Eval(r, env)
        case Err(x) => Err(x)
        case Ok(b) => EvalBinary(env.lib, op, a, b))
    case IsNull(arg, negated) => (
      match Eval(arg, env)
      case Err(x) => Err(x)
      case Ok(v) => Ok(Boolean(v.Null? != negated)))
    case Like(arg, pattern, negated) => (
      match Eval(arg, env)
      case Err(x) => Err(x)
      case Ok(v) =>
        match Eval(pattern, env)
        case Err(x) => Err(x)
        case Ok(p) =>
          if v.Null? || p.Null? then Ok(Null)
          else Ok(Boolean(LikeMatch(env.lib, p, v) != negated)))
    case InList(arg, list, negated) => (
      match Eval(arg, env)
      case Err(x) => Err(x)
      case Ok(v) =>
        if v.Null? then Ok(Null)
        else
          match Among(v, list, env)
          case Err(x) => Err(x)
          case Ok(found) => Ok(Boolean(found != negated)))
    case Function(name, args) => (
      match EvalAll(args, env)
      case Err(x) => Err(x)
      case Ok(vs) => env.lib.scalar(name, vs))
    case Cast(arg, ty) => (
      match Eval(arg, env)
      case Err(x) => Err(x)
      case Ok(v) => Ok(env.lib.cast(v, ty)))
    case Case(operand, whens, otherwise) => (
      match operand
      case Some(o) => (
        match Eval(o, env)
        case Err(x) => Err(x)
        case Ok(v) =>
          match Branch(Some(v), whens, env)
          case Err(x) => Err(x)
          case Ok(Some(w)) => Ok(w)
          case Ok(None) => Otherwise(otherwise, env))
      case None =>
        match Branch(None, whens, env)
        case Err(x) => Err(x)
        case Ok(Some(w)) => Ok(w)
        case Ok(None) => Otherwise(otherwise, env))
    case Subquery => Err(Unsupported)
  }

  /** LIKE says whether the text splits into one piece for each item of the pattern, NULL if either is NULL. */
  lemma LikeMeaning(arg: Expr, pattern: Expr, negated: bool, env: Env)
    ensures var r, a, p := Eval(Like(arg, pattern, negated), env), Eval(arg, env), Eval(pattern, env);
            && (a.Err? ==> r == a) && (a.Ok? && p.Err? ==> r == p)
            && (a.Ok? && p.Ok? && (a.value.Null? || p.value.Null?) ==> r == Ok(Null))
            && (a.Ok? && p.Ok? && !a.value.Null? && !p.value.Null? ==>
                  r == Ok(Boolean(Patterns.Accepts(Patterns.LikeItems(env.lib.lower(env.lib.display(p.value))),
                                                   env.lib.lower(env.lib.display(a.value))) != negated)))
  {
    hide Patterns.Accepts;
    var a, p := Eval(arg, env), Eval(pattern, env);
    if a.Ok? && p.Ok? {
      Patterns.LikeExact(env.lib.lower(env.lib.display(p.value)), env.lib.lower(env.lib.display(a.value)));
    }
  }

  /** Whether v equals an element of the list; elements after the first equal one are not evaluated. */
  function Among(v: Value, list: seq<Expr>, env: Env): Result<bool>
    decreases list, 0
  {
    if list == [] then Ok(false)
    else
      match Eval(list[0], env)
      case Err(x) => Err(x)
      case Ok(w) => if Compare(env.lib, v, w) == Some(Equal) then Ok(true) else Among(v, list[1..], env)
  }

  function EvalAll(es: seq<Expr>, env: Env): Result<seq<Value>>
    decreases es, 0
  {
    if es == [] then Ok([])
    else
      match Eval(es[0], env)
      case Err(x) => Err(x)
      case Ok(v) =>
        match EvalAll(es[1..], env)
        case Err(x) => Err(x)
        case Ok(vs) => Ok([v] + vs)
  }

  /** The values of a list of expressions stand in its order; its error is that of the first one that fails. */
  lemma {:induction false} EvalAllMeaning(es: seq<Expr>, env: Env)
    ensures EvalAll(es, env).Ok? ==>
              |EvalAll(es, env).value| == |es| && forall i :: 0 <= i < |es| ==> Eval(es[i], env) == Ok(EvalAll(es, env).value[i])
    ensures EvalAll(es, env).Err? ==>
              exists i :: 0 <= i < |es| && Eval(es[i], env) == Err(EvalAll(es, env).error)
                          && forall j :: 0 <= j < i ==> Eval(es[j], env).Ok?
    decreases |es|
  {
    hide Eval;
    var r := EvalAll(es, env);
    if es != [] && Eval(es[0], env).Ok? {
      EvalAllMeaning(es[1..], env);
      if r.Ok? {
        forall i | 0 <= i < |es|
          ensures Eval(es[i], env) == Ok(r.value[i])
        {
          assert i > 0 ==> es[i] == es[1..][i - 1] && r.value[i] == r.value[1..][i - 1];
        }
      } else {
        var i :| 0 <= i < |es[1..]| && Eval(es[1..][i], env) == Err(r.error) && forall j :: 0 <= j < i ==> Eval(es[1..][j], env).Ok?;
        assert es[i + 1] == es[1..][i];
        forall j | 0 <= j < i + 1
          ensures Eval(es[j], env).Ok?
        {
          assert j > 0 ==> es[j] == es[1..][j - 1];
        }
      }
    }
  }

  function EvalCond(w: When, env: Env): Result<Value>
    decreases w, 2
  {
    Eval(w.cond, env)
  }

  function EvalResult(w: When, env: Env): Result<Value>
    decreases w, 2
  {
    Eval(w.result, env)
  }

  function Otherwise(e: Option<Expr>, env: Env): Result<Value>
    decreases e, 0
  {
    match e
    case Some(e) => Eval(e, env)
    case None => Ok(Null)
  }

  /** The result of the first WHEN that matches the operand, or that is true when there is none. */
  function Branch(operand: Option<Value>, whens: seq<When>, env: Env): Result<Option<Value>>
    decreases whens, 0
  {
    if whens == [] then Ok(None)
    else
      match EvalCond(whens[0], env)
      case Err(x) => Err(x)
      case Ok(v) =>
        var matched := match operand
                       case Some(o) => Compare(env.lib, o, v) == Some(Equal)
                       case None => IsTruthy(env.lib, v);
        if matched then
          match EvalResult(whens[0], env)
          case Err(x) => Err(x)
          case Ok(w) => Ok(Some(w))
        else Branch(operand, whens[1..], env)
  }

  lemma AmongStep(v: Value, list: seq<Expr>, env: Env, i: nat)
    requires i < |list|
    ensures Eval(list[i], env).Err? ==> Among(v, list[i..], env) == Err(Eval(list[i], env).error)
    ensures Eval(list[i], env).Ok? && Compare(env.lib, v, Eval(list[i], env).value) == Some(Equal) ==>
              Among(v, list[i..], env) == Ok(true)
    ensures Eval(list[i], env).Ok? && Compare(env.lib, v, Eval(list[i], env).value) != Some(Equal) ==>
              Among(v, list[i..], env) == Among(v, list[i + 1..], env)
  {
    hide Eval, Compare;
    assert list[i..][0] == list[i] && list[i..][1..] == list[i + 1..];
  }

  predicate EqualsAt(v: Value, list: seq<Expr>, env: Env, i: nat)
    requires i < |list|
  {
    Eval(list[i], env).Ok? && Compare(env.lib, v, Eval(list[i], env).value) == Some(Equal)
  }

  /** The first n elements evaluate without error to values other than v. */
  predicate PassesOver(v: Value, list: seq<Expr>, env: Env, n: nat)
    requires n <= |list|
  {
    forall i :: 0 <= i < n ==> Eval(list[i], env).Ok? && !EqualsAt(v, list, env, i)
  }

  /** IN is true exactly when some element equals v and every element before it evaluates without error to
      another value; false exactly when all of them do; and an error exactly when one is met before an equal
      element. */
  lemma {:induction false} AmongMeaning(v: Value, list: seq<Expr>, env: Env)
    ensures Among(v, list, env) == Ok(true) <==>
              exists i :: 0 <= i < |list| && PassesOver(v, list, env, i) && EqualsAt(v, list, env, i)
    ensures Among(v, list, env) == Ok(false) <==> PassesOver(v, list, env, |list|)
    ensures forall x :: Among(v, list, env) == Err(x) <==>
              exists i :: 0 <= i < |list| && PassesOver(v, list, env, i) && Eval(list[i], env) == Err(x)
  {
    hide *;
    var n := StopsAt(v, list, env);
    forall i | 0 <= i < |list| && PassesOver(v, list, env, i) && (EqualsAt(v, list, env, i) || Eval(list[i], env).Err?)
      ensures i == n
    {
      OneStop(v, list, env, n, i);
    }
    if n == |list| {
      NoStop(v, list, env);
    } else {
      OneStop(v, list, env, n, n);
    }
  }

  /** The element at which the search ends. */
  lemma {:induction false} StopsAt(v: Value, list: seq<Expr>, env: Env) returns (n: nat)
    ensures n <= |list| && PassesOver(v, list, env, n)
    ensures n == |list| ==> Among(v, list, env) == Ok(false)
    ensures n < |list| ==> EqualsAt(v, list, env, n) || Eval(list[n], env).Err?
    ensures n < |list| ==>
              Among(v, list, env) == if Eval(list[n], env).Err? then Err(Eval(list[n], env).error) else Ok(true)
  {
    hide Eval, Compare, Among;
    AmongNone(v, env);
    if list == [] {
      n := 0;
    } else {
      AmongStep(v, list, env, 0);
      assert list[0..] == list;
      if Eval(list[0], env).Err? || EqualsAt(v, list, env, 0) {
        n := 0;
      } else {
        n := StopsAt(v, list[1..], env);
        forall i | 0 <= i < n + 1
          ensures Eval(list[i], env).Ok? && !EqualsAt(v, list, env, i)
        {
          assert i > 0 ==> list[1..][i - 1] == list[i] && !EqualsAt(v, list[1..], env, i - 1);
        }
        n := n + 1;
      }
    }
  }

  lemma OneStop(v: Value, list: seq<Expr>, env: Env, n: nat, i: nat)
    requires n <= |list| && i < |list| && PassesOver(v, list, env, n) && PassesOver(v, list, env, i)
    requires n < |list| ==> EqualsAt(v, list, env, n) || Eval(list[n], env).Err?
    requires EqualsAt(v, list, env, i) || Eval(list[i], env).Err?
    ensures i == n && (EqualsAt(v, list, env, n) <==> Eval(list[n], env).Ok?)
    ensures !PassesOver(v, list, env, |list|)
  {
    hide Eval, Compare;
  }

  lemma NoStop(v: Value, list: seq<Expr>, env: Env)
    requires PassesOver(v, list, env, |list|)
    ensures forall i :: 0 <= i < |list| ==> !EqualsAt(v, list, env, i) && Eval(list[i], env).Ok?
  {
    hide Eval, Compare;
  }

  /** Looks for v in a list of expressions, stopping at the first equal one. */
  method FindInList(v: Value, list: seq<Expr>, env: Env) returns (r: Result<bool>)
    ensures r == Among(v, list, env)
    ensures r == Ok(true) <==> exists i :: 0 <= i < |list| && PassesOver(v, list, env, i) && EqualsAt(v, list, env, i)
    ensures r == Ok(false) <==> PassesOver(v, list, env, |list|)
  {
    hide *;
    AmongMeaning(v, list, env);
    var found := false;
    assert list[0..] == list;
    AmongNone(v, env);
    for i := 0 to |list|
      invariant !found && Among(v, list, env) == Among(v, list[i..], env)
    {
      AmongStep(v, list, env, i);
      var item := Eval(list[i], env);
      if item.Err? { return Err(item.error); }
      if Compare(env.lib, v, item.value) == Some(Equal) {
        found := true;
        break;
      }
    }
    if !found {
      assert list[|list|..] == [];
    }
    return Ok(found);
  }

  lemma AmongNone(v: Value, env: Env)
    ensures Among(v, [], env) == Ok(false)
  {
  }
}
