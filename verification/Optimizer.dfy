/** Constant folding, and when it keeps the meaning of an expression. */
module Optimizer {
  import opened Common
  import opened Varint
  import opened Values
  import opened Evaluation

  function FoldBinary(lib: Lib, op: BinOp, a: Value, b: Value): Option<Value> {
    if op != Add && op != Sub && op != Mul then None
    else
      var x, y := AsF64(lib, a), AsF64(lib, b);
      if x.None? || y.None? then None
      else
        var r := if op == Add then lib.add(x.value, y.value)
                 else if op == Sub then lib.sub(x.value, y.value)
                 else lib.mul(x.value, y.value);
        Some(if a.Integer? && b.Integer? && lib.whole(r) then Integer(lib.toInt(r)) else Real(r))
  }

  function FoldUnary(lib: Lib, op: UnOp, v: Value): Option<Value> {
    match op
    case Neg => (
      match v
      case Integer(i) => Some(Integer(WrapNeg(i)))
      case Real(r) => Some(Real(lib.neg(r)))
      case _ => None)
    case Not => Some(Boolean(!IsTruthy(lib, v)))
  }

  /** Replaces operations on literals by their results, under binary and unary operators only. */
  function Fold(lib: Lib, e: Expr): Expr {
    match e
    case Binary(op, left, right) =>
      var l, r := Fold(lib, left), Fold(lib, right);
      if l.Literal? && r.Literal? && FoldBinary(lib, op, l.v, r.v).Some? then
        Literal(FoldBinary(lib, op, l.v, r.v).value)
      else Binary(op, l, r)
    case Unary(op, arg) =>
      var a := Fold(lib, arg);
      if a.Literal? && FoldUnary(lib, op, a.v).Some? then Literal(FoldUnary(lib, op, a.v).value)
      else Unary(op, a)
    case _ => e
  }

  /** Whether folding reaches a NOT applied to the literal NULL. */
  predicate NegatesNull(e: Expr) {
    match e
    case Binary(_, l, r) => NegatesNull(l) || NegatesNull(r)
    case Unary(op, arg) => (op == Not && arg == Literal(Null)) || NegatesNull(arg)
    case _ => false
  }

  /** The expression with each such NOT NULL replaced by true. */
  function Repaired(e: Expr): Expr {
    match e
    case Binary(op, l, r) => Binary(op, Repaired(l), Repaired(r))
    case Unary(op, arg) => if op == Not && arg == Literal(Null) then Literal(Boolean(true)) else Unary(op, Repaired(arg))
    case _ => e
  }

  lemma {:induction false} RepairedSame(e: Expr)
    ensures !NegatesNull(e) <==> Repaired(e) == e
  {
    match e
    case Binary(_, l, r) =>
      RepairedSame(l);
      RepairedSame(r);
    case Unary(_, arg) => RepairedSame(arg);
    case _ =>
  }

  /** Folding makes no NULL. */
  lemma FoldIsNull(lib: Lib, e: Expr)
    ensures Fold(lib, e) == Literal(Null) <==> e == Literal(Null)
  {
  }

  lemma FoldBinaryRight(lib: Lib, op: BinOp, a: Value, b: Value)
    requires FoldBinary(lib, op, a, b).Some?
    ensures EvalBinary(lib, op, a, b) == Ok(FoldBinary(lib, op, a, b).value)
  {
  }

  lemma FoldUnaryRight(lib: Lib, op: UnOp, v: Value)
    requires FoldUnary(lib, op, v).Some?
    ensures op == Not && v == Null ==> FoldUnary(lib, op, v).value == Boolean(true) && EvalUnary(lib, op, v) == Null
    ensures op == Neg || v != Null ==> EvalUnary(lib, op, v) == FoldUnary(lib, op, v).value
  {
  }

  lemma EvalBinaryIs(op: BinOp, l: Expr, r: Expr, env: Env)
    ensures Eval(Binary(op, l, r), env) ==
            match Eval(l, env)
            case Err(x) => Err(x)
            case Ok(a) =>
              match Eval(r, env)
              case Err(x) => Err(x)
              case Ok(b) => EvalBinary(env.lib, op, a, b)
  {
  }

  lemma EvalUnaryIs(op: UnOp, arg: Expr, env: Env)
    ensures Eval(Unary(op, arg), env) ==
            match Eval(arg, env)
            case Err(x) => Err(x)
            case Ok(v) => Ok(EvalUnary(env.lib, op, v))
  {
  }

  lemma EvalLiteralIs(v: Value, env: Env)
    ensures Eval(Literal(v), env) == Ok(v)
  {
  }

  /** A folded expression evaluates, on every row, with every parameter and in every arithmetic, to
      what the original would if NOT NULL were true; errors included. */
  lemma {:induction false} FoldMeaning(e: Expr, env: Env)
    ensures Eval(Fold(env.lib, e), env) == Eval(Repaired(e), env)
  {
    hide Eval, EvalBinary, EvalUnary, FoldBinary, FoldUnary;
    var lib := env.lib;
    match e
    case Binary(op, left, right) =>
      FoldMeaning(left, env);
      FoldMeaning(right, env);
      var l, r := Fold(lib, left), Fold(lib, right);
      EvalBinaryIs(op, l, r, env);
      EvalBinaryIs(op, Repaired(left), Repaired(right), env);
      if l.Literal? && r.Literal? && FoldBinary(lib, op, l.v, r.v).Some? {
        EvalLiteralIs(l.v, env);
        EvalLiteralIs(r.v, env);
        FoldBinaryRight(lib, op, l.v, r.v);
        EvalLiteralIs(FoldBinary(lib, op, l.v, r.v).value, env);
      }
    case Unary(op, arg) =>
      FoldMeaning(arg, env);
      FoldIsNull(lib, arg);
      var a := Fold(lib, arg);
      EvalUnaryIs(op, a, env);
      EvalUnaryIs(op, Repaired(arg), env);
      if a.Literal? && FoldUnary(lib, op, a.v).Some? {
        EvalLiteralIs(a.v, env);
        FoldUnaryRight(lib, op, a.v);
        EvalLiteralIs(FoldUnary(lib, op, a.v).value, env);
      } else if op == Not && arg == Literal(Null) {
        FoldNot(lib, Null);
      }
    case _ =>
  }

  lemma FoldNot(lib: Lib, v: Value)
    ensures FoldUnary(lib, Not, v).Some?
  {
  }

  /** Folding preserves meaning where it meets no NOT NULL. */
  lemma {:induction false} FoldPreserves(e: Expr, env: Env)
    requires !NegatesNull(e)
    ensures Eval(Fold(env.lib, e), env) == Eval(e, env)
  {
    FoldMeaning(e, env);
    RepairedSame(e);
  }

  /** Folding a NOT is right exactly when its operand is not the literal NULL. */
  lemma FoldNotExact(arg: Expr, env: Env)
    requires !NegatesNull(arg)
    ensures Eval(Fold(env.lib, Unary(Not, arg)), env) == Eval(Unary(Not, arg), env) <==> arg != Literal(Null)
  {
    FoldMeaning(Unary(Not, arg), env);
    RepairedSame(Unary(Not, arg));
  }

  /** WHERE NOT NULL keeps no row; folded, it keeps every row. */
  lemma FoldedFilterDiffers(env: Env)
    ensures Eval(Unary(Not, Literal(Null)), env) == Ok(Null)
    ensures Eval(Fold(env.lib, Unary(Not, Literal(Null))), env) == Ok(Boolean(true))
  {
  }

  /** No sum, difference or product of two literal numbers is left, no negated literal number, and no NOT of a literal,
      except inside the operands of other operators. */
  predicate NothingToFold(lib: Lib, e: Expr) {
    match e
    case Binary(op, l, r) =>
      && NothingToFold(lib, l) && NothingToFold(lib, r)
      && !((op == Add || op == Sub || op == Mul) && l.Literal? && r.Literal? && AsF64(lib, l.v).Some? && AsF64(lib, r.v).Some?)
    case Unary(op, arg) =>
      && NothingToFold(lib, arg)
      && !(arg.Literal? && (op == Not || arg.v.Integer? || arg.v.Real?))
    case _ => true
  }

  /** Folding leaves none of them. */
  lemma {:induction false} FoldComplete(lib: Lib, e: Expr)
    ensures NothingToFold(lib, Fold(lib, e))
  {
    match e
    case Binary(_, l, r) =>
      FoldComplete(lib, l);
      FoldComplete(lib, r);
    case Unary(_, arg) => FoldComplete(lib, arg);
    case _ =>
  }

  /** Folding twice folds no further. */
  lemma {:induction false} FoldIdempotent(lib: Lib, e: Expr)
    ensures Fold(lib, Fold(lib, e)) == Fold(lib, e)
  {
    hide FoldBinary, FoldUnary;
    match e
    case Binary(_, l, r) =>
      FoldIdempotent(lib, l);
      FoldIdempotent(lib, r);
    case Unary(_, arg) => FoldIdempotent(lib, arg);
    case _ =>
  }
}
