/** What the operators of expressions compute, said about evaluation as a whole. */
module EvalLaws {
  import opened Common
  import opened Varint
  import opened Values
  import opened Evaluation
  import opened Orders

  // ---- comparisons ----

  /** x is less than y: as numbers, as bytes, or by kind: numbers before text before blobs. */
  ghost predicate Below(lib: Lib, x: Value, y: Value) {
    || NumbersCompare(lib, x, y, Less)
    || (IsNumeric(x) && (y.Text? || y.Json? || y.Blob?)) || ((x.Text? || x.Json?) && y.Blob?)
    || (x.Text? && y.Text? && BytesBefore(x.s, y.s)) || (x.Blob? && y.Blob? && BytesBefore(x.bytes, y.bytes))
  }

  ghost predicate Above(lib: Lib, x: Value, y: Value) {
    if IsNumeric(x) && IsNumeric(y) then NumbersCompare(lib, x, y, Greater) else Below(lib, y, x)
  }

  /** x equals y; JSON equals every text and every JSON. */
  ghost predicate Alike(lib: Lib, x: Value, y: Value) {
    || NumbersCompare(lib, x, y, Equal) || (x.Text? && y.Text? && x.s == y.s) || (x.Blob? && y.Blob? && x.bytes == y.bytes)
    || (x.Json? && (y.Json? || y.Text?)) || (x.Text? && y.Json?)
  }

  /** Two numbers of which one is a NaN. */
  ghost predicate Unordered(lib: Lib, x: Value, y: Value) {
    exists a: F64, b: F64 {:trigger lib.compare(a, b)} :: NumberIs(lib, x, a) && NumberIs(lib, y, b) && lib.compare(a, b) == None
  }

  lemma UnorderedIs(lib: Lib, x: Value, y: Value)
    ensures Unordered(lib, x, y) <==>
            NumericOnly(lib, x).Some? && NumericOnly(lib, y).Some?
            && lib.compare(NumericOnly(lib, x).value, NumericOnly(lib, y).value) == None
  {
    if NumericOnly(lib, x).Some? && NumericOnly(lib, y).Some? {
      var a, b := NumericOnly(lib, x).value, NumericOnly(lib, y).value;
      assert NumberIs(lib, x, a) && NumberIs(lib, y, b);
      assert lib.compare(a, b) == lib.compare(a, b);
    }
  }

  lemma CompareMeaning(lib: Lib, x: Value, y: Value)
    requires !x.Null? && !y.Null?
    ensures Compare(lib, x, y) == None <==> Unordered(lib, x, y)
    ensures Compare(lib, x, y) == Some(Less) <==> Below(lib, x, y)
    ensures Compare(lib, x, y) == Some(Greater) <==> Above(lib, x, y)
    ensures Compare(lib, x, y) == Some(Equal) <==> Alike(lib, x, y)
  {
    hide CompareBytes, BytesBefore, NumbersCompare, NumericOnly, Unordered;
    NumbersAre(lib, x, y, Less);
    NumbersAre(lib, x, y, Equal);
    NumbersAre(lib, x, y, Greater);
    NumbersAre(lib, y, x, Less);
    UnorderedIs(lib, x, y);
    if x.Text? && y.Text? {
      BytesOrder(x.s, y.s);
    }
    if x.Blob? && y.Blob? {
      BytesOrder(x.bytes, y.bytes);
    }
  }

  /** The comparison operators: NULL on NULL, an error on a NaN, and else whether one side is less, greater or
      equal. */
  lemma ComparisonMeaning(l: Expr, r: Expr, env: Env, x: Value, y: Value)
    requires Eval(l, env) == Ok(x) && Eval(r, env) == Ok(y)
    ensures x.Null? || y.Null? ==>
              && Eval(Binary(Lt, l, r), env) == Eval(Binary(Gt, l, r), env) == Ok(Null)
              && Eval(Binary(LtEq, l, r), env) == Eval(Binary(GtEq, l, r), env) == Ok(Null)
              && Eval(Binary(Eq, l, r), env) == Eval(Binary(NotEq, l, r), env) == Ok(Null)
    ensures !x.Null? && !y.Null? && Unordered(env.lib, x, y) ==>
              && Eval(Binary(Lt, l, r), env) == Eval(Binary(Gt, l, r), env) == Err(Incomparable)
              && Eval(Binary(LtEq, l, r), env) == Eval(Binary(GtEq, l, r), env) == Err(Incomparable)
              && Eval(Binary(Eq, l, r), env) == Eval(Binary(NotEq, l, r), env) == Err(Incomparable)
    ensures !x.Null? && !y.Null? && !Unordered(env.lib, x, y) ==>
              && Eval(Binary(Lt, l, r), env) == Ok(Boolean(Below(env.lib, x, y)))
              && Eval(Binary(Gt, l, r), env) == Ok(Boolean(Above(env.lib, x, y)))
              && Eval(Binary(LtEq, l, r), env) == Ok(Boolean(!Above(env.lib, x, y)))
              && Eval(Binary(GtEq, l, r), env) == Ok(Boolean(!Below(env.lib, x, y)))
              && Eval(Binary(Eq, l, r), env) == Ok(Boolean(Alike(env.lib, x, y)))
              && Eval(Binary(NotEq, l, r), env) == Ok(Boolean(!Alike(env.lib, x, y)))
  {
    hide Compare, Below, Above, Alike, Unordered, Eval;
    CompareIs(Lt, l, r, env, x, y);
    CompareIs(Gt, l, r, env, x, y);
    CompareIs(LtEq, l, r, env, x, y);
    CompareIs(GtEq, l, r, env, x, y);
    CompareIs(Eq, l, r, env, x, y);
    CompareIs(NotEq, l, r, env, x, y);
    if !x.Null? && !y.Null? {
      CompareMeaning(env.lib, x, y);
    }
  }

  lemma CompareIs(op: BinOp, l: Expr, r: Expr, env: Env, x: Value, y: Value)
    requires IsComparison(op) && Eval(l, env) == Ok(x) && Eval(r, env) == Ok(y)
    ensures Eval(Binary(op, l, r), env) ==
            if x.Null? || y.Null? then Ok(Null)
            else match Compare(env.lib, x, y) case None => Err(Incomparable) case Some(o) => Ok(Boolean(OutcomeOf(op, o)))
  {
    hide Compare, OutcomeOf, Truth, EvalArith;
  }

  /** An operator fails with its left side, then with its right side. */
  lemma SidesFail(op: BinOp, l: Expr, r: Expr, env: Env, x: Error)
    ensures Eval(l, env) == Err(x) ==> Eval(Binary(op, l, r), env) == Err(x)
    ensures Eval(l, env).Ok? && Eval(r, env) == Err(x) ==> Eval(Binary(op, l, r), env) == Err(x)
  {
  }

  // ---- truth ----

  /** What counts as true: a true boolean, a number that is not zero or text of one, a blob of any bytes, and JSON. */
  ghost predicate IsTrue(lib: Lib, v: Value) {
    || v == Boolean(true) || (v.Integer? && v.i != 0) || (v.Real? && !lib.isZero(v.r))
    || (v.Text? && |v.s| > 0 && exists x: F64 :: lib.parse(v.s) == Some(x) && !lib.isZero(x))
    || (v.Blob? && |v.bytes| > 0) || v.Json?
  }

  /** False is all else but NULL. */
  ghost predicate IsFalse(lib: Lib, v: Value) {
    v != Null && !IsTrue(lib, v)
  }

  lemma TruthMeaning(lib: Lib, v: Value)
    ensures IsTruthy(lib, v) <==> IsTrue(lib, v)
    ensures Truth(lib, v) == if v == Null then None else Some(IsTrue(lib, v))
  {
  }

  /** AND, OR and NOT on true, false and NULL. */
  lemma ConnectiveMeaning(l: Expr, r: Expr, env: Env, x: Value, y: Value)
    requires Eval(l, env) == Ok(x) && Eval(r, env) == Ok(y)
    ensures Eval(Binary(And, l, r), env) ==
            if IsFalse(env.lib, x) || IsFalse(env.lib, y) then Ok(Boolean(false))
            else if IsTrue(env.lib, x) && IsTrue(env.lib, y) then Ok(Boolean(true)) else Ok(Null)
    ensures Eval(Binary(Or, l, r), env) ==
            if IsTrue(env.lib, x) || IsTrue(env.lib, y) then Ok(Boolean(true))
            else if IsFalse(env.lib, x) && IsFalse(env.lib, y) then Ok(Boolean(false)) else Ok(Null)
    ensures Eval(Unary(Not, l), env) == if x == Null then Ok(Null) else Ok(Boolean(IsFalse(env.lib, x)))
  {
    hide IsTruthy, Compare, EvalArith, IsTrue;
    TruthMeaning(env.lib, x);
    TruthMeaning(env.lib, y);
    assert !IsTrue(env.lib, Null) by {
      NullIsNot(env.lib);
    }
  }

  lemma NullIsNot(lib: Lib)
    ensures !IsTrue(lib, Null)
  {
  }

  // ---- CASE ----

  /** A WHEN matches if it equals the operand, NULL matching NULL, or, without an operand, if it is true. */
  ghost predicate Applies(operand: Option<Value>, w: When, env: Env) {
    && Eval(w.cond, env).Ok?
    && var v := Eval(w.cond, env).value;
       match operand
       case None => IsTrue(env.lib, v)
       case Some(o) => (o == Null && v == Null) || (o != Null && v != Null && Alike(env.lib, o, v))
  }

  /** The first n WHENs evaluate, and do not match. */
  ghost predicate Reaches(operand: Option<Value>, whens: seq<When>, env: Env, n: nat)
    requires n <= |whens|
  {
    forall i :: 0 <= i < n ==> Eval(whens[i].cond, env).Ok? && !Applies(operand, whens[i], env)
  }

  lemma EqualIs(lib: Lib, o: Value, v: Value)
    ensures Compare(lib, o, v) == Some(Equal) <==> (o == Null && v == Null) || (o != Null && v != Null && Alike(lib, o, v))
  {
    hide Alike, NumericOnly, CompareBytes;
    if o != Null && v != Null {
      CompareMeaning(lib, o, v);
    }
  }

  lemma AppliesIs(operand: Option<Value>, w: When, env: Env)
    requires Eval(w.cond, env).Ok?
    ensures var v := Eval(w.cond, env).value;
            Applies(operand, w, env) <==>
            match operand case Some(o) => Compare(env.lib, o, v) == Some(Equal) case None => IsTruthy(env.lib, v)
  {
    hide Alike, Compare, IsTruthy, IsTrue, Eval;
    var v := Eval(w.cond, env).value;
    TruthMeaning(env.lib, v);
    if operand.Some? {
      EqualIs(env.lib, operand.value, v);
    }
  }

  /** The WHEN at which the search ends, and with what. */
  lemma {:induction false} BranchMeaning(operand: Option<Value>, whens: seq<When>, env: Env) returns (n: nat)
    ensures n <= |whens| && Reaches(operand, whens, env, n)
    ensures n < |whens| ==> Eval(whens[n].cond, env).Err? || Applies(operand, whens[n], env)
    ensures n == |whens| ==> Branch(operand, whens, env) == Ok(None)
    ensures n < |whens| && Eval(whens[n].cond, env).Err? ==> Branch(operand, whens, env) == Err(Eval(whens[n].cond, env).error)
    ensures n < |whens| && Eval(whens[n].cond, env).Ok? ==>
              Branch(operand, whens, env) == match Eval(whens[n].result, env) case Err(x) => Err(x) case Ok(w) => Ok(Some(w))
    decreases |whens|
  {
    hide Eval, Applies, Compare, IsTruthy;
    n := 0;
    if whens != [] {
      if Eval(whens[0].cond, env).Ok? {
        AppliesIs(operand, whens[0], env);
      }
      BranchStep(operand, whens, env);
      if Eval(whens[0].cond, env).Ok? && !Applies(operand, whens[0], env) {
        n := BranchMeaning(operand, whens[1..], env);
        forall i | 0 <= i < n + 1
          ensures Eval(whens[i].cond, env).Ok? && !Applies(operand, whens[i], env)
        {
          assert i > 0 ==> whens[i] == whens[1..][i - 1];
        }
        n := n + 1;
      }
    }
  }

  lemma BranchStep(operand: Option<Value>, whens: seq<When>, env: Env)
    requires whens != []
    ensures Branch(operand, whens, env) ==
            match Eval(whens[0].cond, env)
            case Err(x) => Err(x)
            case Ok(v) =>
              if match operand case Some(o) => Compare(env.lib, o, v) == Some(Equal) case None => IsTruthy(env.lib, v)
              then match Eval(whens[0].result, env) case Err(x) => Err(x) case Ok(w) => Ok(Some(w))
              else Branch(operand, whens[1..], env)
  {
    hide Compare, IsTruthy;
  }

  /** CASE is the result of the first WHEN that matches, and ELSE, or NULL, if none does; what comes after is not
      evaluated, and an error before is the error of the whole. */
  lemma CaseMeaning(operand: Option<Expr>, whens: seq<When>, otherwise: Option<Expr>, env: Env, n: nat)
    requires operand.Some? ==> Eval(operand.value, env).Ok?
    requires var o := if operand.Some? then Some(Eval(operand.value, env).value) else None;
             && n <= |whens| && Reaches(o, whens, env, n)
             && (n < |whens| ==> Eval(whens[n].cond, env).Err? || Applies(o, whens[n], env))
    ensures var r := Eval(Case(operand, whens, otherwise), env);
            && (n < |whens| && Eval(whens[n].cond, env).Err? ==> r == Err(Eval(whens[n].cond, env).error))
            && (n < |whens| && Eval(whens[n].cond, env).Ok? ==> r == Eval(whens[n].result, env))
            && (n == |whens| ==> r == if otherwise.Some? then Eval(otherwise.value, env) else Ok(Null))
  {
    hide Applies, Compare, IsTruthy, Branch;
    var o := if operand.Some? then Some(Eval(operand.value, env).value) else None;
    var m := BranchMeaning(o, whens, env);
    OneEnd(o, whens, env, n, m);
  }

  lemma OneEnd(o: Option<Value>, whens: seq<When>, env: Env, n: nat, m: nat)
    requires n <= |whens| && m <= |whens| && Reaches(o, whens, env, n) && Reaches(o, whens, env, m)
    requires n < |whens| ==> Eval(whens[n].cond, env).Err? || Applies(o, whens[n], env)
    requires m < |whens| ==> Eval(whens[m].cond, env).Err? || Applies(o, whens[m], env)
    ensures n == m
  {
    hide Eval, Applies;
  }

  /** The operand's error comes first. */
  lemma CaseFails(operand: Expr, whens: seq<When>, otherwise: Option<Expr>, env: Env)
    requires Eval(operand, env).Err?
    ensures Eval(Case(Some(operand), whens, otherwise), env) == Eval(operand, env)
  {
    hide Branch, Otherwise;
  }

  // ---- arithmetic ----

  /** x is the number of v, or the one its text stands for. */
  predicate ReadsAs(lib: Lib, v: Value, x: F64) {
    NumberIs(lib, v, x) || (v.Text? && lib.parse(v.s) == Some(x))
  }

  /** A result of arithmetic: an integer from two integers if it is whole. */
  predicate IsResult(lib: Lib, x: Value, y: Value, z: F64, r: Value) {
    if x.Integer? && y.Integer? && lib.whole(z) then r == Integer(lib.toInt(z)) else r == Real(z)
  }

  /** q is a / b cut off toward zero, and m what is left. */
  predicate Quotient(a: int, b: int, q: int, m: int) {
    && a == b * q + m && m < Abs(b) && -m < Abs(b) && (m > 0 ==> a > 0) && (m < 0 ==> a < 0)
  }

  /** q and m are the quotient and remainder of the sizes. */
  predicate SizesDivide(a: int, b: int, q: int, m: int) {
    q >= 0 && 0 <= m < Abs(b) && Abs(a) == Abs(b) * q + m
  }

  lemma SizesOf(a: int, b: int) returns (q: int, m: int)
    requires b != 0
    ensures SizesDivide(a, b, q, m) && q == Abs(a) / Abs(b) && m == Abs(a) % Abs(b)
  {
    q, m := Abs(a) / Abs(b), Abs(a) % Abs(b);
  }

  /** The signs put back. */
  lemma SignedQuotient(a: int, b: int, q: int, m: int)
    requires SizesDivide(a, b, q, m)
    ensures Quotient(a, b, if (a >= 0) == (b >= 0) then q else -q, if a >= 0 then m else -m)
  {
    SignedProduct(b, q);
  }

  lemma SignedProduct(b: int, q: int)
    ensures b * (-q) == -(b * q) && (-b) * q == -(b * q) && (-b) * (-q) == b * q
  {
  }

  /** There is a quotient. */
  predicate Divides(a: i64, b: i64) {
    b != 0 && !(a == MIN_I64 && b == -1)
  }

  lemma DivIs(a: i64, b: i64, q: int, m: int)
    requires Divides(a, b) && q == Abs(a) / Abs(b) && m == Abs(a) % Abs(b)
    ensures DivI64(a, b).Ok? && DivI64(a, b).value.Integer? && DivI64(a, b).value.i == if (a >= 0) == (b >= 0) then q else -q
    ensures RemI64(a, b).Ok? && RemI64(a, b).value.Integer? && RemI64(a, b).value.i == if a >= 0 then m else -m
  {
  }

  /** Integer division cuts off toward zero, and the remainder has the sign of the dividend; it panics for a divisor of
      zero, and for the one quotient too large. */
  lemma DivMeaning(a: i64, b: i64)
    ensures b == 0 || (a == MIN_I64 && b == -1) ==> DivI64(a, b) == RemI64(a, b) == Err(Panic)
    ensures !(b == 0 || (a == MIN_I64 && b == -1)) ==>
              DivI64(a, b).Ok? && RemI64(a, b).Ok? && DivI64(a, b).value.Integer? && RemI64(a, b).value.Integer?
              && Quotient(a, b, DivI64(a, b).value.i, RemI64(a, b).value.i)
  {
    if Divides(a, b) {
      Divided(a, b);
    }
  }

  lemma Divided(a: i64, b: i64)
    requires Divides(a, b)
    ensures DivI64(a, b).Ok? && RemI64(a, b).Ok? && DivI64(a, b).value.Integer? && RemI64(a, b).value.Integer?
    ensures Quotient(a, b, DivI64(a, b).value.i, RemI64(a, b).value.i)
  {
    hide Quotient, SizesDivide, DivI64, RemI64, Abs;
    var q, m := SizesOf(a, b);
    SignedQuotient(a, b, q, m);
    DivIs(a, b, q, m);
  }

  lemma BinaryIs(op: BinOp, l: Expr, r: Expr, env: Env, x: Value, y: Value)
    requires Eval(l, env) == Ok(x) && Eval(r, env) == Ok(y)
    ensures Eval(Binary(op, l, r), env) == EvalBinary(env.lib, op, x, y)
  {
    hide EvalBinary;
  }

  lemma ArithIs(op: BinOp, l: Expr, r: Expr, env: Env, x: Value, y: Value)
    requires IsArith(op) && Eval(l, env) == Ok(x) && Eval(r, env) == Ok(y)
    ensures Eval(Binary(op, l, r), env) == EvalArith(env.lib, op, x, y)
  {
    hide EvalArith, Truth, Eval, Compare;
    BinaryIs(op, l, r, env, x, y);
  }

  /** Arithmetic with NULL is NULL, and with what stands for no number an error. */
  lemma ArithmeticFails(op: BinOp, l: Expr, r: Expr, env: Env, x: Value, y: Value)
    requires IsArith(op) && Eval(l, env) == Ok(x) && Eval(r, env) == Ok(y)
    ensures x == Null || y == Null ==> Eval(Binary(op, l, r), env) == Ok(Null)
    ensures x != Null && y != Null && ((forall a: F64 :: !ReadsAs(env.lib, x, a)) || (forall b: F64 :: !ReadsAs(env.lib, y, b))) ==>
              Eval(Binary(op, l, r), env) == Err(NonNumeric)
  {
    hide DivI64, RemI64, Eval, ReadsAs, AsF64, Evaluation.Numeric;
    ArithIs(op, l, r, env, x, y);
    NumbersRead(env.lib, x);
    NumbersRead(env.lib, y);
    if AsF64(env.lib, x).Some? {
      assert ReadsAs(env.lib, x, AsF64(env.lib, x).value);
    }
    if AsF64(env.lib, y).Some? {
      assert ReadsAs(env.lib, y, AsF64(env.lib, y).value);
    }
  }

  /** Sums, differences and products of two numbers. */
  lemma ArithmeticMeaning(l: Expr, r: Expr, env: Env, x: Value, y: Value, a: F64, b: F64)
    requires Eval(l, env) == Ok(x) && Eval(r, env) == Ok(y) && ReadsAs(env.lib, x, a) && ReadsAs(env.lib, y, b)
    ensures var sum := Eval(Binary(Add, l, r), env); sum.Ok? && IsResult(env.lib, x, y, env.lib.add(a, b), sum.value)
    ensures var rest := Eval(Binary(Sub, l, r), env); rest.Ok? && IsResult(env.lib, x, y, env.lib.sub(a, b), rest.value)
    ensures var product := Eval(Binary(Mul, l, r), env); product.Ok? && IsResult(env.lib, x, y, env.lib.mul(a, b), product.value)
  {
    hide Eval, AsF64;
    ArithIs(Add, l, r, env, x, y);
    ArithIs(Sub, l, r, env, x, y);
    ArithIs(Mul, l, r, env, x, y);
    NumbersRead(env.lib, x);
    NumbersRead(env.lib, y);
  }

  /** Quotients and remainders: NULL for a divisor of zero; of integers as `DivMeaning` says. */
  lemma DivisionMeaning(l: Expr, r: Expr, env: Env, x: Value, y: Value, a: F64, b: F64)
    requires Eval(l, env) == Ok(x) && Eval(r, env) == Ok(y) && ReadsAs(env.lib, x, a) && ReadsAs(env.lib, y, b)
    ensures env.lib.isZero(b) ==> Eval(Binary(Div, l, r), env) == Eval(Binary(Mod, l, r), env) == Ok(Null)
    ensures !env.lib.isZero(b) && !(x.Integer? && y.Integer?) ==>
              && Eval(Binary(Div, l, r), env) == Ok(Real(env.lib.div(a, b)))
              && Eval(Binary(Mod, l, r), env) == Ok(Real(env.lib.rem(a, b)))
    ensures !env.lib.isZero(b) && x.Integer? && y.Integer? ==>
              && Eval(Binary(Div, l, r), env) == DivI64(env.lib.toInt(a), env.lib.toInt(b))
              && Eval(Binary(Mod, l, r), env) == RemI64(env.lib.toInt(a), env.lib.toInt(b))
  {
    hide DivI64, RemI64, Eval, AsF64;
    ArithIs(Div, l, r, env, x, y);
    ArithIs(Mod, l, r, env, x, y);
    NumbersRead(env.lib, x);
    NumbersRead(env.lib, y);
  }

  lemma NumbersRead(lib: Lib, v: Value)
    ensures forall a: F64 :: ReadsAs(lib, v, a) <==> AsF64(lib, v) == Some(a)
  {
  }

  /** The other operators and the leaves. */
  lemma LeafMeaning(env: Env, c: nat, v: Value)
    ensures Eval(Literal(v), env) == Ok(v) && Eval(RowId, env) == Ok(Integer(env.rowId))
    ensures Eval(Column(c), env) == if c < |env.row| then Ok(env.row[c]) else Err(ColumnOutOfRange(c))
    ensures Eval(Param(c), env) == if c < |env.params| then Ok(env.params[c]) else Err(MissingParam(c))
  {
  }

  lemma ConcatMeaning(l: Expr, r: Expr, env: Env, x: Value, y: Value)
    requires Eval(l, env) == Ok(x) && Eval(r, env) == Ok(y)
    ensures Eval(Binary(Concat, l, r), env) ==
            if x == Null || y == Null then Ok(Null) else Ok(Text(env.lib.display(x) + env.lib.display(y)))
  {
    hide Truth, Compare, EvalArith, Eval;
    BinaryIs(Concat, l, r, env, x, y);
  }

  lemma UnaryMeaning(l: Expr, env: Env, x: Value)
    requires Eval(l, env) == Ok(x)
    ensures Eval(IsNull(l, false), env) == Ok(Boolean(x == Null)) && Eval(IsNull(l, true), env) == Ok(Boolean(x != Null))
    ensures x == Null ==> Eval(Unary(Neg, l), env) == Ok(Null)
    ensures x.Integer? ==> Eval(Unary(Neg, l), env) == Ok(Integer(if x.i == MIN_I64 then x.i else -x.i))
    ensures forall a: F64 :: !x.Integer? && ReadsAs(env.lib, x, a) ==> Eval(Unary(Neg, l), env) == Ok(Real(env.lib.neg(a)))
    ensures x != Null && (forall a: F64 :: !ReadsAs(env.lib, x, a)) ==> Eval(Unary(Neg, l), env) == Ok(Real(env.lib.neg(env.lib.ofInt(0))))
  {
    hide Eval;
    NegIs(l, env, x);
    if AsF64(env.lib, x).Some? {
      assert ReadsAs(env.lib, x, AsF64(env.lib, x).value);
    }
  }

  lemma NegIs(l: Expr, env: Env, x: Value)
    requires Eval(l, env) == Ok(x)
    ensures Eval(Unary(Neg, l), env) == Ok(EvalUnary(env.lib, Neg, x))
    ensures Eval(IsNull(l, false), env) == Ok(Boolean(x == Null)) && Eval(IsNull(l, true), env) == Ok(Boolean(x != Null))
  {
    hide EvalUnary;
  }

  // ---- lists, functions, casts ----

  /** An element that is not NULL and equals v. */
  ghost predicate IsElement(v: Value, e: Expr, env: Env) {
    Eval(e, env).Ok? && Eval(e, env).value != Null && Alike(env.lib, v, Eval(e, env).value)
  }

  /** The first n elements evaluate, and none of them equals v. */
  ghost predicate Misses(v: Value, list: seq<Expr>, env: Env, n: nat)
    requires n <= |list|
  {
    forall i :: 0 <= i < n ==> Eval(list[i], env).Ok? && !IsElement(v, list[i], env)
  }

  lemma MissesIs(v: Value, list: seq<Expr>, env: Env)
    requires v != Null
    ensures forall i :: 0 <= i < |list| ==> (IsElement(v, list[i], env) <==> EqualsAt(v, list, env, i))
    ensures forall n :: 0 <= n <= |list| ==> (Misses(v, list, env, n) <==> PassesOver(v, list, env, n))
  {
    hide Eval, Alike, Compare;
    forall i | 0 <= i < |list|
      ensures IsElement(v, list[i], env) <==> EqualsAt(v, list, env, i)
    {
      if Eval(list[i], env).Ok? {
        EqualIs(env.lib, v, Eval(list[i], env).value);
      }
    }
  }

  /** IN is NULL for NULL, and else ends at the first element that is equal or fails; NOT IN exchanges the answers. */
  lemma InListMeaning(arg: Expr, list: seq<Expr>, negated: bool, env: Env)
    ensures Eval(arg, env).Err? || Eval(arg, env) == Ok(Null) ==> Eval(InList(arg, list, negated), env) == Eval(arg, env)
    ensures Eval(arg, env).Ok? && Eval(arg, env).value != Null ==>
              var r, v := Eval(InList(arg, list, negated), env), Eval(arg, env).value;
              && (r == Ok(Boolean(negated)) <==> Misses(v, list, env, |list|))
              && (r == Ok(Boolean(!negated)) <==> exists n :: 0 <= n < |list| && Misses(v, list, env, n) && IsElement(v, list[n], env))
              && (r.Err? ==> exists n :: 0 <= n < |list| && Misses(v, list, env, n) && Eval(list[n], env) == Err(r.error))
  {
    hide EqualsAt, PassesOver, Misses, IsElement;
    if Eval(arg, env).Ok? && Eval(arg, env).value != Null {
      var v := Eval(arg, env).value;
      AmongMeaning(v, list, env);
      MissesIs(v, list, env);
    }
  }

  /** A function is applied to the values of its arguments, in their order, and fails with the first that fails. */
  lemma FunctionMeaning(name: Str, args: seq<Expr>, env: Env, vs: seq<Value>)
    ensures |vs| == |args| && (forall i :: 0 <= i < |args| ==> Eval(args[i], env) == Ok(vs[i])) ==>
              Eval(Function(name, args), env) == env.lib.scalar(name, vs)
    ensures forall i :: 0 <= i < |args| && Eval(args[i], env).Err? && (forall j :: 0 <= j < i ==> Eval(args[j], env).Ok?) ==>
              Eval(Function(name, args), env) == Err(Eval(args[i], env).error)
  {
    hide Eval;
    FunctionIs(name, args, env);
    EvalAllMeaning(args, env);
    if EvalAll(args, env).Ok? && |vs| == |args| && forall i :: 0 <= i < |args| ==> Eval(args[i], env) == Ok(vs[i]) {
      assert vs == EvalAll(args, env).value;
    }
  }

  lemma FunctionIs(name: Str, args: seq<Expr>, env: Env)
    ensures Eval(Function(name, args), env) ==
            match EvalAll(args, env) case Err(x) => Err(x) case Ok(vs) => env.lib.scalar(name, vs)
  {
    hide EvalAll;
  }

  /** CAST converts the value; a subquery is not supported. */
  lemma CastMeaning(arg: Expr, ty: SqlType, env: Env)
    ensures Eval(Cast(arg, ty), env) == if Eval(arg, env).Err? then Eval(arg, env) else Ok(env.lib.cast(Eval(arg, env).value, ty))
    ensures Eval(Subquery, env) == Err(Unsupported)
  {
  }
}
