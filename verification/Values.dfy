/** SQL values: the numeric view, truth, and the orders comparisons and sorting use. */
module Values {
  import opened Common
  import opened Varint

  const MIN_I64: int := -0x8000_0000_0000_0000
  const MAX_I64: int := 0x7fff_ffff_ffff_ffff

  type i64 = v: int | MIN_I64 <= v <= MAX_I64

  /** The bits of a floating-point number; what its operations do is left to `Lib`. */
  type F64 = u64

  /** Text and JSON as their bytes. */
  type Str = seq<byte>

  datatype Value =
    | Null
    | Integer(i: i64)
    | Real(r: F64)
    | Text(s: Str)
    | Blob(bytes: seq<byte>)
    | Boolean(b: bool)
    | Json(json: Str)

  datatype SqlType = NullType | IntegerType | RealType | TextType | BlobType | BooleanType | JsonType

  datatype Ordering = Less | Equal | Greater

  datatype Error =
    | ColumnOutOfRange(column: nat)
    | MissingParam(param: nat)
    | Incomparable
    | NonNumeric
    | Unsupported
    | FunctionError(name: Str)
    | Panic

  datatype Result<+T> = Ok(value: T) | Err(error: Error)

  /** Floating-point arithmetic, text conversions and scalar functions, whatever they compute. */
  datatype Lib = Lib(
    ofInt: i64 -> F64,
    toInt: F64 -> i64,
    add: (F64, F64) -> F64,
    sub: (F64, F64) -> F64,
    mul: (F64, F64) -> F64,
    div: (F64, F64) -> F64,
    rem: (F64, F64) -> F64,
    neg: F64 -> F64,
    whole: F64 -> bool,
    isZero: F64 -> bool,
    compare: (F64, F64) -> Option<Ordering>,
    parse: Str -> Option<F64>,
    parseInt: Str -> Option<i64>,
    display: Value -> Str,
    /** The characters of a text in lower case. */
    lower: Str -> string,
    scalar: (Str, seq<Value>) -> Result<Value>,
    cast: (Value, SqlType) -> Value)

  /** Negation in 64 bits: the least integer is its own negative. */
  function WrapNeg(i: i64): i64 {
    if i == MIN_I64 then i else -i
  }

  function AsF64(lib: Lib, v: Value): Option<F64> {
    match v
    case Integer(i) => Some(lib.ofInt(i))
    case Real(r) => Some(r)
    case Boolean(b) => Some(lib.ofInt(if b then 1 else 0))
    case Text(s) => lib.parse(s)
    case _ => None
  }

  function AsI64(lib: Lib, v: Value): Option<i64> {
    match v
    case Integer(i) => Some(i)
    case Real(r) => Some(lib.toInt(r))
    case Boolean(b) => Some(if b then 1 else 0)
    case Text(s) => lib.parseInt(s)
    case _ => None
  }

  predicate IsTruthy(lib: Lib, v: Value) {
    match v
    case Null => false
    case Boolean(b) => b
    case Integer(i) => i != 0
    case Real(r) => !lib.isZero(r)
    case Text(s) => s != [] && lib.parse(s).Some? && !lib.isZero(lib.parse(s).value)
    case Blob(b) => b != []
    case Json(_) => true
  }

  /** The number of a numeric value; text is not one here. */
  function NumericOnly(lib: Lib, v: Value): Option<F64> {
    match v
    case Integer(i) => Some(lib.ofInt(i))
    case Real(r) => Some(r)
    case Boolean(b) => Some(lib.ofInt(if b then 1 else 0))
    case _ => None
  }

  function ClassRank(v: Value): nat {
    match v
    case Null => 0
    case Integer(_) => 1
    case Real(_) => 1
    case Boolean(_) => 1
    case Text(_) => 2
    case Json(_) => 2
    case Blob(_) => 3
  }

  function CompareNat(a: nat, b: nat): Ordering {
    if a < b then Less else if a == b then Equal else Greater
  }

  /** Lexicographic order of bytes. */
  function CompareBytes(a: seq<byte>, b: seq<byte>): Ordering {
    if a == [] then (if b == [] then Equal else Less)
    else if b == [] then Greater
    else if a[0] != b[0] then CompareNat(a[0], b[0])
    else CompareBytes(a[1..], b[1..])
  }

  /** Comparison in predicates: nothing compares with NULL but NULL. */
  function Compare(lib: Lib, x: Value, y: Value): Option<Ordering> {
    if x.Null? && y.Null? then Some(Equal)
    else if x.Null? || y.Null? then None
    else
      var a, b := NumericOnly(lib, x), NumericOnly(lib, y);
      if a.Some? && b.Some? then lib.compare(a.value, b.value)
      else if x.Text? && y.Text? then Some(CompareBytes(x.s, y.s))
      else if x.Blob? && y.Blob? then Some(CompareBytes(x.bytes, y.bytes))
      else Some(CompareNat(ClassRank(x), ClassRank(y)))
  }

  /** Order for sorting: NULL first, incomparable values equal. */
  function OrderKey(lib: Lib, x: Value, y: Value): Ordering {
    if x.Null? && y.Null? then Equal
    else if x.Null? then Less
    else if y.Null? then Greater
    else
      match Compare(lib, x, y)
      case Some(o) => o
      case None => Equal
  }
}
