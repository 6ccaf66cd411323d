/** The order of values, and stable sorting by any order. */
module Orders {
  import opened Common
  import opened Varint
  import opened Values

  function Flip(o: Ordering): Ordering {
    match o
    case Less => Greater
    case Equal => Equal
    case Greater => Less
  }

  // ---- orders of values ----

  /** Not a NaN: equal to itself. */
  predicate IsNumber(lib: Lib, x: F64) {
    lib.compare(x, x) == Some(Equal)
  }

  /** Numbers other than NaN are totally ordered, as IEEE 754 has it. */
  ghost predicate FloatsOrdered(lib: Lib) {
    && (forall a, b :: IsNumber(lib, a) && IsNumber(lib, b) ==>
          lib.compare(a, b).Some? && lib.compare(b, a) == Some(Flip(lib.compare(a, b).value)))
    && (forall a, b, c {:trigger lib.compare(a, b), lib.compare(b, c)} ::
          IsNumber(lib, a) && IsNumber(lib, b) && IsNumber(lib, c)
          && lib.compare(a, b) != Some(Greater) && lib.compare(b, c) != Some(Greater) ==>
            lib.compare(a, c) != Some(Greater)
            && (lib.compare(a, c) == Some(Equal) ==> lib.compare(a, b) == Some(Equal) && lib.compare(b, c) == Some(Equal)))
  }

  /** Values whose comparison is an order: no JSON, which equals any text, and no NaN. */
  predicate Plain(lib: Lib, v: Value) {
    !v.Json? && (NumericOnly(lib, v).Some? ==> IsNumber(lib, NumericOnly(lib, v).value))
  }

  lemma {:induction false} BytesFlip(a: seq<byte>, b: seq<byte>)
    ensures CompareBytes(b, a) == Flip(CompareBytes(a, b))
    ensures CompareBytes(a, b) == Equal <==> a == b
  {
    if a != [] && b != [] && a[0] == b[0] {
      BytesFlip(a[1..], b[1..]);
      assert a == [a[0]] + a[1..] && b == [b[0]] + b[1..];
    }
  }

  lemma {:induction false} BytesTrans(a: seq<byte>, b: seq<byte>, c: seq<byte>)
    requires CompareBytes(a, b) != Greater && CompareBytes(b, c) != Greater
    ensures CompareBytes(a, c) != Greater
    ensures CompareBytes(a, c) == Equal ==> CompareBytes(a, b) == Equal && CompareBytes(b, c) == Equal
  {
    if a != [] && b != [] && c != [] && a[0] == b[0] == c[0] {
      BytesTrans(a[1..], b[1..], c[1..]);
    }
  }

  // ---- what the orders say ----

  /** The first n bytes agree. */
  predicate AgreeTo(a: seq<byte>, b: seq<byte>, n: nat) {
    n <= |a| && n <= |b| && forall i :: 0 <= i < n ==> a[i] == b[i]
  }

  /** a is a proper prefix of b, or smaller at the first byte in which they differ. */
  ghost predicate BytesBefore(a: seq<byte>, b: seq<byte>) {
    exists n: nat :: AgreeTo(a, b, n) && n < |b| && (n < |a| ==> a[n] < b[n])
  }

  lemma {:induction false} BytesLess(a: seq<byte>, b: seq<byte>)
    ensures CompareBytes(a, b) == Less <==> BytesBefore(a, b)
  {
    if a == [] {
      assert b != [] ==> AgreeTo(a, b, 0);
    } else if b != [] {
      if a[0] != b[0] {
        assert a[0] < b[0] ==> AgreeTo(a, b, 0);
      } else {
        BytesLess(a[1..], b[1..]);
        if BytesBefore(a[1..], b[1..]) {
          var n: nat :| AgreeTo(a[1..], b[1..], n) && n < |b[1..]| && (n < |a[1..]| ==> a[1..][n] < b[1..][n]);
          forall i | 0 <= i < n + 1
            ensures a[i] == b[i]
          {
            assert i > 0 ==> a[i] == a[1..][i - 1] && b[i] == b[1..][i - 1];
          }
          assert AgreeTo(a, b, n + 1);
        }
        if BytesBefore(a, b) {
          var n: nat :| AgreeTo(a, b, n) && n < |b| && (n < |a| ==> a[n] < b[n]);
          if n == 0 {
            assert false;
          }
          assert AgreeTo(a[1..], b[1..], n - 1);
        }
      }
    }
  }

  /** Bytes are ordered by their first difference, a proper prefix first. */
  lemma BytesOrder(a: seq<byte>, b: seq<byte>)
    ensures CompareBytes(a, b) == Less <==> BytesBefore(a, b)
    ensures CompareBytes(a, b) == Equal <==> a == b
    ensures CompareBytes(a, b) == Greater <==> BytesBefore(b, a)
  {
    hide CompareBytes, BytesBefore;
    BytesLess(a, b);
    BytesLess(b, a);
    BytesFlip(a, b);
  }

  /** x is the number of an integer, a real or a boolean. */
  predicate NumberIs(lib: Lib, v: Value, x: F64) {
    || (v.Integer? && x == lib.ofInt(v.i)) || (v.Real? && x == v.r)
    || (v.Boolean? && x == lib.ofInt(if v.b then 1 else 0))
  }

  predicate IsNumeric(v: Value) {
    v.Integer? || v.Real? || v.Boolean?
  }

  /** Two numbers that compare as o. */
  ghost predicate NumbersCompare(lib: Lib, x: Value, y: Value, o: Ordering) {
    exists a: F64, b: F64 {:trigger lib.compare(a, b)} :: NumberIs(lib, x, a) && NumberIs(lib, y, b) && lib.compare(a, b) == Some(o)
  }

  /** x sorts before y: NULL before everything, numbers before text before blobs, each in their order. */
  ghost predicate Precedes(lib: Lib, x: Value, y: Value) {
    || (x.Null? && !y.Null?)
    || NumbersCompare(lib, x, y, Less)
    || (IsNumeric(x) && (y.Text? || y.Json? || y.Blob?)) || ((x.Text? || x.Json?) && y.Blob?)
    || (x.Text? && y.Text? && BytesBefore(x.s, y.s)) || (x.Blob? && y.Blob? && BytesBefore(x.bytes, y.bytes))
  }

  lemma NumbersAre(lib: Lib, x: Value, y: Value, o: Ordering)
    ensures IsNumeric(x) <==> NumericOnly(lib, x).Some?
    ensures forall a: F64 :: NumberIs(lib, x, a) <==> NumericOnly(lib, x) == Some(a)
    ensures NumbersCompare(lib, x, y, o) <==>
            NumericOnly(lib, x).Some? && NumericOnly(lib, y).Some?
            && lib.compare(NumericOnly(lib, x).value, NumericOnly(lib, y).value) == Some(o)
  {
    if NumericOnly(lib, x).Some? && NumericOnly(lib, y).Some? {
      var a, b := NumericOnly(lib, x).value, NumericOnly(lib, y).value;
      assert NumberIs(lib, x, a) && NumberIs(lib, y, b);
      assert lib.compare(a, b) == lib.compare(a, b);
    }
  }

  /** Sorting compares two values so. */
  lemma OrderKeyMeaning(lib: Lib, x: Value, y: Value)
    ensures OrderKey(lib, x, y) == Less <==> Precedes(lib, x, y)
    ensures OrderKey(lib, x, y) == Greater <==>
            if IsNumeric(x) && IsNumeric(y) then NumbersCompare(lib, x, y, Greater) else Precedes(lib, y, x)
  {
    hide CompareBytes, BytesBefore, NumbersCompare, NumericOnly;
    NumbersAre(lib, x, y, Less);
    NumbersAre(lib, x, y, Greater);
    NumbersAre(lib, y, x, Less);
    NumbersAre(lib, y, x, Greater);
    if x.Text? && y.Text? {
      BytesOrder(x.s, y.s);
    }
    if x.Blob? && y.Blob? {
      BytesOrder(x.bytes, y.bytes);
    }
  }

  /** Sorting order of plain values: swapping the sides flips it. */
  lemma ValueFlip(lib: Lib, x: Value, y: Value)
    requires FloatsOrdered(lib) && Plain(lib, x) && Plain(lib, y)
    ensures OrderKey(lib, y, x) == Flip(OrderKey(lib, x, y))
  {
    hide CompareBytes;
    if x.Text? && y.Text? {
      BytesFlip(x.s, y.s);
    } else if x.Blob? && y.Blob? {
      BytesFlip(x.bytes, y.bytes);
    }
  }

  lemma ValueTrans(lib: Lib, x: Value, y: Value, z: Value)
    requires FloatsOrdered(lib) && Plain(lib, x) && Plain(lib, y) && Plain(lib, z)
    requires OrderKey(lib, x, y) != Greater && OrderKey(lib, y, z) != Greater
    ensures OrderKey(lib, x, z) != Greater
    ensures OrderKey(lib, x, z) == Equal ==> OrderKey(lib, x, y) == Equal && OrderKey(lib, y, z) == Equal
  {
    hide CompareBytes;
    if x.Text? && y.Text? && z.Text? {
      BytesTrans(x.s, y.s, z.s);
    } else if x.Blob? && y.Blob? && z.Blob? {
      BytesTrans(x.bytes, y.bytes, z.bytes);
    }
  }

  // ---- orders of lists of values ----

  /** Rows compare by their first difference, a shorter row before its extensions. */
  function CompareValues(lib: Lib, a: seq<Value>, b: seq<Value>): Ordering {
    if a == [] || b == [] then CompareNat(|a|, |b|)
    else
      var o := OrderKey(lib, a[0], b[0]);
      if o != Equal then o else CompareValues(lib, a[1..], b[1..])
  }

  /** The first n values are equal in sorting. */
  predicate EqualTo(lib: Lib, a: seq<Value>, b: seq<Value>, n: nat) {
    n <= |a| && n <= |b| && forall i :: 0 <= i < n ==> OrderKey(lib, a[i], b[i]) == Equal
  }

  /** A row comes before another by the first value in which they differ, or as a beginning of it. */
  lemma {:induction false} ValuesMeaning(lib: Lib, a: seq<Value>, b: seq<Value>) returns (n: nat)
    ensures EqualTo(lib, a, b, n) && (n == |a| || n == |b| || OrderKey(lib, a[n], b[n]) != Equal)
    ensures CompareValues(lib, a, b) ==
            if n < |a| && n < |b| then OrderKey(lib, a[n], b[n])
            else if |a| < |b| then Less else if |a| == |b| then Equal else Greater
  {
    hide OrderKey;
    n := 0;
    if a != [] && b != [] && OrderKey(lib, a[0], b[0]) == Equal {
      n := ValuesMeaning(lib, a[1..], b[1..]);
      forall i | 0 <= i < n + 1
        ensures OrderKey(lib, a[i], b[i]) == Equal
      {
        assert i > 0 ==> a[i] == a[1..][i - 1] && b[i] == b[1..][i - 1];
      }
      n := n + 1;
    }
  }

  predicate AllPlain(lib: Lib, vs: seq<Value>) {
    forall i :: 0 <= i < |vs| ==> Plain(lib, vs[i])
  }

  lemma {:induction false} ValuesFlip(lib: Lib, a: seq<Value>, b: seq<Value>)
    requires FloatsOrdered(lib) && AllPlain(lib, a) && AllPlain(lib, b)
    ensures CompareValues(lib, b, a) == Flip(CompareValues(lib, a, b))
  {
    hide OrderKey, Plain, FloatsOrdered;
    if a != [] && b != [] {
      ValueFlip(lib, a[0], b[0]);
      ValuesFlip(lib, a[1..], b[1..]);
    }
  }

  lemma {:induction false} ValuesTrans(lib: Lib, a: seq<Value>, b: seq<Value>, c: seq<Value>)
    requires FloatsOrdered(lib) && AllPlain(lib, a) && AllPlain(lib, b) && AllPlain(lib, c)
    requires CompareValues(lib, a, b) != Greater && CompareValues(lib, b, c) != Greater
    ensures CompareValues(lib, a, c) != Greater
    ensures CompareValues(lib, a, c) == Equal ==> CompareValues(lib, a, b) == Equal && CompareValues(lib, b, c) == Equal
  {
    hide OrderKey, Plain, FloatsOrdered;
    if a != [] && b != [] && c != [] {
      ValueTrans(lib, a[0], b[0], c[0]);
      if OrderKey(lib, a[0], b[0]) == Equal && OrderKey(lib, b[0], c[0]) == Equal {
        ValueTransEqual(lib, a[0], b[0], c[0]);
        ValuesTrans(lib, a[1..], b[1..], c[1..]);
      }
    }
  }

  lemma ValueTransEqual(lib: Lib, x: Value, y: Value, z: Value)
    requires FloatsOrdered(lib) && Plain(lib, x) && Plain(lib, y) && Plain(lib, z)
    requires OrderKey(lib, x, y) == Equal && OrderKey(lib, y, z) == Equal
    ensures OrderKey(lib, x, z) == Equal
  {
    hide OrderKey, Plain, FloatsOrdered;
    ValueTrans(lib, x, y, z);
    ValueFlip(lib, x, y);
    ValueFlip(lib, y, z);
    ValueTrans(lib, z, y, x);
    ValueFlip(lib, x, z);
  }
}
