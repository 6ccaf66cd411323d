/** INSERT, UPDATE and DELETE over a table's rows, and the constraints they keep. */
module Dml {
  import opened Common
  import opened Varint
  import opened Values
  import opened Evaluation
  import opened Records

  datatype ColumnDef = ColumnDef(notNull: bool, unique: bool)

  /** The columns of a table and the one, if any, that is another name for the rowid. */
  datatype Schema = Schema(columns: seq<ColumnDef>, alias: Option<nat>)

  /** Stored values by rowid; the alias column is stored as NULL. */
  type Rows = map<i64, seq<Value>>

  predicate SchemaOk(s: Schema) {
    s.alias.Some? ==> s.alias.value < |s.columns|
  }

  predicate UniqueColumn(s: Schema, c: nat) {
    c < |s.columns| && s.columns[c].unique && s.alias != Some(c)
  }

  /** Equal in a column that must be unique; NULL equals nothing. */
  predicate ClashAt(lib: Lib, s: Schema, stored: seq<Value>, values: seq<Value>, c: nat) {
    && UniqueColumn(s, c) && c < |stored| && c < |values|
    && values[c] != Null && Compare(lib, stored[c], values[c]) == Some(Equal)
  }

  predicate Clash(lib: Lib, s: Schema, stored: seq<Value>, values: seq<Value>) {
    exists c :: 0 <= c < |s.columns| && ClashAt(lib, s, stored, values, c)
  }

  predicate NotNullOk(s: Schema, values: seq<Value>) {
    forall c :: 0 <= c < |s.columns| && c < |values| && s.columns[c].notNull ==> values[c] != Null
  }

  function WithAlias(s: Schema, values: seq<Value>, v: Value): seq<Value> {
    if s.alias.Some? && s.alias.value < |values| then values[s.alias.value := v] else values
  }

  /** What reaches the table: the alias column nulled, booleans and JSON in their stored forms. */
  function Stored(s: Schema, values: seq<Value>): (r: seq<Value>)
    ensures |r| == |values|
  {
    AllStored(WithAlias(s, values, Null))
  }

  // ---- consistency ----

  /** No two rows clash. */
  ghost predicate Unique(lib: Lib, s: Schema, rows: Rows) {
    forall a, b :: a in rows && b in rows && a != b ==> !Clash(lib, s, rows[a], rows[b])
  }

  /** A stored row is full width, NULL only where it may be, and holds no boolean or JSON. */
  predicate RowOk(s: Schema, values: seq<Value>) {
    && |values| == |s.columns|
    && (forall c :: 0 <= c < |s.columns| && s.columns[c].notNull && s.alias != Some(c) ==> values[c] != Null)
    && forall c :: 0 <= c < |values| ==> values[c] == AsStored(values[c])
  }

  ghost predicate Consistent(lib: Lib, s: Schema, rows: Rows) {
    Unique(lib, s, rows) && forall k :: k in rows ==> RowOk(s, rows[k])
  }

  /** Equality of numbers is symmetric. */
  ghost predicate EqualityOk(lib: Lib) {
    forall a, b :: lib.compare(a, b) == Some(Equal) ==> lib.compare(b, a) == Some(Equal)
  }

  lemma {:induction false} BytesEqual(a: seq<byte>, b: seq<byte>)
    ensures CompareBytes(a, b) == Equal ==> a == b
    ensures a == b ==> CompareBytes(a, b) == Equal
  {
    if a != [] && b != [] && a[0] == b[0] {
      BytesEqual(a[1..], b[1..]);
      assert a == [a[0]] + a[1..] && b == [b[0]] + b[1..];
    }
  }

  lemma EqualFlip(lib: Lib, x: Value, y: Value)
    requires EqualityOk(lib) && Compare(lib, x, y) == Some(Equal)
    ensures Compare(lib, y, x) == Some(Equal)
  {
    hide CompareBytes;
    if x.Text? && y.Text? {
      BytesEqual(x.s, y.s);
      BytesEqual(y.s, x.s);
    } else if x.Blob? && y.Blob? {
      BytesEqual(x.bytes, y.bytes);
      BytesEqual(y.bytes, x.bytes);
    }
  }

  /** A stored value equal to the stored form of v equals v. */
  lemma StoredEqual(lib: Lib, x: Value, v: Value)
    requires x == AsStored(x) && v != Null
    ensures AsStored(v) != Null
    ensures Compare(lib, x, AsStored(v)) == Some(Equal) ==> Compare(lib, x, v) == Some(Equal)
    ensures !v.Json? && Compare(lib, x, v) == Some(Equal) ==> Compare(lib, x, AsStored(v)) == Some(Equal)
  {
  }

  lemma StoredAt(s: Schema, values: seq<Value>, c: nat)
    requires c < |values| && s.alias != Some(c)
    ensures Stored(s, values)[c] == AsStored(values[c]) && (Stored(s, values)[c] == Null <==> values[c] == Null)
  {
  }

  lemma StoredForm(v: Value)
    ensures AsStored(AsStored(v)) == AsStored(v)
  {
  }

  lemma StoredRowOk(s: Schema, values: seq<Value>)
    requires |values| == |s.columns| && NotNullOk(s, values)
    ensures RowOk(s, Stored(s, values))
  {
    var r := Stored(s, values);
    forall c | 0 <= c < |r|
      ensures r[c] == AsStored(r[c])
    {
      StoredForm(WithAlias(s, values, Null)[c]);
    }
    forall c | 0 <= c < |s.columns| && s.columns[c].notNull && s.alias != Some(c)
      ensures r[c] != Null
    {
      StoredAt(s, values, c);
    }
  }

  /** A stored row clashes with new values whenever it clashes with their stored form; without JSON
      among them the converse holds too. */
  lemma ClashStored(lib: Lib, s: Schema, stored: seq<Value>, values: seq<Value>)
    requires RowOk(s, stored) && |values| == |s.columns|
    ensures Clash(lib, s, stored, Stored(s, values)) ==> Clash(lib, s, stored, values)
    ensures (forall c :: 0 <= c < |values| ==> !values[c].Json?) && Clash(lib, s, stored, values) ==>
              Clash(lib, s, stored, Stored(s, values))
  {
    hide Compare, Stored, AsStored;
    if Clash(lib, s, stored, Stored(s, values)) {
      var c :| 0 <= c < |s.columns| && ClashAt(lib, s, stored, Stored(s, values), c);
      StoredAt(s, values, c);
      StoredEqual(lib, stored[c], values[c]);
      assert ClashAt(lib, s, stored, values, c);
    }
    if (forall c :: 0 <= c < |values| ==> !values[c].Json?) && Clash(lib, s, stored, values) {
      var c :| 0 <= c < |s.columns| && ClashAt(lib, s, stored, values, c);
      StoredAt(s, values, c);
      StoredEqual(lib, stored[c], values[c]);
      assert ClashAt(lib, s, stored, Stored(s, values), c);
    }
  }

  lemma ClashFlip(lib: Lib, s: Schema, a: seq<Value>, b: seq<Value>)
    requires EqualityOk(lib) && Clash(lib, s, a, b)
    ensures Clash(lib, s, b, a)
  {
    var c :| 0 <= c < |s.columns| && ClashAt(lib, s, a, b, c);
    EqualFlip(lib, a[c], b[c]);
    assert ClashAt(lib, s, b, a, c);
  }

  // ---- what the statements do to consistency ----

  ghost predicate NoClash(lib: Lib, s: Schema, rows: Rows, values: seq<Value>, exclude: Option<i64>) {
    forall k :: k in rows && exclude != Some(k) ==> !Clash(lib, s, rows[k], values)
  }

  /** Storing values that clash with no other row keeps a table consistent. */
  lemma PutKeeps(lib: Lib, s: Schema, rows: Rows, k: i64, values: seq<Value>)
    requires EqualityOk(lib) && Consistent(lib, s, rows)
    requires |values| == |s.columns| && NotNullOk(s, values) && NoClash(lib, s, rows, values, Some(k))
    ensures Consistent(lib, s, rows[k := Stored(s, values)])
  {
    hide Clash, RowOk, NotNullOk, Stored;
    var rows' := rows[k := Stored(s, values)];
    StoredRowOk(s, values);
    forall a | a in rows && a != k
      ensures !Clash(lib, s, rows[a], Stored(s, values)) && !Clash(lib, s, Stored(s, values), rows[a])
    {
      ClashStored(lib, s, rows[a], values);
      if Clash(lib, s, Stored(s, values), rows[a]) {
        ClashFlip(lib, s, Stored(s, values), rows[a]);
      }
    }
  }

  lemma DropKeeps(lib: Lib, s: Schema, rows: Rows, ks: set<i64>)
    requires Consistent(lib, s, rows)
    ensures Consistent(lib, s, rows - ks)
  {
    hide Clash, RowOk;
  }

  /** INSERT OR REPLACE removes the row with the new rowid and one row that clashes. The table stays
      consistent exactly when no other row clashes (JSON aside). */
  lemma ReplaceExact(lib: Lib, s: Schema, rows: Rows, first: Option<i64>, k: i64, values: seq<Value>)
    requires EqualityOk(lib) && Consistent(lib, s, rows)
    requires |values| == |s.columns| && NotNullOk(s, values) && forall c :: 0 <= c < |values| ==> !values[c].Json?
    ensures var gone := if first.Some? then {first.value} else {};
            Consistent(lib, s, (rows - gone)[k := Stored(s, values)]) <==>
            forall a :: a in rows && a != k && Clash(lib, s, rows[a], values) ==> first == Some(a)
  {
    hide Clash, RowOk, NotNullOk, Stored;
    var gone := if first.Some? then {first.value} else {};
    var left := rows - gone;
    DropKeeps(lib, s, rows, gone);
    if forall a :: a in rows && a != k && Clash(lib, s, rows[a], values) ==> first == Some(a) {
      PutKeeps(lib, s, left, k, values);
    } else {
      var a :| a in rows && a != k && Clash(lib, s, rows[a], values) && first != Some(a);
      ClashStored(lib, s, rows[a], values);
      var rows' := left[k := Stored(s, values)];
      assert a in rows' && k in rows' && rows'[a] == rows[a];
    }
  }

  /** Two unique columns, rows 1 and 2: a row that clashes with the first in one column and with the
      second in the other replaces row 1 and leaves row 2 clashing with it. */
  lemma ReplaceBreaks(lib: Lib)
    requires EqualityOk(lib) && (forall a: i64, b: i64 :: lib.compare(lib.ofInt(a), lib.ofInt(b)) == Some(Equal) <==> a == b)
    ensures var s := Schema([ColumnDef(false, true), ColumnDef(false, true)], None);
            var rows: Rows := map[1 := [Integer(11), Integer(12)], 2 := [Integer(21), Integer(22)]];
            && Consistent(lib, s, rows)
            && !Consistent(lib, s, (rows - {1})[3 := Stored(s, [Integer(11), Integer(22)])])
  {
    var s := Schema([ColumnDef(false, true), ColumnDef(false, true)], None);
    var rows: Rows := map[1 := [Integer(11), Integer(12)], 2 := [Integer(21), Integer(22)]];
    var values := [Integer(11), Integer(22)];
    forall a, b | a in rows && b in rows && a != b
      ensures !Clash(lib, s, rows[a], rows[b])
    {
      assert !ClashAt(lib, s, rows[a], rows[b], 0) && !ClashAt(lib, s, rows[a], rows[b], 1);
    }
    assert Consistent(lib, s, rows);
    assert ClashAt(lib, s, rows[2], values, 1);
    ReplaceExact(lib, s, rows, Some(1), 3, values);
  }

  // ---- rowids ----

  /** What the tree reports as its last key: the largest, or nothing, as when its last leaf was emptied. */
  ghost predicate LastKeyOk(rows: Rows, last: Option<i64>) {
    last.Some? ==> last.value in rows && forall k :: k in rows ==> k <= last.value
  }

  /** The rowid given to a row without one, in wrapping 64-bit arithmetic. */
  function NextRowid(last: Option<i64>): i64 {
    if last.None? then 1
    else if last.value == MAX_I64 then MIN_I64
    else last.value + 1
  }

  /** The rowid is unused unless the tree reported no last key though row 1 exists, or ran out of keys. */
  lemma NextRowidExact(rows: Rows, last: Option<i64>)
    requires LastKeyOk(rows, last)
    ensures NextRowid(last) in rows <==> (last == None && 1 in rows) || (last == Some(MAX_I64) && MIN_I64 in rows)
  {
  }
}
