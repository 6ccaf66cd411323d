/** A table's rows as records in a b-tree, and the checks a row passes before it is stored. */
module TableRows {
  import opened Common
  import opened Varint
  import opened Values
  import opened Evaluation
  import Records
  import opened Dml
  import opened KVs = Table
  import Nodes
  import opened Trees
  import opened Overflow
  import LeafPages
  import BTrees
  import Deletion
  import Cursors
  import TableRuns

  /** TreeFailed: the tree panicked over the row, or refused a page it had just written. */
  datatype Failure =
    | NotNullFailed(column: nat)
    | UniqueFailed(column: nat, rowid: i64)
    | KeyFailed
    | KeyNotInteger
    | WidthMismatch
    | EvalFailed(error: Error)
    | TreeFailed(reply: BTrees.Reply)

  /** Spoiled: answered as done, but the row's cell and others were laid over each other. */
  datatype Outcome = Done(rowid: i64) | Spoiled(rowid: i64) | Failed(why: Failure)

  /** The pages are then those of the table no longer. */
  predicate Ends(r: Outcome) {
    r.Spoiled? || (r.Failed? && r.why.TreeFailed?)
  }

  // ---- rows and records ----

  /** Text is UTF-8, and lengths are 64-bit numbers. */
  predicate Storable(utf8: Str -> bool, vs: seq<Value>) {
    && Records.RowOk(vs) && |Records.RecordBytes(vs)| < TWO_64
    && forall i :: 0 <= i < |vs| ==> (Records.AsStored(vs[i]).Text? ==> utf8(Records.AsStored(vs[i]).s))
  }

  /** Whether a tree takes a row: its record finds room in the leaf the rowid belongs to. */
  predicate Accepts(utf8: Str -> bool, t: Tree, rowid: i64, vs: seq<Value>) {
    Storable(utf8, vs) && LeafPages.Room(t, BTrees.CellShape(rowid, Records.RecordBytes(vs)))
  }

  /** Whether it gets through without a panic. */
  predicate Endures(utf8: Str -> bool, t: Tree, rowid: i64, vs: seq<Value>) {
    Storable(utf8, vs) && LeafPages.Survives(t, BTrees.CellShape(rowid, Records.RecordBytes(vs)))
  }

  /** A row without room either ends in a panic or is laid over others; above a root that is a leaf, sizes alone
      tell which. */
  ghost predicate Unroomy(utf8: Str -> bool, t: Tree, rowid: i64, vs: seq<Value>, spoiled: bool) {
    && !Accepts(utf8, t, rowid, vs)
    && (spoiled ==> Endures(utf8, t, rowid, vs)) && (!spoiled && t.InteriorT? ==> !Endures(utf8, t, rowid, vs))
  }

  /** The records are those of the rows, and decode to them. */
  ghost predicate Encodes(utf8: Str -> bool, s: seq<KV>, rows: Rows) {
    forall k: i64 ::
      && (k in rows <==> Lookup(s, k).Some?)
      && (k in rows ==> Records.DecodeRow(utf8, Lookup(s, k).value) == Ok(rows[k]))
  }

  lemma StorableIs(utf8: Str -> bool, vs: seq<Value>)
    requires Storable(utf8, vs)
    ensures Records.RowOk(vs) && |Records.RecordBytes(vs)| < TWO_64
  {
  }

  lemma AcceptsIs(utf8: Str -> bool, t: Tree, rowid: i64, vs: seq<Value>)
    ensures !Storable(utf8, vs) ==> !Accepts(utf8, t, rowid, vs) && !Endures(utf8, t, rowid, vs)
    ensures Storable(utf8, vs) ==>
              && Records.RowOk(vs) && |Records.RecordBytes(vs)| < TWO_64
              && (Accepts(utf8, t, rowid, vs) <==> LeafPages.Room(t, BTrees.CellShape(rowid, Records.RecordBytes(vs))))
              && (Endures(utf8, t, rowid, vs) <==> LeafPages.Survives(t, BTrees.CellShape(rowid, Records.RecordBytes(vs))))
    ensures forall spoiled :: Unroomy(utf8, t, rowid, vs, spoiled) <==>
              && !Accepts(utf8, t, rowid, vs)
              && (spoiled ==> Endures(utf8, t, rowid, vs)) && (!spoiled && t.InteriorT? ==> !Endures(utf8, t, rowid, vs))
  {
  }

  lemma SameRange()
    ensures MIN_I64 == Nodes.MIN_ROWID && MAX_I64 == Nodes.MAX_ROWID
  {
  }

  /** The values of a row as they are encoded: the alias column is NULL. */
  function Nulled(s: Schema, values: seq<Value>): seq<Value> {
    WithAlias(s, values, Null)
  }

  lemma StoredIs(s: Schema, values: seq<Value>)
    ensures Dml.Stored(s, values) == Records.AllStored(Nulled(s, values))
  {
  }

  lemma EndsIs(root: Nodes.PageId, t: Tree, e: Entry, rowid: i64, record: seq<byte>)
    requires |record| < TWO_64 && BTrees.CellOf(e.cell, rowid, record)
    ensures var fate := BTrees.FateOf(root, t, e);
            && (fate.Right? <==> LeafPages.Room(t, BTrees.CellShape(rowid, record)))
            && (fate.Damaged? ==> LeafPages.Survives(t, BTrees.CellShape(rowid, record)))
            && (t.InteriorT? && (fate.Failed? || fate.Aborted?) ==> !LeafPages.Survives(t, BTrees.CellShape(rowid, record)))
  {
    hide LeafPages.Room, LeafPages.Survives, BTrees.CellShape, BTrees.RootFate, Nodes.LeafCellLen;
    ShapeKeyIs(rowid, record);
    BTrees.RoomByLength(t, e.cell, BTrees.CellShape(rowid, record));
  }

  lemma ShapeKeyIs(rowid: i64, record: seq<byte>)
    requires |record| < TWO_64
    ensures BTrees.CellShape(rowid, record).key == rowid
  {
  }

  lemma EndsAre()
    ensures forall k: i64 :: !Ends(Done(k)) && Ends(Spoiled(k))
    ensures forall why :: Ends(Failed(why)) <==> why.TreeFailed?
  {
  }

  lemma EncodesNone(utf8: Str -> bool)
    ensures Encodes(utf8, [], map[])
  {
  }

  lemma EncodesPut(utf8: Str -> bool, s: seq<KV>, rows: Rows, k: i64, vs: seq<Value>)
    requires Ascending(s) && Encodes(utf8, s, rows) && Storable(utf8, vs)
    ensures Encodes(utf8, Upsert(s, k, Records.RecordBytes(vs)), rows[k := Records.AllStored(vs)])
  {
    hide Upsert, Lookup, Records.DecodeRow, Records.RecordBytes, Ascending;
    Records.RecordRoundTrip(utf8, vs);
    forall q: i64
      ensures Lookup(Upsert(s, k, Records.RecordBytes(vs)), q) ==
              if q == k then Some(Records.RecordBytes(vs)) else Lookup(s, q)
    {
      LookupAfter(s, k, Records.RecordBytes(vs), q);
    }
  }

  lemma EncodesDrop(utf8: Str -> bool, s: seq<KV>, rows: Rows, k: i64)
    requires Ascending(s) && Encodes(utf8, s, rows)
    ensures Encodes(utf8, Remove(s, k), rows - {k})
  {
    hide Remove, Lookup, Records.DecodeRow, Ascending;
    forall q: i64
      ensures Lookup(Remove(s, k), q) == if q == k then None else Lookup(s, q)
    {
      LookupAfter(s, k, [], q);
    }
  }

  lemma EncodesAt(utf8: Str -> bool, s: seq<KV>, rows: Rows, k: i64)
    requires Encodes(utf8, s, rows)
    ensures k in rows <==> Lookup(s, k).Some?
  {
  }

  lemma {:induction false} LookupAt(s: seq<KV>, i: nat)
    requires Ascending(s) && i < |s|
    ensures Lookup(s, s[i].key) == Some(s[i].value)
  {
    if i > 0 {
      LookupAt(s[1..], i - 1);
    }
  }

  lemma {:induction false} LookupIndex(s: seq<KV>, k: int) returns (i: nat)
    requires Lookup(s, k).Some?
    ensures i < |s| && s[i].key == k && Lookup(s, k) == Some(s[i].value)
  {
    if s[0].key == k {
      i := 0;
    } else {
      i := LookupIndex(s[1..], k);
      i := i + 1;
    }
  }

  // ---- reading a table in key order ----

  /** The records rest, yet to be read, are those of the rows with keys in todo. */
  ghost predicate Ahead(utf8: Str -> bool, rest: seq<KV>, rows: Rows, todo: set<i64>) {
    && Ascending(rest) && todo <= rows.Keys
    && (forall i :: 0 <= i < |rest| ==>
          rest[i].key in todo && Records.DecodeRow(utf8, rest[i].value) == Ok(rows[rest[i].key]))
    && forall k :: k in todo ==> exists i :: 0 <= i < |rest| && rest[i].key == k
  }

  lemma AheadAll(utf8: Str -> bool, s: seq<KV>, rows: Rows)
    requires Ascending(s) && Encodes(utf8, s, rows)
    ensures Ahead(utf8, s, rows, rows.Keys)
  {
    hide Lookup, Records.DecodeRow;
    forall i | 0 <= i < |s|
      ensures s[i].key in rows && Records.DecodeRow(utf8, s[i].value) == Ok(rows[s[i].key])
    {
      LookupAt(s, i);
    }
    forall k | k in rows
      ensures exists i :: 0 <= i < |s| && s[i].key == k
    {
      var i := LookupIndex(s, k);
    }
  }

  lemma AheadNext(utf8: Str -> bool, rest: seq<KV>, rows: Rows, todo: set<i64>)
    requires Ahead(utf8, rest, rows, todo) && rest != []
    ensures var k := rest[0].key;
            && k in todo && todo <= rows.Keys && Records.DecodeRow(utf8, rest[0].value) == Ok(rows[k])
            && (forall x :: x in todo ==> k <= x)
            && Ahead(utf8, rest[1..], rows, todo - {k})
  {
    hide Records.DecodeRow;
    var k := rest[0].key;
    forall x | x in todo
      ensures k <= x && (x != k ==> exists i :: 0 <= i < |rest[1..]| && rest[1..][i].key == x)
    {
      var i :| 0 <= i < |rest| && rest[i].key == x;
      assert i > 0 ==> rest[1..][i - 1].key == x;
    }
  }

  lemma AheadDone(utf8: Str -> bool, rows: Rows, todo: set<i64>)
    requires Ahead(utf8, [], rows, todo)
    ensures todo == {}
  {
  }

  /** What a cursor that has delivered next still leaves to read, next included. */
  ghost function Unread(next: Option<KV>, remaining: seq<KV>): seq<KV> {
    if next.Some? then [next.value] + remaining else []
  }

  lemma UnreadHead(next: Option<KV>, remaining: seq<KV>)
    requires next.Some?
    ensures Unread(next, remaining) != [] && Unread(next, remaining)[0] == next.value
    ensures Unread(next, remaining)[1..] == remaining
  {
  }

  /** After one more record was delivered, or none was left, just what remained is unread. */
  lemma UnreadAll(before: seq<KV>, next: Option<KV>, after: seq<KV>)
    requires if before == [] then next == None && after == [] else next == Some(before[0]) && after == before[1..]
    ensures Unread(next, after) == before
  {
  }

  lemma UnreadEnd(next: Option<KV>, remaining: seq<KV>)
    requires next.None?
    ensures Unread(next, remaining) == []
  {
  }

  // ---- checks ----

  ghost predicate IsFirstNull(s: Schema, values: seq<Value>, c: nat) {
    && c < |s.columns| == |values| && s.columns[c].notNull && values[c] == Null
    && forall i :: 0 <= i < c && s.columns[i].notNull ==> values[i] != Null
  }

  /** A unique column and the row that already holds the value. */
  datatype Conflict = Conflict(column: nat, rowid: i64)

  /** The first column in which a row holds the value that values give a unique column. */
  ghost predicate IsFirstColumn(lib: Lib, s: Schema, stored: seq<Value>, values: seq<Value>, c: nat) {
    ClashAt(lib, s, stored, values, c) && forall i :: 0 <= i < c ==> !ClashAt(lib, s, stored, values, i)
  }

  ghost predicate IsFirstConflict(lib: Lib, s: Schema, rows: Rows, values: seq<Value>, exclude: Option<i64>, c: Conflict) {
    IsFirstClash(lib, s, rows, values, exclude, c.rowid) && IsFirstColumn(lib, s, rows[c.rowid], values, c.column)
  }

  ghost predicate IsFirstClash(lib: Lib, s: Schema, rows: Rows, values: seq<Value>, exclude: Option<i64>, k: i64) {
    && k in rows && exclude != Some(k) && Clash(lib, s, rows[k], values)
    && forall j :: j in rows && exclude != Some(j) && Clash(lib, s, rows[j], values) ==> k <= j
  }

  /** Why a row cannot be inserted under a rowid: the first check that fails. */
  ghost predicate InsertRefused(why: Failure, lib: Lib, s: Schema, rows: Rows, given: seq<Value>, rowid: Option<i64>, orReplace: bool) {
    match why
    case KeyNotInteger => rowid.None?
    case NotNullFailed(c) => rowid.Some? && IsFirstNull(s, WithAlias(s, given, Integer(rowid.value)), c)
    case UniqueFailed(c, k) =>
      && rowid.Some? && !orReplace && NotNullOk(s, WithAlias(s, given, Integer(rowid.value)))
      && IsFirstConflict(lib, s, rows, given, None, Conflict(c, k))
    case KeyFailed =>
      && rowid.Some? && !orReplace && NotNullOk(s, WithAlias(s, given, Integer(rowid.value)))
      && NoClash(lib, s, rows, given, None) && s.alias.Some? && rowid.value in rows
    case TreeFailed(_) =>
      && rowid.Some? && NotNullOk(s, WithAlias(s, given, Integer(rowid.value)))
      && (!orReplace ==> NoClash(lib, s, rows, given, None) && (s.alias.Some? ==> rowid.value !in rows))
    case _ => false
  }

  /** Why a row cannot be updated. */
  ghost predicate UpdateRefused(why: Failure, lib: Lib, s: Schema, rows: Rows, values: seq<Value>, rowid: i64, newRowid: i64) {
    match why
    case NotNullFailed(c) => IsFirstNull(s, values, c)
    case UniqueFailed(c, k) => NotNullOk(s, values) && IsFirstConflict(lib, s, rows, values, Some(rowid), Conflict(c, k))
    case KeyFailed => NotNullOk(s, values) && NoClash(lib, s, rows, values, Some(rowid)) && newRowid != rowid && newRowid in rows
    case TreeFailed(_) => NotNullOk(s, values) && NoClash(lib, s, rows, values, Some(rowid)) && (newRowid != rowid ==> newRowid !in rows)
    case _ => false
  }

  /** No row with a key outside todo clashes. */
  ghost predicate Apart(lib: Lib, s: Schema, rows: Rows, values: seq<Value>, exclude: Option<i64>, todo: set<i64>) {
    forall k :: k in rows && k !in todo && exclude != Some(k) ==> !Clash(lib, s, rows[k], values)
  }

  lemma ApartStart(lib: Lib, s: Schema, rows: Rows, values: seq<Value>, exclude: Option<i64>)
    ensures Apart(lib, s, rows, values, exclude, rows.Keys)
  {
  }

  lemma ApartNext(lib: Lib, s: Schema, rows: Rows, values: seq<Value>, exclude: Option<i64>, todo: set<i64>, k: i64)
    requires Apart(lib, s, rows, values, exclude, todo) && k in rows
    requires exclude == Some(k) || !Clash(lib, s, rows[k], values)
    ensures Apart(lib, s, rows, values, exclude, todo - {k})
  {
    hide Clash;
  }

  lemma ApartFound(lib: Lib, s: Schema, rows: Rows, values: seq<Value>, exclude: Option<i64>, todo: set<i64>, c: Conflict)
    requires Apart(lib, s, rows, values, exclude, todo) && c.rowid in rows && exclude != Some(c.rowid)
    requires (forall x :: x in todo ==> c.rowid <= x) && IsFirstColumn(lib, s, rows[c.rowid], values, c.column)
    requires Clash(lib, s, rows[c.rowid], values)
    ensures IsFirstConflict(lib, s, rows, values, exclude, c) && !NoClash(lib, s, rows, values, exclude)
  {
    hide Clash, IsFirstColumn;
  }

  lemma ApartDone(lib: Lib, s: Schema, rows: Rows, values: seq<Value>, exclude: Option<i64>)
    requires Apart(lib, s, rows, values, exclude, {})
    ensures NoClash(lib, s, rows, values, exclude)
  {
    hide Clash;
  }

  /** What the tree reports as its last key. */
  function LastOf(t: Tree): Option<i64> {
    BTrees.LastKeyOf(Trees.Records(RightLeaf(t)))
  }

  lemma LastIs(t: Tree, utf8: Str -> bool, rows: Rows)
    requires Ascending(Flat(t)) && Encodes(utf8, Flat(t), rows)
    ensures LastOf(t) == BTrees.LastKeyOf(Trees.Records(RightLeaf(t))) && LastKeyOk(rows, LastOf(t))
  {
    hide Lookup, Records.DecodeRow, Flat, RightLeaf;
    BTrees.FlatEndsRight(t);
    var s := Flat(t);
    if LastOf(t).Some? {
      LookupAt(s, |s| - 1);
      forall k | k in rows
        ensures k <= LastOf(t).value
      {
        var i := LookupIndex(s, k);
      }
    }
  }

  /** The tree once the row of a rowid, if one is named, is gone. */
  function Without(t: Tree, gone: Option<i64>): Tree {
    if gone.Some? then Deletion.WithoutKey(t, gone.value) else t
  }

  /** The row that a replacing insertion removes because it clashes. */
  ghost predicate Replaced(lib: Lib, s: Schema, rows: Rows, given: seq<Value>, first: Option<i64>) {
    match first
    case None => NoClash(lib, s, rows, given, None)
    case Some(k) => IsFirstClash(lib, s, rows, given, None, k)
  }

  /** The row under the new rowid, if there still is one. */
  function Occupied(rows: Rows, first: Option<i64>, rowid: i64): Option<i64> {
    if rowid in rows && first != Some(rowid) then Some(rowid) else None
  }

  function Gone(first: Option<i64>): set<i64> {
    if first.Some? then {first.value} else {}
  }

  /** A table on its b-tree, beside pages that belong to others. After a failure of the tree the pages are in no
      known state, and tree and rows are still those before the row; after a spoiled row they are the ones meant. */
  class Table {
    const lib: Lib
    const schema: Schema
    /** Column affinity. */
    const coerce: (Value, nat) -> Result<Value>
    const utf8: Str -> bool
    const sink: PageSink
    const root: Nodes.PageId
    ghost const others: multiset<Nodes.PageId>
    ghost var tree: Tree
    ghost var rows: Rows
    /** The page that a spoiled row left damaged. */
    ghost var bad: Nodes.PageId

    /** The pages hold the tree, and the tree the rows. */
    ghost predicate Sound()
      reads this, sink
    {
      && SchemaOk(schema) && EqualityOk(lib)
      && BTrees.IsTable(sink, root, tree, others) && Encodes(utf8, Flat(tree), rows)
    }

    ghost predicate Valid()
      reads this, sink
    {
      Sound() && Consistent(lib, schema, rows)
    }

    /** The tree was meant to hold the rows, but its page bad does not read as its leaf. */
    ghost predicate Wrecked()
      reads this, sink
    {
      && SchemaOk(schema) && EqualityOk(lib) && BTrees.Spoilt(sink, root, tree, bad, others)
      && ((Trees.Stored(tree, sink.Pages()) && !FitsAll(tree)) || BTrees.Misread(sink.Pages(), root, tree, bad))
      && Ascending(Flat(tree)) && Encodes(utf8, Flat(tree), rows)
    }

    /** A table that is already there. */
    constructor Open(lib: Lib, schema: Schema, coerce: (Value, nat) -> Result<Value>, utf8: Str -> bool, sink: PageSink,
                     root: Nodes.PageId, ghost tree: Tree, ghost rows: Rows, ghost others: multiset<Nodes.PageId>)
      requires SchemaOk(schema) && EqualityOk(lib) && Consistent(lib, schema, rows)
      requires BTrees.IsTable(sink, root, tree, others) && Encodes(utf8, Flat(tree), rows)
      ensures Valid() && this.rows == rows && this.tree == tree && this.sink == sink && this.others == others && this.root == root
      ensures this.lib == lib && this.schema == schema && this.coerce == coerce && this.utf8 == utf8
    {
      hide BTrees.IsTable, Encodes, Consistent;
      this.lib, this.schema, this.coerce, this.utf8, this.sink, this.others := lib, schema, coerce, utf8, sink, others;
      this.root, this.tree, this.rows := root, tree, rows;
    }

    /** Creates an empty table. */
    constructor (lib: Lib, schema: Schema, coerce: (Value, nat) -> Result<Value>, utf8: Str -> bool, sink: PageSink,
                 ghost others: multiset<Nodes.PageId>)
      requires SchemaOk(schema) && EqualityOk(lib)
      requires sink.Owned(others) && (1 in others || (sink.freelist == [] && sink.pageCount == 0))
      modifies sink
      ensures Valid() && rows == map[] && this.sink == sink && this.others == others && tree == LeafT(root, [])
      ensures this.lib == lib && this.schema == schema && this.coerce == coerce && this.utf8 == utf8
      ensures Same(old(sink.Pages()), sink.Pages(), others)
    {
      hide BTrees.IsTable, PageSink.Owned, Encodes;
      this.lib, this.schema, this.coerce, this.utf8, this.sink, this.others := lib, schema, coerce, utf8, sink, others;
      var page: Nodes.PageId;
      ghost var t: Tree;
      page, t := BTrees.Create(sink, others);
      root, tree, rows := page, t, map[];
      EncodesNone(utf8);
    }

    lemma SoundParts()
      requires Sound()
      ensures SchemaOk(schema) && EqualityOk(lib) && Ascending(Flat(tree))
      ensures BTrees.IsTable(sink, root, tree, others) && Encodes(utf8, Flat(tree), rows)
    {
      hide BTrees.IsTable, Ascending, Encodes;
      Cursors.TreeAscending(sink, root, tree, others);
    }

    lemma SoundIs()
      requires SchemaOk(schema) && EqualityOk(lib)
      requires BTrees.IsTable(sink, root, tree, others) && Encodes(utf8, Flat(tree), rows)
      ensures Sound()
    {
    }

    lemma WreckedIs()
      requires SchemaOk(schema) && EqualityOk(lib) && BTrees.Spoilt(sink, root, tree, bad, others)
      requires (Trees.Stored(tree, sink.Pages()) && !FitsAll(tree)) || BTrees.Misread(sink.Pages(), root, tree, bad)
      requires Ascending(Flat(tree)) && Encodes(utf8, Flat(tree), rows)
      ensures Wrecked()
    {
    }

    /** Puts a row into the tree. */
    method PutRow(rowid: i64, values: seq<Value>) returns (fate: BTrees.Fate)
      requires Sound()
      modifies this`tree, this`rows, this`bad, sink
      ensures fate.Right? <==> Accepts(utf8, old(tree), rowid, Nulled(schema, values))
      ensures !fate.Right? ==> Unroomy(utf8, old(tree), rowid, Nulled(schema, values), fate.Damaged?)
      ensures fate.Right? ==> Sound()
      ensures fate.Damaged? ==> Wrecked()
      ensures fate.Right? || fate.Damaged? ==>
                && rows == old(rows)[rowid := Dml.Stored(schema, values)] && Records.RowOk(Nulled(schema, values))
                && Flat(tree) == Upsert(Flat(old(tree)), rowid, Records.RecordBytes(Nulled(schema, values)))
                && LeafPages.LastKept(RightLeaf(tree), old(tree)) && Same(old(sink.Pages()), sink.Pages(), others)
      ensures fate.Failed? || fate.Aborted? ==> rows == old(rows) && tree == old(tree)
    {
      hide *;
      SoundParts();
      var vs := Nulled(schema, values);
      StoredIs(schema, values);
      AcceptsIs(utf8, tree, rowid, vs);
      if !Storable(utf8, vs) {
        return BTrees.Aborted;
      }
      SameRange();
      StorableIs(utf8, vs);
      var record := Records.EncodeRow(vs);
      var room, _ := BTrees.Foresee(sink, root, rowid, record, tree, others);
      ghost var after: Tree, page: Nodes.PageId, ended: BTrees.Fate, e: Entry;
      var reply: BTrees.Reply;
      reply, ended, after, page, e := BTrees.Insert(sink, root, rowid, record, tree, others);
      fate := match reply case Answered => (if room then BTrees.Right else BTrees.Damaged)
                          case Refused => BTrees.Failed case Never => BTrees.Aborted;
      TableRuns.AnswerIs(ended);
      EndsIs(root, tree, e, rowid, record);
      if fate.Right? || fate.Damaged? {
        EncodesPut(utf8, Flat(tree), rows, rowid, vs);
        StaysAscending(Flat(tree), rowid, record);
        tree, rows, bad := after, rows[rowid := Records.AllStored(vs)], page;
        if fate.Right? {
          SoundIs();
        } else {
          WreckedIs();
        }
      }
    }

    /** Takes a row out of the tree, if it is there. */
    method DropRow(rowid: i64) returns (found: bool)
      requires Sound()
      modifies this`tree, this`rows, this`bad, sink
      ensures Sound() && rows == old(rows) - {rowid} && tree == Deletion.WithoutKey(old(tree), rowid)
      ensures Flat(tree) == Remove(Flat(old(tree)), rowid)
      ensures found <==> rowid in old(rows)
      ensures Same(old(sink.Pages()), sink.Pages(), others)
    {
      hide *;
      SoundParts();
      SameRange();
      EncodesAt(utf8, Flat(tree), rows, rowid);
      EncodesDrop(utf8, Flat(tree), rows, rowid);
      ghost var after: Tree;
      found, after := BTrees.Delete(sink, root, rowid, tree, others);
      tree, rows := after, rows - {rowid};
      SoundIs();
    }

    method HasRow(rowid: i64) returns (found: bool)
      requires Sound()
      ensures found <==> rowid in rows
    {
      hide *;
      SoundParts();
      SameRange();
      EncodesAt(utf8, Flat(tree), rows, rowid);
      var got := BTrees.Get(sink, root, rowid, tree, others);
      found := got.Some?;
    }

    /** What the tree reports as its last key: the largest one, or none, as when its last leaf was emptied. */
    method LastKey() returns (r: Option<i64>)
      requires Sound()
      ensures r == LastOf(tree) && LastKeyOk(rows, r)
    {
      hide *;
      SoundParts();
      SameRange();
      LastIs(tree, utf8, rows);
      r := BTrees.LastKey(sink, root, tree, others);
    }

    /** Scans the table in key order for a row, other than the excluded one, that clashes with values. */
    method FindClash(values: seq<Value>, exclude: Option<i64>) returns (r: Option<Conflict>)
      requires Sound()
      ensures r.None? <==> NoClash(lib, schema, rows, values, exclude)
      ensures r.Some? ==> IsFirstConflict(lib, schema, rows, values, exclude, r.value)
    {
      hide *;
      SoundParts();
      SameRange();
      ghost var rest, todo := Flat(tree), rows.Keys;
      AheadAll(utf8, rest, rows);
      Cursors.AllRowids(rest);
      var cursor := new Cursors.BTreeCursor.Seek(sink, root, MIN_I64, tree, others);
      var next := cursor.Next();
      UnreadAll(rest, next, cursor.Remaining());
      ApartStart(lib, schema, rows, values, exclude);
      while next.Some?
        invariant cursor.Valid() && rest == Unread(next, cursor.Remaining())
        invariant Ahead(utf8, rest, rows, todo) && Apart(lib, schema, rows, values, exclude, todo)
        decreases |rest|
      {
        UnreadHead(next, cursor.Remaining());
        AheadNext(utf8, rest, rows, todo);
        var k: i64 := next.value.key;
        var row := Records.DecodeRowBytes(utf8, next.value.value);
        if exclude != Some(k) {
          var column := ClashColumn(row.value, values);
          if column.Some? {
            ApartFound(lib, schema, rows, values, exclude, todo, Conflict(column.value, k));
            return Some(Conflict(column.value, k));
          }
        }
        ApartNext(lib, schema, rows, values, exclude, todo, k);
        rest, todo := rest[1..], todo - {k};
        next := cursor.Next();
        UnreadAll(rest, next, cursor.Remaining());
      }
      UnreadEnd(next, cursor.Remaining());
      AheadDone(utf8, rows, todo);
      ApartDone(lib, schema, rows, values, exclude);
      return None;
    }

    /** The first column that must not be NULL but is. */
    method FindNull(values: seq<Value>) returns (r: Option<nat>)
      requires |values| == |schema.columns|
      ensures r.None? <==> NotNullOk(schema, values)
      ensures r.Some? ==> IsFirstNull(schema, values, r.value)
    {
      for c := 0 to |values|
        invariant forall i :: 0 <= i < c && schema.columns[i].notNull ==> values[i] != Null
      {
        if schema.columns[c].notNull && values[c] == Null {
          return Some(c);
        }
      }
      return None;
    }

    /** The first unique column in which a stored row holds the value of values. */
    method ClashColumn(stored: seq<Value>, values: seq<Value>) returns (r: Option<nat>)
      ensures r.None? <==> !Clash(lib, schema, stored, values)
      ensures r.Some? ==> IsFirstColumn(lib, schema, stored, values, r.value)
    {
      hide ClashAt;
      for c := 0 to |schema.columns|
        invariant forall i :: 0 <= i < c ==> !ClashAt(lib, schema, stored, values, i)
      {
        if ClashAt(lib, schema, stored, values, c) {
          return Some(c);
        }
      }
      return None;
    }


    /** The rowid of a new row: its alias column if given, which must be an integer, or the next one. */
    function RowidFor(given: seq<Value>, last: Option<i64>): Option<i64>
      requires |given| == |schema.columns| && SchemaOk(schema)
    {
      if schema.alias.Some? && given[schema.alias.value] != Null then AsI64(lib, given[schema.alias.value])
      else Some(NextRowid(last))
    }

    method PickRowid(given: seq<Value>) returns (rowid: Option<i64>)
      requires Sound() && |given| == |schema.columns|
      ensures SchemaOk(schema) && rowid == RowidFor(given, LastOf(tree))
    {
      hide *;
      SoundParts();
      RowidForIs(given, LastOf(tree));
      if schema.alias.Some? && given[schema.alias.value] != Null {
        rowid := AsI64(lib, given[schema.alias.value]);
      } else {
        var last := LastKey();
        rowid := Some(NextRowid(last));
      }
    }

    lemma RowidForIs(given: seq<Value>, last: Option<i64>)
      requires |given| == |schema.columns| && SchemaOk(schema)
      ensures schema.alias.Some? ==> schema.alias.value < |given|
      ensures RowidFor(given, last) ==
              if schema.alias.Some? && given[schema.alias.value] != Null then AsI64(lib, given[schema.alias.value])
              else Some(NextRowid(last))
    {
      hide AsI64, NextRowid;
    }

    /** Inserts one evaluated row. */
    method InsertRow(given: seq<Value>, orReplace: bool) returns (r: Outcome)
      requires Valid() && |given| == |schema.columns|
      modifies this`tree, this`rows, this`bad, sink
      ensures SchemaOk(schema)
      ensures r.Failed? ==> rows == old(rows) && tree == old(tree)
      ensures !Ends(r) && !orReplace ==> Valid()
      ensures !Ends(r) ==> Sound()
      ensures r.Spoiled? ==> Wrecked() && (!orReplace ==> Consistent(lib, schema, rows))
      ensures r.Failed? ==>
                InsertRefused(r.why, lib, schema, rows, given, RowidFor(given, LastOf(tree)), orReplace)
      ensures Ends(r) ==> RowidFor(given, LastOf(old(tree))).Some?
      ensures Ends(r) && !orReplace ==>
                Unroomy(utf8, old(tree), RowidFor(given, LastOf(old(tree))).value, Nulled(schema, given), r.Spoiled?)
      ensures Ends(r) && orReplace ==> exists first {:trigger Gone(first)} ::
                var k := RowidFor(given, LastOf(old(tree))).value;
                && Replaced(lib, schema, old(rows), given, first)
                && Unroomy(utf8, Without(Without(old(tree), first), Occupied(old(rows), first, k)), k, Nulled(schema, given),
                           r.Spoiled?)
      ensures !r.Failed? ==>
                && NotNullOk(schema, WithAlias(schema, given, Integer(r.rowid)))
                && r.rowid in rows && rows[r.rowid] == Dml.Stored(schema, given)
                && Some(r.rowid) == RowidFor(given, LastOf(old(tree)))
      ensures !r.Failed? && !orReplace ==>
                && rows == old(rows)[r.rowid := Dml.Stored(schema, given)]
                && NoClash(lib, schema, old(rows), given, None)
                && (schema.alias.Some? ==> r.rowid !in old(rows))
                && (r.Done? <==> Accepts(utf8, old(tree), r.rowid, Nulled(schema, given)))
                && LeafPages.LastKept(RightLeaf(tree), old(tree))
                && Records.RowOk(Nulled(schema, given))
                && Flat(tree) == Upsert(Flat(old(tree)), r.rowid, Records.RecordBytes(Nulled(schema, given)))
      ensures !r.Failed? && orReplace ==> exists first {:trigger Gone(first)} ::
                && Replaced(lib, schema, old(rows), given, first)
                && rows == (old(rows) - Gone(first))[r.rowid := Dml.Stored(schema, given)]
      ensures !Ends(r) || r.Spoiled? ==> Same(old(sink.Pages()), sink.Pages(), others)
    {
      hide *;
      ValidParts();
      EndsAre();
      ghost var rows0, tree0, view := rows, tree, sink.Pages();
      Deletion.SameSelf(view, others);
      var rowid := PickRowid(given);
      RefusedIs(lib, schema, rows, given, rowid, orReplace);
      if rowid.None? {
        return Failed(KeyNotInteger);
      }
      assert RowidFor(given, LastOf(tree0)).Some?;
      var values := WithAlias(schema, given, Integer(rowid.value));
      AliasWidth(schema, given, Integer(rowid.value));
      var missing := FindNull(values);
      if missing.Some? {
        return Failed(NotNullFailed(missing.value));
      }
      var clash := FindClash(values, None);
      ConflictAlias(lib, schema, rows, given, Integer(rowid.value), clash);
      if clash.Some? {
        if !orReplace {
          return Failed(UniqueFailed(clash.value.column, clash.value.rowid));
        }
        var _ := DropRow(clash.value.rowid);
        SameTrans(view, view, sink.Pages(), others);
      }
      ghost var first := if clash.Some? then Some(clash.value.rowid) else None;
      RemovedIs(rows0, tree0, first, rowid.value);
      var taken := HasRow(rowid.value);
      if taken {
        if orReplace {
          ghost var before := sink.Pages();
          var _ := DropRow(rowid.value);
          SameTrans(view, before, sink.Pages(), others);
        } else if schema.alias.Some? {
          return Failed(KeyFailed);
        }
      }
      StoredAlias(schema, given, Integer(rowid.value));
      assert tree == Without(Without(tree0, first), if orReplace then Occupied(rows0, first, rowid.value) else None);
      ghost var cleared := sink.Pages();
      var fate := PutRow(rowid.value, values);
      assert Gone(first) == Gone(first);
      if fate.Failed? || fate.Aborted? {
        rows, tree := rows0, tree0;
        return Failed(TreeFailed(if fate.Failed? then BTrees.Refused else BTrees.Never));
      }
      SameTrans(view, cleared, sink.Pages(), others);
      if !orReplace {
        NoClashBut(lib, schema, rows0, values, rowid.value);
        PutKeeps(lib, schema, rows0, rowid.value, values);
        if fate.Right? {
          ValidIs();
        }
      } else {
        assert rows == (rows0 - Gone(first))[rowid.value := Dml.Stored(schema, given)];
      }
      return if fate.Right? then Done(rowid.value) else Spoiled(rowid.value);
    }

    /** Replaces a row by new values, under a new rowid if that changed. */
    method UpdateRow(rowid: i64, values: seq<Value>, newRowid: i64) returns (r: Outcome)
      requires Valid() && rowid in rows && |values| == |schema.columns|
      modifies this`tree, this`rows, this`bad, sink
      ensures r.Failed? ==> rows == old(rows) && tree == old(tree)
      ensures r.Failed? ==> UpdateRefused(r.why, lib, schema, rows, values, rowid, newRowid)
      ensures Ends(r) ==>
                Unroomy(utf8, Without(old(tree), Left(rowid, newRowid)), newRowid, Nulled(schema, values), r.Spoiled?)
      ensures !Ends(r) ==> Valid()
      ensures r.Spoiled? ==> Wrecked() && Consistent(lib, schema, rows)
      ensures !Ends(r) || r.Spoiled? ==> Same(old(sink.Pages()), sink.Pages(), others)
      ensures r.Done? <==>
                && NotNullOk(schema, values) && NoClash(lib, schema, old(rows), values, Some(rowid))
                && (newRowid != rowid ==> newRowid !in old(rows))
                && Accepts(utf8, Without(old(tree), Left(rowid, newRowid)), newRowid, Nulled(schema, values))
      ensures r.Spoiled? ==>
                && NotNullOk(schema, values) && NoClash(lib, schema, old(rows), values, Some(rowid))
                && (newRowid != rowid ==> newRowid !in old(rows))
      ensures !r.Failed? ==> rows == (old(rows) - {rowid})[newRowid := Dml.Stored(schema, values)] && r.rowid == newRowid
    {
      hide *;
      ValidParts();
      EndsAre();
      ghost var rows0, tree0, view := rows, tree, sink.Pages();
      Deletion.SameSelf(view, others);
      UpdateRefusedIs(lib, schema, rows, values, rowid, newRowid);
      var missing := FindNull(values);
      if missing.Some? {
        return Failed(NotNullFailed(missing.value));
      }
      var clash := FindClash(values, Some(rowid));
      if clash.Some? {
        return Failed(UniqueFailed(clash.value.column, clash.value.rowid));
      }
      if newRowid != rowid {
        var taken := HasRow(newRowid);
        if taken {
          return Failed(KeyFailed);
        }
      }
      MovedIs(tree, rowid, newRowid);
      if newRowid != rowid {
        var _ := DropRow(rowid);
        SameTrans(view, view, sink.Pages(), others);
      }
      ghost var left := sink.Pages();
      var fate := PutRow(newRowid, values);
      if fate.Failed? || fate.Aborted? {
        rows, tree := rows0, tree0;
        return Failed(TreeFailed(if fate.Failed? then BTrees.Refused else BTrees.Never));
      }
      SameTrans(view, left, sink.Pages(), others);
      DropKeeps(lib, schema, rows0, {rowid});
      NoClashLess(lib, schema, rows0, values, rowid, newRowid);
      PutKeeps(lib, schema, rows0 - {rowid}, newRowid, values);
      assert rows == (rows0 - {rowid})[newRowid := Dml.Stored(schema, values)];
      if fate.Right? {
        ValidIs();
      }
      return if fate.Right? then Done(newRowid) else Spoiled(newRowid);
    }

    lemma ValidParts()
      requires Valid()
      ensures Sound() && Consistent(lib, schema, rows) && SchemaOk(schema) && EqualityOk(lib)
    {
      hide BTrees.IsTable, Encodes, Consistent;
    }

    lemma ValidIs()
      requires Sound() && Consistent(lib, schema, rows)
      ensures Valid()
    {
    }
  }

  /** The checks, one case each. */
  lemma RefusedIs(lib: Lib, s: Schema, rows: Rows, given: seq<Value>, rowid: Option<i64>, orReplace: bool)
    ensures rowid.None? ==> InsertRefused(KeyNotInteger, lib, s, rows, given, rowid, orReplace)
    ensures rowid.Some? ==>
              var values := WithAlias(s, given, Integer(rowid.value));
              && (forall c: nat :: IsFirstNull(s, values, c) ==>
                    InsertRefused(NotNullFailed(c), lib, s, rows, given, rowid, orReplace))
              && (NotNullOk(s, values) ==>
                    && (forall c: Conflict :: !orReplace && IsFirstConflict(lib, s, rows, given, None, c) ==>
                          InsertRefused(UniqueFailed(c.column, c.rowid), lib, s, rows, given, rowid, orReplace))
                    && (!orReplace && NoClash(lib, s, rows, given, None) && s.alias.Some? && rowid.value in rows ==>
                          InsertRefused(KeyFailed, lib, s, rows, given, rowid, orReplace))
                    && (orReplace || (NoClash(lib, s, rows, given, None) && (s.alias.Some? ==> rowid.value !in rows)) ==>
                          forall reply :: InsertRefused(TreeFailed(reply), lib, s, rows, given, rowid, orReplace)))
  {
    hide IsFirstNull, NotNullOk, IsFirstConflict, NoClash, WithAlias;
  }

  lemma NoClashBut(lib: Lib, s: Schema, rows: Rows, values: seq<Value>, k: i64)
    requires NoClash(lib, s, rows, values, None)
    ensures NoClash(lib, s, rows, values, Some(k))
  {
    hide Clash;
  }

  lemma NoClashLess(lib: Lib, s: Schema, rows: Rows, values: seq<Value>, k: i64, k': i64)
    requires NoClash(lib, s, rows, values, Some(k))
    ensures NoClash(lib, s, rows - {k}, values, Some(k'))
  {
    hide Clash;
  }

  /** The row that an update leaves before it stores the new one. */
  function Left(rowid: i64, newRowid: i64): Option<i64> {
    if newRowid != rowid then Some(rowid) else None
  }

  lemma MovedIs(t: Tree, rowid: i64, newRowid: i64)
    ensures Without(t, Left(rowid, newRowid)) == if newRowid != rowid then Deletion.WithoutKey(t, rowid) else t
  {
  }

  lemma UpdateRefusedIs(lib: Lib, s: Schema, rows: Rows, values: seq<Value>, rowid: i64, newRowid: i64)
    ensures forall c: nat :: IsFirstNull(s, values, c) ==>
              UpdateRefused(NotNullFailed(c), lib, s, rows, values, rowid, newRowid)
    ensures NotNullOk(s, values) ==>
              && (forall c: Conflict :: IsFirstConflict(lib, s, rows, values, Some(rowid), c) ==>
                    UpdateRefused(UniqueFailed(c.column, c.rowid), lib, s, rows, values, rowid, newRowid))
              && (NoClash(lib, s, rows, values, Some(rowid)) ==>
                    && (newRowid != rowid && newRowid in rows ==> UpdateRefused(KeyFailed, lib, s, rows, values, rowid, newRowid))
                    && ((newRowid != rowid ==> newRowid !in rows) ==>
                          forall reply :: UpdateRefused(TreeFailed(reply), lib, s, rows, values, rowid, newRowid)))
  {
    hide IsFirstNull, NotNullOk, IsFirstConflict, NoClash;
  }

  lemma AliasWidth(s: Schema, given: seq<Value>, v: Value)
    ensures |WithAlias(s, given, v)| == |given|
  {
  }

  /** The alias column has no say in whether and where a row clashes. */
  lemma ConflictAlias(lib: Lib, s: Schema, rows: Rows, given: seq<Value>, v: Value, clash: Option<Conflict>)
    requires clash.None? <==> NoClash(lib, s, rows, WithAlias(s, given, v), None)
    requires clash.Some? ==> IsFirstConflict(lib, s, rows, WithAlias(s, given, v), None, clash.value)
    ensures clash.None? <==> NoClash(lib, s, rows, given, None)
    ensures clash.Some? ==> IsFirstConflict(lib, s, rows, given, None, clash.value)
    ensures Replaced(lib, s, rows, given, if clash.Some? then Some(clash.value.rowid) else None)
  {
    hide Clash, IsFirstColumn;
    AliasApart(lib, s, rows, given, v);
  }

  lemma RemovedIs(rows: Rows, t: Tree, first: Option<i64>, rowid: i64)
    ensures first.Some? ==> Without(t, first) == Deletion.WithoutKey(t, first.value) && rows - Gone(first) == rows - {first.value}
    ensures first.None? ==> Without(t, first) == t && rows - Gone(first) == rows
    ensures Occupied(rows, first, rowid) == if rowid in rows - Gone(first) then Some(rowid) else None
    ensures Without(Without(t, first), None) == Without(t, first)
    ensures Without(Without(t, first), Some(rowid)) == Deletion.WithoutKey(Without(t, first), rowid)
  {
  }

  /** The alias column takes no part in clashes. */
  lemma AliasApart(lib: Lib, s: Schema, rows: Rows, values: seq<Value>, v: Value)
    ensures NoClash(lib, s, rows, WithAlias(s, values, v), None) <==> NoClash(lib, s, rows, values, None)
    ensures forall k :: k in rows ==> (Clash(lib, s, rows[k], WithAlias(s, values, v)) <==> Clash(lib, s, rows[k], values))
    ensures forall k, c: nat :: k in rows ==>
              (IsFirstColumn(lib, s, rows[k], WithAlias(s, values, v), c) <==> IsFirstColumn(lib, s, rows[k], values, c))
  {
    hide Clash, ClashAt;
    forall k | k in rows
      ensures Clash(lib, s, rows[k], WithAlias(s, values, v)) <==> Clash(lib, s, rows[k], values)
      ensures forall c: nat :: IsFirstColumn(lib, s, rows[k], WithAlias(s, values, v), c) <==> IsFirstColumn(lib, s, rows[k], values, c)
    {
      AliasClash(lib, s, rows[k], values, v);
    }
  }

  lemma AliasClash(lib: Lib, s: Schema, stored: seq<Value>, values: seq<Value>, v: Value)
    ensures Clash(lib, s, stored, WithAlias(s, values, v)) <==> Clash(lib, s, stored, values)
    ensures forall c: nat :: ClashAt(lib, s, stored, WithAlias(s, values, v), c) <==> ClashAt(lib, s, stored, values, c)
  {
    hide Compare;
    var w := WithAlias(s, values, v);
    forall c: nat
      ensures ClashAt(lib, s, stored, w, c) <==> ClashAt(lib, s, stored, values, c)
    {
    }
  }

  lemma StoredAlias(s: Schema, values: seq<Value>, v: Value)
    ensures Dml.Stored(s, WithAlias(s, values, v)) == Dml.Stored(s, values)
    ensures Nulled(s, WithAlias(s, values, v)) == Nulled(s, values)
  {
    assert WithAlias(s, WithAlias(s, values, v), Null) == WithAlias(s, values, Null);
  }
}
