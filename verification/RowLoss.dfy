/** A run of insertions and deletions after which an insertion overwrites a row. */
module RowLoss {
  import opened Common
  import opened Varint
  import opened Values
  import opened Evaluation
  import Records
  import opened Dml
  import opened KVs = Table
  import Nodes
  import opened Trees
  import LeafPages
  import BTrees
  import Deletion
  import Overflow
  import opened TableRuns
  import opened LastKeys
  import opened TableRows
  import opened DmlRuns

  /** Among small records a row with a short record finds room. */
  lemma SmallAccepted(t: TableRows.Table, rowid: i64, values: seq<Value>)
    requires t.Sound() && AllSmall(Flat(t.tree)) && Storable(t.utf8, Nulled(t.schema, values))
    requires |Records.RecordBytes(Nulled(t.schema, values))| <= 784
    ensures Accepts(t.utf8, t.tree, rowid, Nulled(t.schema, values))
    ensures Small(rowid, Records.RecordBytes(Nulled(t.schema, values)))
  {
    hide *;
    t.SoundParts();
    SameRange();
    var vs := Nulled(t.schema, values);
    StorableIs(t.utf8, vs);
    AcceptsIs(t.utf8, t.tree, rowid, vs);
    ShortIsSmall(rowid, Records.RecordBytes(vs));
    SmallIs(rowid, Records.RecordBytes(vs));
    BTrees.TableIs(t.sink, t.root, t.tree, t.others);
    SmallRoom(t.tree, t.root, Nodes.MIN_ROWID - 1, Nodes.MAX_ROWID, t.sink.Pages(), BTrees.CellShape(rowid, Records.RecordBytes(vs)));
  }

  lemma SmallIs(rowid: Nodes.rowid, r: seq<byte>)
    requires Small(rowid, r)
    ensures |r| < TWO_64 && Nodes.LeafCellLen(BTrees.CellShape(rowid, r)) <= Nodes.SMALL_CELL
  {
  }

  // ---- the rows ----

  /** One column, no constraint, no alias. */
  function Plain(): Schema {
    Schema([ColumnDef(false, false)], None)
  }

  /** A row whose record is long. */
  function LongRow(): (r: seq<Value>)
    ensures |r| == 1
  {
    [Blob(seq(778, _ => 7))]
  }

  function LongRecord(): seq<byte>
    requires Records.RowOk(LongRow())
  {
    Records.RecordBytes(LongRow())
  }

  lemma LongRecordIs(utf8: Str -> bool)
    ensures Storable(utf8, LongRow()) && Records.RowOk(LongRow()) && IsLong(LongRecord())
    ensures LongRecord() == Records.RecordBytes(LongRow()) && |LongRecord()| <= 784
  {
  }

  /** Nothing but the tree refuses a row of such a table, and the tree's pick is its rowid. */
  lemma OnlyRoom(t: TableRows.Table, why: Failure, given: seq<Value>, rowid: Option<i64>)
    requires t.schema == Plain() && |given| == 1
    ensures SchemaOk(t.schema) && t.RowidFor(given, LastOf(t.tree)) == Some(NextRowid(LastOf(t.tree)))
    ensures rowid.Some? && InsertRefused(why, t.lib, t.schema, t.rows, given, rowid, false) ==> why.TreeFailed?
    ensures Nulled(t.schema, given) == given && |given| == |t.schema.columns|
  {
    hide Compare, LastOf;
  }

  /** The last key of the first n long records is n, as long as nothing was deleted. */
  lemma LastLong(t: Tree, n: nat)
    requires n < 6 && Records.RowOk(LongRow()) && Flat(t) == LongRecords(n, LongRecord()) && LastFound(t)
    ensures NextRowid(LastOf(t)) == n + 1
  {
    hide LongRecord;
    BTrees.LastKeyExact(t);
    assert LastOf(t) == BTrees.LastKeyOf(Flat(t));
  }

  lemma OneMore(n: nat, r: seq<byte>)
    requires n < 6
    ensures n + 1 <= Nodes.MAX_ROWID && Upsert(LongRecords(n, r), n + 1, r) == LongRecords(n + 1, r)
  {
    var s := LongRecords(n, r);
    BelowAll(s, n + 1);
    assert LongRecords(n + 1, r) == s + [KV(n + 1, r)];
  }

  lemma AllLong(n: nat, r: seq<byte>)
    requires n <= 6 && IsLong(r)
    ensures AllSmall(LongRecords(n, r))
  {
    forall i | 0 <= i < n
      ensures Small(LongRecords(n, r)[i].key, r)
    {
      ShortIsSmall(i + 1, r);
    }
  }

  lemma FreshTable(t: Tree, root: Nodes.PageId, r: seq<byte>)
    requires t == LeafT(root, [])
    ensures Flat(t) == LongRecords(0, r) && LastFound(t)
  {
  }

  lemma FoundAfter(t: Tree, t': Tree)
    requires LeafPages.LastKept(RightLeaf(t'), t) && LastFound(t)
    ensures LastFound(t')
  {
  }

  /** A row with a short record goes in under the picked rowid. */
  method InsertShort(t: TableRows.Table, given: seq<Value>) returns (rowid: i64)
    requires t.Valid() && t.schema == Plain() && |given| == 1 && AllSmall(Flat(t.tree))
    requires Storable(t.utf8, given) && Records.RowOk(given) && |Records.RecordBytes(given)| <= 784
    modifies t`tree, t`rows, t`bad, t.sink
    ensures t.Valid() && rowid == NextRowid(LastOf(old(t.tree)))
    ensures t.rows == old(t.rows)[rowid := Records.AllStored(given)]
    ensures Flat(t.tree) == Upsert(Flat(old(t.tree)), rowid, Records.RecordBytes(given))
    ensures LeafPages.LastKept(RightLeaf(t.tree), old(t.tree))
  {
    hide *;
    t.ValidParts();
    OnlyRoom(t, KeyFailed, given, None);
    var last := t.LastKey();
    rowid := NextRowid(last);
    SmallAccepted(t, rowid, given);
    StoredIs(t.schema, given);
    EndsAre();
    ghost var before := t.tree;
    var r := t.InsertRow(given, false);
    RoomyIs(t.utf8, before, rowid, Nulled(t.schema, given), r.Spoiled?);
    if r.Failed? {
      OnlyRoom(t, r.why, given, Some(rowid));
      assert false;
    }
  }

  lemma RoomyIs(utf8: Str -> bool, t: Tree, rowid: i64, vs: seq<Value>, spoiled: bool)
    requires Accepts(utf8, t, rowid, vs)
    ensures !Unroomy(utf8, t, rowid, vs, spoiled)
  {
  }

  /** Six long rows get the rowids 1 to 6. */
  method FillSix(t: TableRows.Table)
    requires t.Valid() && t.schema == Plain() && t.tree == LeafT(t.root, [])
    modifies t`tree, t`rows, t`bad, t.sink
    ensures t.Valid() && Records.RowOk(LongRow()) && Flat(t.tree) == LongRecords(6, LongRecord())
  {
    hide *;
    LongRecordIs(t.utf8);
    FreshTable(t.tree, t.root, LongRecord());
    for i := 0 to 6
      invariant t.Valid() && Flat(t.tree) == LongRecords(i, LongRecord()) && LastFound(t.tree)
    {
      t.ValidParts();
      LastLong(t.tree, i);
      OneMore(i, LongRecord());
      AllLong(i, LongRecord());
      ghost var t0 := t.tree;
      var _ := InsertShort(t, LongRow());
      FoundAfter(t0, t.tree);
    }
  }

  /** Deletes the row with the last key as long as the tree reports one. */
  method DeleteLastRows(t: TableRows.Table)
    requires t.Valid() && AllSmall(Flat(t.tree))
    modifies t`tree, t`rows, t`bad, t.sink
    ensures t.Valid() && LastOf(t.tree) == None && RightLeaf(t.tree) == [] && LeftPart(t.tree) == LeftPart(old(t.tree))
    ensures AllSmall(Flat(t.tree))
  {
    hide *;
    t.ValidParts();
    SameRange();
    var last := t.LastKey();
    while last.Some?
      invariant t.Valid() && last == LastOf(t.tree) && AllSmall(Flat(t.tree))
      invariant LeftPart(t.tree) == LeftPart(old(t.tree))
      decreases |RightLeaf(t.tree)|
    {
      t.ValidParts();
      TreeGood(t);
      LastShrinks(t.tree);
      SmallLess(Flat(t.tree), last.value);
      DropKeeps(t.lib, t.schema, t.rows, {last.value});
      var _ := t.DropRow(last.value);
      last := t.LastKey();
      t.ValidIs();
    }
    t.ValidParts();
    TreeGood(t);
    LastShrinks(t.tree);
  }

  lemma TreeGood(t: TableRows.Table)
    requires t.Sound()
    ensures TreeOk(t.tree, Nodes.MIN_ROWID - 1, Nodes.MAX_ROWID)
  {
    hide *;
    t.SoundParts();
    BTrees.TableIs(t.sink, t.root, t.tree, t.others);
    GoodTree(t.tree, t.root, t.sink.Pages());
  }

  lemma LastShrinks(t: Tree)
    requires TreeOk(t, Nodes.MIN_ROWID - 1, Nodes.MAX_ROWID)
    ensures LastOf(t).None? ==> RightLeaf(t) == []
    ensures LastOf(t).Some? ==>
              var t' := Deletion.WithoutKey(t, LastOf(t).value);
              |RightLeaf(t')| < |RightLeaf(t)| && LeftPart(t') == LeftPart(t)
  {
    hide LeftPart, TreeOk, Deletion.WithoutKey, RightLeaf;
    LastOfRight(t, Nodes.MIN_ROWID - 1, Nodes.MAX_ROWID);
  }

  lemma SmallLess(s: seq<KV>, k: Nodes.rowid)
    requires AllSmall(s)
    ensures AllSmall(Remove(s, k))
  {
    hide Small;
    PartsOf(s, k);
  }

  lemma LeftSome(t: TableRows.Table)
    requires t.Sound() && Records.RowOk(LongRow()) && Flat(t.tree) == LongRecords(6, LongRecord()) && IsLong(LongRecord())
    ensures LeftPart(t.tree) != []
  {
    hide *;
    t.SoundParts();
    SomeOnLeft(t.sink, t.root, t.tree, t.others, LongRecord());
  }

  /** The row of a record found in the tree. */
  lemma RowFound(utf8: Str -> bool, s: seq<KV>, rows: Rows)
    requires Encodes(utf8, s, rows) && Records.RowOk(LongRow()) && Lookup(s, 1) == Some(LongRecord())
    ensures 1 in rows && rows[1] == LongRow()
  {
    hide Lookup, Records.DecodeRow, Records.RecordBytes;
    Records.RecordRoundTrip(utf8, LongRow());
    assert Records.AllStored(LongRow()) == LongRow();
  }

  /** The row that is put in last. */
  function NullRow(): (r: seq<Value>)
    ensures |r| == 1 && r != LongRow()
  {
    [Null]
  }

  lemma NullRowIs(utf8: Str -> bool)
    ensures Storable(utf8, NullRow()) && Records.RowOk(NullRow()) && |Records.RecordBytes(NullRow())| <= 784
    ensures Records.AllStored(NullRow()) == NullRow() && NextRowid(None) == 1
  {
  }

  /** In a table of one plain column: six rows are inserted, then the last row is deleted until the tree reports
      no last key, and one more row is inserted. It takes rowid 1, and the first row is gone. */
  method RowLost(t: TableRows.Table) returns (rowid: i64, ghost before: Rows)
    requires t.Valid() && t.schema == Plain() && t.tree == LeafT(t.root, [])
    modifies t`tree, t`rows, t`bad, t.sink
    ensures t.Valid() && rowid == 1 && 1 in before && before[1] == LongRow()
    ensures t.rows == before[1 := NullRow()]
  {
    hide *;
    FillSix(t);
    LongRecordIs(t.utf8);
    t.ValidParts();
    LeftSome(t);
    AllLong(6, LongRecord());
    ghost var t0 := t.tree;
    DeleteLastRows(t);
    t.ValidParts();
    t.SoundParts();
    FirstOnLeft(t.tree, t0, LongRecord());
    RowFound(t.utf8, Flat(t.tree), t.rows);
    before := t.rows;
    NullRowIs(t.utf8);
    rowid := InsertShort(t, NullRow());
  }
}
