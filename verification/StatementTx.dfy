/** SQL statements in write transactions: CREATE TABLE, and INSERT, UPDATE and DELETE alone or several in one. */
module StatementTransactions {
  import opened Common
  import opened Varint
  import opened Values
  import opened Nodes
  import opened KVs = Table
  import opened Trees
  import opened PageFormat
  import opened Overflow
  import Records
  import Dml
  import LeafPages
  import BTrees
  import TableRuns
  import TR = TableRows
  import DmlRuns
  import opened TreeTransactions
  import D = Databases

  // ---- CREATE TABLE ----

  function TableWord(): Str {
    [116, 97, 98, 108, 101]
  }

  /** The catalog's record of a table. */
  function CatalogRow(name: Str, root: PageId, sql: Str): seq<Value>
    requires root < U32
  {
    [Text(TableWord()), Text(name), Text(name), Integer(root), Text(sql)]
  }

  /** What the catalog's record decodes to: the word table, the name twice, the root page, the statement. */
  lemma CatalogMeaning(utf8: Str -> bool, name: Str, root: PageId, sql: Str)
    requires root < U32 && Records.RowOk(CatalogRow(name, root, sql))
    requires utf8(name) && utf8(sql) && utf8([116, 97, 98, 108, 101])
    ensures Records.DecodeRow(utf8, Records.RecordBytes(CatalogRow(name, root, sql))) ==
            Ok([Text([116, 97, 98, 108, 101]), Text(name), Text(name), Integer(root), Text(sql)])
  {
    hide Records.DecodeRow, Records.RecordBytes;
    Records.RecordRoundTrip(utf8, CatalogRow(name, root, sql));
    assert Records.AllStored(CatalogRow(name, root, sql)) == CatalogRow(name, root, sql);
  }

  /** Lengths are 64-bit numbers. */
  predicate Recordable(vs: seq<Value>) {
    Records.RowOk(vs) && |Records.RecordBytes(vs)| < TWO_64
  }

  /** Creates a b-tree for a table, and enters it in the catalog under the key past the last. */
  method AddTable(sink: PageSink, name: Str, sql: Str, ghost t: Tree, ghost others: multiset<PageId>)
    returns (fate: BTrees.Fate, root: PageId, key: rowid, ghost t': Tree, ghost bad: PageId)
    requires BTrees.IsTable(sink, 1, t, others)
    modifies sink
    ensures fate.Right? || fate.Damaged? ==>
              && root < U32 && Recordable(CatalogRow(name, root, sql)) && key == Dml.NextRowid(TR.LastOf(t))
              && Flat(t') == Upsert(Flat(t), key, Records.RecordBytes(CatalogRow(name, root, sql)))
              && BTrees.IsTable(sink, root, LeafT(root, []), Ids(t') + others) && Same(old(sink.Pages()), sink.Pages(), others)
    ensures fate.Right? ==> BTrees.IsTable(sink, 1, t', others + multiset{root})
    ensures fate.Damaged? ==>
              && BTrees.Spoilt(sink, 1, t', bad, others + multiset{root})
              && ((Stored(t', sink.Pages()) && !FitsAll(t')) || BTrees.Misread(sink.Pages(), 1, t', bad))
    ensures root < U32 && Recordable(CatalogRow(name, root, sql)) ==>
              var c := BTrees.CellShape(key, Records.RecordBytes(CatalogRow(name, root, sql)));
              && (fate.Right? <==> LeafPages.Room(t, c)) && (!LeafPages.Survives(t, c) ==> fate.Aborted?)
    ensures old(sink.pageCount) + 1 < U32 ==> root < U32
    ensures TableRuns.AllSmall(Flat(t)) && 2 * |name| + |sql| <= 700 && root < U32 ==>
              TakesShort(t, key, CatalogRow(name, root, sql)) && fate.Right?
    ensures root < U32 && Recordable(CatalogRow(name, root, sql)) ==>
              sink.pageCount <= old(sink.pageCount) + |Records.RecordBytes(CatalogRow(name, root, sql))| + Height(t) + 3
  {
    hide *;
    fate, t', bad := BTrees.Aborted, t, 0;
    ghost var view := sink.Pages();
    BTrees.TableIs(sink, 1, t, others);
    TR.SameRange();
    OwnPage(t);
    ghost var empty: Tree;
    root, empty := BTrees.Create(sink, Ids(t) + others);
    ghost var view1 := sink.Pages();
    SameLess(view, view1, Ids(t), others);
    SameLess(view, view1, others, Ids(t));
    BesideNew(sink, root, t, others, view);
    var last := BTrees.LastKey(sink, 1, t, others + multiset{root});
    LastIs(t);
    key := Dml.NextRowid(last);
    var small := Below32(root);
    if !small {
      return;
    }
    var vs := CatalogRow(name, root, sql);
    if TableRuns.AllSmall(Flat(t)) && 2 * |name| + |sql| <= 700 {
      EntryShort(sink, name, root, sql, key, t, others + multiset{root});
      TakesShortIs(t, key, vs);
    }
    if !Recordable(vs) {
      return;
    }
    RecordableIs(vs);
    var record := Records.EncodeRow(vs);
    var room, _ := BTrees.Foresee(sink, 1, key, record, t, others + multiset{root});
    ghost var ended: BTrees.Fate, e: Entry;
    var reply: BTrees.Reply;
    reply, ended, t', bad, e := BTrees.Insert(sink, 1, key, record, t, others + multiset{root});
    fate := match reply case Answered => (if room then BTrees.Right else BTrees.Damaged)
                        case Refused => BTrees.Failed case Never => BTrees.Aborted;
    TableRuns.AnswerIs(ended);
    if fate.Right? || fate.Damaged? {
      SameLess(view1, sink.Pages(), multiset{root}, others);
      SameTrans(view, view1, sink.Pages(), others);
      if fate.Right? {
        BTrees.TableIs(sink, 1, t', others + multiset{root});
        BTrees.GoodId(t', 1, MIN_ROWID - 1, MAX_ROWID, sink.Pages());
      } else {
        SpoiltParts(sink, 1, t', bad, others + multiset{root});
      }
      NewKept(sink, root, t', others, view1);
    }
  }

  lemma LastIs(t: Tree)
    ensures TR.LastOf(t) == BTrees.LastKeyOf(Trees.Records(RightLeaf(t)))
  {
  }

  lemma OwnPage(t: Tree)
    ensures t.id in Ids(t)
  {
  }

  method Below32(root: PageId) returns (ok: bool)
    ensures ok <==> root < U32
  {
    ok := root < 0x1_0000_0000;
  }

  lemma RecordableIs(vs: seq<Value>)
    ensures Recordable(vs) <==> Records.RowOk(vs) && |Records.RecordBytes(vs)| < TWO_64
  {
    hide Records.RecordBytes;
  }

  /** A table beside which a new one stands. */
  lemma BesideNew(sink: PageSink, root: PageId, t: Tree, others: multiset<PageId>, view: View)
    requires LeafPages.Good(t, 1, MIN_ROWID - 1, MAX_ROWID, view) && FitsAll(t) && Same(view, sink.Pages(), Ids(t))
    requires BTrees.IsTable(sink, root, LeafT(root, []), Ids(t) + others)
    ensures BTrees.IsTable(sink, 1, t, others + multiset{root}) && root <= sink.pageCount
  {
    hide Stored, TreeOk, FitsAll, Ids, PageSink.Traced;
    assert Ids(LeafT(root, [])) == multiset{root} by {
      NewIds(root);
    }
    StoredSame(t, view, sink.Pages(), Ids(t));
    assert Ids(t) + (others + multiset{root}) == multiset{root} + (Ids(t) + others);
    sink.OwnedOnce(root, Ids(t) + others);
  }

  lemma NewIds(root: PageId)
    ensures Ids(LeafT(root, [])) == multiset{root}
  {
  }

  /** The new table once the catalog has changed. */
  lemma NewKept(sink: PageSink, root: PageId, t: Tree, others: multiset<PageId>, view: View)
    requires LeafPages.Good(LeafT(root, []), root, MIN_ROWID - 1, MAX_ROWID, view) && FitsAll(LeafT(root, []))
    requires Same(view, sink.Pages(), others + multiset{root}) && sink.Owned(Ids(t) + (others + multiset{root})) && t.id == 1
    ensures BTrees.IsTable(sink, root, LeafT(root, []), Ids(t) + others)
  {
    hide TreeOk, FitsAll, PageSink.Traced;
    NewIds(root);
    OwnPage(t);
    assert Ids(LeafT(root, [])) + (Ids(t) + others) == Ids(t) + (others + multiset{root});
  }

  /** CREATE TABLE in a write transaction of its own: both tables are committed, or neither. */
  method CreateTable(d: D.Database, name: Str, sql: Str, ghost t: Tree, ghost view: View, ghost others: multiset<PageId>)
    returns (fate: BTrees.Fate, committed: bool, root: PageId, key: rowid, ghost t': Tree, ghost bad: PageId,
             ghost before: View, ghost after: View, ghost written: set<PageId>)
    requires d.Valid() && !d.model.lost && d.model.writer == None && HasTable(d.model, 1, t, view, others)
    modifies d.Footprint()
    ensures d.Valid() && fresh(d.Footprint() - old(d.Footprint()))
    ensures !committed ==> d.model == old(d.model)
    ensures committed ==>
              && (fate.Right? || fate.Damaged?) && root < U32 && Recordable(CatalogRow(name, root, sql))
              && key == Dml.NextRowid(TR.LastOf(t)) && HasTable(d.model, root, LeafT(root, []), after, Ids(t') + others)
              && Flat(t') == Upsert(Flat(t), key, Records.RecordBytes(CatalogRow(name, root, sql)))
              && (fate.Right? <==>
                    LeafPages.Room(t, BTrees.CellShape(key, Records.RecordBytes(CatalogRow(name, root, sql)))))
    ensures committed && fate.Right? ==> HasTable(d.model, 1, t', after, others + multiset{root})
    ensures committed && fate.Damaged? ==> SpoiltTable(d.model, 1, t', after, bad, others + multiset{root})
    ensures committed ==>
              && Edited(old(d.model), d.model) && Loads(before, view, Ids(t))
              && EditedApart(old(d.model), d.model, before, after, written, others)
    ensures TableRuns.AllSmall(Flat(t)) && 2 * |name| + |sql| <= 700 && old(d.model).size + Height(t) + 790 < U32 &&
            old(d.model).version + 1 < TWO_64 ==>
              committed && fate.Right?
  {
    hide *;
    committed, before, after, written := false, map[], map[], {};
    ghost var m := d.model;
    var sink := BeginEdit(d, 1, t, view, others);
    OpenedIs(m);
    D.Parts(d);
    fate, root, key, t', bad := AddTable(sink, name, sql, t, others);
    if TableRuns.AllSmall(Flat(t)) && 2 * |name| + |sql| <= 700 && root < U32 {
      TakesShortIs(t, key, CatalogRow(name, root, sql));
    }
    var fits := Fits32(sink);
    var room := HasVersions(d);
    if !(fate.Right? || fate.Damaged?) || !fits || !room {
      d.RollbackWriter();
      RolledBack(m, Opened(m), d.model);
      return;
    }
    committed := true;
    TableHeld(m, 1, t, view, others);
    EndsOwned(sink, 1, t', bad, others + multiset{root}, fate);
    HeldPagesOf(m.committed, t, view);
    PagesAre(sink);
    EndEdit(d, sink, m, view, Ids(t), others);
    before, after, written := sink.base, sink.Pages(), sink.pending.Keys;
    TableCommitted(d.model, sink, root, LeafT(root, []), Ids(t') + others);
    if fate.Right? {
      TableCommitted(d.model, sink, 1, t', others + multiset{root});
    } else {
      SpoiltCommitted(d.model, sink, 1, t', bad, others + multiset{root});
    }
  }

  /** A short record finds room in a tree. */
  predicate TakesShort(t: Tree, key: rowid, vs: seq<Value>) {
    && Recordable(vs) && |Records.RecordBytes(vs)| <= 784
    && LeafPages.Room(t, BTrees.CellShape(key, Records.RecordBytes(vs)))
  }

  lemma TakesShortIs(t: Tree, key: rowid, vs: seq<Value>)
    requires TakesShort(t, key, vs)
    ensures Recordable(vs) && Records.RowOk(vs) && |Records.RecordBytes(vs)| <= 784
    ensures LeafPages.Room(t, BTrees.CellShape(key, Records.RecordBytes(vs)))
  {
    hide LeafPages.Room, BTrees.CellShape, Records.RecordBytes;
  }

  /** A short entry finds room among short entries. */
  lemma EntryShort(sink: PageSink, name: Str, root: PageId, sql: Str, key: rowid, t: Tree, others: multiset<PageId>)
    requires BTrees.IsTable(sink, 1, t, others) && root < U32 && TableRuns.AllSmall(Flat(t)) && 2 * |name| + |sql| <= 700
    ensures TakesShort(t, key, CatalogRow(name, root, sql))
  {
    hide BTrees.IsTable, TableRuns.AllSmall, LeafPages.Room, BTrees.CellShape, Records.RecordBytes, CatalogRow, TableRuns.Small;
    BTrees.TableIs(sink, 1, t, others);
    EntryLength(name, root, sql);
    var record := Records.RecordBytes(CatalogRow(name, root, sql));
    TableRuns.ShortIsSmall(key, record);
    SmallCell(key, record);
    TableRuns.SmallRoom(t, 1, MIN_ROWID - 1, MAX_ROWID, sink.Pages(), BTrees.CellShape(key, record));
  }

  lemma SmallCell(key: rowid, record: seq<byte>)
    requires TableRuns.Small(key, record)
    ensures |record| < TWO_64 && LeafCellLen(BTrees.CellShape(key, record)) <= SMALL_CELL
  {
  }

  lemma BodiesLength(v: Value, vs: seq<Value>)
    ensures |Records.Bodies([v] + vs)| == |Records.Body(v)| + |Records.Bodies(vs)|
  {
    hide Records.Body;
    assert ([v] + vs)[1..] == vs;
  }

  lemma EntryLength(name: Str, root: PageId, sql: Str)
    requires root < U32 && 2 * |name| + |sql| <= 700
    ensures Recordable(CatalogRow(name, root, sql)) && Records.RowOk(CatalogRow(name, root, sql))
    ensures |Records.RecordBytes(CatalogRow(name, root, sql))| <= 784
  {
    hide Records.SerialBytes, Records.Serials, Records.HeaderLen, Encode, Records.Bodies;
    var vs := CatalogRow(name, root, sql);
    var header := Records.SerialBytes(Records.Serials(vs));
    Records.SerialBytesLength(Records.Serials(vs));
    Records.HeaderLenLeast(|header|, 0);
    BodiesLength(Text(TableWord()), vs[1..]);
    BodiesLength(Text(name), vs[2..]);
    BodiesLength(Text(name), vs[3..]);
    BodiesLength(Integer(root), vs[4..]);
    BodiesLength(Text(sql), []);
    assert [Text(TableWord())] + vs[1..] == vs && [Text(name)] + vs[2..] == vs[1..] && [Text(name)] + vs[3..] == vs[2..];
    assert [Integer(root)] + vs[4..] == vs[3..] && [Text(sql)] + [] == vs[4..];
    assert Records.Bodies([]) == [] by {
      NoBodies();
    }
  }

  lemma NoBodies()
    ensures Records.Bodies([]) == []
  {
  }

  // ---- INSERT, UPDATE and DELETE ----

  /** The committed pages hold a table with these rows. */
  ghost predicate HasRows(m: D.Model, root: PageId, lib: Lib, schema: Dml.Schema, utf8: Str -> bool, at: DmlRuns.State,
                          view: View, others: multiset<PageId>)
  {
    && Dml.SchemaOk(schema) && Dml.Consistent(lib, schema, at.rows)
    && HasTable(m, root, at.tree, view, others) && TR.Encodes(utf8, Flat(at.tree), at.rows)
  }

  /** They are those of a table meant to have these rows, but its page bad does not read as its leaf. */
  ghost predicate SpoiltRows(m: D.Model, root: PageId, lib: Lib, schema: Dml.Schema, utf8: Str -> bool, at: DmlRuns.State,
                             view: View, bad: PageId, others: multiset<PageId>)
  {
    && Dml.SchemaOk(schema) && Dml.Consistent(lib, schema, at.rows)
    && SpoiltTable(m, root, at.tree, view, bad, others) && TR.Encodes(utf8, Flat(at.tree), at.rows)
  }

  lemma RowsAre(m: D.Model, root: PageId, lib: Lib, schema: Dml.Schema, utf8: Str -> bool, at: DmlRuns.State, view: View,
                others: multiset<PageId>)
    requires HasRows(m, root, lib, schema, utf8, at, view, others)
    ensures Dml.SchemaOk(schema) && Dml.Consistent(lib, schema, at.rows)
    ensures HasTable(m, root, at.tree, view, others) && TR.Encodes(utf8, Flat(at.tree), at.rows)
  {
  }

  /** A new table has no rows. */
  lemma NewRows(m: D.Model, root: PageId, lib: Lib, schema: Dml.Schema, utf8: Str -> bool, view: View, others: multiset<PageId>)
    requires Dml.SchemaOk(schema) && HasTable(m, root, LeafT(root, []), view, others)
    ensures HasRows(m, root, lib, schema, utf8, DmlRuns.State(map[], LeafT(root, [])), view, others)
  {
    hide HasTable;
    TR.EncodesNone(utf8);
  }

  /** A crash that the database survives keeps the rows. */
  lemma CrashKeepsRows(m: D.Model, m': D.Model, root: PageId, lib: Lib, schema: Dml.Schema, utf8: Str -> bool, at: DmlRuns.State,
                       view: View, others: multiset<PageId>, logged: Bytes)
    returns (others': multiset<PageId>)
    requires HasRows(m, root, lib, schema, utf8, at, view, others) && D.Reopened(m', m.committed, logged)
    ensures HasRows(m', root, lib, schema, utf8, at, view, others')
  {
    hide *;
    RowsAre(m, root, lib, schema, utf8, at, view, others);
    others' := CrashKeepsTable(m, m', root, at.tree, view, others, logged);
    RowsHeld(m', root, lib, schema, utf8, at, view, others');
  }

  lemma RowsHeld(m: D.Model, root: PageId, lib: Lib, schema: Dml.Schema, utf8: Str -> bool, at: DmlRuns.State, view: View,
                 others: multiset<PageId>)
    requires Dml.SchemaOk(schema) && Dml.Consistent(lib, schema, at.rows)
    requires HasTable(m, root, at.tree, view, others) && TR.Encodes(utf8, Flat(at.tree), at.rows)
    ensures HasRows(m, root, lib, schema, utf8, at, view, others)
  {
  }

  lemma SpoiltHeld(m: D.Model, root: PageId, lib: Lib, schema: Dml.Schema, utf8: Str -> bool, at: DmlRuns.State, view: View,
                   bad: PageId, others: multiset<PageId>)
    requires Dml.SchemaOk(schema) && Dml.Consistent(lib, schema, at.rows)
    requires SpoiltTable(m, root, at.tree, view, bad, others) && TR.Encodes(utf8, Flat(at.tree), at.rows)
    ensures SpoiltRows(m, root, lib, schema, utf8, at, view, bad, others)
  {
  }

  /** Begins a write transaction and opens a table in it. */
  method OpenTable(d: D.Database, root: PageId, lib: Lib, schema: Dml.Schema, coerce: (Value, nat) -> Result<Value>,
                   utf8: Str -> bool, ghost at: DmlRuns.State, ghost view: View, ghost others: multiset<PageId>)
    returns (t: TR.Table)
    requires d.Valid() && !d.model.lost && d.model.writer == None && Dml.EqualityOk(lib)
    requires HasRows(d.model, root, lib, schema, utf8, at, view, others)
    modifies d.Footprint()
    ensures d.Valid() && fresh(d.Footprint() - old(d.Footprint())) && d.model == Opened(old(d.model))
    ensures fresh(t) && fresh(t.sink) && t !in d.Footprint() && t.sink !in d.Footprint() && t.Valid()
    ensures t.lib == lib && t.schema == schema && t.coerce == coerce && t.utf8 == utf8 && t.root == root && t.others == others
    ensures DmlRuns.State(t.rows, t.tree) == at && Began(t, old(d.model), at.tree, view, others)
    ensures t.sink.Pages() == t.sink.base
  {
    hide *;
    RowsAre(d.model, root, lib, schema, utf8, at, view, others);
    ghost var m := d.model;
    var sink := BeginEdit(d, root, at.tree, view, others);
    D.Parts(d);
    ghost var footprint := d.Footprint();
    t := new TR.Table.Open(lib, schema, coerce, utf8, sink, root, at.tree, at.rows, others);
    assert t !in footprint;
    BeganIs(t, m, at.tree, view, others);
  }

  /** The sink of the table began with the committed pages and allocator of m. */
  ghost predicate Began(t: TR.Table, m: D.Model, tree: Tree, view: View, others: multiset<PageId>) {
    && Loads(t.sink.base, view, Ids(tree)) && t.sink.start == Buffer(map[], m.free, m.size)
    && HasTable(m, t.root, tree, view, others) && t.others == others
  }

  lemma BeganIs(t: TR.Table, m: D.Model, tree: Tree, view: View, others: multiset<PageId>)
    ensures Began(t, m, tree, view, others) <==>
            && Loads(t.sink.base, view, Ids(tree)) && t.sink.start == Buffer(map[], m.free, m.size)
            && HasTable(m, t.root, tree, view, others) && t.others == others
  {
  }

  /** Commits the transaction of a table if asked to and if it can be, or rolls it back. */
  method CloseTable(d: D.Database, t: TR.Table, keep: bool, ghost whole: bool, ghost m: D.Model, ghost tree: Tree,
                    ghost view: View, ghost others: multiset<PageId>)
    returns (committed: bool, ghost written: set<PageId>)
    requires d.Valid() && !m.lost && m.writer == None && d.model == Opened(m) && t !in d.Footprint() && t.sink !in d.Footprint()
    requires Began(t, m, tree, view, others)
    requires keep ==>
               && (if whole then t.Valid() else t.Wrecked() && Dml.Consistent(t.lib, t.schema, t.rows))
               && Same(t.sink.base, t.sink.Pages(), others)
    modifies d.Footprint()
    ensures d.Valid() && d.Footprint() <= old(d.Footprint())
    ensures !committed ==> d.model == m
    ensures committed <==> keep && t.sink.pageCount + 1 < U32 && m.version + 1 < TWO_64
    ensures committed && whole ==>
              HasRows(d.model, t.root, t.lib, t.schema, t.utf8, DmlRuns.State(t.rows, t.tree), t.sink.Pages(), others)
    ensures committed && !whole ==>
              SpoiltRows(d.model, t.root, t.lib, t.schema, t.utf8, DmlRuns.State(t.rows, t.tree), t.sink.Pages(), t.bad, others)
    ensures committed ==>
              Edited(m, d.model) && EditedApart(m, d.model, t.sink.base, t.sink.Pages(), written, others)
  {
    hide *;
    written := {};
    OpenedIs(m);
    BeganIs(t, m, tree, view, others);
    D.Parts(d);
    var fits := Fits32(t.sink);
    var room := HasVersions(d);
    committed := keep && fits && room;
    if !committed {
      d.RollbackWriter();
      RolledBack(m, Opened(m), d.model);
      return;
    }
    TableHeld(m, t.root, tree, view, others);
    HeldPagesOf(m.committed, tree, view);
    if whole {
      t.ValidParts();
      t.SoundParts();
      EndsOwned(t.sink, t.root, t.tree, 0, others, BTrees.Right);
    } else {
      WreckParts(t);
      EndsOwned(t.sink, t.root, t.tree, t.bad, others, BTrees.Damaged);
    }
    EndEdit(d, t.sink, m, view, Ids(tree), others);
    written := t.sink.pending.Keys;
    ghost var at := DmlRuns.State(t.rows, t.tree);
    if whole {
      TableCommitted(d.model, t.sink, t.root, t.tree, others);
      RowsHeld(d.model, t.root, t.lib, t.schema, t.utf8, at, t.sink.Pages(), others);
    } else {
      SpoiltCommitted(d.model, t.sink, t.root, t.tree, t.bad, others);
      SpoiltHeld(d.model, t.root, t.lib, t.schema, t.utf8, at, t.sink.Pages(), t.bad, others);
    }
  }

  lemma WreckParts(t: TR.Table)
    requires t.Wrecked()
    ensures Dml.SchemaOk(t.schema) && BTrees.Spoilt(t.sink, t.root, t.tree, t.bad, t.others) && TR.Encodes(t.utf8, Flat(t.tree), t.rows)
    ensures (Stored(t.tree, t.sink.Pages()) && !FitsAll(t.tree)) || BTrees.Misread(t.sink.Pages(), t.root, t.tree, t.bad)
  {
    hide Stored, FitsAll, BTrees.Misread, BTrees.Spoilt, TR.Encodes, Dml.SchemaOk;
  }

  /** Statements on one table in one write transaction, committed at the end if asked to: the committed pages hold
      the rows that the run of statements leaves. A statement whose row the tree fails over ends in a rollback;
      one that lays a row over others is committed like any other. */
  method RunTransaction(d: D.Database, root: PageId, lib: Lib, schema: Dml.Schema, coerce: (Value, nat) -> Result<Value>,
                        utf8: Str -> bool, sts: seq<DmlRuns.Statement>, keep: bool, ghost at: DmlRuns.State, ghost view: View,
                        ghost others: multiset<PageId>)
    returns (t: TR.Table, answers: seq<DmlRuns.Answer>, committed: bool, ghost states: seq<DmlRuns.State>, ghost before: View,
             ghost after: View, ghost written: set<PageId>)
    requires d.Valid() && !d.model.lost && d.model.writer == None && Dml.EqualityOk(lib)
    requires HasRows(d.model, root, lib, schema, utf8, at, view, others)
    requires forall i :: 0 <= i < |sts| ==> DmlRuns.WellFormed(schema, sts[i])
    modifies d.Footprint()
    ensures d.Valid() && fresh(d.Footprint() - old(d.Footprint()))
    ensures t.lib == lib && t.schema == schema && t.coerce == coerce && t.utf8 == utf8 && Dml.SchemaOk(schema)
    ensures |answers| <= |sts| && |states| == |answers| + 1 && states[0] == at
    ensures forall i :: 0 <= i < |answers| ==> DmlRuns.Did(t, states[i], sts[i], answers[i], states[i + 1])
    ensures !committed ==> d.model == old(d.model)
    ensures committed <==>
              && keep && (DmlRuns.Unharmed(answers) || DmlRuns.Marred(answers[|answers| - 1]))
              && t.sink.pageCount + 1 < U32 && old(d.model).version + 1 < TWO_64
    ensures DmlRuns.Unharmed(answers) ==> |answers| == |sts|
    ensures committed && DmlRuns.Unharmed(answers) ==>
              HasRows(d.model, root, lib, schema, utf8, states[|answers|], after, others)
    ensures committed && !DmlRuns.Unharmed(answers) ==>
              SpoiltRows(d.model, root, lib, schema, utf8, states[|answers|], after, t.bad, others)
    ensures committed ==>
              && Edited(old(d.model), d.model) && Loads(before, view, Ids(at.tree))
              && EditedApart(old(d.model), d.model, before, after, written, others)
  {
    hide *;
    ghost var m := d.model;
    t := OpenTable(d, root, lib, schema, coerce, utf8, at, view, others);
    OpenedIs(m);
    BeganIs(t, m, at.tree, view, others);
    D.Parts(d);
    answers, states := DmlRuns.Run(t, sts);
    DmlRuns.UnharmedIs(answers);
    BeganIs(t, m, at.tree, view, others);
    var ended := DmlRuns.Unharmed(answers) || DmlRuns.Marred(answers[|answers| - 1]);
    committed, written := CloseTable(d, t, keep && ended, DmlRuns.Unharmed(answers), m, at.tree, view, others);
    before, after := t.sink.base, t.sink.Pages();
  }

  /** A statement that was answered without an error. */
  predicate Succeeded(a: DmlRuns.Answer) {
    match a
    case Inserts(o) => !o.Failed?
    case Changes(r) => !r.Stopped?
  }

  lemma SucceededIs(a: DmlRuns.Answer)
    ensures Succeeded(a) ==> !DmlRuns.Died(a) || DmlRuns.Marred(a)
    ensures DmlRuns.Marred(a) ==> DmlRuns.Died(a)
    ensures Succeeded(a) <==> match a case Inserts(o) => o.Done? || o.Spoiled? case Changes(r) => r.Count? || r.Spoilt?
  {
  }

  /** One statement in a write transaction of its own. A statement that fails is undone as a whole, the rows it had
      stored before it failed included. */
  method RunStatement(d: D.Database, root: PageId, lib: Lib, schema: Dml.Schema, coerce: (Value, nat) -> Result<Value>,
                      utf8: Str -> bool, st: DmlRuns.Statement, ghost at: DmlRuns.State, ghost view: View,
                      ghost others: multiset<PageId>)
    returns (t: TR.Table, a: DmlRuns.Answer, committed: bool, ghost at': DmlRuns.State, ghost before: View,
             ghost after: View, ghost written: set<PageId>)
    requires d.Valid() && !d.model.lost && d.model.writer == None && Dml.EqualityOk(lib)
    requires HasRows(d.model, root, lib, schema, utf8, at, view, others) && DmlRuns.WellFormed(schema, st)
    modifies d.Footprint()
    ensures d.Valid() && fresh(d.Footprint() - old(d.Footprint()))
    ensures t.lib == lib && t.schema == schema && t.coerce == coerce && t.utf8 == utf8 && Dml.SchemaOk(schema)
    ensures DmlRuns.Did(t, at, st, a, at')
    ensures !committed ==> d.model == old(d.model)
    ensures committed <==>
              && (match a case Inserts(o) => o.Done? || o.Spoiled? case Changes(r) => r.Count? || r.Spoilt?)
              && t.sink.pageCount + 1 < U32 && old(d.model).version + 1 < TWO_64
    ensures committed && !DmlRuns.Marred(a) ==> HasRows(d.model, root, lib, schema, utf8, at', after, others)
    ensures committed && DmlRuns.Marred(a) ==> SpoiltRows(d.model, root, lib, schema, utf8, at', after, t.bad, others)
    ensures committed ==>
              && Edited(old(d.model), d.model) && Loads(before, view, Ids(at.tree))
              && EditedApart(old(d.model), d.model, before, after, written, others)
  {
    hide *;
    ghost var m := d.model;
    t := OpenTable(d, root, lib, schema, coerce, utf8, at, view, others);
    OpenedIs(m);
    BeganIs(t, m, at.tree, view, others);
    D.Parts(d);
    a := DmlRuns.Do(t, st);
    at' := DmlRuns.State(t.rows, t.tree);
    SucceededIs(a);
    BeganIs(t, m, at.tree, view, others);
    committed, written := CloseTable(d, t, Succeeded(a), !DmlRuns.Marred(a), m, at.tree, view, others);
    before, after := t.sink.base, t.sink.Pages();
  }

  /** A table is created, filled by statements in another transaction, and the database crashes: the table is there
      with the rows of the run, and so is the catalog that names it. */
  method CreateFillCrash(d: D.Database, name: Str, sql: Str, lib: Lib, schema: Dml.Schema, coerce: (Value, nat) -> Result<Value>,
                         utf8: Str -> bool, sts: seq<DmlRuns.Statement>, ghost t: Tree, ghost view: View,
                         ghost others: multiset<PageId>)
    returns (done: bool, root: PageId, key: rowid, table: TR.Table?, answers: seq<DmlRuns.Answer>,
             ghost states: seq<DmlRuns.State>, ghost t': Tree, ghost named: View, ghost filled: View,
             ghost besides: multiset<PageId>, ghost besideIt: multiset<PageId>)
    requires d.Valid() && !d.model.lost && d.model.writer == None && HasTable(d.model, 1, t, view, others)
    requires Dml.EqualityOk(lib) && Dml.SchemaOk(schema) && forall i :: 0 <= i < |sts| ==> DmlRuns.WellFormed(schema, sts[i])
    modifies d.Footprint()
    ensures d.Valid()
    ensures done ==>
              && root < U32 && Recordable(CatalogRow(name, root, sql)) && HasTable(d.model, 1, t', named, besides)
              && Flat(t') == Upsert(Flat(t), key, Records.RecordBytes(CatalogRow(name, root, sql)))
    ensures done ==>
              && table != null && table.lib == lib && table.schema == schema && table.coerce == coerce && table.utf8 == utf8
              && |answers| == |sts| && |states| == |sts| + 1 && states[0] == DmlRuns.State(map[], LeafT(root, []))
              && (forall i :: 0 <= i < |sts| ==> DmlRuns.Did(table, states[i], sts[i], answers[i], states[i + 1]))
              && HasRows(d.model, root, lib, schema, utf8, states[|sts|], filled, besideIt)
  {
    hide *;
    done, table, answers, states, filled, besides, besideIt := false, null, [], [], map[], multiset{}, multiset{};
    var fate: BTrees.Fate, committed: bool;
    ghost var bad: PageId, before: View, written: set<PageId>;
    fate, committed, root, key, t', bad, before, named, written := CreateTable(d, name, sql, t, view, others);
    if !committed || !fate.Right? {
      return;
    }
    ghost var m := d.model;
    EditedParts(old(d.model), m);
    NewRows(m, root, lib, schema, utf8, named, Ids(t') + others);
    ghost var at := DmlRuns.State(map[], LeafT(root, []));
    label Created:
    table, answers, committed, states, before, filled, written :=
      RunTransaction(d, root, lib, schema, coerce, utf8, sts, true, at, named, Ids(t') + others);
    assert forall o: object :: o in d.Footprint() && old(allocated(o)) ==> old@Created(allocated(o));
    DmlRuns.UnharmedIs(answers);
    if !committed || !DmlRuns.Unharmed(answers) {
      return;
    }
    done := true;
    ghost var m' := d.model;
    EditedParts(m, m');
    RowsAre(m', root, lib, schema, utf8, states[|sts|], filled, Ids(t') + others);
    TableHeld(m', root, states[|sts|].tree, filled, Ids(t') + others);
    besides := OtherTableKept(m, m', Ids(states[|sts|].tree), before, filled, written, Ids(t') + others, 1, t', named,
                              others + multiset{root});
    d.CrashNow();
    CrashIs(m', d.model);
    besides := CrashKeepsTable(m', d.model, 1, t', named, besides, m'.logged);
    besideIt := CrashKeepsRows(m', d.model, root, lib, schema, utf8, states[|sts|], filled, Ids(t') + others, m'.logged);
  }

  lemma EditedParts(m: D.Model, m': D.Model)
    requires Edited(m, m')
    ensures !m'.lost && m'.writer == None
  {
  }

  lemma CrashIs(m: D.Model, m': D.Model)
    requires !m.lost && D.Allows(m, D.Crash, m', None)
    ensures D.Reopened(m', m.committed, m.logged)
  {
  }
}
