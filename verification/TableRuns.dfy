/** Whole runs of insertions and deletions on one table. */
module TableRuns {
  import opened Common
  import opened Varint
  import opened Nodes
  import opened Table
  import opened Trees
  import opened TreeEdits
  import opened LeafEdits
  import opened Overflow
  import opened LeafPages
  import opened InteriorPages
  import opened Insertion
  import opened Deletion
  import opened BTrees

  datatype Op =
    | Put(key: rowid, record: seq<byte>)
    | Del(key: rowid)

  predicate OpOk(op: Op) {
    op.Put? ==> |op.record| < TWO_64
  }

  /** The records after the operations, on the plain list. */
  function Meaning(s: seq<KV>, ops: seq<Op>): seq<KV> {
    if ops == [] then s
    else
      var before := Meaning(s, ops[..|ops| - 1]);
      match ops[|ops| - 1]
      case Put(k, v) => Upsert(before, k, v)
      case Del(k) => Remove(before, k)
  }

  /** What the last operation on key says: a record, no record, or nothing. */
  function LastWrite(ops: seq<Op>, key: rowid): Option<Option<seq<byte>>> {
    if ops == [] then None
    else
      match ops[|ops| - 1]
      case Put(k, v) => if k == key then Some(Some(v)) else LastWrite(ops[..|ops| - 1], key)
      case Del(k) => if k == key then Some(None) else LastWrite(ops[..|ops| - 1], key)
  }

  /** After any run every key holds what was last written to it, and the list is still ascending. */
  lemma {:induction false} RunIsMap(s: seq<KV>, ops: seq<Op>, key: rowid)
    requires Ascending(s)
    ensures Ascending(Meaning(s, ops))
    ensures Lookup(Meaning(s, ops), key) == match LastWrite(ops, key) case None => Lookup(s, key) case Some(w) => w
  {
    hide Upsert, Remove, Lookup, Ascending;
    if ops != [] {
      var before := Meaning(s, ops[..|ops| - 1]);
      RunIsMap(s, ops[..|ops| - 1], key);
      match ops[|ops| - 1]
      case Put(k, v) =>
        StaysAscending(before, k, v);
        LookupAfter(before, k, v, key);
      case Del(k) =>
        StaysAscending(before, k, []);
        LookupAfter(before, k, [], key);
    }
  }

  // ---- records that always find room ----

  /** The encoded cell of a record is at most SMALL_CELL bytes long. */
  predicate Small(key: rowid, record: seq<byte>) {
    |record| < TWO_64 && LeafCellLen(CellShape(key, record)) <= SMALL_CELL
  }

  predicate AllSmall(s: seq<KV>) {
    forall i :: 0 <= i < |s| ==> Small(s[i].key, s[i].value)
  }

  predicate SmallOp(op: Op) {
    op.Put? ==> Small(op.key, op.record)
  }

  /** Every record of up to 784 bytes is small, whatever its rowid. */
  lemma ShortIsSmall(key: rowid, record: seq<byte>)
    requires |record| <= 784
    ensures Small(key, record)
  {
  }

  lemma {:induction false} EntryLen(e: Entry, view: View)
    requires EntryStored(view, e)
    ensures |e.value| < TWO_64 && LeafCellLen(e.cell) == LeafCellLen(CellShape(e.cell.key, e.value))
  {
    InlineBounds(|e.value|);
  }

  lemma {:induction false} SmallLeaf(es: seq<Entry>, view: View, i: nat)
    requires AllSmall(Records(es)) && i < |es| && EntryStored(view, es[i])
    ensures LeafCellLen(es[i].cell) <= SMALL_CELL
  {
    hide LeafCellLen, CellShape, EntryStored;
    EntryLen(es[i], view);
    assert Small(Records(es)[i].key, Records(es)[i].value);
  }

  lemma {:induction false} SmallLeafRoom(es: seq<Entry>, page: PageId, view: View, c: LeafCell)
    requires Fits(page, Leaf(Cells(es))) && AllSmall(Records(es)) && LeafCellLen(c) <= SMALL_CELL
    requires forall i :: 0 <= i < |es| ==> EntryStored(view, es[i])
    ensures LeafRoom(page, Upserted(Cells(es), c))
  {
    hide LeafCellLen, EntryStored, LeafRoom, Fits;
    var cs := Cells(es);
    var found, pos := HasKey(cs, c.key), CellPos(cs, c.key);
    var cs' := UpsertCells(cs, found, pos, c);
    forall i | 0 <= i < |cs'|
      ensures LeafCellLen(cs'[i]) <= SMALL_CELL
    {
      if i != pos {
        var j := if i < pos then i else if found then i else i - 1;
        assert cs'[i] == es[j].cell;
        SmallLeaf(es, view, j);
      }
    }
    SmallCellsRoom(page, cs, found, pos, c);
  }

  lemma {:induction false} SmallKid(kids: seq<Tree>, i: nat)
    requires i < |kids| && AllSmall(FlatAll(kids))
    ensures AllSmall(Flat(kids[i]))
  {
    hide Small, FlatAll, Flat;
    KidAt(kids, i);
    var a, b, c := FlatAll(kids[..i]), Flat(kids[i]), FlatAll(kids[i + 1..]);
    forall j | 0 <= j < |b|
      ensures Small(b[j].key, b[j].value)
    {
      assert (a + b + c)[|a| + j] == b[j];
    }
  }

  /** Among small records a small one always finds room, in every tree there can be. */
  lemma {:induction false} SmallRoom(t: Tree, page: PageId, lo: int, hi: int, view: View, c: LeafCell)
    requires Good(t, page, lo, hi, view) && FitsAll(t) && AllSmall(Flat(t)) && LeafCellLen(c) <= SMALL_CELL
    ensures Room(t, c)
    decreases t
  {
    hide *;
    NodeHeld(t, page, lo, hi, view);
    if t.LeafT? {
      LeafGoodParts(t.entries, page, lo, hi, view);
      RecordsAre(t);
      SmallLeafRoom(t.entries, page, view, c);
      RoomLeaf(page, t.entries, c);
    } else {
      GoodParts(t, page, lo, hi, view);
      FlatIs(page, t.kids, t.keys);
      ChildIn(t.keys, c.key);
      var i := ChildIndex(t.keys, c.key);
      SmallKid(t.kids, i);
      KidGood(t.kids, t.keys, lo, hi, i, view);
      SmallRoom(t.kids[i], t.kids[i].id, Lo(t.keys, i, lo), Hi(t.keys, i, hi), view, c);
      RoomInterior(t, c);
    }
  }

  lemma ChildIn(keys: seq<rowid>, key: int)
    ensures ChildIndex(keys, key) <= |keys|
  {
  }

  lemma RecordsAre(t: Tree)
    requires t.LeafT?
    ensures Flat(t) == Records(t.entries)
  {
  }

  lemma {:induction false} SmallAfter(s: seq<KV>, op: Op)
    requires AllSmall(s) && SmallOp(op)
    ensures AllSmall(Meaning(s, [op]))
  {
    hide Small;
    assert [op][..0] == [];
    PartsOf(s, op.key);
  }

  lemma {:induction false} PartsOf(s: seq<KV>, k: int)
    requires AllSmall(s)
    ensures AllSmall(Below(s, k)) && AllSmall(Above(s, k))
  {
    hide Small;
    if s != [] {
      PartsOf(s[1..], k);
    }
  }

  /** Pages that a run may add at most: the tree grows by one level with each operation, the pages by one for each
      level and those of the records. */
  function Growth(ops: seq<Op>, height: nat): nat {
    if ops == [] then 0
    else
      var op := ops[|ops| - 1];
      Growth(ops[..|ops| - 1], height) + (if op.Put? then |op.record| else 0) + height + |ops| + 1
  }

  lemma GrowthStep(ops: seq<Op>, i: nat, height: nat)
    requires i < |ops|
    ensures Growth(ops[..i + 1], height) == Growth(ops[..i], height) + (if ops[i].Put? then |ops[i].record| else 0) + height + i + 2
    ensures Growth([], height) == 0
  {
    assert ops[..i + 1][..i] == ops[..i];
  }

  lemma {:induction false} GrowthMore(ops: seq<Op>, i: nat, height: nat)
    requires i <= |ops|
    ensures Growth(ops[..i], height) <= Growth(ops, height)
    decreases |ops|
  {
    if i < |ops| {
      GrowthMore(ops[..|ops| - 1], i, height);
      assert ops[..|ops| - 1][..i] == ops[..i];
    } else {
      assert ops[..i] == ops;
    }
  }

  /** Runs operations one after the other, up to the first insertion that finds no room. What that one came to
      is the fate of the run; after a damaged leaf the tree is the one meant, but for the page of that leaf. */
  method Run(sink: PageSink, root: PageId, ops: seq<Op>, ghost t: Tree, ghost others: multiset<PageId>)
    returns (fate: Fate, done: nat, ghost before: Tree, ghost t': Tree, ghost bad: PageId)
    requires IsTable(sink, root, t, others) && forall i :: 0 <= i < |ops| ==> OpOk(ops[i])
    modifies sink
    ensures done <= |ops| && Flat(before) == Meaning(Flat(t), ops[..done])
    ensures fate.Right? ==> done == |ops| && t' == before && IsTable(sink, root, t', others)
    ensures !fate.Right? ==> done < |ops| && Refuses(before, ops[done]) && (Panics(before, ops[done]) ==> fate.Aborted?)
    ensures fate.Damaged? ==> Spoilt(sink, root, t', bad, others) && Flat(t') == Meaning(Flat(t), ops[..done + 1])
    ensures fate.Damaged? && before.InteriorT? ==>
              bad == LeafPage(before, ops[done].key) && Stored(t', sink.Pages()) && !FitsAll(t')
    ensures fate.Damaged? && before.LeafT? ==> Misread(sink.Pages(), root, t', bad)
    ensures fate.Right? || fate.Damaged? ==> Same(old(sink.Pages()), sink.Pages(), others)
    ensures sink.pageCount <= old(sink.pageCount) + Growth(ops, Height(t))
    ensures AllSmall(Flat(t)) && (forall i :: 0 <= i < |ops| ==> SmallOp(ops[i])) ==> fate.Right?
  {
    hide *;
    before, t', bad, fate, done := t, t, 0, Right, 0;
    SameSelf(sink.Pages(), others);
    MeaningNone(Flat(t));
    assert ops[..0] == [];
    GrowthNone(Height(t));
    while done < |ops|
      invariant done <= |ops| && IsTable(sink, root, before, others) && Same(old(sink.Pages()), sink.Pages(), others)
      invariant sink.pageCount <= old(sink.pageCount) + Growth(ops[..done], Height(t)) && Height(before) <= Height(t) + done
      invariant fate.Right? && t' == before && Flat(before) == Meaning(Flat(t), ops[..done])
      invariant AllSmall(Flat(t)) && (forall j :: 0 <= j < |ops| ==> SmallOp(ops[j])) ==> AllSmall(Flat(before))
    {
      ghost var view := sink.Pages();
      MeaningStep(Flat(t), ops, done);
      GrowthStep(ops, done, Height(t));
      GrowthMore(ops, done + 1, Height(t));
      fate, t', bad := Step(sink, root, ops[done], before, others);
      if fate.Right? || fate.Damaged? {
        SameTrans(old(sink.Pages()), view, sink.Pages(), others);
      }
      if !fate.Right? {
        return;
      }
      if AllSmall(Flat(before)) && SmallOp(ops[done]) {
        SmallAfter(Flat(before), ops[done]);
      }
      before, done := t', done + 1;
    }
    assert ops[..done] == ops;
  }

  lemma GrowthNone(height: nat)
    ensures Growth([], height) == 0
  {
  }

  lemma MeaningNone(s: seq<KV>)
    ensures Meaning(s, []) == s
  {
  }

  lemma MeaningStep(s: seq<KV>, ops: seq<Op>, i: nat)
    requires i < |ops|
    ensures Meaning(s, ops[..i + 1]) == Meaning(Meaning(s, ops[..i]), [ops[i]])
  {
    assert ops[..i + 1][..i] == ops[..i];
    assert [ops[i]][..0] == [];
  }

  method Step(sink: PageSink, root: PageId, op: Op, ghost t: Tree, ghost others: multiset<PageId>)
    returns (fate: Fate, ghost t': Tree, ghost bad: PageId)
    requires IsTable(sink, root, t, others) && OpOk(op)
    modifies sink
    ensures fate.Right? <==> !Refuses(t, op)
    ensures Panics(t, op) ==> fate.Aborted?
    ensures fate.Right? ==> IsTable(sink, root, t', others)
    ensures fate.Damaged? ==> Spoilt(sink, root, t', bad, others)
    ensures fate.Damaged? && t.InteriorT? ==> bad == LeafPage(t, op.key) && Stored(t', sink.Pages()) && !FitsAll(t')
    ensures fate.Damaged? && t.LeafT? ==> Misread(sink.Pages(), root, t', bad)
    ensures fate.Right? || fate.Damaged? ==> Flat(t') == Meaning(Flat(t), [op]) && Same(old(sink.Pages()), sink.Pages(), others)
    ensures fate.Right? ==> Height(t') <= Height(t) + 1
    ensures sink.pageCount <= old(sink.pageCount) + (if op.Put? then |op.record| else 0) + Height(t) + 2
    ensures AllSmall(Flat(t)) && SmallOp(op) ==> fate.Right?
  {
    hide *;
    OpIs(op, Flat(t));
    RefusesIs(t, op);
    RepliesAre();
    match op
    case Put(key, record) =>
      if AllSmall(Flat(t)) && SmallOp(op) {
        TableIs(sink, root, t, others);
        SmallRoom(t, root, MIN_ROWID - 1, MAX_ROWID, sink.Pages(), CellShape(key, record));
      }
      var room, _ := Foresee(sink, root, key, record, t, others);
      var reply: Reply;
      ghost var ended: Fate;
      ghost var e: Entry;
      reply, ended, t', bad, e := Insert(sink, root, key, record, t, others);
      fate := match reply case Answered => (if room then Right else Damaged) case Refused => Failed case Never => Aborted;
      AnswerIs(ended);
    case Del(key) =>
      var _, after := Delete(sink, root, key, t, others);
      fate, t', bad := Right, after, 0;
  }

  lemma AnswerIs(fate: Fate)
    ensures ReplyOf(fate).Answered? <==> fate.Right? || fate.Damaged?
    ensures ReplyOf(fate).Refused? <==> fate.Failed?
    ensures ReplyOf(fate).Never? <==> fate.Aborted?
  {
  }

  /** An insertion for which the tree has no room. */
  predicate Refuses(t: Tree, op: Op) {
    op.Put? && |op.record| < TWO_64 && !Room(t, CellShape(op.key, op.record))
  }

  /** One that panics. */
  predicate Panics(t: Tree, op: Op) {
    op.Put? && |op.record| < TWO_64 && !Survives(t, CellShape(op.key, op.record))
  }

  lemma RefusesIs(t: Tree, op: Op)
    ensures op.Del? ==> !Refuses(t, op) && !Panics(t, op)
    ensures op.Put? && |op.record| < TWO_64 ==> (Refuses(t, op) <==> !Room(t, CellShape(op.key, op.record)))
    ensures op.Put? && |op.record| < TWO_64 ==> (Panics(t, op) <==> !Survives(t, CellShape(op.key, op.record)))
  {
  }

  lemma OpIs(op: Op, s: seq<KV>)
    requires OpOk(op)
    ensures op.Put? ==> |op.record| < TWO_64 && Meaning(s, [op]) == Upsert(s, op.key, op.record)
    ensures op.Put? && SmallOp(op) ==> LeafCellLen(CellShape(op.key, op.record)) <= SMALL_CELL
    ensures op.Del? ==> Meaning(s, [op]) == Remove(s, op.key)
  {
    assert [op][..0] == [];
  }
}
