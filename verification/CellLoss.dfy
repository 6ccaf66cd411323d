/** Three insertions, all answered as done, of which the last destroys the record of the first. */
module CellLoss {
  import opened Common
  import opened Varint
  import opened Nodes
  import opened PageFormat
  import opened KVs = Table
  import opened Trees
  import opened LeafEdits
  import opened Overflow
  import LeafPages
  import BTrees
  import opened TreeBytes
  import opened Overlaps
  import opened TreeTransactions
  import D = Databases

  /** The cell of a record that stays inline. */
  function Inline(key: rowid, record: seq<byte>): LeafCell
    requires |record| < TWO_64
  {
    LeafCell(key, |record|, 0, record)
  }

  lemma InlineIs(c: LeafCell, key: rowid, record: seq<byte>)
    requires |record| <= MAX_INLINE && BTrees.CellOf(c, key, record)
    ensures c == Inline(key, record)
  {
    InlineBounds(|record|);
    assert record[..|record|] == record;
  }

  lemma InlineLen3(r1: seq<byte>, r2: seq<byte>, r3: seq<byte>)
    requires |r1| == 98 && |r2| == 3983 && |r3| == 50
    ensures LeafCellLen(Inline(1, r1)) == 100 && LeafCellLen(Inline(2, r2)) == 3986 && LeafCellLen(Inline(3, r3)) == 52
  {
  }

  /** The cells of the leaf: the first two make up the left half, which does not fit. */
  lemma Halves(root: PageId, r1: seq<byte>, r2: seq<byte>, r3: seq<byte>)
    requires root != 1 && |r1| == 98 && |r2| == 3983 && |r3| == 50
    ensures var a, b, c := Inline(1, r1), Inline(2, r2), Inline(3, r3);
            && Fits(root, Leaf([a])) && Fits(root, Leaf([a, c])) && !Fits(root, Leaf([a, b, c]))
            && SplitIndex([a, b, c]) == 2 && [a, b, c][..2] == [a, b]
            && Writes(root, Leaf([a, b])) && !Fits(root, Leaf([a, b])) && Leaf([a, b]) == Pair(r1, r2)
  {
    hide LeafCellLen, Inline;
    var a, b, c := Inline(1, r1), Inline(2, r2), Inline(3, r3);
    InlineLen3(r1, r2, r3);
    PairIs(r1, r2);
    LeafSumOne(a);
    LeafSumOne(b);
    LeafSumOne(c);
    LeafSumConcat([a], [b]);
    LeafSumConcat([a], [c]);
    LeafSumConcat([a, b], [c]);
    assert [a] + [b] == [a, b] && [a] + [c] == [a, c] && [a, b] + [c] == [a, b, c];
    assert [a, b, c][..1] == [a] && [a, b, c][..2] == [a, b];
    SplitIndexMeaning([a, b, c]);
  }

  lemma PairIs(r1: seq<byte>, r2: seq<byte>)
    requires |r1| == 98 && |r2| == 3983
    ensures Pair(r1, r2) == Leaf([Inline(1, r1), Inline(2, r2)])
  {
  }

  /** What is left in the damaged leaf: no record of key 1. */
  function Damage(r2: seq<byte>): Node
    requires |r2| == 3983
  {
    Leaf([Inline(110, []), Inline(2, r2)])
  }

  lemma DamageFits(page: PageId, r1: seq<byte>, r2: seq<byte>)
    requires page != 1 && |r1| == 98 && |r2| == 3983
    ensures ReadBack(page, Pair(r1, r2)) == Done(Damage(r2)) && Writes(2, Damage(r2)) && Damage(r2).Leaf?
    ensures Fits(2, Damage(r2)) && Shaped(Damage(r2)) && Encodable(Damage(r2))
  {
    hide ReadBack, Pair;
    PairReadBack(page, r1, r2);
    var a, b := Inline(110, []), Inline(2, r2);
    LeafSumOne(a);
    LeafSumOne(b);
    LeafSumConcat([a], [b]);
    assert [a] + [b] == [a, b];
    InlineBounds(0);
    InlineBounds(3983);
  }

  /** One after another into a leaf. */
  lemma AfterOne(e1: Entry)
    ensures LeafPages.LeafAfter([], e1) == [e1] && Cells([e1]) == [e1.cell]
  {
    assert CellPos([], e1.cell.key) == 0;
  }

  lemma AfterTwo(e1: Entry, e3: Entry)
    requires e1.cell.key < e3.cell.key
    ensures LeafPages.LeafAfter([e1], e3) == [e1, e3] && Cells([e1, e3]) == [e1.cell, e3.cell]
  {
    assert Cells([e1])[1..] == [];
    assert CellPos([], e3.cell.key) == 0 && CellPos([e1.cell], e3.cell.key) == 1;
  }

  lemma AfterThree(e1: Entry, e2: Entry, e3: Entry)
    requires e1.cell.key < e2.cell.key < e3.cell.key
    ensures LeafPages.LeafAfter([e1, e3], e2) == [e1, e2, e3] && Cells([e1, e2, e3]) == [e1.cell, e2.cell, e3.cell]
    ensures Cells([e1, e2]) == [e1.cell, e2.cell]
  {
    assert Cells([e1, e3])[1..] == [e3.cell];
    assert CellPos([e3.cell], e2.cell.key) == 0 && CellPos([e1.cell, e3.cell], e2.cell.key) == 1;
  }

  lemma MeantOne(root: PageId, e1: Entry, r1: seq<byte>)
    requires root != 1 && |r1| == 98 && e1.cell == Inline(1, r1)
    ensures BTrees.FateOf(root, LeafT(root, []), e1) == BTrees.Right && Fits(root, Leaf(Cells(LeafPages.LeafAfter([], e1))))
    ensures LeafPages.LeafAfter([], e1) == [e1]
  {
    hide Pair, LeafPages.LeafAfter, SplitIndex, Used, Inline, Cells;
    AfterOne(e1);
    Halves(root, r1, seq(3983, _ => 0), seq(50, _ => 0));
    FateLeaf(root, [], e1);
  }

  lemma MeantTwo(root: PageId, e1: Entry, e3: Entry, r1: seq<byte>, r3: seq<byte>)
    requires root != 1 && |r1| == 98 && |r3| == 50 && e1.cell == Inline(1, r1) && e3.cell == Inline(3, r3)
    ensures BTrees.FateOf(root, LeafT(root, [e1]), e3) == BTrees.Right && Fits(root, Leaf(Cells(LeafPages.LeafAfter([e1], e3))))
    ensures LeafPages.LeafAfter([e1], e3) == [e1, e3]
  {
    hide Pair, LeafPages.LeafAfter, SplitIndex, Used, Inline, Cells;
    Keys(r1, seq(3983, _ => 0), r3);
    AfterTwo(e1, e3);
    Halves(root, r1, seq(3983, _ => 0), r3);
    FateLeaf(root, [e1], e3);
  }

  /** The leaf of three, meant and written: the left half is read back from the root page as what the damage left. */
  lemma MeantThree(root: PageId, e1: Entry, e2: Entry, e3: Entry, r1: seq<byte>, r2: seq<byte>, r3: seq<byte>)
    requires root != 1 && |r1| == 98 && |r2| == 3983 && |r3| == 50
    requires e1.cell == Inline(1, r1) && e2.cell == Inline(2, r2) && e3.cell == Inline(3, r3)
    ensures BTrees.FateOf(root, LeafT(root, [e1, e3]), e2) == BTrees.Damaged
    ensures LeafPages.LeafAfter([e1, e3], e2) == [e1, e2, e3] && LeafPages.LeftOf([e1, e2, e3]) == [e1, e2]
    ensures Leaf(Cells([e1, e2])) == Pair(r1, r2) && ReadBack(root, Pair(r1, r2)) == Done(Damage(r2))
  {
    hide ReadBack, Pair, Damage, LeafPages.LeafAfter, SplitIndex, Used, Inline, Cells;
    Keys(r1, r2, r3);
    AfterThree(e1, e2, e3);
    Halves(root, r1, r2, r3);
    DamageFits(root, r1, r2);
    FateLeaf(root, [e1, e3], e2);
    assert LeafPages.LeftOf([e1, e2, e3]) == [e1, e2];
    assert BTrees.RootFate(root, Pair(r1, r2)) == BTrees.Damaged;
    assert !LeafRoom(root, [e1.cell, e2.cell, e3.cell]) && LeafWrites(root, [e1.cell, e2.cell, e3.cell]);
  }

  lemma Keys(r1: seq<byte>, r2: seq<byte>, r3: seq<byte>)
    requires |r1| == 98 && |r2| == 3983 && |r3| == 50
    ensures Inline(1, r1).key == 1 && Inline(2, r2).key == 2 && Inline(3, r3).key == 3
  {
  }

  /** What inserting into a leaf on the root page comes to. */
  lemma FateLeaf(root: PageId, es: seq<Entry>, e: Entry)
    ensures var cs := Cells(LeafPages.LeafAfter(es, e));
            && BTrees.FateOf(root, LeafT(root, es), e) ==
               (if LeafRoom(root, cs) then BTrees.Right
                else if !LeafWrites(root, cs) then BTrees.Aborted
                else BTrees.RootFate(root, Leaf(Cells(LeafPages.LeftOf(LeafPages.LeafAfter(es, e))))))
  {
    hide LeafRoom, LeafWrites, BTrees.RootFate, LeafPages.LeftOf, UpsertEntries, UpsertCells, CellPos;
    UpsertCellsOf(es, HasKey(Cells(es), e.cell.key), CellPos(Cells(es), e.cell.key), e);
  }

  /** Into an empty table whose root is not page 1: records of 98, 50 and 3983 bytes under keys 1, 3 and 2. All
      three insertions answer as if all were well, and then the leaf that keys 1 and 2 belong to reads as one empty
      record under key 110, and the record of key 2. */
  method LoseRecord(sink: PageSink, root: PageId, r1: seq<byte>, r2: seq<byte>, r3: seq<byte>, ghost others: multiset<PageId>)
    returns (replies: seq<BTrees.Reply>, ghost t: Tree, ghost bad: PageId)
    requires BTrees.IsTable(sink, root, LeafT(root, []), others) && root != 1
    requires |r1| == 98 && |r2| == 3983 && |r3| == 50
    modifies sink
    ensures replies == [BTrees.Answered, BTrees.Answered, BTrees.Answered]
    ensures BTrees.Spoilt(sink, root, t, bad, others) && BTrees.Misread(sink.Pages(), root, t, bad)
    ensures Flat(t) == [KV(1, r1), KV(2, r2), KV(3, r3)] && bad != 1
    ensures bad in sink.Pages() && sink.Pages()[bad] == NodePage(Damage(r2)) && bad in Ids(t)
    ensures Same(old(sink.Pages()), sink.Pages(), others) && sink.pageCount <= old(sink.pageCount) + 4150
  {
    hide *;
    ghost var fate: BTrees.Fate, t1: Tree, t2: Tree, e1: Entry, e2: Entry, e3: Entry;
    var a, b, c;
    ghost var v0 := sink.Pages();
    Sizes();
    RepliesAre();
    a, fate, t1, bad, e1 := BTrees.Insert(sink, root, 1, r1, LeafT(root, []), others);
    InlineIs(e1.cell, 1, r1);
    MeantOne(root, e1, r1);
    ghost var v1 := sink.Pages();
    b, fate, t2, bad, e3 := BTrees.Insert(sink, root, 3, r3, t1, others);
    InlineIs(e3.cell, 3, r3);
    MeantTwo(root, e1, e3, r1, r3);
    SameTrans(v0, v1, sink.Pages(), others);
    ghost var v2 := sink.Pages();
    c, fate, t, bad, e2 := BTrees.Insert(sink, root, 2, r2, t2, others);
    InlineIs(e2.cell, 2, r2);
    MeantThree(root, e1, e2, e3, r1, r2, r3);
    SameTrans(v0, v2, sink.Pages(), others);
    Flats(root, r1, r2, r3, t1, t2, t);
    MisreadParts(sink.Pages(), root, t, bad, e1, e2, r1, r2);
    replies := [a, b, c];
  }

  lemma RepliesAre()
    ensures BTrees.ReplyOf(BTrees.Right) == BTrees.ReplyOf(BTrees.Damaged) == BTrees.Answered
  {
  }

  lemma Sizes()
    ensures MAX_INLINE >= 3983 && TWO_64 > 3983 && MIN_ROWID <= 1 && 3 <= MAX_ROWID
  {
  }

  lemma Flats(root: PageId, r1: seq<byte>, r2: seq<byte>, r3: seq<byte>, t1: Tree, t2: Tree, t: Tree)
    requires Flat(t1) == Upsert(Flat(LeafT(root, [])), 1, r1) && Flat(t2) == Upsert(Flat(t1), 3, r3)
    requires Flat(t) == Upsert(Flat(t2), 2, r2) && Height(t1) <= Height(LeafT(root, [])) + 1 && Height(t2) <= Height(t1) + 1
    ensures Flat(t) == [KV(1, r1), KV(2, r2), KV(3, r3)] && Height(LeafT(root, [])) == 0
  {
    hide KVs.Below, Above, Flat, Height;
    Parts([], KV(1, r1), 1);
    Parts([], KV(1, r1), 3);
    Parts([], KV(3, r3), 2);
    Parts([KV(3, r3)], KV(1, r1), 2);
    assert [KV(1, r1)] + [KV(3, r3)] == [KV(1, r1), KV(3, r3)] && [KV(1, r1)] + [] == [KV(1, r1)];
    assert [KV(3, r3)] + [] == [KV(3, r3)];
    assert Flat(LeafT(root, [])) == [] by {
      NoEntries(root);
    }
    assert Flat(t1) == [KV(1, r1)];
    assert Flat(t2) == [KV(1, r1), KV(3, r3)];
    assert KVs.Below(Flat(t2), 2) == [KV(1, r1)];
    assert Above(Flat(t2), 2) == [KV(3, r3)];
    NoEntries(root);
  }

  lemma NoEntries(root: PageId)
    ensures Flat(LeafT(root, [])) == [] && Height(LeafT(root, [])) == 0
  {
  }

  lemma Parts(s: seq<KV>, e: KV, k: int)
    ensures KVs.Below([e] + s, k) == (if e.key < k then [e] else []) + KVs.Below(s, k)
    ensures Above([e] + s, k) == (if e.key > k then [e] else []) + Above(s, k)
    ensures KVs.Below([], k) == [] && Above([], k) == []
  {
    assert ([e] + s)[1..] == s;
  }

  lemma MisreadParts(view: View, root: PageId, t: Tree, bad: PageId, e1: Entry, e2: Entry, r1: seq<byte>, r2: seq<byte>)
    requires |r1| == 98 && |r2| == 3983
    requires BTrees.Misread(view, root, t, bad) && t.kids[0].entries == [e1, e2] && Leaf(Cells([e1, e2])) == Pair(r1, r2)
    requires ReadBack(root, Pair(r1, r2)) == Done(Damage(r2))
    ensures t.InteriorT? && bad != 1 && bad in view && view[bad] == NodePage(Damage(r2)) && bad in Ids(t)
  {
    hide ReadBack, Pair, Damage;
    assert t.kids[0].id in Ids(t.kids[0]);
  }

  /** The same in a write transaction: it commits, and the committed page reads without an error, and without key 1. */
  method LoseCommitted(d: D.Database, root: PageId, r1: seq<byte>, r2: seq<byte>, r3: seq<byte>, ghost view: View,
                       ghost others: multiset<PageId>)
    returns (replies: seq<BTrees.Reply>, ghost t: Tree, ghost bad: PageId, ghost after: View)
    requires d.Valid() && !d.model.lost && d.model.writer == None && HasTable(d.model, root, LeafT(root, []), view, others)
    requires root != 1 && d.model.size + 4151 < U32 && d.model.version + 1 < TWO_64
    requires |r1| == 98 && |r2| == 3983 && |r3| == 50
    modifies d.Footprint()
    ensures d.Valid() && fresh(d.Footprint() - old(d.Footprint())) && Edited(old(d.model), d.model)
    ensures replies == [BTrees.Answered, BTrees.Answered, BTrees.Answered]
    ensures SpoiltTable(d.model, root, t, after, bad, others) && Flat(t) == [KV(1, r1), KV(2, r2), KV(3, r3)]
    ensures bad in d.model.committed && Parse(bad, d.model.committed[bad]) == Done(Damage(r2))
  {
    hide *;
    ghost var m := d.model;
    var sink := BeginEdit(d, root, LeafT(root, []), view, others);
    OpenedIs(m);
    D.Parts(d);
    replies, t, bad := LoseRecord(sink, root, r1, r2, r3, others);
    TableHeld(m, root, LeafT(root, []), view, others);
    HeldPagesOf(m.committed, LeafT(root, []), view);
    EndsOwned(sink, root, t, bad, others, BTrees.Damaged);
    PagesAre(sink);
    EndEdit(d, sink, m, view, Ids(LeafT(root, [])), others);
    after := sink.Pages();
    SpoiltCommitted(d.model, sink, root, t, bad, others);
    DamageFits(2, r1, r2);
    DamageCommitted(d.model, root, t, after, bad, others, r2);
  }

  lemma DamageCommitted(m: D.Model, root: PageId, t: Tree, view: View, bad: PageId, others: multiset<PageId>, r2: seq<byte>)
    requires |r2| == 3983 && SpoiltTable(m, root, t, view, bad, others) && bad in Ids(t) && bad in view && bad != 1
    requires view[bad] == NodePage(Damage(r2)) && Fits(2, Damage(r2)) && Encodable(Damage(r2)) && Shaped(Damage(r2))
    ensures bad in m.committed && Parse(bad, m.committed[bad]) == Done(Damage(r2))
  {
    hide TreeOk, Stored, FitsAll, Ids, Damage, Encodable, Shaped, PageHeld, Parse, BTrees.StoredBut, BTrees.Misread, Once, FitsBut;
    ParseBack(m.committed[bad], bad, Damage(r2));
  }
}
