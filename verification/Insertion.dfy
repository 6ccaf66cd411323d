/** Inserting a cell below a page: down to the leaf and back up through the splits. */
module Insertion {
  import opened Common
  import opened Varint
  import opened Nodes
  import PageFormat
  import opened Table
  import opened Trees
  import opened TreeEdits
  import opened LeafEdits
  import opened Overflow
  import opened LeafPages
  import opened InteriorPages

  // The state after an insertion below a page, given the state before.
  ghost predicate Inserted(sink: PageSink, r: Outcome, t1: Tree, t2: Tree, t: Tree, lo: int, hi: int, e: Entry,
                           others: multiset<PageId>)
    reads sink
  {
    && Grown(r, t1, t2, t.id, lo, hi, Height(t), sink.Pages())
    && FlatOf(r, t1, t2) == Upsert(Flat(t), e.cell.key, e.value)
    && sink.Owned(IdsOf(r, t1, t2) + others) && LastKept(RightOf(r, t1, t2), t)
    && Fitting(r, t1, t2, t, e.cell) && Halved(r, t1, t2, t, e)
  }

  /** An interior node always fits, and a leaf that was cut is its left half and one that fits. */
  predicate Halved(r: Outcome, t1: Tree, t2: Tree, t: Tree, e: Entry) {
    match t
    case LeafT(id, es) =>
      && (r.Done? ==> t1 == LeafT(id, LeafAfter(es, e)) && FitsAll(t1))
      && (r.Split? ==> t1 == LeafT(id, LeftOf(LeafAfter(es, e))) && FitsAll(t2) && !Fits(id, Leaf(Cells(LeafAfter(es, e)))))
    case InteriorT(_, _, _) => Fits(t1.id, NodeOf(t1))
  }

  /** Exactly with room do all nodes fit afterwards; without, all but the leaf that the key belongs to. */
  predicate Fitting(r: Outcome, t1: Tree, t2: Tree, t: Tree, c: LeafCell) {
    && (FitsOf(r, t1, t2) <==> Room(t, c))
    && FitsButOf(r, t1, t2, LeafPage(t, c.key))
  }

  method InsertLeaf(sink: PageSink, page: PageId, cells: seq<LeafCell>, cell: LeafCell,
                    ghost es: seq<Entry>, ghost e: Entry, ghost lo: int, ghost hi: int, ghost others: multiset<PageId>)
    returns (r: Outcome, ghost t1: Tree, ghost t2: Tree)
    requires cells == Cells(es) && cell == e.cell && lo < cell.key <= hi
    requires Good(LeafT(page, es), page, lo, hi, sink.Pages()) && EntryStored(sink.Pages(), e) && FitsAll(LeafT(page, es))
    requires sink.Owned(Ids(LeafT(page, es)) + multiset(e.chain) + others) && (page == 1 || 1 in others)
    modifies sink
    ensures r.Panicked? <==> !Survives(LeafT(page, es), cell)
    ensures !r.Panicked? ==> Inserted(sink, r, t1, t2, LeafT(page, es), lo, hi, e, others)
    ensures !r.Panicked? ==> Same(old(sink.Pages()), sink.Pages(), others)
    ensures sink.pageCount <= old(sink.pageCount) + 1
  {
    hide *;
    ghost var view := sink.Pages();
    LeafGoodParts(es, page, lo, hi, view);
    EntryIsOk(e, view);
    RoomLeaf(page, es, cell);
    sink.Reown(Ids(LeafT(page, es)) + multiset(e.chain) + others, multiset{page} + ChainIds(es) + multiset(e.chain) + others);
    LeafAfterOk(es, e, lo, hi);
    r := PutLeaf(sink, page, cells, cell, es, e, lo, hi, others);
    t1, t2 := LeafT(page, es), LeafT(page, es);
    if !r.Panicked? {
      EntriesAfter(es, e, view, sink.Pages(), others);
      t1, t2 := LeafGrown(LeafAfter(es, e), page, lo, hi, r, sink.Pages());
      LastKeptLeaf(RightOf(r, t1, t2), LeafT(page, es));
      FittingLeaf(r, t1, t2, page, es, cell);
      HalvedLeaf(r, t1, t2, page, es, e);
      Associate(multiset{page} + NewPage(r), ChainIds(LeafAfter(es, e)), others);
      sink.Reown(multiset{page} + NewPage(r) + (ChainIds(LeafAfter(es, e)) + others), IdsOf(r, t1, t2) + others);
      SameLess(view, sink.Pages(), ChainIds(LeafAfter(es, e)), others);
      InsertedIs(sink, r, t1, t2, LeafT(page, es), lo, hi, e, others);
    }
  }

  lemma Associate(a: multiset<PageId>, b: multiset<PageId>, c: multiset<PageId>)
    ensures a + (b + c) == a + b + c
  {
  }

  lemma EntryIsOk(e: Entry, view: View)
    requires EntryStored(view, e)
    ensures CellOk(e.cell)
  {
  }

  lemma RoomLeaf(page: PageId, es: seq<Entry>, c: LeafCell)
    ensures Room(LeafT(page, es), c) == LeafRoom(page, Upserted(Cells(es), c))
    ensures Survives(LeafT(page, es), c) == LeafWrites(page, Upserted(Cells(es), c))
    ensures Flat(LeafT(page, es)) == Records(es)
  {
  }

  lemma InsertedIs(sink: PageSink, r: Outcome, t1: Tree, t2: Tree, t: Tree, lo: int, hi: int, e: Entry,
                   others: multiset<PageId>)
    requires Grown(r, t1, t2, t.id, lo, hi, Height(t), sink.Pages())
    requires FlatOf(r, t1, t2) == Upsert(Flat(t), e.cell.key, e.value)
    requires sink.Owned(IdsOf(r, t1, t2) + others) && LastKept(RightOf(r, t1, t2), t)
    requires Fitting(r, t1, t2, t, e.cell) && Halved(r, t1, t2, t, e)
    ensures Inserted(sink, r, t1, t2, t, lo, hi, e, others)
  {
  }

  lemma HalvedLeaf(r: Outcome, t1: Tree, t2: Tree, page: PageId, es: seq<Entry>, e: Entry)
    requires r.Done? ==> t1 == LeafT(page, LeafAfter(es, e)) && FitsAll(t1)
    requires r.Split? ==> t1 == LeafT(page, LeftOf(LeafAfter(es, e))) && FitsAll(t2) && !Fits(page, Leaf(Cells(LeafAfter(es, e))))
    ensures Halved(r, t1, t2, LeafT(page, es), e)
  {
  }

  lemma HalvedInterior(r: Outcome, t1: Tree, t2: Tree, page: PageId, kids: seq<Tree>, keys: seq<rowid>, e: Entry)
    requires Fits(t1.id, NodeOf(t1))
    ensures Halved(r, t1, t2, InteriorT(page, kids, keys), e)
  {
  }

  lemma FittingLeaf(r: Outcome, t1: Tree, t2: Tree, page: PageId, es: seq<Entry>, c: LeafCell)
    requires FitsOf(r, t1, t2) <==> LeafRoom(page, Upserted(Cells(es), c))
    requires FitsButOf(r, t1, t2, page)
    ensures Fitting(r, t1, t2, LeafT(page, es), c)
  {
  }

  lemma FittingParts(r: Outcome, t1: Tree, t2: Tree, t: Tree, c: LeafCell)
    requires Fitting(r, t1, t2, t, c)
    ensures FitsOf(r, t1, t2) <==> Room(t, c)
    ensures FitsBut(t1, LeafPage(t, c.key)) && (r.Split? ==> FitsBut(t2, LeafPage(t, c.key)))
    ensures FitsAll(t1) && (r.Split? ==> FitsAll(t2)) <==> Room(t, c)
  {
    hide FitsAll, FitsBut, Room, LeafPage;
  }

  /** The siblings fit, so that the child decides. */
  lemma FittingKids(kids: seq<Tree>, i: nat, p: PageId, sub: Outcome, c1: Tree, c2: Tree, ks: seq<Tree>)
    requires i < |kids| && forall j :: 0 <= j < |kids| ==> FitsAll(kids[j])
    requires ks == if sub.Split? then SplitKids(kids, i, c1, c2) else kids[i := c1]
    requires FitsButOf(sub, c1, c2, p)
    ensures (forall j :: 0 <= j < |ks| ==> FitsAll(ks[j])) <==> FitsOf(sub, c1, c2)
    ensures forall j :: 0 <= j < |ks| ==> FitsBut(ks[j], p)
  {
    hide FitsAll, FitsBut;
    forall j | 0 <= j < |kids|
      ensures FitsBut(kids[j], p)
    {
      FitsButAll(kids[j], p);
    }
    if sub.Split? {
      forall j | 0 <= j < |ks|
        ensures ks[j] == if j < i then kids[j] else if j == i then c1 else if j == i + 1 then c2 else kids[j - 1]
      {
      }
      assert ks[i] == c1 && ks[i + 1] == c2;
    } else {
      assert ks[i] == c1;
    }
  }

  lemma FittingDone(kids: seq<Tree>, keys: seq<rowid>, page: PageId, i: nat, c: Tree, cell: LeafCell)
    requires |kids| == |keys| + 1 && i == ChildIndex(keys, cell.key) < |kids|
    requires forall j :: 0 <= j < |kids| ==> FitsAll(kids[j])
    requires Fits(page, Interior(Pointers(kids, keys), kids[|keys|].id)) && c.id == kids[i].id
    requires Fitting(Done, c, c, kids[i], cell)
    ensures var t := InteriorT(page, kids[i := c], keys);
            Fitting(Done, t, t, InteriorT(page, kids, keys), cell) && t.id == page && Fits(page, NodeOf(t))
  {
    hide Fits, Room, Pointers, FitsAll, FitsBut;
    FittingKids(kids, i, LeafPage(kids[i], cell.key), Done, c, c, kids[i := c]);
    SamePointers(kids, keys, i, c);
    RoomInterior(InteriorT(page, kids, keys), cell);
    FitsInterior(page, kids[i := c], keys, LeafPage(kids[i], cell.key));
  }

  lemma FitsInterior(page: PageId, kids: seq<Tree>, keys: seq<rowid>, p: PageId)
    requires |kids| == |keys| + 1
    ensures var t := InteriorT(page, kids, keys);
            && (FitsAll(t) <==> Fits(page, NodeOf(t)) && forall j :: 0 <= j < |kids| ==> FitsAll(kids[j]))
            && (FitsBut(t, p) <==> (page != p ==> Fits(page, NodeOf(t))) && forall j :: 0 <= j < |kids| ==> FitsBut(kids[j], p))
  {
    hide Fits, Pointers;
  }

  lemma FittingSplit(kids: seq<Tree>, keys: seq<rowid>, page: PageId, i: nat, sub: Outcome, c1: Tree, c2: Tree, ks: seq<Tree>,
                     cell: LeafCell, r: Outcome, t1: Tree, t2: Tree)
    requires |kids| == |keys| + 1 && i == ChildIndex(keys, cell.key) < |kids|
    requires forall j :: 0 <= j < |kids| ==> FitsAll(kids[j])
    requires sub.Split? && ks == SplitKids(kids, i, c1, c2) && Fitting(sub, c1, c2, kids[i], cell)
    requires FitsOf(r, t1, t2) <==> forall j :: 0 <= j < |ks| ==> FitsAll(ks[j])
    requires forall p {:trigger FitsButOf(r, t1, t2, p)} ::
               (forall j :: 0 <= j < |ks| ==> FitsBut(ks[j], p)) ==> FitsButOf(r, t1, t2, p)
    ensures Fitting(r, t1, t2, InteriorT(page, kids, keys), cell)
  {
    hide FitsAll, FitsBut, FitsOf, FitsButOf, SplitKids;
    FittingKids(kids, i, LeafPage(kids[i], cell.key), sub, c1, c2, ks);
    assert FitsButOf(r, t1, t2, LeafPage(kids[i], cell.key));
  }

  lemma LastKeptLeaf(after: seq<Entry>, t: Tree)
    requires after != []
    ensures LastKept(after, t)
  {
  }

  /** The last child decides the rightmost leaf; another child's insertion leaves it alone. */
  lemma LastKeptDone(kids: seq<Tree>, keys: seq<rowid>, page: PageId, i: nat, c: Tree)
    requires i < |kids| && LastKept(RightLeaf(c), kids[i])
    ensures LastKept(RightLeaf(InteriorT(page, kids[i := c], keys)), InteriorT(page, kids, keys))
  {
  }

  lemma LastKeptSplit(kids: seq<Tree>, keys: seq<rowid>, page: PageId, i: nat, c1: Tree, c2: Tree, right: seq<Entry>)
    requires i < |kids| && LastKept(RightLeaf(c2), kids[i]) && |SplitKids(kids, i, c1, c2)| == |kids| + 1
    requires right == RightLeaf(SplitKids(kids, i, c1, c2)[|kids|])
    ensures LastKept(right, InteriorT(page, kids, keys))
  {
  }

  lemma {:induction false} LeafGoodParts(es: seq<Entry>, page: PageId, lo: int, hi: int, view: View)
    requires Good(LeafT(page, es), page, lo, hi, view) && FitsAll(LeafT(page, es))
    ensures LeafOk(es, lo, hi) && Fits(page, Leaf(Cells(es))) && Holds(view, page, Leaf(Cells(es)))
    ensures forall i :: 0 <= i < |es| ==> EntryStored(view, es[i])
    ensures Ids(LeafT(page, es)) == multiset{page} + ChainIds(es) && Height(LeafT(page, es)) == 0
  {
  }

  lemma {:induction false} ChildRange(keys: seq<rowid>, lo: int, hi: int, key: int)
    requires lo < key <= hi
    ensures Lo(keys, ChildIndex(keys, key), lo) < key <= Hi(keys, ChildIndex(keys, key), hi)
  {
  }

  lemma FlatIs(page: PageId, kids: seq<Tree>, keys: seq<rowid>)
    ensures Flat(InteriorT(page, kids, keys)) == FlatAll(kids)
  {
  }

  /** The records of the parent after child i took the new record without splitting. */
  lemma {:induction false} DoneFlat(kids: seq<Tree>, keys: seq<rowid>, page: PageId, lo: int, hi: int, i: nat, c: Tree,
                                    key: rowid, v: seq<byte>)
    requires KidsOk(kids, keys, lo, hi) && i == ChildIndex(keys, key) < |kids| && Flat(c) == Upsert(Flat(kids[i]), key, v)
    ensures Flat(InteriorT(page, kids[i := c], keys)) == Upsert(Flat(InteriorT(page, kids, keys)), key, v)
  {
    hide *;
    FlatIs(page, kids, keys);
    FlatIs(page, kids[i := c], keys);
    InChild(kids, keys, lo, hi, key, v);
    ReplaceParts(kids, i, c);
  }

  lemma {:induction false} DoneIds(kids: seq<Tree>, keys: seq<rowid>, page: PageId, i: nat, c: Tree, others: multiset<PageId>)
    requires i < |kids|
    ensures Ids(c) + Beside(page, kids, i, others) == Ids(InteriorT(page, kids[i := c], keys)) + others
  {
    ReplaceParts(kids, i, c);
  }

  lemma {:induction false} SplitFlat(kids: seq<Tree>, keys: seq<rowid>, page: PageId, lo: int, hi: int, i: nat, c1: Tree,
                                     c2: Tree, key: rowid, v: seq<byte>)
    requires KidsOk(kids, keys, lo, hi) && i == ChildIndex(keys, key) < |kids|
    requires Flat(c1) + Flat(c2) == Upsert(Flat(kids[i]), key, v)
    ensures FlatAll(SplitKids(kids, i, c1, c2)) == Upsert(Flat(InteriorT(page, kids, keys)), key, v)
  {
    hide *;
    FlatIs(page, kids, keys);
    InChild(kids, keys, lo, hi, key, v);
    SplitParts(kids, i, c1, c2);
  }

  lemma {:induction false} SplitIds(kids: seq<Tree>, page: PageId, i: nat, c1: Tree, c2: Tree, others: multiset<PageId>)
    requires i < |kids|
    ensures Ids(c1) + Ids(c2) + Beside(page, kids, i, others)
         == multiset{page} + (IdsAll(SplitKids(kids, i, c1, c2)) + others)
  {
    hide IdsAll, SplitKids;
    SplitParts(kids, i, c1, c2);
  }

  /** Child i took the new record without splitting: the parent is done too. */
  lemma {:induction false} FinishDone(sink: PageSink, kids: seq<Tree>, keys: seq<rowid>, page: PageId, lo: int, hi: int,
                                      i: nat, c: Tree, e: Entry, others: multiset<PageId>) returns (t1: Tree)
    requires KidsOk(kids, keys, lo, hi) && i == ChildIndex(keys, e.cell.key) < |kids|
    requires Good(c, kids[i].id, Lo(keys, i, lo), Hi(keys, i, hi), sink.Pages()) && Height(c) == Height(kids[i])
    requires Flat(c) == Upsert(Flat(kids[i]), e.cell.key, e.value) && LastKept(RightLeaf(c), kids[i])
    requires Fitting(Done, c, c, kids[i], e.cell) && forall j :: 0 <= j < |kids| ==> FitsAll(kids[j])
    requires sink.Owned(Ids(c) + Beside(page, kids, i, others))
    requires |kids| == |keys| + 1 && Fits(page, Interior(Pointers(kids, keys), kids[|keys|].id))
    requires Holds(sink.Pages(), page, Interior(Pointers(kids, keys), kids[|keys|].id))
    requires forall j :: 0 <= j < i ==> Stored(kids[j], sink.Pages())
    requires forall j :: i < j < |kids| ==> Stored(kids[j], sink.Pages())
    ensures Inserted(sink, Done, t1, t1, InteriorT(page, kids, keys), lo, hi, e, others)
  {
    hide *;
    HeightIs(page, kids, keys);
    LastKeptDone(kids, keys, page, i, c);
    GoodIs(c, kids[i].id, Lo(keys, i, lo), Hi(keys, i, hi), sink.Pages());
    FittingDone(kids, keys, page, i, c, e.cell);
    HalvedInterior(Done, InteriorT(page, kids[i := c], keys), InteriorT(page, kids[i := c], keys), page, kids, keys, e);
    FlatIdsDone(InteriorT(page, kids[i := c], keys));
    t1 := InteriorT(page, kids[i := c], keys);
    RightOfIs(Done, t1, t1);
    KidDone(kids, keys, page, lo, hi, i, c, sink.Pages());
    DoneFlat(kids, keys, page, lo, hi, i, c, e.cell.key, e.value);
    DoneIds(kids, keys, page, i, c, others);
    sink.Reown(Ids(c) + Beside(page, kids, i, others), Ids(t1) + others);
    GrownDone(t1, page, lo, hi, 1 + Height(kids[0]), sink.Pages());
    InsertedIs(sink, Done, t1, t1, InteriorT(page, kids, keys), lo, hi, e, others);
  }

  lemma HeightIs(page: PageId, kids: seq<Tree>, keys: seq<rowid>)
    requires kids != []
    ensures Height(InteriorT(page, kids, keys)) == 1 + Height(kids[0])
    ensures InteriorT(page, kids, keys).id == page
  {
  }

  lemma FlatIdsDone(t: Tree)
    ensures FlatOf(Done, t, t) == Flat(t) && IdsOf(Done, t, t) == Ids(t)
  {
  }

  /** Puts the two halves of child i into its parent and writes the parent. */
  method WriteEdited(sink: PageSink, page: PageId, cs: seq<InteriorCell>, right: PageId, i: nat, sep: rowid, newPage: PageId,
                     ghost kids: seq<Tree>, ghost keys: seq<rowid>, ghost c1: Tree, ghost c2: Tree, ghost rest: multiset<PageId>)
    returns (r: Outcome)
    requires |kids| == |keys| + 1 && cs == Pointers(kids, keys) && right == kids[|keys|].id && i < |kids|
    requires c1.id == kids[i].id && c2.id == newPage && Fits(page, Interior(cs, right))
    requires sink.Owned(multiset{page} + rest) && (page == 1 || 1 in rest)
    modifies sink
    ensures |SplitKids(kids, i, c1, c2)| == |SplitKeys(keys, i, sep)| + 1
    ensures InteriorWritten(sink.Pages(), page, Pointers(SplitKids(kids, i, c1, c2), SplitKeys(keys, i, sep)),
                            SplitKids(kids, i, c1, c2)[|SplitKeys(keys, i, sep)|].id, r)
    ensures Same(old(sink.Pages()), sink.Pages(), rest) && sink.Owned(multiset{page} + rest + NewPage(r))
    ensures sink.pageCount <= old(sink.pageCount) + 1
  {
    hide *;
    SplitShape(kids, keys, i, c1, sep, c2);
    ChildAtIs(kids, keys, i);
    EditedPointers(kids, keys, i, c1, sep, c2);
    var cs', right' := EditInterior(cs, right, i, ChildAt(cs, right, i), sep, newPage);
    EditedUsedFits(page, cs, right, i, c1.id, sep, newPage, right');
    r := WriteInterior(sink, page, cs', right', rest);
  }

  /** The trees on the written pages are what the insertion promised. */
  lemma {:induction false} SplitInserted(sink: PageSink, kids: seq<Tree>, keys: seq<rowid>, page: PageId, lo: int, hi: int,
                                         i: nat, c1: Tree, sep: rowid, c2: Tree, ks: seq<Tree>, qs: seq<rowid>,
                                         r: Outcome, e: Entry, others: multiset<PageId>)
    returns (t1: Tree, t2: Tree)
    requires |kids| == |keys| + 1 && i < |kids| && LastKept(RightLeaf(c2), kids[i])
    requires Fitting(Split(sep, c2.id), c1, c2, kids[i], e.cell) && forall j :: 0 <= j < |kids| ==> FitsAll(kids[j])
    requires KidsOk(kids, keys, lo, hi) && i == ChildIndex(keys, e.cell.key) < |kids|
    requires ks == SplitKids(kids, i, c1, c2) && qs == SplitKeys(keys, i, sep) && KidsOk(ks, qs, lo, hi)
    requires |ks| == |qs| + 1 && InteriorWritten(sink.Pages(), page, Pointers(ks, qs), ks[|qs|].id, r)
    requires forall j :: 0 <= j < |ks| ==> Stored(ks[j], sink.Pages())
    requires Flat(c1) + Flat(c2) == Upsert(Flat(kids[i]), e.cell.key, e.value) && Height(c1) == Height(kids[i])
    requires sink.Owned(multiset{page} + (IdsAll(ks) + others) + NewPage(r))
    ensures Inserted(sink, r, t1, t2, InteriorT(page, kids, keys), lo, hi, e, others)
  {
    hide *;
    HeightIs(page, kids, keys);
    t1, t2 := InteriorGrown(ks, qs, page, lo, hi, r, sink.Pages());
    FittingSplit(kids, keys, page, i, Split(sep, c2.id), c1, c2, ks, e.cell, r, t1, t2);
    HalvedInterior(r, t1, t2, page, kids, keys, e);
    SplitHeight(kids, keys, lo, hi, i, c1, c2);
    SplitShape(kids, keys, i, c1, sep, c2);
    LastKeptSplit(kids, keys, page, i, c1, c2, RightOf(r, t1, t2));
    SplitFlat(kids, keys, page, lo, hi, i, c1, c2, e.cell.key, e.value);
    OwnedAgain(sink, multiset{page}, IdsAll(ks), others, NewPage(r), IdsOf(r, t1, t2));
    InsertedIs(sink, r, t1, t2, InteriorT(page, kids, keys), lo, hi, e, others);
  }

  /** Child i was split: its parent gets one more cell, and may be split itself. */
  method FinishSplit(sink: PageSink, page: PageId, cs: seq<InteriorCell>, right: PageId, i: nat, sep: rowid, newPage: PageId,
                     ghost kids: seq<Tree>, ghost keys: seq<rowid>, ghost lo: int, ghost hi: int,
                     ghost c1: Tree, ghost c2: Tree, ghost e: Entry, ghost others: multiset<PageId>)
    returns (r: Outcome, ghost t1: Tree, ghost t2: Tree)
    requires |kids| == |keys| + 1 && cs == Pointers(kids, keys) && right == kids[|keys|].id
    requires KidsOk(kids, keys, lo, hi) && i == ChildIndex(keys, e.cell.key) < |kids|
    requires Grown(Split(sep, newPage), c1, c2, kids[i].id, Lo(keys, i, lo), Hi(keys, i, hi), Height(kids[i]), sink.Pages())
    requires Flat(c1) + Flat(c2) == Upsert(Flat(kids[i]), e.cell.key, e.value) && LastKept(RightLeaf(c2), kids[i])
    requires Fitting(Split(sep, newPage), c1, c2, kids[i], e.cell) && forall j :: 0 <= j < |kids| ==> FitsAll(kids[j])
    requires sink.Owned(Ids(c1) + Ids(c2) + Beside(page, kids, i, others)) && (page == 1 || 1 in others)
    requires Fits(page, Interior(cs, right))
    requires forall j :: 0 <= j < i ==> Stored(kids[j], sink.Pages())
    requires forall j :: i < j < |kids| ==> Stored(kids[j], sink.Pages())
    modifies sink
    ensures !r.Panicked?
    ensures Inserted(sink, r, t1, t2, InteriorT(page, kids, keys), lo, hi, e, others)
    ensures Same(old(sink.Pages()), sink.Pages(), others)
    ensures sink.pageCount <= old(sink.pageCount) + 1
  {
    hide *;
    ghost var view := sink.Pages();
    ghost var ks, qs := SplitKids(kids, i, c1, c2), SplitKeys(keys, i, sep);
    GrownSplitParts(sep, newPage, c1, c2, kids[i].id, Lo(keys, i, lo), Hi(keys, i, hi), Height(kids[i]), view);
    SplitOk(kids, keys, lo, hi, i, c1, sep, c2);
    SplitStored(kids, i, c1, c2, ks, view);
    SplitIds(kids, page, i, c1, c2, others);
    sink.Reown(Ids(c1) + Ids(c2) + Beside(page, kids, i, others), multiset{page} + (IdsAll(ks) + others));
    r := WriteEdited(sink, page, cs, right, i, sep, newPage, kids, keys, c1, c2, IdsAll(ks) + others);
    KidsSame(ks, view, sink.Pages(), IdsAll(ks) + others);
    SameLess(view, sink.Pages(), IdsAll(ks), others);
    t1, t2 := SplitInserted(sink, kids, keys, page, lo, hi, i, c1, sep, c2, ks, qs, r, e, others);
    NotOverfull(sink, r, t1, t2, InteriorT(page, kids, keys), lo, hi, e, others);
  }

  lemma NotOverfull(sink: PageSink, r: Outcome, t1: Tree, t2: Tree, t: Tree, lo: int, hi: int, e: Entry,
                    others: multiset<PageId>)
    requires Inserted(sink, r, t1, t2, t, lo, hi, e, others)
    ensures !r.Panicked?
  {
  }

  lemma OwnedAgain(sink: PageSink, p: multiset<PageId>, a: multiset<PageId>, o: multiset<PageId>, n: multiset<PageId>,
                   q: multiset<PageId>)
    requires sink.Owned(p + (a + o) + n) && SamePages(q, p + n + a)
    ensures sink.Owned(q + o)
  {
  }

  lemma {:induction false} GrownSplitParts(sep: rowid, right: PageId, t1: Tree, t2: Tree, page: PageId, lo: int, hi: int,
                                           h: nat, view: View)
    requires Grown(Split(sep, right), t1, t2, page, lo, hi, h, view)
    ensures lo < sep < hi && t1.id == page && t2.id == right && Height(t1) == h && Height(t2) == h
    ensures TreeOk(t1, lo, sep) && TreeOk(t2, sep, hi) && Stored(t1, view) && Stored(t2, view)
  {
  }

  lemma {:induction false} SplitShape(kids: seq<Tree>, keys: seq<rowid>, i: nat, c1: Tree, sep: rowid, c2: Tree)
    requires |kids| == |keys| + 1 && i < |kids|
    ensures |SplitKids(kids, i, c1, c2)| == |keys| + 2 && |SplitKeys(keys, i, sep)| == |keys| + 1
  {
  }

  lemma {:induction false} ChildAtIs(kids: seq<Tree>, keys: seq<rowid>, i: nat)
    requires |kids| == |keys| + 1 && i < |kids|
    ensures ChildAt(Pointers(kids, keys), kids[|keys|].id, i) == kids[i].id
    ensures |Pointers(kids, keys)| == |keys|
  {
  }

  lemma {:induction false} EditedUsedFits(page: PageId, cs: seq<InteriorCell>, right: PageId, i: nat, child: PageId,
                                          sep: rowid, newPage: PageId, right': PageId)
    requires i <= |cs| && Fits(page, Interior(cs, right))
    ensures Used(page, Interior(EditedCells(cs, i, child, sep, newPage), right')) <= PAGE_SIZE + 15
  {
    hide EditedCells, Used;
    EditedUsed(page, cs, right, i, child, sep, newPage, right');
  }

  lemma {:induction false} SplitHeight(kids: seq<Tree>, keys: seq<rowid>, lo: int, hi: int, i: nat, c1: Tree, c2: Tree)
    requires KidsOk(kids, keys, lo, hi) && i < |kids| && Height(c1) == Height(kids[i])
    ensures SplitKids(kids, i, c1, c2) != [] && Height(SplitKids(kids, i, c1, c2)[0]) == Height(kids[0])
  {
    hide KidsOk, Height;
    KidsShape(kids, keys, lo, hi);
    KidOk(kids, keys, lo, hi, i);
    SplitKidAt(kids, i, c1, c2, 0);
  }

  lemma BesideParts(page: PageId, kids: seq<Tree>, i: nat, others: multiset<PageId>)
    requires i < |kids|
    ensures page in Beside(page, kids, i, others)
    ensures forall p :: p in others ==> p in Beside(page, kids, i, others)
  {
  }

  lemma SameBeside(u: View, v: View, page: PageId, kids: seq<Tree>, i: nat, others: multiset<PageId>)
    requires i < |kids| && Same(u, v, Beside(page, kids, i, others))
    ensures Same(u, v, others)
  {
  }

  /** Back from child i: the parent page is left alone or rewritten. */
  method InsertFinish(sink: PageSink, page: PageId, cells: seq<InteriorCell>, right: PageId, i: nat, sub: Outcome,
                      ghost kids: seq<Tree>, ghost keys: seq<rowid>, ghost lo: int, ghost hi: int,
                      ghost c1: Tree, ghost c2: Tree, ghost e: Entry, ghost others: multiset<PageId>, ghost before: View)
    returns (r: Outcome, ghost t1: Tree, ghost t2: Tree)
    requires |kids| == |keys| + 1 && cells == Pointers(kids, keys) && right == kids[|keys|].id
    requires KidsOk(kids, keys, lo, hi) && i == ChildIndex(keys, e.cell.key) < |kids|
    requires !sub.Panicked?
    requires Inserted(sink, sub, c1, c2, kids[i], Lo(keys, i, lo), Hi(keys, i, hi), e, Beside(page, kids, i, others))
    requires Same(before, sink.Pages(), Beside(page, kids, i, others)) && (page == 1 || 1 in others)
    requires Fits(page, Interior(cells, right)) && Holds(before, page, Interior(cells, right))
    requires forall j :: 0 <= j < |kids| ==> Stored(kids[j], before) && FitsAll(kids[j])
    modifies sink
    ensures !r.Panicked?
    ensures Inserted(sink, r, t1, t2, InteriorT(page, kids, keys), lo, hi, e, others)
    ensures Same(before, sink.Pages(), others)
    ensures sink.pageCount <= old(sink.pageCount) + 1
  {
    hide *;
    ghost var view := sink.Pages();
    InsertedParts(sink, sub, c1, c2, kids[i], Lo(keys, i, lo), Hi(keys, i, hi), e, Beside(page, kids, i, others));
    SiblingsStored(page, kids, i, others, before, view);
    BesideParts(page, kids, i, others);
    HoldsSame(before, view, page, Interior(cells, right), Beside(page, kids, i, others));
    SameBeside(before, view, page, kids, i, others);
    if sub.Done? {
      t1 := FinishDone(sink, kids, keys, page, lo, hi, i, c1, e, others);
      r, t2 := Done, t1;
    } else {
      r, t1, t2 := FinishSplit(sink, page, cells, right, i, sub.sep, sub.right, kids, keys, lo, hi, c1, c2, e, others);
      SameTrans(before, view, sink.Pages(), others);
    }
  }

  lemma {:induction false} NodeHeld(t: Tree, page: PageId, lo: int, hi: int, view: View)
    requires Good(t, page, lo, hi, view)
    ensures Holds(view, page, NodeOf(t)) && Shaped(NodeOf(t)) && (FitsAll(t) ==> Fits(page, NodeOf(t)))
    ensures t.LeafT? ==> NodeOf(t) == Leaf(Cells(t.entries)) && t == LeafT(page, t.entries)
    ensures t.InteriorT? ==> |t.kids| == |t.keys| + 1
    ensures t.InteriorT? ==> NodeOf(t) == Interior(Pointers(t.kids, t.keys), t.kids[|t.keys|].id)
  {
  }

  lemma {:induction false} RoomInterior(t: Tree, c: LeafCell)
    requires t.InteriorT? && ChildIndex(t.keys, c.key) < |t.kids|
    ensures Room(t, c) == Room(t.kids[ChildIndex(t.keys, c.key)], c)
    ensures Survives(t, c) == Survives(t.kids[ChildIndex(t.keys, c.key)], c)
  {
  }

  lemma InsertedParts(sink: PageSink, r: Outcome, t1: Tree, t2: Tree, t: Tree, lo: int, hi: int, e: Entry,
                      others: multiset<PageId>)
    requires Inserted(sink, r, t1, t2, t, lo, hi, e, others)
    ensures Grown(r, t1, t2, t.id, lo, hi, Height(t), sink.Pages()) && sink.Owned(IdsOf(r, t1, t2) + others)
    ensures r.Done? ==> Good(t1, t.id, lo, hi, sink.Pages()) && Height(t1) == Height(t)
    ensures r.Done? ==> Flat(t1) == Upsert(Flat(t), e.cell.key, e.value) && sink.Owned(Ids(t1) + others)
    ensures LastKept(RightLeaf(if r.Split? then t2 else t1), t) && Fitting(r, t1, t2, t, e.cell)
    ensures Halved(r, t1, t2, t, e)
    ensures r.Done? ==> Fitting(Done, t1, t1, t, e.cell)
    ensures r.Split? ==> t2.id == r.right
    ensures r.Split? ==> Flat(t1) + Flat(t2) == Upsert(Flat(t), e.cell.key, e.value)
    ensures r.Split? ==> sink.Owned(Ids(t1) + Ids(t2) + others)
  {
  }

  /** Inserts a cell below a page. The tree below stays a b-tree on the same page with the record in its
      place, or becomes two b-trees; all their nodes fit exactly when the leaf has room. It panics exactly
      when the left half of the leaf takes more than a page, or the leaf cannot be cut. */
  method InsertRec(sink: PageSink, page: PageId, cell: LeafCell, ghost t: Tree, ghost e: Entry, ghost lo: int, ghost hi: int,
                   ghost others: multiset<PageId>)
    returns (r: Outcome, ghost t1: Tree, ghost t2: Tree)
    requires cell == e.cell && lo < cell.key <= hi
    requires Good(t, page, lo, hi, sink.Pages()) && EntryStored(sink.Pages(), e) && FitsAll(t)
    requires sink.Owned(Ids(t) + multiset(e.chain) + others) && (page == 1 || 1 in others)
    modifies sink
    ensures r.Panicked? <==> !Survives(t, cell)
    ensures !r.Panicked? ==> Inserted(sink, r, t1, t2, t, lo, hi, e, others)
    ensures !r.Panicked? ==> Same(old(sink.Pages()), sink.Pages(), others)
    ensures sink.pageCount <= old(sink.pageCount) + Height(t) + 1
    decreases t, 1
  {
    hide Good, Stored, TreeOk, EntryStored, Inserted, Room, Survives, Ids, FitsAll, Fits, Shaped, Holds, PageFormat.ReadBack, NodeOf;
    NodeHeld(t, page, lo, hi, sink.Pages());
    ReadHeld(sink.Pages(), page, NodeOf(t));
    var got := ReadNode(sink, page);
    match got.value
    case Leaf(cells) =>
      r, t1, t2 := InsertLeaf(sink, page, cells, cell, t.entries, e, lo, hi, others);
    case Interior(cells, right) =>
      r, t1, t2 := InsertInterior(sink, page, cells, right, cell, t, e, lo, hi, others);
  }

  method InsertInterior(sink: PageSink, page: PageId, cells: seq<InteriorCell>, right: PageId, cell: LeafCell,
                        ghost t: Tree, ghost e: Entry, ghost lo: int, ghost hi: int, ghost others: multiset<PageId>)
    returns (r: Outcome, ghost t1: Tree, ghost t2: Tree)
    requires cell == e.cell && lo < cell.key <= hi && t.InteriorT? && |t.kids| == |t.keys| + 1
    requires cells == Pointers(t.kids, t.keys) && right == t.kids[|t.keys|].id
    requires Good(t, page, lo, hi, sink.Pages()) && EntryStored(sink.Pages(), e) && FitsAll(t)
    requires sink.Owned(Ids(t) + multiset(e.chain) + others) && (page == 1 || 1 in others)
    modifies sink
    ensures r.Panicked? <==> !Survives(t, cell)
    ensures !r.Panicked? ==> Inserted(sink, r, t1, t2, t, lo, hi, e, others)
    ensures !r.Panicked? ==> Same(old(sink.Pages()), sink.Pages(), others)
    decreases t, 0
    ensures sink.pageCount <= old(sink.pageCount) + Height(t) + 1
  {
    hide *;
    ghost var view, kids, keys := sink.Pages(), t.kids, t.keys;
    GoodParts(t, page, lo, hi, view);
    ChildAtIs(kids, keys, |keys|);
    var i := FindChild(cells, cell.key);
    FoundChild(kids, keys, cell.key, i);
    RoomInterior(t, cell);
    ghost var rest := Beside(page, kids, i, others);
    ChildRange(keys, lo, hi, cell.key);
    KidGood(kids, keys, lo, hi, i, view);
    BesideOwned(page, kids, keys, i, multiset(e.chain), others);
    BesideParts(page, kids, i, others);
    sink.Reown(Ids(t) + multiset(e.chain) + others, Ids(kids[i]) + multiset(e.chain) + rest);
    var sub: Outcome;
    ghost var c1, c2: Tree;
    sub, c1, c2 := InsertRec(sink, ChildAt(cells, right, i), cell, kids[i], e, Lo(keys, i, lo), Hi(keys, i, hi), rest);
    t1, t2 := t, t;
    if sub == Panicked {
      return Panicked, t1, t2;
    }
    r, t1, t2 := InsertFinish(sink, page, cells, right, i, sub, kids, keys, lo, hi, c1, c2, e, others, view);
  }
}
