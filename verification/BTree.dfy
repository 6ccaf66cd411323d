/** The table b-tree as its callers see it: a finite map from rowids to records kept on pages. */
module BTrees {
  import opened Common
  import opened Varint
  import opened Nodes
  import PageFormat
  import opened Table
  import opened Trees
  import opened TreeEdits
  import opened LeafEdits
  import opened Overflow
  import opened LeafPages
  import opened InteriorPages
  import opened Insertion
  import opened Deletion

  /** The shape of the cell a record becomes; only whether it has an overflow chain shows in its size. */
  function CellShape(key: rowid, record: seq<byte>): LeafCell
    requires |record| < TWO_64
  {
    LeafCell(key, |record|, if |record| <= MAX_INLINE then 0 else 1, record[..Min(|record|, InlineLen(|record|))])
  }

  /** Room, and whether there is a panic, are decided by the length of the cell. */
  lemma {:induction false} RoomByLength(t: Tree, a: LeafCell, b: LeafCell)
    requires a.key == b.key && LeafCellLen(a) == LeafCellLen(b)
    ensures Room(t, a) == Room(t, b) && Survives(t, a) == Survives(t, b)
  {
    match t
    case LeafT(id, es) =>
      SameRoom(id, Upserted(Cells(es), a), Upserted(Cells(es), b));
    case InteriorT(_, kids, keys) =>
      var i := ChildIndex(keys, a.key);
      if i < |kids| {
        RoomByLength(kids[i], a, b);
      }
  }

  /** The cell of a record, whichever overflow page it leads to. */
  predicate CellOf(c: LeafCell, key: rowid, record: seq<byte>)
    requires |record| < TWO_64
  {
    && c.(overflow := 0) == CellShape(key, record).(overflow := 0) && LeafCellLen(c) == LeafCellLen(CellShape(key, record))
    && (|record| <= MAX_INLINE ==> c == CellShape(key, record))
  }

  /** Makes the cell of a record, spilling what does not fit inline to overflow pages. */
  method MakeCell(sink: PageSink, key: rowid, record: seq<byte>, ghost owned: multiset<PageId>)
    returns (cell: LeafCell, ghost e: Entry)
    requires |record| < TWO_64 && sink.Owned(owned)
    modifies sink
    ensures e.cell == cell && e.value == record && cell.key == key && EntryStored(sink.Pages(), e)
    ensures sink.Owned(owned + multiset(e.chain)) && Same(old(sink.Pages()), sink.Pages(), owned)
    ensures CellOf(cell, key, record)
    ensures sink.pageCount <= old(sink.pageCount) + |record|
  {
    InlineBounds(|record|);
    if |record| <= MAX_INLINE {
      cell := LeafCell(key, |record|, 0, record);
      e := Entry(cell, [], record);
      assert record[..|record|] == record && record[|record|..] == [];
      assert owned + multiset(e.chain) == owned;
    } else {
      var inlineLen := InlineLen(|record|);
      var overflow, ids := WriteOverflow(sink, record[inlineLen..], owned);
      cell := LeafCell(key, |record|, overflow, record[..inlineLen]);
      e := Entry(cell, ids, record);
    }
  }

  /** A table b-tree on a fixed root page, beside pages that belong to others; every node is what its page reads. */
  ghost predicate IsTable(sink: PageSink, root: PageId, t: Tree, others: multiset<PageId>)
    reads sink
  {
    && Good(t, root, MIN_ROWID - 1, MAX_ROWID, sink.Pages())
    && sink.Owned(Ids(t) + others)
    && (root == 1 || 1 in others) && FitsAll(t)
  }

  lemma IsTableIs(sink: PageSink, root: PageId, t: Tree, others: multiset<PageId>)
    requires Good(t, root, MIN_ROWID - 1, MAX_ROWID, sink.Pages()) && sink.Owned(Ids(t) + others)
    requires (root == 1 || 1 in others) && FitsAll(t)
    ensures IsTable(sink, root, t, others)
  {
  }

  lemma TableIs(sink: PageSink, root: PageId, t: Tree, others: multiset<PageId>)
    requires IsTable(sink, root, t, others)
    ensures Good(t, root, MIN_ROWID - 1, MAX_ROWID, sink.Pages()) && sink.Owned(Ids(t) + others)
    ensures (root == 1 || 1 in others) && FitsAll(t)
  {
  }

  // ---- growing the root ----

  function WithId(t: Tree, id: PageId): Tree {
    match t
    case LeafT(_, es) => LeafT(id, es)
    case InteriorT(_, kids, keys) => InteriorT(id, kids, keys)
  }

  lemma {:induction false} MovedOk(t: Tree, page: PageId, id: PageId, lo: int, hi: int)
    requires TreeOk(t, lo, hi) && t.id == page && id != 1
    ensures TreeOk(WithId(t, id), lo, hi) && NodeOf(WithId(t, id)) == NodeOf(t) && Flat(WithId(t, id)) == Flat(t)
    ensures Height(WithId(t, id)) == Height(t) && WithId(t, id).id == id
  {
  }

  /** The pages of a tree other than its root page. */
  function Under(t: Tree): multiset<PageId> {
    match t
    case LeafT(_, es) => ChainIds(es)
    case InteriorT(_, kids, _) => IdsAll(kids)
  }

  lemma {:induction false} UnderIs(t: Tree, id: PageId)
    ensures Ids(t) == multiset{t.id} + Under(t)
    ensures Ids(WithId(t, id)) == multiset{id} + Under(t)
  {
  }

  /** A tree moves with its root node; the pages under it stay. */
  lemma {:induction false} MovedStored(t: Tree, id: PageId, v: View, v': View, others: multiset<PageId>)
    requires Stored(t, v) && Holds(v', id, NodeOf(t)) && Same(v, v', Under(t) + others)
    ensures Stored(WithId(t, id), v')
  {
    match t
    case LeafT(_, es) => EntriesSame(es, v, v', Under(t) + others);
    case InteriorT(_, kids, _) => KidsSame(kids, v, v', Under(t) + others);
  }

  lemma {:induction false} RootFits(root: PageId, c: InteriorCell, right: PageId)
    ensures Fits(root, Interior([c], right))
  {
    PairSum(c, c);
  }

  /** Two trees with a separator become one tree a level higher. */
  lemma {:induction false} JoinedOk(t1: Tree, t2: Tree, root: PageId, lo: int, sep: rowid, hi: int)
    requires TreeOk(t1, lo, sep) && TreeOk(t2, sep, hi) && lo < sep < hi && Height(t1) == Height(t2)
    ensures KidsOk([t1, t2], [sep], lo, hi)
    ensures Pointers([t1, t2], [sep]) == [InteriorCell(t1.id, sep)]
  {
    forall i | 0 <= i < 2
      ensures TreeOk([t1, t2][i], Lo([sep], i, lo), Hi([sep], i, hi))
    {
    }
  }

  lemma {:induction false} JoinedParts(t1: Tree, t2: Tree, root: PageId, sep: rowid)
    ensures Flat(InteriorT(root, [t1, t2], [sep])) == Flat(t1) + Flat(t2)
    ensures Ids(InteriorT(root, [t1, t2], [sep])) == multiset{root} + Ids(t1) + Ids(t2)
    ensures RightLeaf(InteriorT(root, [t1, t2], [sep])) == RightLeaf(t2)
    ensures Height(InteriorT(root, [t1, t2], [sep])) == Height(t1) + 1
  {
    PairParts(t1, t2);
  }

  lemma RootNode(t: Tree, view: View)
    requires Stored(t, view)
    ensures t.id in view && view[t.id] == NodePage(NodeOf(t)) && Holds(view, t.id, NodeOf(t))
  {
  }

  lemma RootOwned(sink: PageSink, root: PageId, under: multiset<PageId>, ids: multiset<PageId>, others: multiset<PageId>,
                  all: multiset<PageId>)
    requires sink.Owned(all + ids + others) && all == multiset{root} + under
    ensures sink.Owned(multiset{root} + (under + ids + others))
  {
  }

  /** The two writes leave a tree on the root page. */
  lemma {:induction false} RootGrown(sink: PageSink, root: PageId, sep: rowid, leftPage: PageId, t1: Tree, t2: Tree, lo: int,
                                     hi: int, others: multiset<PageId>, v: View, v': View, rest: multiset<PageId>)
    returns (t: Tree)
    requires TreeOk(WithId(t1, leftPage), lo, sep) && WithId(t1, leftPage).id == leftPage && lo < sep < hi
    requires Height(WithId(t1, leftPage)) == Height(t2)
    requires TreeOk(t2, sep, hi) && Stored(t1, v) && Stored(t2, v) && Flat(WithId(t1, leftPage)) == Flat(t1)
    requires rest == Under(t1) + Ids(t2) + others
    requires Same(v, v', multiset{root} + rest) && Same(v', sink.Pages(), multiset{leftPage} + rest)
    requires Holds(v', leftPage, NodeOf(t1))
    requires Holds(sink.Pages(), root, Interior([InteriorCell(leftPage, sep)], t2.id))
    requires Fits(root, Interior([InteriorCell(leftPage, sep)], t2.id))
    requires sink.Owned(multiset{root} + rest + multiset{leftPage})
    ensures Good(t, root, lo, hi, sink.Pages()) && Flat(t) == Flat(t1) + Flat(t2) && RightLeaf(t) == RightLeaf(t2)
    ensures t == InteriorT(root, [WithId(t1, leftPage), t2], [sep])
    ensures sink.Owned(Ids(t) + others) && Same(v, sink.Pages(), others)
  {
    hide *;
    var left := WithId(t1, leftPage);
    t := InteriorT(root, [left, t2], [sep]);
    RestSame(v, v', sink.Pages(), root, leftPage, rest, Under(t1), Ids(t2), others);
    LeftHeld(v', sink.Pages(), leftPage, NodeOf(t1), rest);
    MovedStored(t1, leftPage, v, sink.Pages(), Ids(t2) + others);
    StoredSame(t2, v, sink.Pages(), Ids(t2));
    JoinedOk(left, t2, root, lo, sep, hi);
    JoinedParts(left, t2, root, sep);
    PairStored(left, t2, sink.Pages());
    InteriorGood([left, t2], [sep], root, lo, hi, sink.Pages());
    UnderIs(t1, leftPage);
    JoinedOwned(sink, root, leftPage, Under(t1), Ids(t2), others, Ids(left), rest, Ids(t));
  }

  lemma RootApart(sink: PageSink, root: PageId, rest: multiset<PageId>, leftPage: PageId)
    requires sink.Owned(multiset{root} + rest + multiset{leftPage})
    ensures root !in multiset{leftPage} + rest && 1 <= root <= sink.pageCount
  {
    hide PageSink.Traced;
    assert (multiset{root} + rest + multiset{leftPage})[root] >= 1;
    assert (multiset{root} + rest + multiset{leftPage})[root] <= 1;
  }

  lemma JoinedOwned(sink: PageSink, root: PageId, leftPage: PageId, under: multiset<PageId>, ids: multiset<PageId>,
                    others: multiset<PageId>, left: multiset<PageId>, rest: multiset<PageId>, all: multiset<PageId>)
    requires sink.Owned(multiset{root} + rest + multiset{leftPage}) && rest == under + ids + others
    requires left == multiset{leftPage} + under && all == multiset{root} + left + ids
    ensures sink.Owned(all + others)
  {
  }

  lemma RestSame(u: View, v: View, w: View, root: PageId, leftPage: PageId, rest: multiset<PageId>, a: multiset<PageId>,
                 b: multiset<PageId>, c: multiset<PageId>)
    requires Same(u, v, multiset{root} + rest) && Same(v, w, multiset{leftPage} + rest) && rest == a + b + c
    ensures Same(u, w, a + (b + c)) && Same(u, w, b) && Same(u, w, c)
  {
  }

  lemma LeftHeld(v: View, w: View, leftPage: PageId, node: Node, rest: multiset<PageId>)
    requires Holds(v, leftPage, node) && Same(v, w, multiset{leftPage} + rest)
    ensures Holds(w, leftPage, node)
  {
    assert leftPage in multiset{leftPage} + rest;
  }

  lemma PairStored(a: Tree, b: Tree, view: View)
    requires Stored(a, view) && Stored(b, view)
    ensures forall i :: 0 <= i < 2 ==> Stored([a, b][i], view)
  {
  }

  // ---- an insertion that is written over itself ----

  /** What an insertion came to. Right: the table holds the record. Damaged: a leaf's cells were laid over its
      pointers. Failed: a page so written was read again, and refused. Aborted: the call never returned. */
  datatype Fate = Right | Damaged | Failed | Aborted

  /** What the caller is told of it. */
  datatype Reply = Answered | Refused | Never

  function ReplyOf(fate: Fate): Reply {
    match fate
    case Right => Answered
    case Damaged => Answered
    case Failed => Refused
    case Aborted => Never
  }

  /** What growing a root makes of a node on the root page that does not fit: it is read back, and what was read
      is written to another page. */
  function RootFate(root: PageId, n: Node): (fate: Fate)
    ensures fate != Right
  {
    match PageFormat.ReadBack(root, n)
    case Corrupt => Failed
    case Panic => Aborted
    case Done(n') => if Writes(2, n') then Damaged else Aborted
  }

  /** The pages are as written, page p aside. */
  predicate StoredBut(t: Tree, view: View, p: PageId) {
    && (t.id != p ==> Holds(view, t.id, NodeOf(t)))
    && match t
       case LeafT(_, es) => forall i :: 0 <= i < |es| ==> EntryStored(view, es[i])
       case InteriorT(_, kids, keys) => |kids| == |keys| + 1 && forall i :: 0 <= i < |kids| ==> StoredBut(kids[i], view, p)
  }

  lemma {:induction false} StoredButAll(t: Tree, view: View, p: PageId)
    requires Stored(t, view)
    ensures StoredBut(t, view, p)
  {
    if t.InteriorT? {
      forall i | 0 <= i < |t.kids|
        ensures StoredBut(t.kids[i], view, p)
      {
        StoredButAll(t.kids[i], view, p);
      }
    }
  }

  /** The tree t on page root but for page bad: all else is stored and fits. */
  ghost predicate Spoilt(sink: PageSink, root: PageId, t: Tree, bad: PageId, others: multiset<PageId>)
    reads sink
  {
    && t.id == root && TreeOk(t, MIN_ROWID - 1, MAX_ROWID) && StoredBut(t, sink.Pages(), bad) && FitsBut(t, bad)
    && sink.Owned(Ids(t) + others) && (root == 1 || 1 in others)
  }

  lemma SpoiltIs(sink: PageSink, root: PageId, t: Tree, bad: PageId, others: multiset<PageId>)
    requires t.id == root && TreeOk(t, MIN_ROWID - 1, MAX_ROWID) && StoredBut(t, sink.Pages(), bad) && FitsBut(t, bad)
    requires sink.Owned(Ids(t) + others) && (root == 1 || 1 in others)
    ensures Spoilt(sink, root, t, bad, others)
  {
  }

  /** A node that did not fit moves: all but its own page is still stored. */
  lemma {:induction false} MovedStoredBut(t: Tree, id: PageId, v: View, v': View, others: multiset<PageId>)
    requires Stored(t, v) && Same(v, v', Under(t) + others)
    ensures StoredBut(WithId(t, id), v', id)
  {
    match t
    case LeafT(_, es) => EntriesSame(es, v, v', Under(t) + others);
    case InteriorT(_, kids, _) =>
      KidsSame(kids, v, v', Under(t) + others);
      forall i | 0 <= i < |kids|
        ensures StoredBut(kids[i], v', id)
      {
        StoredButAll(kids[i], v', id);
      }
  }

  /** The two writes leave, for a node read back as another, a tree with that one in its place. */
  lemma {:induction false} RootSpoilt(sink: PageSink, root: PageId, sep: rowid, leftPage: PageId, t1: Tree, t2: Tree, lo: int,
                                      hi: int, others: multiset<PageId>, v: View, v': View, rest: multiset<PageId>, n: Node)
    returns (t: Tree)
    requires TreeOk(WithId(t1, leftPage), lo, sep) && WithId(t1, leftPage).id == leftPage && lo < sep < hi
    requires Height(WithId(t1, leftPage)) == Height(t2)
    requires TreeOk(t2, sep, hi) && Stored(t1, v) && Stored(t2, v) && Flat(WithId(t1, leftPage)) == Flat(t1)
    requires rest == Under(t1) + Ids(t2) + others
    requires Same(v, v', multiset{root} + rest) && Same(v', sink.Pages(), multiset{leftPage} + rest)
    requires Holds(v', leftPage, n)
    requires Holds(sink.Pages(), root, Interior([InteriorCell(leftPage, sep)], t2.id))
    requires Writes(root, Interior([InteriorCell(leftPage, sep)], t2.id))
    requires sink.Owned(multiset{root} + rest + multiset{leftPage})
    ensures t == InteriorT(root, [WithId(t1, leftPage), t2], [sep]) && TreeOk(t, lo, hi) && Flat(t) == Flat(t1) + Flat(t2)
    ensures StoredBut(t, sink.Pages(), leftPage) && Holds(sink.Pages(), leftPage, n)
    ensures sink.Owned(Ids(t) + others) && Same(v, sink.Pages(), others)
  {
    hide *;
    var left := WithId(t1, leftPage);
    t := InteriorT(root, [left, t2], [sep]);
    RestSame(v, v', sink.Pages(), root, leftPage, rest, Under(t1), Ids(t2), others);
    LeftHeld(v', sink.Pages(), leftPage, n, rest);
    MovedStoredBut(t1, leftPage, v, sink.Pages(), Ids(t2) + others);
    StoredSame(t2, v, sink.Pages(), Ids(t2));
    StoredButAll(t2, sink.Pages(), leftPage);
    JoinedOk(left, t2, root, lo, sep, hi);
    JoinedParts(left, t2, root, sep);
    JoinedBut(left, t2, root, sep, lo, hi, sink.Pages(), leftPage);
    UnderIs(t1, leftPage);
    JoinedOwned(sink, root, leftPage, Under(t1), Ids(t2), others, Ids(left), rest, Ids(t));
  }

  lemma JoinedBut(left: Tree, t2: Tree, root: PageId, sep: rowid, lo: int, hi: int, view: View, p: PageId)
    requires KidsOk([left, t2], [sep], lo, hi) && Pointers([left, t2], [sep]) == [InteriorCell(left.id, sep)]
    requires Holds(view, root, Interior([InteriorCell(left.id, sep)], t2.id))
    requires Writes(root, Interior([InteriorCell(left.id, sep)], t2.id))
    requires StoredBut(left, view, p) && StoredBut(t2, view, p)
    ensures TreeOk(InteriorT(root, [left, t2], [sep]), lo, hi) && StoredBut(InteriorT(root, [left, t2], [sep]), view, p)
  {
  }

  /** Where the root page fitted, or the other pages do, so does the grown tree. */
  lemma {:induction false} JoinedFits(t1: Tree, t2: Tree, root: PageId, leftPage: PageId, sep: rowid, p: PageId)
    requires t1.id == root && leftPage != 1 && Fits(root, Interior([InteriorCell(leftPage, sep)], t2.id))
    ensures var t := InteriorT(root, [WithId(t1, leftPage), t2], [sep]);
            && (Fits(root, NodeOf(t1)) && FitsBut(t1, p) && FitsBut(t2, p) ==> FitsBut(t, p))
            && (FitsAll(t1) && FitsAll(t2) ==> FitsAll(t))
            && (FitsBut(t1, root) && FitsAll(t2) && t1.LeafT? ==> FitsBut(t, leftPage))
            && (Fits(root, NodeOf(t1)) && FitsAll(t) ==> FitsAll(t1) && FitsAll(t2))
  {
    hide Fits;
    var left := WithId(t1, leftPage);
    var t := InteriorT(root, [left, t2], [sep]);
    assert Pointers([left, t2], [sep]) == [InteriorCell(leftPage, sep)];
    assert t.kids[0] == left && t.kids[1] == t2 && NodeOf(left) == NodeOf(t1);
    if Fits(root, NodeOf(t1)) {
      FitsElsewhere(root, leftPage, NodeOf(t1));
    }
    if FitsAll(t2) {
      FitsButAll(t2, leftPage);
    }
    if Fits(root, NodeOf(t1)) && FitsAll(t) {
      assert FitsAll(t.kids[0]) && FitsAll(t.kids[1]);
      BackFits(t1, leftPage);
    }
  }

  lemma BackFits(t: Tree, id: PageId)
    requires FitsAll(WithId(t, id)) && Fits(t.id, NodeOf(t))
    ensures FitsAll(t)
  {
    if t.InteriorT? {
      forall i | 0 <= i < |t.kids|
        ensures FitsAll(t.kids[i])
      {
        assert WithId(t, id).kids[i] == t.kids[i];
      }
    }
  }

  /** Copies the node on page root to a new page and makes root its parent: the root page never moves. The node
      is read back from the page it was just written to. */
  method GrowRoot(sink: PageSink, root: PageId, sep: rowid, right: PageId, ghost t1: Tree, ghost t2: Tree, ghost lo: int,
                  ghost hi: int, ghost others: multiset<PageId>)
    returns (reply: Reply, ghost fate: Fate, ghost t: Tree, ghost leftPage: PageId)
    requires Grown(Split(sep, right), t1, t2, root, lo, hi, Height(t1), sink.Pages())
    requires sink.Owned(Ids(t1) + Ids(t2) + others) && (root == 1 || 1 in others)
    modifies sink
    ensures fate == (if Fits(root, NodeOf(t1)) then Right else RootFate(root, NodeOf(t1))) && reply == ReplyOf(fate)
    ensures fate.Right? || fate.Damaged? ==>
              && t == InteriorT(root, [WithId(t1, leftPage), t2], [sep]) && leftPage != root && leftPage != 1
              && TreeOk(t, lo, hi) && Flat(t) == Flat(t1) + Flat(t2) && RightLeaf(t) == RightLeaf(t2)
              && Height(t) == Height(t1) + 1
              && sink.Owned(Ids(t) + others) && Same(old(sink.Pages()), sink.Pages(), others)
              && Fits(root, Interior([InteriorCell(leftPage, sep)], right))
    ensures fate.Right? ==> Good(t, root, lo, hi, sink.Pages())
    ensures fate.Damaged? ==>
              && StoredBut(t, sink.Pages(), leftPage) && PageFormat.ReadBack(root, NodeOf(t1)).Done?
              && Holds(sink.Pages(), leftPage, PageFormat.ReadBack(root, NodeOf(t1)).value)
    ensures sink.pageCount <= old(sink.pageCount) + 1
  {
    hide *;
    ghost var view := sink.Pages();
    GrownSplitParts(sep, right, t1, t2, root, lo, hi, Height(t1), view);
    ShapedNode(t1, lo, sep);
    RootNode(t1, view);
    ReadHeld(view, root, NodeOf(t1));
    t, leftPage, fate, reply := t1, 0, Aborted, Never;
    RootFateIs(root, NodeOf(t1));
    var got := ReadNode(sink, root);
    if got.Corrupt? {
      return Refused, Failed, t, leftPage;
    }
    if got.Panic? {
      return;
    }
    var leftNode := got.value;
    ghost var rest := Under(t1) + Ids(t2) + others;
    UnderIs(t1, root);
    RootOwned(sink, root, Under(t1), Ids(t2), others, Ids(t1));
    var newPage := sink.AllocPage(multiset{root} + rest);
    leftPage := newPage;
    AllocApart(root, rest, others, newPage);
    WritesElsewhere(root, newPage, NodeOf(t1), leftNode);
    MovedOk(t1, root, newPage, lo, sep);
    var ok := WriteNode(sink, newPage, leftNode, multiset{root} + rest);
    if !ok {
      return;
    }
    ghost var view' := sink.Pages();
    RootApart(sink, root, rest, newPage);
    RootFits(root, InteriorCell(newPage, sep), right);
    FitsWrites(root, Interior([InteriorCell(newPage, sep)], right));
    var _ := WriteNode(sink, root, Interior([InteriorCell(newPage, sep)], right), multiset{newPage} + rest);
    JoinedParts(WithId(t1, newPage), t2, root, sep);
    reply := Answered;
    if Fits(root, NodeOf(t1)) {
      fate := Right;
      t := RootGrown(sink, root, sep, newPage, t1, t2, lo, hi, others, view, view', rest);
      GoodIs(t, root, lo, hi, sink.Pages());
    } else {
      fate := Damaged;
      t := RootSpoilt(sink, root, sep, newPage, t1, t2, lo, hi, others, view, view', rest, leftNode);
    }
  }

  lemma RootFateIs(root: PageId, n: Node)
    ensures ReplyOf(Right) == ReplyOf(Damaged) == Answered && ReplyOf(Failed) == Refused && ReplyOf(Aborted) == Never
    ensures RootFate(root, n) == match PageFormat.ReadBack(root, n)
                                 case Corrupt => Failed
                                 case Panic => Aborted
                                 case Done(n') => if Writes(2, n') then Damaged else Aborted
  {
  }

  lemma ShapedNode(t: Tree, lo: int, hi: int)
    requires TreeOk(t, lo, hi)
    ensures Shaped(NodeOf(t)) && Writes(t.id, NodeOf(t))
  {
  }

  lemma AllocApart(root: PageId, rest: multiset<PageId>, others: multiset<PageId>, id: PageId)
    requires id !in multiset{root} + rest && others <= rest && (root == 1 || 1 in others)
    ensures id != root && id != 1
  {
  }

  /** Pages other than page 1 are all alike. */
  lemma WritesElsewhere(root: PageId, id: PageId, old_n: Node, n: Node)
    requires id != 1
    ensures Writes(id, n) <==> Writes(2, n)
    ensures Writes(root, old_n) ==> Writes(id, old_n)
  {
  }

  // ---- the operations ----

  /** Allocates an empty table. */
  method Create(sink: PageSink, ghost others: multiset<PageId>) returns (root: PageId, ghost t: Tree)
    requires sink.Owned(others) && (1 in others || (sink.freelist == [] && sink.pageCount == 0))
    modifies sink
    ensures IsTable(sink, root, t, others) && t == LeafT(root, []) && Flat(t) == [] && Same(old(sink.Pages()), sink.Pages(), others)
    ensures sink.pageCount <= old(sink.pageCount) + 1
  {
    root := sink.AllocPage(others);
    t := LeafT(root, []);
    var _ := WriteNode(sink, root, Leaf([]), others);
    assert others + multiset{root} == Ids(t) + others;
  }

  /** What inserting a cell comes to. */
  function FateOf(root: PageId, t: Tree, e: Entry): Fate {
    if Room(t, e.cell) then Right
    else if !Survives(t, e.cell) then Aborted
    else if t.InteriorT? then Damaged
    else RootFate(root, Leaf(Cells(LeftOf(LeafAfter(t.entries, e)))))
  }

  /** Inserts or replaces a record. By sizes alone: with room in the leaf that the key belongs to, the table is the
      old one with this record put in. Without, the call panics if the left half of the leaf takes more than a page,
      and else it writes that half over itself. Above other pages it then answers as if all were well, and the
      tree is the one meant but for the page of that leaf, which does not read as what was put there. A root page
      is read again at once: what it reads as takes its place, if it reads as anything. */
  method Insert(sink: PageSink, root: PageId, key: rowid, record: seq<byte>, ghost t: Tree, ghost others: multiset<PageId>)
    returns (reply: Reply, ghost fate: Fate, ghost t': Tree, ghost bad: PageId, ghost e: Entry)
    requires |record| < TWO_64 && IsTable(sink, root, t, others)
    modifies sink
    ensures e.value == record && CellOf(e.cell, key, record) && fate == FateOf(root, t, e) && reply == ReplyOf(fate)
    ensures fate.Right? <==> Room(t, CellShape(key, record))
    ensures !Survives(t, CellShape(key, record)) ==> fate.Aborted?
    ensures fate.Right? || fate.Damaged? ==>
              && Flat(t') == Upsert(Flat(t), key, record) && LastKept(RightLeaf(t'), t) && Height(t') <= Height(t) + 1
              && Same(old(sink.Pages()), sink.Pages(), others)
    ensures fate.Right? ==> IsTable(sink, root, t', others)
    ensures fate.Right? && t.LeafT? && Fits(root, Leaf(Cells(LeafAfter(t.entries, e)))) ==>
              t' == LeafT(root, LeafAfter(t.entries, e))
    ensures fate.Damaged? ==> Spoilt(sink, root, t', bad, others)
    ensures fate.Damaged? && t.InteriorT? ==> bad == LeafPage(t, key) && Stored(t', sink.Pages()) && !FitsAll(t')
    ensures fate.Damaged? && t.LeafT? ==>
              Misread(sink.Pages(), root, t', bad) && t'.kids[0].entries == LeftOf(LeafAfter(t.entries, e))
    ensures sink.pageCount <= old(sink.pageCount) + |record| + Height(t) + 2
  {
    hide *;
    ghost var lo, hi := MIN_ROWID - 1, MAX_ROWID;
    ghost var view := sink.Pages();
    TableIs(sink, root, t, others);
    var cell: LeafCell;
    cell, e := MakeCell(sink, key, record, Ids(t) + others);
    ShapeKey(key, record);
    CellOfIs(cell, key, record);
    RoomByLength(t, cell, CellShape(key, record));
    FateIs(root, t, e);
    if Room(t, cell) {
      NoPanicWithRoom(t, cell);
    }
    GoodSame(t, root, lo, hi, view, sink.Pages(), others);
    OwnedWith(sink, Ids(t), others, multiset(e.chain));
    SameLess(view, sink.Pages(), Ids(t), others);
    ghost var view' := sink.Pages();
    var r: Outcome;
    ghost var t1, t2: Tree;
    r, t1, t2 := InsertRec(sink, root, cell, t, e, lo, hi, others);
    t', reply, fate, bad := t1, Never, Aborted, LeafPage(t, key);
    RepliesAre();
    if r.Panicked? {
      return;
    }
    SameTrans(view, view', sink.Pages(), others);
    GoodId(t, root, lo, hi, view);
    InsertedParts(sink, r, t1, t2, t, lo, hi, e, others);
    FittingParts(r, t1, t2, t, cell);
    ghost var view'' := sink.Pages();
    if r.Split? {
      GrownSplitParts(r.sep, r.right, t1, t2, root, lo, hi, Height(t), sink.Pages());
      ghost var leftPage: PageId;
      reply, fate, t', leftPage := GrowRoot(sink, root, r.sep, r.right, t1, t2, lo, hi, others);
      if fate.Right? || fate.Damaged? {
        SameTrans(view, view'', sink.Pages(), others);
        JoinedFits(t1, t2, root, leftPage, r.sep, bad);
      }
      SplitFate(fate, r, t1, t2, t, e, root, leftPage, t');
      if fate.Damaged? {
        bad := leftPage;
        MisreadIs(sink.Pages(), root, t', bad);
      }
    } else {
      reply, fate := Answered, Right;
      WholeFits(r, t1, t2, t, e, root);
    }
    if fate.Right? {
      GoodIs(t', root, lo, hi, sink.Pages());
      StoredButAll(t', sink.Pages(), bad);
      if Room(t, cell) {
        IsTableIs(sink, root, t', others);
      } else {
        fate := Damaged;
      }
    }
    if fate.Damaged? {
      SpoiltIs(sink, root, t', bad, others);
    }
  }

  lemma RepliesAre()
    ensures ReplyOf(Right) == ReplyOf(Damaged) == Answered && ReplyOf(Failed) == Refused && ReplyOf(Aborted) == Never
  {
  }

  lemma FateIs(root: PageId, t: Tree, e: Entry)
    ensures Room(t, e.cell) ==> FateOf(root, t, e) == Right
    ensures !Room(t, e.cell) && !Survives(t, e.cell) ==> FateOf(root, t, e) == Aborted
    ensures !Room(t, e.cell) && Survives(t, e.cell) ==>
              FateOf(root, t, e) == if t.InteriorT? then Damaged else RootFate(root, Leaf(Cells(LeftOf(LeafAfter(t.entries, e)))))
  {
    hide Room, Survives, RootFate;
  }

  lemma {:induction false} NoPanicWithRoom(t: Tree, c: LeafCell)
    requires Room(t, c)
    ensures Survives(t, c)
  {
    match t
    case LeafT(id, es) =>
      var cs := Upserted(Cells(es), c);
      if !Fits(id, Leaf(cs)) {
        FitsWrites(id, Leaf(cs[..SplitIndex(cs)]));
      }
    case InteriorT(_, kids, keys) => NoPanicWithRoom(kids[ChildIndex(keys, c.key)], c);
  }

  /** A root that was split stands on two nodes; the left one does not fit exactly when it was a leaf without room. */
  lemma SplitFate(fate: Fate, r: Outcome, t1: Tree, t2: Tree, t: Tree, e: Entry, root: PageId, leftPage: PageId, t': Tree)
    requires r.Split? && Halved(r, t1, t2, t, e) && t.id == root == t1.id
    requires FitsAll(t1) && FitsAll(t2) <==> Room(t, e.cell)
    requires FitsBut(t1, LeafPage(t, e.cell.key)) && FitsBut(t2, LeafPage(t, e.cell.key))
    requires fate == if Fits(root, NodeOf(t1)) then Right else RootFate(root, NodeOf(t1))
    requires fate.Right? || fate.Damaged? ==>
               && t' == InteriorT(root, [WithId(t1, leftPage), t2], [r.sep]) && leftPage != root
               && (Fits(root, NodeOf(t1)) ==> FitsBut(t', LeafPage(t, e.cell.key)))
               && (FitsAll(t1) && FitsAll(t2) ==> FitsAll(t'))
               && (FitsBut(t1, root) && FitsAll(t2) && t1.LeafT? ==> FitsBut(t', leftPage))
               && (Fits(root, NodeOf(t1)) && FitsAll(t') ==> FitsAll(t1) && FitsAll(t2))
    ensures t.LeafT? && !Room(t, e.cell) ==> fate == RootFate(root, Leaf(Cells(LeftOf(LeafAfter(t.entries, e)))))
    ensures t.InteriorT? || Room(t, e.cell) ==> fate.Right?
    ensures fate.Right? ==> (FitsAll(t') <==> Room(t, e.cell)) && FitsBut(t', LeafPage(t, e.cell.key))
    ensures fate.Damaged? ==> t.LeafT? && FitsBut(t', leftPage) && t'.kids == [LeafT(leftPage, LeftOf(LeafAfter(t.entries, e))), t2]
    ensures fate.Damaged? ==> NodeOf(t1) == Leaf(Cells(LeftOf(LeafAfter(t.entries, e)))) && !Fits(root, NodeOf(t1))
    ensures fate.Damaged? ==> |t'.kids| == 2 && fate == RootFate(root, NodeOf(t1))
    ensures t.LeafT? ==> !Fits(root, Leaf(Cells(LeafAfter(t.entries, e))))
  {
    hide Room, LeftOf, LeafAfter, Fits, PageFormat.ReadBack;
    assert t.LeafT? ==> LeafPage(t, e.cell.key) == root;
  }

  lemma WholeFits(r: Outcome, t1: Tree, t2: Tree, t: Tree, e: Entry, root: PageId)
    requires r.Done? && Halved(r, t1, t2, t, e) && t.id == root
    requires FitsAll(t1) <==> Room(t, e.cell)
    ensures t.LeafT? ==> Room(t, e.cell) && t1 == LeafT(root, LeafAfter(t.entries, e))
  {
    hide Room, FitsAll;
  }

  /** The left of the two leaves was first written to the root page, where it did not fit; what the root page then
      read as is what its page bad holds. */
  predicate Misread(view: View, root: PageId, t: Tree, bad: PageId) {
    && t.InteriorT? && |t.kids| == 2 && t.kids[0].LeafT? && t.kids[0].id == bad && bad != root && bad != 1
    && var n := Leaf(Cells(t.kids[0].entries));
       && !Fits(root, n) && PageFormat.ReadBack(root, n).Done?
       && Writes(bad, PageFormat.ReadBack(root, n).value) && Holds(view, bad, PageFormat.ReadBack(root, n).value)
  }

  lemma CellOfIs(c: LeafCell, key: rowid, record: seq<byte>)
    requires |record| < TWO_64 && CellOf(c, key, record)
    ensures c.key == key && LeafCellLen(c) == LeafCellLen(CellShape(key, record))
  {
  }

  lemma MisreadIs(view: View, root: PageId, t: Tree, bad: PageId)
    requires t.InteriorT? && |t.kids| == 2 && t.kids[0].LeafT? && t.kids[0].id == bad && bad != root && bad != 1
    requires var n := Leaf(Cells(t.kids[0].entries));
             && !Fits(root, n) && RootFate(root, n).Damaged? && PageFormat.ReadBack(root, n).Done?
             && Holds(view, bad, PageFormat.ReadBack(root, n).value)
    ensures Misread(view, root, t, bad)
  {
  }

  lemma ShapeKey(key: rowid, record: seq<byte>)
    requires |record| < TWO_64
    ensures CellShape(key, record).key == key
  {
  }

  lemma GoodId(t: Tree, id: PageId, lo: int, hi: int, view: View)
    requires Good(t, id, lo, hi, view)
    ensures t.id == id
  {
  }

  lemma {:induction false} GoodSame(t: Tree, id: PageId, lo: int, hi: int, v: View, v': View, others: multiset<PageId>)
    requires Good(t, id, lo, hi, v) && Same(v, v', Ids(t) + others)
    ensures Good(t, id, lo, hi, v')
  {
    StoredSame(t, v, v', Ids(t) + others);
  }

  lemma OwnedWith(sink: PageSink, a: multiset<PageId>, b: multiset<PageId>, c: multiset<PageId>)
    requires sink.Owned(a + b + c)
    ensures sink.Owned(a + c + b)
  {
  }

  /** Deletes a record, if there is one; the table is the old one without it. Deleting always succeeds. */
  method Delete(sink: PageSink, root: PageId, key: rowid, ghost t: Tree, ghost others: multiset<PageId>)
    returns (found: bool, ghost t': Tree)
    requires IsTable(sink, root, t, others)
    modifies sink
    ensures IsTable(sink, root, t', others) && Same(old(sink.Pages()), sink.Pages(), others)
    ensures Flat(t') == Remove(Flat(t), key) && (found <==> Lookup(Flat(t), key).Some?)
    ensures t' == WithoutKey(t, key)
    ensures sink.pageCount == old(sink.pageCount) && Height(t') == Height(t)
  {
    hide *;
    TableIs(sink, root, t, others);
    GoodId(t, root, MIN_ROWID - 1, MAX_ROWID, sink.Pages());
    found, t' := DeleteRec(sink, root, key, t, MIN_ROWID - 1, MAX_ROWID, others);
    DeletedParts(sink, found, t', t, MIN_ROWID - 1, MAX_ROWID, key, others);
    IsTableIs(sink, root, t', others);
  }

  /** One step of a descent: the child that holds every record with this key. */
  lemma {:induction false} Descend(t: Tree, page: PageId, lo: int, hi: int, view: View, key: rowid, i: nat)
    requires Good(t, page, lo, hi, view) && t.InteriorT? && |t.kids| == |t.keys| + 1 && FitsAll(t)
    requires i <= |t.keys| && (i < |t.keys| ==> key <= Pointers(t.kids, t.keys)[i].key)
    requires forall j :: 0 <= j < i ==> Pointers(t.kids, t.keys)[j].key < key
    ensures Good(t.kids[i], t.kids[i].id, Lo(t.keys, i, lo), Hi(t.keys, i, hi), view) && FitsAll(t.kids[i])
    ensures ChildAt(Pointers(t.kids, t.keys), t.kids[|t.keys|].id, i) == t.kids[i].id
    ensures Lookup(Flat(t), key) == Lookup(Flat(t.kids[i]), key)
  {
    hide *;
    GoodParts(t, page, lo, hi, view);
    FoundChild(t.kids, t.keys, key, i);
    KidGood(t.kids, t.keys, lo, hi, i, view);
    FlatIs(page, t.kids, t.keys);
    InChild(t.kids, t.keys, lo, hi, key, []);
  }

  lemma {:induction false} FoundInLeaf(es: seq<Entry>, page: PageId, lo: int, hi: int, view: View, key: rowid, pos: nat,
                                       found: bool)
    requires Good(LeafT(page, es), page, lo, hi, view) && FitsAll(LeafT(page, es))
    requires pos <= |es| && (found ==> pos < |es| && Cells(es)[pos].key == key)
    requires forall i :: 0 <= i < pos ==> Cells(es)[i].key < key
    requires forall i :: pos <= i < |es| ==>
               if found && i == pos then Cells(es)[i].key == key else key < Cells(es)[i].key
    ensures Lookup(Flat(LeafT(page, es)), key) == if found then Some(es[pos].value) else None
    ensures found ==> EntryStored(view, es[pos])
  {
    hide EntryStored, TreeOk, Stored, Good;
    LeafGoodParts(es, page, lo, hi, view);
    SearchRecords(es, key, pos, found);
    LookupLeaf(es, key, pos, found);
    RecordsOf(page, es);
  }

  /** Looks a rowid up. */
  method Get(sink: PageSink, root: PageId, key: rowid, ghost t: Tree, ghost others: multiset<PageId>)
    returns (r: Option<seq<byte>>)
    requires IsTable(sink, root, t, others)
    ensures r == Lookup(Flat(t), key)
  {
    hide *;
    TableIs(sink, root, t, others);
    var cur := root;
    ghost var sub, lo, hi := t, MIN_ROWID - 1, MAX_ROWID;
    while true
      invariant Good(sub, cur, lo, hi, sink.Pages()) && FitsAll(sub) && Lookup(Flat(sub), key) == Lookup(Flat(t), key)
      decreases sub
    {
      NodeHeld(sub, cur, lo, hi, sink.Pages());
      ReadHeld(sink.Pages(), cur, NodeOf(sub));
      var got := ReadNode(sink, cur);
      match got.value
      case Interior(cells, right) =>
        var i := FindChild(cells, key);
        ChildAtIs(sub.kids, sub.keys, |sub.keys|);
        Descend(sub, cur, lo, hi, sink.Pages(), key, i);
        cur := ChildAt(cells, right, i);
        sub, lo, hi := sub.kids[i], Lo(sub.keys, i, lo), Hi(sub.keys, i, hi);
      case Leaf(cells) =>
        LeafGoodParts(sub.entries, cur, lo, hi, sink.Pages());
        LeafSorted(sub.entries, lo, hi);
        var found, pos := Search(cells, key);
        FoundInLeaf(sub.entries, cur, lo, hi, sink.Pages(), key, pos, found);
        if found {
          CellIs(sub.entries, pos);
          r := ReadValue(sink, cells[pos], sub.entries[pos]);
          return;
        }
        return None;
    }
  }

  lemma CellIs(es: seq<Entry>, pos: nat)
    requires pos < |es|
    ensures Cells(es)[pos] == es[pos].cell
  {
  }

  /** Whether an insertion will find room, and whether it will get through without a panic: told by the sizes in
      one leaf, before the insertion is made. */
  method Foresee(sink: PageSink, root: PageId, key: rowid, record: seq<byte>, ghost t: Tree, ghost others: multiset<PageId>)
    returns (room: bool, survives: bool)
    requires |record| < TWO_64 && IsTable(sink, root, t, others)
    ensures room == Room(t, CellShape(key, record)) && survives == Survives(t, CellShape(key, record))
  {
    hide *;
    TableIs(sink, root, t, others);
    var cell := CellShape(key, record);
    ShapeKey(key, record);
    var cur := root;
    ghost var sub, lo, hi := t, MIN_ROWID - 1, MAX_ROWID;
    while true
      invariant Good(sub, cur, lo, hi, sink.Pages()) && FitsAll(sub)
      invariant Room(sub, cell) == Room(t, cell) && Survives(sub, cell) == Survives(t, cell)
      decreases sub
    {
      NodeHeld(sub, cur, lo, hi, sink.Pages());
      ReadHeld(sink.Pages(), cur, NodeOf(sub));
      var got := ReadNode(sink, cur);
      match got.value
      case Interior(cells, right) =>
        var i := FindChild(cells, key);
        GoodParts(sub, cur, lo, hi, sink.Pages());
        FoundChild(sub.kids, sub.keys, key, i);
        RoomInterior(sub, cell);
        ChildAtIs(sub.kids, sub.keys, |sub.keys|);
        KidGood(sub.kids, sub.keys, lo, hi, i, sink.Pages());
        cur := ChildAt(cells, right, i);
        sub, lo, hi := sub.kids[i], Lo(sub.keys, i, lo), Hi(sub.keys, i, hi);
      case Leaf(cells) =>
        RoomLeaf(cur, sub.entries, cell);
        return LeafRoom(cur, Upserted(cells, cell)), LeafWrites(cur, Upserted(cells, cell));
    }
  }

  // ---- the largest key ----

  function LastKeyOf(s: seq<KV>): Option<rowid> {
    if s == [] then None else Some(s[|s| - 1].key)
  }

  /** The last key of the rightmost leaf, found by following right children. */
  method LastKey(sink: PageSink, root: PageId, ghost t: Tree, ghost others: multiset<PageId>) returns (r: Option<rowid>)
    requires IsTable(sink, root, t, others)
    ensures r == LastKeyOf(Records(RightLeaf(t)))
  {
    hide *;
    TableIs(sink, root, t, others);
    var cur := root;
    ghost var sub, lo, hi := t, MIN_ROWID - 1, MAX_ROWID;
    while true
      invariant Good(sub, cur, lo, hi, sink.Pages()) && FitsAll(sub) && RightLeaf(sub) == RightLeaf(t)
      decreases sub
    {
      NodeHeld(sub, cur, lo, hi, sink.Pages());
      ReadHeld(sink.Pages(), cur, NodeOf(sub));
      var got := ReadNode(sink, cur);
      match got.value
      case Interior(_, right) =>
        GoodParts(sub, cur, lo, hi, sink.Pages());
        KidGood(sub.kids, sub.keys, lo, hi, |sub.keys|, sink.Pages());
        RightLeafStep(sub);
        cur := right;
        sub, lo, hi := sub.kids[|sub.keys|], Lo(sub.keys, |sub.keys|, lo), Hi(sub.keys, |sub.keys|, hi);
      case Leaf(cells) =>
        RightLeafEnd(sub);
        if cells == [] {
          return None;
        }
        return Some(cells[|cells| - 1].key);
    }
  }

  lemma RightLeafStep(t: Tree)
    requires t.InteriorT? && |t.kids| == |t.keys| + 1
    ensures RightLeaf(t) == RightLeaf(t.kids[|t.keys|])
  {
  }

  lemma RightLeafEnd(t: Tree)
    requires t.LeafT?
    ensures RightLeaf(t) == t.entries
    ensures LastKeyOf(Records(t.entries)) == if Cells(t.entries) == [] then None
                                             else Some(Cells(t.entries)[|Cells(t.entries)| - 1].key)
  {
  }

  lemma {:induction false} FlatEndsRight(t: Tree)
    ensures Records(RightLeaf(t)) == [] || (Flat(t) != [] && LastKeyOf(Flat(t)) == LastKeyOf(Records(RightLeaf(t))))
  {
    hide FlatAll;
    match t
    case LeafT(_, _) =>
    case InteriorT(_, kids, _) =>
      if kids != [] {
        var n := |kids| - 1;
        FlatEndsRight(kids[n]);
        KidAt(kids, n);
        assert kids[n + 1..] == [];
        FlatNone();
        assert Flat(t) == FlatAll(kids[..n]) + Flat(kids[n]);
      }
  }

  /** LastKey finds the largest key exactly when the rightmost leaf has not been emptied by deletions
      while records remain elsewhere. */
  lemma LastKeyExact(t: Tree)
    ensures LastKeyOf(Records(RightLeaf(t))) == LastKeyOf(Flat(t)) <==> (Flat(t) == [] || RightLeaf(t) != [])
  {
    FlatEndsRight(t);
  }
}
