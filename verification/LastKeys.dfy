/** Deleting may empty the rightmost leaf of a table, and its last key is then no longer found. */
module LastKeys {
  import opened Common
  import opened Varint
  import opened Nodes
  import opened Table
  import opened Trees
  import opened TreeEdits
  import opened LeafEdits
  import opened Overflow
  import opened LeafPages
  import opened InteriorPages
  import opened Insertion
  import opened Deletion
  import opened BTrees
  import opened TableRuns

  /** The records outside the rightmost leaf. */
  function LeftPart(t: Tree): seq<KV> {
    match t
    case LeafT(_, _) => []
    case InteriorT(_, kids, _) =>
      if kids == [] then [] else FlatAll(kids[..|kids| - 1]) + LeftPart(kids[|kids| - 1])
  }

  lemma {:induction false} LeftRight(t: Tree)
    ensures Flat(t) == LeftPart(t) + Records(RightLeaf(t))
  {
    hide FlatAll, LeftPart, RightLeaf, Records, Flat;
    match t
    case LeafT(_, _) => LeftRightLeaf(t);
    case InteriorT(id, kids, keys) =>
      if kids == [] {
        LeftRightLeaf(t);
      } else {
        LeftRight(kids[|kids| - 1]);
        LastKid(kids);
        LeftRightOf(id, kids, keys);
        Grouped(FlatAll(kids[..|kids| - 1]), LeftPart(kids[|kids| - 1]), Records(RightLeaf(kids[|kids| - 1])));
      }
  }

  lemma LeftRightLeaf(t: Tree)
    requires t.LeafT? || t.kids == []
    ensures Flat(t) == LeftPart(t) + Records(RightLeaf(t))
  {
  }

  lemma LeftRightOf(id: PageId, kids: seq<Tree>, keys: seq<rowid>)
    requires kids != []
    ensures var t, n := InteriorT(id, kids, keys), |kids| - 1;
            && Flat(t) == FlatAll(kids) && RightLeaf(t) == RightLeaf(kids[n])
            && LeftPart(t) == FlatAll(kids[..n]) + LeftPart(kids[n])
  {
    hide FlatAll;
  }

  lemma LastKid(kids: seq<Tree>)
    requires kids != []
    ensures FlatAll(kids) == FlatAll(kids[..|kids| - 1]) + Flat(kids[|kids| - 1])
  {
    hide FlatAll, Flat;
    var n := |kids| - 1;
    KidAt(kids, n);
    assert kids[n + 1..] == [];
    FlatNone();
    assert FlatAll(kids[..n]) + Flat(kids[n]) + [] == FlatAll(kids[..n]) + Flat(kids[n]);
  }

  lemma Grouped(a: seq<KV>, b: seq<KV>, c: seq<KV>)
    ensures a + (b + c) == a + b + c
  {
  }

  /** The rightmost leaf is a leaf of the tree: it fits some page and its records are stored. */
  lemma {:induction false} RightStored(t: Tree, lo: int, hi: int, view: View) returns (page: PageId)
    requires TreeOk(t, lo, hi) && Stored(t, view) && FitsAll(t)
    ensures Fits(page, Leaf(Cells(RightLeaf(t)))) && SortedCells(Cells(RightLeaf(t)))
    ensures forall i :: 0 <= i < |RightLeaf(t)| ==> EntryStored(view, RightLeaf(t)[i])
    decreases t
  {
    hide Fits, EntryStored, SortedCells, CellOk;
    match t
    case LeafT(id, _) => page := id;
    case InteriorT(_, kids, keys) => page := RightStored(kids[|keys|], Lo(keys, |keys|, lo), Hi(keys, |keys|, hi), view);
  }

  lemma {:induction false} RightBounds(t: Tree, lo: int, hi: int)
    requires TreeOk(t, lo, hi) && RightLeaf(t) != []
    ensures lo < RightLeaf(t)[|RightLeaf(t)| - 1].cell.key <= hi
    decreases t
  {
    hide Fits, SortedCells, CellOk;
    match t
    case LeafT(_, _) =>
    case InteriorT(_, kids, keys) => RightBounds(kids[|keys|], Lo(keys, |keys|, lo), Hi(keys, |keys|, hi));
  }

  /** Deleting the last key of the rightmost leaf takes its last record and leaves all other leaves alone. */
  lemma {:induction false} DeleteLast(t: Tree, lo: int, hi: int)
    requires TreeOk(t, lo, hi) && RightLeaf(t) != []
    ensures var es := RightLeaf(t);
            var t' := WithoutKey(t, es[|es| - 1].cell.key);
            RightLeaf(t') == es[..|es| - 1] && LeftPart(t') == LeftPart(t)
    decreases t
  {
    hide Fits, CellOk, FlatAll, WithoutKey, LeftPart, Records;
    var key := RightLeaf(t)[|RightLeaf(t)| - 1].cell.key;
    match t
    case LeafT(id, es) => DeleteLastLeaf(id, es);
    case InteriorT(id, kids, keys) =>
      var n := |keys|;
      RightBounds(kids[n], Lo(keys, n, lo), Hi(keys, n, hi));
      DeleteLast(kids[n], Lo(keys, n, lo), Hi(keys, n, hi));
      LastChild(keys, lo, hi, key);
      DeleteLastKid(id, kids, keys, key);
  }

  lemma DeleteLastLeaf(id: PageId, es: seq<Entry>)
    requires SortedCells(Cells(es)) && es != []
    ensures var t' := WithoutKey(LeafT(id, es), es[|es| - 1].cell.key);
            RightLeaf(t') == es[..|es| - 1] && LeftPart(t') == [] == LeftPart(LeafT(id, es))
  {
    var n := |es| - 1;
    SearchIsPos(Cells(es), es[n].cell.key, true, n);
    assert Without(es, n) == es[..n];
  }

  lemma LastChild(keys: seq<rowid>, lo: int, hi: int, key: int)
    requires KeysOk(keys, lo, hi) && (keys != [] ==> keys[|keys| - 1] < key)
    ensures ChildIndex(keys, key) == |keys|
  {
    assert forall i :: 0 <= i < |keys| ==> keys[i] < key;
  }

  lemma DeleteLastKid(id: PageId, kids: seq<Tree>, keys: seq<rowid>, key: int)
    requires |kids| == |keys| + 1 && ChildIndex(keys, key) == |keys|
    ensures var n := |keys|;
            var t, t', c := InteriorT(id, kids, keys), WithoutKey(InteriorT(id, kids, keys), key), WithoutKey(kids[n], key);
            && RightLeaf(t') == RightLeaf(c) && RightLeaf(t) == RightLeaf(kids[n])
            && (LeftPart(c) == LeftPart(kids[n]) ==> LeftPart(t') == LeftPart(t))
  {
    hide FlatAll;
    var n := |keys|;
    assert kids[n := WithoutKey(kids[n], key)][..n] == kids[..n];
  }

  // ---- a run that empties the last leaf ----

  /** A record of which a leaf holds five at most and that always finds room among its like. */
  predicate IsLong(r: seq<byte>) {
    780 <= |r| <= 784
  }

  function LongRecords(n: nat, r: seq<byte>): (s: seq<KV>)
    requires n <= 6
    ensures |s| == n && forall i :: 0 <= i < n ==> s[i] == KV(i + 1, r)
  {
    seq(n, i requires 0 <= i < n => KV(i + 1, r))
  }

  function LongPuts(n: nat, r: seq<byte>): (s: seq<Op>)
    requires n <= 6
    ensures |s| == n && forall i :: 0 <= i < n ==> s[i] == Op.Put(i + 1, r)
  {
    seq(n, i requires 0 <= i < n => Op.Put(i + 1, r))
  }

  lemma {:induction false} PutsAppend(n: nat, r: seq<byte>)
    requires n <= 6
    ensures Meaning([], LongPuts(n, r)) == LongRecords(n, r)
  {
    if n > 0 {
      PutsAppend(n - 1, r);
      assert LongPuts(n, r)[..n - 1] == LongPuts(n - 1, r);
      var s := LongRecords(n - 1, r);
      BelowAll(s, n);
      assert LongRecords(n, r) == s + [KV(n, r)];
    }
  }

  /** A leaf holds fewer than six long records. */
  lemma FiveAtMost(page: PageId, es: seq<Entry>, view: View, r: seq<byte>)
    requires Fits(page, Leaf(Cells(es))) && IsLong(r)
    requires forall i :: 0 <= i < |es| ==> EntryStored(view, es[i]) && es[i].value == r
    ensures |es| <= 5
  {
    hide EntryStored;
    forall i | 0 <= i < |es|
      ensures LeafCellLen(Cells(es)[i]) >= 780
    {
      EntryLen(es[i], view);
      LongLen(es[i].cell.key, r);
    }
    SumAtLeast(Cells(es), 780);
  }

  lemma LongLen(key: rowid, r: seq<byte>)
    requires IsLong(r)
    ensures LeafCellLen(CellShape(key, r)) >= 780
  {
  }

  lemma {:induction false} SumAtLeast(cs: seq<LeafCell>, n: nat)
    requires forall i :: 0 <= i < |cs| ==> LeafCellLen(cs[i]) >= n
    ensures LeafSum(cs) >= n * |cs|
  {
    hide LeafCellLen;
    if cs != [] {
      SumAtLeast(cs[..|cs| - 1], n);
    }
  }

  /** Six long records do not all lie in the rightmost leaf. */
  lemma SomeOnLeft(sink: PageSink, root: PageId, t: Tree, others: multiset<PageId>, r: seq<byte>)
    requires IsTable(sink, root, t, others) && Flat(t) == LongRecords(6, r) && IsLong(r)
    ensures LeftPart(t) != []
  {
    hide LeftPart, RightLeaf, IsLong, EntryStored, TreeOk, Stored, PageSink.Owned, Fits;
    TableIs(sink, root, t, others);
    LeftRight(t);
    var es := RightLeaf(t);
    var page := RightStored(t, MIN_ROWID - 1, MAX_ROWID, sink.Pages());
    forall i | 0 <= i < |es|
      ensures es[i].value == r
    {
      assert Records(es)[i] == Flat(t)[|LeftPart(t)| + i];
    }
    FiveAtMost(page, es, sink.Pages(), r);
  }

  /** The first of the long records is on the left of the emptied leaf. */
  lemma FirstOnLeft(t: Tree, t0: Tree, r: seq<byte>)
    requires Flat(t0) == LongRecords(6, r) && LeftPart(t) == LeftPart(t0) != [] && RightLeaf(t) == []
    ensures Flat(t) != [] && Flat(t)[0] == KV(1, r) && Lookup(Flat(t), 1) == Some(r)
    ensures LastKeyOf(Flat(t)) != None
  {
    hide LeftPart, RightLeaf, Flat;
    LeftRight(t);
    LeftRight(t0);
    assert LeftPart(t0)[0] == Flat(t0)[0];
  }

  lemma LongSmall(n: nat, r: seq<byte>)
    requires n <= 6 && IsLong(r)
    ensures AllSmall([]) && forall i :: 0 <= i < n ==> OpOk(LongPuts(n, r)[i]) && SmallOp(LongPuts(n, r)[i])
  {
    forall i | 0 <= i < n
      ensures OpOk(LongPuts(n, r)[i]) && SmallOp(LongPuts(n, r)[i])
    {
      ShortIsSmall(i + 1, r);
    }
  }

  lemma LastOfRight(t: Tree, lo: int, hi: int)
    requires TreeOk(t, lo, hi)
    ensures var last := LastKeyOf(Records(RightLeaf(t)));
            if last.None? then RightLeaf(t) == []
            else && RightLeaf(t) != []
                 && RightLeaf(WithoutKey(t, last.value)) == RightLeaf(t)[..|RightLeaf(t)| - 1]
                 && LeftPart(WithoutKey(t, last.value)) == LeftPart(t)
  {
    hide LeftPart, TreeOk, WithoutKey;
    if RightLeaf(t) != [] {
      DeleteLast(t, lo, hi);
    }
  }

  /** Creates a table, inserts six records and deletes the last key as long as there is one: the table then
      reports no last key, though its first record is still there. */
  method EmptyLastLeaf(sink: PageSink, r: seq<byte>, ghost others: multiset<PageId>)
    returns (root: PageId, last: Option<rowid>, first: Option<seq<byte>>, ghost t: Tree)
    requires sink.Owned(others) && (1 in others || (sink.freelist == [] && sink.pageCount == 0)) && IsLong(r)
    modifies sink
    ensures IsTable(sink, root, t, others) && last == LastKeyOf(Records(RightLeaf(t)))
    ensures last == None && first == Lookup(Flat(t), 1) == Some(r) && LastKeyOf(Flat(t)) != None
  {
    hide *;
    root, t := Create(sink, others);
    LongSmall(6, r);
    PutsAppend(6, r);
    var fate: Fate, done: nat;
    ghost var before: Tree, bad: PageId;
    fate, done, before, t, bad := TableRuns.Run(sink, root, LongPuts(6, r), t, others);
    assert LongPuts(6, r)[..done] == LongPuts(6, r);
    ghost var t0 := t;
    SomeOnLeft(sink, root, t, others, r);
    last := LastKey(sink, root, t, others);
    while last.Some?
      invariant IsTable(sink, root, t, others) && last == LastKeyOf(Records(RightLeaf(t)))
      invariant LeftPart(t) == LeftPart(t0)
      decreases |RightLeaf(t)|
    {
      TableIs(sink, root, t, others);
      GoodTree(t, root, sink.Pages());
      LastOfRight(t, MIN_ROWID - 1, MAX_ROWID);
      var found: bool;
      found, t := Delete(sink, root, last.value, t, others);
      last := LastKey(sink, root, t, others);
    }
    TableIs(sink, root, t, others);
    GoodTree(t, root, sink.Pages());
    LastOfRight(t, MIN_ROWID - 1, MAX_ROWID);
    FirstOnLeft(t, t0, r);
    first := Get(sink, root, 1, t, others);
  }

  lemma GoodTree(t: Tree, root: PageId, view: View)
    requires Good(t, root, MIN_ROWID - 1, MAX_ROWID, view)
    ensures TreeOk(t, MIN_ROWID - 1, MAX_ROWID)
  {
  }
}
