/** Writing interior pages, and the trees that stand on them afterwards. */
module InteriorPages {
  import opened Common
  import opened Varint
  import opened Nodes
  import opened Table
  import opened Trees
  import opened TreeEdits
  import opened LeafEdits
  import opened Overflow
  import opened LeafPages

  // ---- an interior node ----

  predicate InteriorWritten(view: View, page: PageId, cs: seq<InteriorCell>, right: PageId, r: Outcome) {
    match r
    case Panicked => false
    case Done => Fits(page, Interior(cs, right)) && Holds(view, page, Interior(cs, right))
    case Split(sep, newPage) =>
      && |cs| >= 3 && newPage != 1 && sep == SplitInterior(cs, right).2
      && Fits(page, SplitInterior(cs, right).0) && Fits(newPage, SplitInterior(cs, right).1)
      && Holds(view, page, SplitInterior(cs, right).0) && Holds(view, newPage, SplitInterior(cs, right).1)
  }

  /** Writes an interior node that grew by one cell, cutting it in two when it does not fit. */
  method WriteInterior(sink: PageSink, page: PageId, cs: seq<InteriorCell>, right: PageId, ghost rest: multiset<PageId>)
    returns (r: Outcome)
    requires sink.Owned(multiset{page} + rest) && (page == 1 || 1 in rest)
    requires Used(page, Interior(cs, right)) <= PAGE_SIZE + 15
    modifies sink
    ensures InteriorWritten(sink.Pages(), page, cs, right, r)
    ensures Same(old(sink.Pages()), sink.Pages(), rest)
    ensures sink.Owned(multiset{page} + rest + NewPage(r))
    ensures sink.pageCount <= old(sink.pageCount) + 1
  {
    sink.OwnedOnce(page, rest);
    if Used(page, Interior(cs, right)) <= PAGE_SIZE {
      var _ := WriteNode(sink, page, Interior(cs, right), rest);
      return Done;
    }
    InteriorHalvesFit(page, 2, cs, right);
    var (left, half, sep) := SplitInterior(cs, right);
    var ok, rightPage := WriteHalves(sink, page, left, half, rest);
    FitsElsewhere(2, rightPage, half);
    return Split(sep, rightPage);
  }

  lemma {:induction false} PointersCut(kids: seq<Tree>, keys: seq<rowid>, m: nat)
    requires |kids| == |keys| + 1 && m < |keys|
    ensures Pointers(kids[..m + 1], keys[..m]) == Pointers(kids, keys)[..m]
    ensures Pointers(kids[m + 1..], keys[m + 1..]) == Pointers(kids, keys)[m + 1..]
  {
  }

  lemma {:induction false} InteriorGood(kids: seq<Tree>, keys: seq<rowid>, page: PageId, lo: int, hi: int, view: View)
    requires KidsOk(kids, keys, lo, hi)
    requires Fits(page, Interior(Pointers(kids, keys), kids[|keys|].id))
    requires Holds(view, page, Interior(Pointers(kids, keys), kids[|keys|].id))
    requires forall i :: 0 <= i < |kids| ==> Stored(kids[i], view)
    ensures Good(InteriorT(page, kids, keys), page, lo, hi, view)
    ensures Height(InteriorT(page, kids, keys)) == 1 + Height(kids[0])
  {
  }

  lemma StoredCut(kids: seq<Tree>, view: View, m: nat)
    requires m <= |kids| && forall i :: 0 <= i < |kids| ==> Stored(kids[i], view)
    ensures forall i :: 0 <= i < m ==> Stored(kids[..m][i], view)
    ensures forall i :: 0 <= i < |kids| - m ==> Stored(kids[m..][i], view)
  {
    hide Stored;
    forall i | 0 <= i < |kids| - m
      ensures Stored(kids[m..][i], view)
    {
      assert kids[m..][i] == kids[m + i];
    }
  }

  lemma {:induction false} LeftHalfGood(kids: seq<Tree>, keys: seq<rowid>, page: PageId, lo: int, hi: int, view: View, m: nat)
    requires KidsOk(kids, keys, lo, hi) && 0 < m < |keys| - 1
    requires Fits(page, Interior(Pointers(kids, keys)[..m], kids[m].id))
    requires Holds(view, page, Interior(Pointers(kids, keys)[..m], kids[m].id))
    requires forall i :: 0 <= i < |kids| ==> Stored(kids[i], view)
    ensures Good(InteriorT(page, kids[..m + 1], keys[..m]), page, lo, keys[m], view)
    ensures Height(InteriorT(page, kids[..m + 1], keys[..m])) == 1 + Height(kids[0])
  {
    hide *;
    KidsShape(kids, keys, lo, hi);
    PointersCut(kids, keys, m);
    HalvesOk(kids, keys, lo, hi, m);
    StoredCut(kids, view, m + 1);
    assert kids[..m + 1][0] == kids[0] && kids[..m + 1][|keys[..m]|] == kids[m];
    InteriorGood(kids[..m + 1], keys[..m], page, lo, keys[m], view);
  }

  lemma {:induction false} RightHalfGood(kids: seq<Tree>, keys: seq<rowid>, page: PageId, lo: int, hi: int, view: View, m: nat)
    requires KidsOk(kids, keys, lo, hi) && 0 < m < |keys| - 1
    requires Fits(page, Interior(Pointers(kids, keys)[m + 1..], kids[|keys|].id))
    requires Holds(view, page, Interior(Pointers(kids, keys)[m + 1..], kids[|keys|].id))
    requires forall i :: 0 <= i < |kids| ==> Stored(kids[i], view)
    ensures Good(InteriorT(page, kids[m + 1..], keys[m + 1..]), page, keys[m], hi, view)
    ensures Height(InteriorT(page, kids[m + 1..], keys[m + 1..])) == 1 + Height(kids[0])
  {
    hide *;
    KidsShape(kids, keys, lo, hi);
    KidOk(kids, keys, lo, hi, m + 1);
    HalvesOk(kids, keys, lo, hi, m);
    PointersCut(kids, keys, m);
    LastKid(kids, m + 1);
    StoredCut(kids, view, m + 1);
    assert Interior(Pointers(kids[m + 1..], keys[m + 1..]), kids[m + 1..][|keys[m + 1..]|].id)
        == Interior(Pointers(kids, keys)[m + 1..], kids[|keys|].id);
    InteriorGood(kids[m + 1..], keys[m + 1..], page, keys[m], hi, view);
  }

  lemma LastKid(kids: seq<Tree>, m: nat)
    requires m < |kids|
    ensures kids[m..][|kids| - 1 - m] == kids[|kids| - 1] && kids[m..][0] == kids[m]
  {
  }

  lemma {:induction false} InteriorCutParts(kids: seq<Tree>, keys: seq<rowid>, page: PageId, right: PageId, m: nat)
    requires |kids| == |keys| + 1 && m < |keys|
    ensures var (t1, t2) := (InteriorT(page, kids[..m + 1], keys[..m]), InteriorT(right, kids[m + 1..], keys[m + 1..]));
            && Flat(t1) + Flat(t2) == FlatAll(kids)
            && Ids(t1) + Ids(t2) == multiset{page} + multiset{right} + IdsAll(kids)
  {
    HalvesParts(kids, m);
  }

  /** What was written, and where the node was cut. */
  lemma {:induction false} InteriorWrittenParts(kids: seq<Tree>, keys: seq<rowid>, page: PageId, r: Outcome, view: View)
    returns (m: nat)
    requires |kids| == |keys| + 1 && InteriorWritten(view, page, Pointers(kids, keys), kids[|keys|].id, r)
    ensures !r.Panicked?
    ensures r.Done? ==> Fits(page, Interior(Pointers(kids, keys), kids[|keys|].id))
    ensures r.Done? ==> Holds(view, page, Interior(Pointers(kids, keys), kids[|keys|].id))
    ensures r.Split? ==> 0 < m < |keys| - 1 && r.right != 1 && r.sep == keys[m]
    ensures r.Split? ==> Fits(page, Interior(Pointers(kids, keys)[..m], kids[m].id))
    ensures r.Split? ==> Holds(view, page, Interior(Pointers(kids, keys)[..m], kids[m].id))
    ensures r.Split? ==> Fits(r.right, Interior(Pointers(kids, keys)[m + 1..], kids[|keys|].id))
    ensures r.Split? ==> Holds(view, r.right, Interior(Pointers(kids, keys)[m + 1..], kids[|keys|].id))
  {
    hide Fits, Holds;
    m := |keys| / 2;
  }

  /** The two halves of a cut interior node. */
  lemma {:induction false} InteriorGrownCut(kids: seq<Tree>, keys: seq<rowid>, page: PageId, right: PageId, lo: int, hi: int,
                                            view: View, m: nat)
    requires KidsOk(kids, keys, lo, hi) && 0 < m < |keys| - 1 && right != 1
    requires Fits(page, Interior(Pointers(kids, keys)[..m], kids[m].id))
    requires Holds(view, page, Interior(Pointers(kids, keys)[..m], kids[m].id))
    requires Fits(right, Interior(Pointers(kids, keys)[m + 1..], kids[|keys|].id))
    requires Holds(view, right, Interior(Pointers(kids, keys)[m + 1..], kids[|keys|].id))
    requires forall i :: 0 <= i < |kids| ==> Stored(kids[i], view)
    ensures Grown(Split(keys[m], right), InteriorT(page, kids[..m + 1], keys[..m]),
                  InteriorT(right, kids[m + 1..], keys[m + 1..]), page, lo, hi, 1 + Height(kids[0]), view)
  {
    hide *;
    KidsShape(kids, keys, lo, hi);
    KeyBetween(keys, lo, hi, m);
    var t1, t2 := InteriorT(page, kids[..m + 1], keys[..m]), InteriorT(right, kids[m + 1..], keys[m + 1..]);
    LeftHalfGood(kids, keys, page, lo, hi, view, m);
    RightHalfGood(kids, keys, right, lo, hi, view, m);
    GrownSplit(t1, t2, page, keys[m], right, lo, hi, 1 + Height(kids[0]), view);
  }

  lemma KeyBetween(keys: seq<rowid>, lo: int, hi: int, m: nat)
    requires KeysOk(keys, lo, hi) && m < |keys|
    ensures lo < keys[m] < hi
  {
  }

  lemma {:induction false} InteriorGrownDone(kids: seq<Tree>, keys: seq<rowid>, page: PageId, lo: int, hi: int, view: View)
    requires KidsOk(kids, keys, lo, hi)
    requires Fits(page, Interior(Pointers(kids, keys), kids[|keys|].id))
    requires Holds(view, page, Interior(Pointers(kids, keys), kids[|keys|].id))
    requires forall i :: 0 <= i < |kids| ==> Stored(kids[i], view)
    ensures Grown(Done, InteriorT(page, kids, keys), InteriorT(page, kids, keys), page, lo, hi, 1 + Height(kids[0]), view)
  {
    hide *;
    KidsShape(kids, keys, lo, hi);
    InteriorGood(kids, keys, page, lo, hi, view);
    GrownDone(InteriorT(page, kids, keys), page, lo, hi, 1 + Height(kids[0]), view);
  }

  /** Equality of page multisets, named so that proofs can carry it without looking inside. */
  predicate SamePages(ps: multiset<PageId>, qs: multiset<PageId>) {
    ps == qs
  }

  lemma {:induction false} InteriorParts(kids: seq<Tree>, keys: seq<rowid>, page: PageId, r: Outcome, m: nat)
    requires |kids| == |keys| + 1 && m < |keys|
    ensures var (t1, t2) := if r.Split? then (InteriorT(page, kids[..m + 1], keys[..m]),
                                              InteriorT(r.right, kids[m + 1..], keys[m + 1..]))
                            else (InteriorT(page, kids, keys), InteriorT(page, kids, keys));
            && FlatOf(r, t1, t2) == FlatAll(kids)
            && RightOf(r, t1, t2) == RightLeaf(kids[|keys|])
            && SamePages(IdsOf(r, t1, t2), multiset{page} + NewPage(r) + IdsAll(kids))
  {
    if r.Split? {
      InteriorCutParts(kids, keys, page, r.right, m);
    }
  }

  /** The nodes below decide whether all fit: the interior node itself does, whole or in two. */
  lemma {:induction false} InteriorFits(kids: seq<Tree>, keys: seq<rowid>, page: PageId, r: Outcome, m: nat, t1: Tree, t2: Tree)
    requires |kids| == |keys| + 1 && m < |keys| && !r.Panicked?
    requires r.Done? ==> t1 == t2 == InteriorT(page, kids, keys) && Fits(page, Interior(Pointers(kids, keys), kids[|keys|].id))
    requires r.Split? ==> t1 == InteriorT(page, kids[..m + 1], keys[..m]) && t2 == InteriorT(r.right, kids[m + 1..], keys[m + 1..])
    requires r.Split? ==> Fits(page, Interior(Pointers(kids, keys)[..m], kids[m].id))
    requires r.Split? ==> Fits(r.right, Interior(Pointers(kids, keys)[m + 1..], kids[|keys|].id))
    ensures FitsOf(r, t1, t2) <==> forall i :: 0 <= i < |kids| ==> FitsAll(kids[i])
    ensures forall p {:trigger FitsButOf(r, t1, t2, p)} ::
              (forall i :: 0 <= i < |kids| ==> FitsBut(kids[i], p)) ==> FitsButOf(r, t1, t2, p)
    ensures Fits(t1.id, NodeOf(t1))
  {
    hide Fits, Pointers;
    if r.Split? {
      PointersCut(kids, keys, m);
      var a, b := kids[..m + 1], kids[m + 1..];
      assert a[|keys[..m]|] == kids[m] && b[|keys[m + 1..]|] == kids[|keys|];
      forall i | 0 <= i < |kids|
        ensures if i <= m then kids[i] == a[i] else kids[i] == b[i - m - 1]
      {
      }
    }
  }

  /** The written pages hold the edited interior node, whole or in two. */
  lemma {:induction false} InteriorGrown(kids: seq<Tree>, keys: seq<rowid>, page: PageId, lo: int, hi: int, r: Outcome, view: View)
    returns (t1: Tree, t2: Tree)
    requires KidsOk(kids, keys, lo, hi)
    requires InteriorWritten(view, page, Pointers(kids, keys), kids[|keys|].id, r)
    requires forall i :: 0 <= i < |kids| ==> Stored(kids[i], view)
    ensures Grown(r, t1, t2, page, lo, hi, 1 + Height(kids[0]), view)
    ensures FlatOf(r, t1, t2) == FlatAll(kids) && |kids| == |keys| + 1
    ensures RightOf(r, t1, t2) == RightLeaf(kids[|keys|])
    ensures SamePages(IdsOf(r, t1, t2), multiset{page} + NewPage(r) + IdsAll(kids))
    ensures FitsOf(r, t1, t2) <==> forall i :: 0 <= i < |kids| ==> FitsAll(kids[i])
    ensures forall p {:trigger FitsButOf(r, t1, t2, p)} ::
              (forall i :: 0 <= i < |kids| ==> FitsBut(kids[i], p)) ==> FitsButOf(r, t1, t2, p)
    ensures Fits(t1.id, NodeOf(t1))
  {
    hide *;
    KidsShape(kids, keys, lo, hi);
    var m := InteriorWrittenParts(kids, keys, page, r, view);
    if r.Done? {
      t1 := InteriorT(page, kids, keys);
      t2 := t1;
      InteriorGrownDone(kids, keys, page, lo, hi, view);
      InteriorParts(kids, keys, page, r, 0);
      InteriorFits(kids, keys, page, r, 0, t1, t2);
    } else {
      t1, t2 := InteriorT(page, kids[..m + 1], keys[..m]), InteriorT(r.right, kids[m + 1..], keys[m + 1..]);
      InteriorGrownCut(kids, keys, page, r.right, lo, hi, view, m);
      InteriorParts(kids, keys, page, r, m);
      InteriorFits(kids, keys, page, r, m, t1, t2);
    }
  }

  // ---- descending to a child and coming back ----

  /** The position of the first separator not below key, or past the last. */
  method FindChild(cs: seq<InteriorCell>, key: int) returns (i: nat)
    ensures i <= |cs| && (i < |cs| ==> key <= cs[i].key)
    ensures forall j :: 0 <= j < i ==> cs[j].key < key
  {
    i := 0;
    while i < |cs| && cs[i].key < key
      invariant i <= |cs| && forall j :: 0 <= j < i ==> cs[j].key < key
    {
      i := i + 1;
    }
  }

  function ChildAt(cs: seq<InteriorCell>, right: PageId, i: nat): PageId {
    if i < |cs| then cs[i].child else right
  }

  lemma {:induction false} FoundChild(kids: seq<Tree>, keys: seq<rowid>, key: int, i: nat)
    requires |kids| == |keys| + 1 && i <= |keys|
    requires i < |keys| ==> key <= Pointers(kids, keys)[i].key
    requires forall j :: 0 <= j < i ==> Pointers(kids, keys)[j].key < key
    ensures i == ChildIndex(keys, key) && ChildAt(Pointers(kids, keys), kids[|keys|].id, i) == kids[i].id
  {
    var c, cs := ChildIndex(keys, key), Pointers(kids, keys);
    var _ := if c < |keys| then cs[c] else InteriorCell(0, 0);
    var _ := if i < |keys| then keys[i] else 0;
  }

  /** The node once child i was split: its cell now ends at sep, the new page takes over its old key. */
  function EditedCells(cs: seq<InteriorCell>, i: nat, child: PageId, sep: rowid, newPage: PageId): seq<InteriorCell>
    requires i <= |cs|
  {
    if i < |cs| then cs[..i] + [InteriorCell(child, sep), InteriorCell(newPage, cs[i].key)] + cs[i + 1..]
    else cs + [InteriorCell(child, sep)]
  }

  function EditedRight(cs: seq<InteriorCell>, right: PageId, i: nat, newPage: PageId): PageId {
    if i < |cs| then right else newPage
  }

  method EditInterior(cells: seq<InteriorCell>, rightChild: PageId, i: nat, child: PageId, sep: rowid, newPage: PageId)
    returns (cs: seq<InteriorCell>, right: PageId)
    requires i <= |cells|
    ensures cs == EditedCells(cells, i, child, sep, newPage) && right == EditedRight(cells, rightChild, i, newPage)
  {
    cs, right := cells, rightChild;
    if i < |cs| {
      var oldKey := cs[i].key;
      cs := cs[i := InteriorCell(child, sep)];
      cs := cs[..i + 1] + [InteriorCell(newPage, oldKey)] + cs[i + 1..];
    } else {
      cs := cs + [InteriorCell(child, sep)];
      right := newPage;
    }
  }

  /** The edited node points to the split children. */
  lemma {:induction false} EditedPointers(kids: seq<Tree>, keys: seq<rowid>, i: nat, c1: Tree, sep: rowid, c2: Tree)
    requires |kids| == |keys| + 1 && i < |kids| && c1.id == kids[i].id
    ensures |SplitKids(kids, i, c1, c2)| == |SplitKeys(keys, i, sep)| + 1
    ensures Pointers(SplitKids(kids, i, c1, c2), SplitKeys(keys, i, sep))
         == EditedCells(Pointers(kids, keys), i, c1.id, sep, c2.id)
    ensures SplitKids(kids, i, c1, c2)[|keys| + 1].id
         == EditedRight(Pointers(kids, keys), kids[|keys|].id, i, c2.id)
  {
  }

  /** One more cell takes at most 15 bytes. */
  lemma {:induction false} EditedUsed(page: PageId, cs: seq<InteriorCell>, right: PageId, i: nat, child: PageId, sep: rowid,
                                      newPage: PageId, right': PageId)
    requires i <= |cs|
    ensures Used(page, Interior(EditedCells(cs, i, child, sep, newPage), right')) <= Used(page, Interior(cs, right)) + 15
  {
    if i < |cs| {
      InteriorSumSplit(cs, i);
      InteriorSumSplit(cs[i..], 1);
      assert cs[i..][1..] == cs[i + 1..] && cs[i..][..1] == [cs[i]];
      PairSum(InteriorCell(child, sep), InteriorCell(newPage, cs[i].key));
      PairSum(cs[i], cs[i]);
      InteriorSumConcat(cs[..i] + [InteriorCell(child, sep), InteriorCell(newPage, cs[i].key)], cs[i + 1..]);
      InteriorSumConcat(cs[..i], [InteriorCell(child, sep), InteriorCell(newPage, cs[i].key)]);
    } else {
      InteriorSumConcat(cs, [InteriorCell(child, sep)]);
      PairSum(InteriorCell(child, sep), InteriorCell(child, sep));
    }
  }

  lemma {:induction false} PairSum(a: InteriorCell, b: InteriorCell)
    ensures InteriorSum([a, b]) == InteriorCellLen(a) + InteriorCellLen(b) && InteriorSum([a]) == InteriorCellLen(a)
  {
    assert [a, b][..1] == [a];
    assert [a][..0] == [];
    assert InteriorSum([a]) == InteriorCellLen(a);
  }

  // ---- insertion ----

  /** The pages owned outside of child i: the parent page, the siblings and everything else. */
  function Beside(page: PageId, kids: seq<Tree>, i: nat, others: multiset<PageId>): multiset<PageId>
    requires i < |kids|
  {
    multiset{page} + IdsAll(kids[..i]) + IdsAll(kids[i + 1..]) + others
  }

  lemma {:induction false} BesideOwned(page: PageId, kids: seq<Tree>, keys: seq<rowid>, i: nat, chain: multiset<PageId>,
                                       others: multiset<PageId>)
    requires i < |kids|
    ensures Ids(InteriorT(page, kids, keys)) + chain + others == Ids(kids[i]) + chain + Beside(page, kids, i, others)
  {
    KidAt(kids, i);
  }

  /** The siblings are still stored after work in child i. */
  lemma {:induction false} SiblingsStored(page: PageId, kids: seq<Tree>, i: nat, others: multiset<PageId>, v: View, v': View)
    requires i < |kids| && forall j :: 0 <= j < |kids| ==> Stored(kids[j], v)
    requires Same(v, v', Beside(page, kids, i, others))
    ensures forall j :: 0 <= j < i ==> Stored(kids[j], v')
    ensures forall j :: i < j < |kids| ==> Stored(kids[j], v')
  {
    hide Stored, Same;
    StoredCut(kids, v, i);
    KidsSame(kids[..i], v, v', Beside(page, kids, i, others));
    StoredCut(kids, v, i + 1);
    KidsSame(kids[i + 1..], v, v', Beside(page, kids, i, others));
    forall j | 0 <= j < |kids| && j != i
      ensures Stored(kids[j], v')
    {
      if j < i {
        assert kids[..i][j] == kids[j];
      } else {
        assert kids[i + 1..][j - i - 1] == kids[j];
      }
    }
  }

  lemma {:induction false} ReplacedStored(kids: seq<Tree>, i: nat, c: Tree, ks: seq<Tree>, v: View)
    requires i < |kids| && ks == kids[i := c] && Stored(c, v)
    requires forall j :: 0 <= j < i ==> Stored(kids[j], v)
    requires forall j :: i < j < |kids| ==> Stored(kids[j], v)
    ensures forall j :: 0 <= j < |ks| ==> Stored(ks[j], v)
  {
    hide Stored;
  }

  lemma {:induction false} SplitStored(kids: seq<Tree>, i: nat, c1: Tree, c2: Tree, ks: seq<Tree>, v: View)
    requires i < |kids| && ks == SplitKids(kids, i, c1, c2) && Stored(c1, v) && Stored(c2, v)
    requires forall j :: 0 <= j < i ==> Stored(kids[j], v)
    requires forall j :: i < j < |kids| ==> Stored(kids[j], v)
    ensures forall j :: 0 <= j < |ks| ==> Stored(ks[j], v)
  {
    hide Stored;
    forall j | 0 <= j < |ks|
      ensures Stored(ks[j], v)
    {
      SplitKidAt(kids, i, c1, c2, j);
    }
  }

  lemma {:induction false} GoodParts(t: Tree, page: PageId, lo: int, hi: int, view: View)
    requires Good(t, page, lo, hi, view) && t.InteriorT? && FitsAll(t)
    ensures t == InteriorT(page, t.kids, t.keys)
    ensures forall j :: 0 <= j < |t.kids| ==> FitsAll(t.kids[j])
    ensures KidsOk(t.kids, t.keys, lo, hi) && |t.kids| == |t.keys| + 1
    ensures Height(t) == 1 + Height(t.kids[0])
    ensures Holds(view, page, Interior(Pointers(t.kids, t.keys), t.kids[|t.keys|].id))
    ensures Fits(page, Interior(Pointers(t.kids, t.keys), t.kids[|t.keys|].id))
    ensures forall j :: 0 <= j < |t.kids| ==> Stored(t.kids[j], view)
  {
  }

  lemma {:induction false} KidGood(kids: seq<Tree>, keys: seq<rowid>, lo: int, hi: int, i: nat, view: View)
    requires KidsOk(kids, keys, lo, hi) && i < |kids| && Stored(kids[i], view)
    ensures Good(kids[i], kids[i].id, Lo(keys, i, lo), Hi(keys, i, hi), view)
  {
  }

  /** A child that changed without splitting leaves its parent page as it was. */
  lemma {:induction false} KidDone(kids: seq<Tree>, keys: seq<rowid>, page: PageId, lo: int, hi: int, i: nat, c: Tree, view: View)
    requires KidsOk(kids, keys, lo, hi) && i < |kids|
    requires Good(c, kids[i].id, Lo(keys, i, lo), Hi(keys, i, hi), view) && Height(c) == Height(kids[i])
    requires Fits(page, Interior(Pointers(kids, keys), kids[|keys|].id))
    requires Holds(view, page, Interior(Pointers(kids, keys), kids[|keys|].id))
    requires forall j :: 0 <= j < i ==> Stored(kids[j], view)
    requires forall j :: i < j < |kids| ==> Stored(kids[j], view)
    ensures Good(InteriorT(page, kids[i := c], keys), page, lo, hi, view)
    ensures Height(InteriorT(page, kids[i := c], keys)) == 1 + Height(kids[0])
  {
    hide *;
    KidsShape(kids, keys, lo, hi);
    GoodIs(c, kids[i].id, Lo(keys, i, lo), Hi(keys, i, hi), view);
    ReplaceOk(kids, keys, lo, hi, i, c);
    ReplacedStored(kids, i, c, kids[i := c], view);
    SamePointers(kids, keys, i, c);
    KidOk(kids, keys, lo, hi, i);
    InteriorGood(kids[i := c], keys, page, lo, hi, view);
  }

  lemma GoodIs(t: Tree, id: PageId, lo: int, hi: int, view: View)
    requires Good(t, id, lo, hi, view)
    ensures t.id == id && TreeOk(t, lo, hi) && Stored(t, view)
  {
  }

  lemma {:induction false} SamePointers(kids: seq<Tree>, keys: seq<rowid>, i: nat, c: Tree)
    requires |kids| == |keys| + 1 && i < |kids| && c.id == kids[i].id
    ensures Pointers(kids[i := c], keys) == Pointers(kids, keys)
    ensures kids[i := c][|keys|].id == kids[|keys|].id
    ensures i > 0 ==> kids[i := c][0] == kids[0]
    ensures i == 0 ==> kids[i := c][0] == c
  {
  }
}
