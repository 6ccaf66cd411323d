/** Deleting a record below a page. */
module Deletion {
  import opened Common
  import opened Varint
  import opened Nodes
  import PageFormat
  import opened Table
  import opened Trees
  import opened TreeEdits
  import opened LeafEdits
  import opened Overflow
  import opened LeafPages
  import opened InteriorPages
  import opened Insertion

  /** The tree with the record of a key taken out of its leaf and nothing else changed: no page is merged. */
  function WithoutKey(t: Tree, key: int): Tree {
    match t
    case LeafT(id, es) => if HasKey(Cells(es), key) then LeafT(id, Without(es, CellPos(Cells(es), key))) else t
    case InteriorT(id, kids, keys) =>
      var i := ChildIndex(keys, key);
      if i < |kids| then InteriorT(id, kids[i := WithoutKey(kids[i], key)], keys) else t
  }

  lemma WithoutKeyLeaf(page: PageId, es: seq<Entry>, key: int, found: bool, pos: nat)
    requires pos == CellPos(Cells(es), key) && found == HasKey(Cells(es), key)
    ensures WithoutKey(LeafT(page, es), key) == if found then LeafT(page, Without(es, pos)) else LeafT(page, es)
  {
  }

  lemma WithoutKeyInterior(page: PageId, kids: seq<Tree>, keys: seq<rowid>, key: int, i: nat)
    requires i == ChildIndex(keys, key) < |kids|
    ensures WithoutKey(InteriorT(page, kids, keys), key) == InteriorT(page, kids[i := WithoutKey(kids[i], key)], keys)
  {
  }

  /** The state after a deletion below a page. */
  ghost predicate Deleted(sink: PageSink, found: bool, t': Tree, t: Tree, lo: int, hi: int, key: rowid,
                          others: multiset<PageId>)
    reads sink
  {
    && (found <==> Lookup(Flat(t), key).Some?)
    && Good(t', t.id, lo, hi, sink.Pages()) && Height(t') == Height(t)
    && Flat(t') == Remove(Flat(t), key) && t' == WithoutKey(t, key) && FitsAll(t')
    && sink.Owned(Ids(t') + others)
  }

  lemma DeletedIs(sink: PageSink, found: bool, t': Tree, t: Tree, lo: int, hi: int, key: rowid, others: multiset<PageId>)
    requires found <==> Lookup(Flat(t), key).Some?
    requires Good(t', t.id, lo, hi, sink.Pages()) && Height(t') == Height(t)
    requires Flat(t') == Remove(Flat(t), key) && t' == WithoutKey(t, key) && FitsAll(t') && sink.Owned(Ids(t') + others)
    ensures Deleted(sink, found, t', t, lo, hi, key, others)
  {
  }

  lemma DeletedParts(sink: PageSink, found: bool, t': Tree, t: Tree, lo: int, hi: int, key: rowid, others: multiset<PageId>)
    requires Deleted(sink, found, t', t, lo, hi, key, others)
    ensures found <==> Lookup(Flat(t), key).Some?
    ensures Good(t', t.id, lo, hi, sink.Pages()) && Height(t') == Height(t)
    ensures Flat(t') == Remove(Flat(t), key) && t' == WithoutKey(t, key) && FitsAll(t') && sink.Owned(Ids(t') + others)
  {
  }

  lemma {:induction false} WithoutSum(cs: seq<LeafCell>, pos: nat)
    requires pos < |cs|
    ensures LeafSum(cs[..pos] + cs[pos + 1..]) <= LeafSum(cs)
  {
    hide *;
    LeafSumSplit(cs, pos);
    LeafSumSplit(cs[pos..], 1);
    assert cs[pos..][1..] == cs[pos + 1..];
    LeafSumConcat(cs[..pos], cs[pos + 1..]);
  }

  lemma {:induction false} WithoutSorted(es: seq<Entry>, lo: int, hi: int, pos: nat)
    requires LeafOk(es, lo, hi) && pos < |es|
    ensures LeafOk(Without(es, pos), lo, hi)
  {
    hide CellOk;
    var cs := Cells(es);
    forall i, j | 0 <= i < j < |es| - 1
      ensures Without(es, pos)[i].cell.key < Without(es, pos)[j].cell.key
    {
      assert cs[if i < pos then i else i + 1].key < cs[if j < pos then j else j + 1].key;
    }
  }

  lemma {:induction false} WithoutOk(es: seq<Entry>, page: PageId, lo: int, hi: int, pos: nat)
    requires LeafOk(es, lo, hi) && Fits(page, Leaf(Cells(es))) && pos < |es|
    ensures LeafOk(Without(es, pos), lo, hi) && Fits(page, Leaf(Cells(Without(es, pos))))
    ensures Cells(Without(es, pos)) == Cells(es)[..pos] + Cells(es)[pos + 1..]
  {
    hide LeafOk, LeafSum;
    assert Cells(Without(es, pos)) == Cells(es)[..pos] + Cells(es)[pos + 1..];
    WithoutSum(Cells(es), pos);
    WithoutSorted(es, lo, hi, pos);
  }

  lemma {:induction false} WithoutParts(es: seq<Entry>, pos: nat)
    requires pos < |es|
    ensures ChainIds(es) == ChainIds(Without(es, pos)) + multiset(es[pos].chain)
  {
    ChainIdsAt(es, pos);
    ChainIdsConcat(es[..pos], es[pos + 1..]);
  }

  lemma {:induction false} WithoutStored(es: seq<Entry>, pos: nat, v: View, v': View, ps: multiset<PageId>)
    requires pos < |es| && forall i :: 0 <= i < |es| ==> EntryStored(v, es[i])
    requires Same(v, v', ChainIds(Without(es, pos)) + ps)
    ensures forall i :: 0 <= i < |Without(es, pos)| ==> EntryStored(v', Without(es, pos)[i])
  {
    var es' := Without(es, pos);
    forall i | 0 <= i < |es'|
      ensures EntryStored(v, es'[i])
    {
      assert es'[i] == es[if i < pos then i else i + 1];
    }
    EntriesSame(es', v, v', ChainIds(es') + ps);
  }

  /** What a search that fails means for the records. */
  lemma {:induction false} AbsentRecords(es: seq<Entry>, key: int, pos: nat)
    requires pos <= |es| && forall i :: 0 <= i < pos ==> es[i].cell.key < key
    requires forall i :: pos <= i < |es| ==> key < es[i].cell.key
    ensures Lookup(Records(es), key) == None
    ensures Below(Records(es), key) + Above(Records(es), key) == Records(es)
  {
    LookupLeaf(es, key, pos, false);
    Slices(Records(es), key, pos, 0);
  }

  /** Takes the cell at pos off a leaf page and frees its overflow chain. */
  method RemoveCell(sink: PageSink, page: PageId, cells: seq<LeafCell>, pos: nat, ghost es: seq<Entry>, ghost lo: int,
                    ghost hi: int, ghost others: multiset<PageId>)
    requires cells == Cells(es) && pos < |cells|
    requires Good(LeafT(page, es), page, lo, hi, sink.Pages()) && sink.Owned(Ids(LeafT(page, es)) + others)
    requires FitsAll(LeafT(page, es))
    modifies sink
    ensures Good(LeafT(page, Without(es, pos)), page, lo, hi, sink.Pages()) && FitsAll(LeafT(page, Without(es, pos)))
    ensures sink.Owned(Ids(LeafT(page, Without(es, pos))) + others) && Same(old(sink.Pages()), sink.Pages(), others)
    ensures sink.pageCount == old(sink.pageCount)
  {
    hide *;
    ghost var view := sink.Pages();
    LeafGoodParts(es, page, lo, hi, view);
    ghost var keep, chain := ChainIds(Without(es, pos)), es[pos].chain;
    WithoutOk(es, page, lo, hi, pos);
    WithoutParts(es, pos);
    RemoveOwned(sink, page, ChainIds(es), keep, multiset(chain), others, Ids(LeafT(page, es)));
    sink.OwnedOnce(page, keep + others + multiset(chain));
    var removed := cells[pos];
    var rest := cells[..pos] + cells[pos + 1..];
    FitsWrites(page, Leaf(rest));
    var _ := WriteNode(sink, page, Leaf(rest), keep + others + multiset(chain));
    ghost var view' := sink.Pages();
    ghost var tail := EntryChain(es[pos], view, view', keep + others);
    Associate(multiset{page}, keep + others, multiset(chain));
    sink.Reown(multiset{page} + (keep + others + multiset(chain)), multiset{page} + (keep + others) + multiset(chain));
    FreeReplaced(sink, removed.overflow, chain, tail, multiset{page} + (keep + others));
    HoldsSame(view', sink.Pages(), page, Leaf(rest), multiset{page} + (keep + others));
    SameLess(view', sink.Pages(), multiset{page}, keep + others);
    SameLess(view, view', multiset(chain), keep + others);
    SameTrans(view, view', sink.Pages(), keep + others);
    SameLess(view, sink.Pages(), keep, others);
    WithoutStored(es, pos, view, sink.Pages(), others);
    LeafFitsAll(page, Without(es, pos));
    LeafGood(Without(es, pos), page, lo, hi, sink.Pages());
    Associate(multiset{page}, keep, others);
    sink.Reown(multiset{page} + (keep + others), Ids(LeafT(page, Without(es, pos))) + others);
  }

  lemma LeafFitsAll(page: PageId, es: seq<Entry>)
    ensures FitsAll(LeafT(page, es)) <==> Fits(page, Leaf(Cells(es)))
  {
  }

  lemma RemoveOwned(sink: PageSink, page: PageId, all: multiset<PageId>, keep: multiset<PageId>, chain: multiset<PageId>,
                    others: multiset<PageId>, ids: multiset<PageId>)
    requires all == keep + chain && ids == multiset{page} + all && sink.Owned(ids + others)
    ensures sink.Owned(multiset{page} + (keep + others + chain))
  {
  }

  lemma {:induction false} EntryChain(e: Entry, v: View, v': View, ps: multiset<PageId>) returns (tail: seq<byte>)
    requires EntryStored(v, e) && Same(v, v', ps + multiset(e.chain))
    ensures ChainStored(v', e.cell.overflow, e.chain, tail)
  {
    tail := e.value[InlineLen(|e.value|)..];
    ChainSame(v, v', e.cell.overflow, e.chain, tail);
  }

  method DeleteLeaf(sink: PageSink, page: PageId, cells: seq<LeafCell>, key: rowid, ghost es: seq<Entry>, ghost lo: int,
                    ghost hi: int, ghost others: multiset<PageId>)
    returns (found: bool, ghost t': Tree)
    requires cells == Cells(es)
    requires Good(LeafT(page, es), page, lo, hi, sink.Pages()) && sink.Owned(Ids(LeafT(page, es)) + others)
    requires FitsAll(LeafT(page, es))
    modifies sink
    ensures Deleted(sink, found, t', LeafT(page, es), lo, hi, key, others)
    ensures Same(old(sink.Pages()), sink.Pages(), others)
    ensures sink.pageCount == old(sink.pageCount)
  {
    hide *;
    LeafGoodParts(es, page, lo, hi, sink.Pages());
    LeafSorted(es, lo, hi);
    RecordsOf(page, es);
    var pos: nat;
    found, pos := Search(cells, key);
    SearchRecords(es, key, pos, found);
    SearchIsPos(cells, key, found, pos);
    WithoutKeyLeaf(page, es, key, found, pos);
    if found {
      RecordsOf(page, Without(es, pos));
      RemoveRecords(es, pos);
      LookupLeaf(es, key, pos, true);
      RemoveCell(sink, page, cells, pos, es, lo, hi, others);
      t' := LeafT(page, Without(es, pos));
    } else {
      AbsentRecords(es, key, pos);
      t' := LeafT(page, es);
      SameSelf(sink.Pages(), others);
    }
    RemoveIs(Records(es), key);
    DeletedIs(sink, found, t', LeafT(page, es), lo, hi, key, others);
  }

  lemma LeafSorted(es: seq<Entry>, lo: int, hi: int)
    requires LeafOk(es, lo, hi)
    ensures SortedCells(Cells(es)) && |Cells(es)| == |es|
  {
  }

  lemma RecordsOf(page: PageId, es: seq<Entry>)
    ensures Flat(LeafT(page, es)) == Records(es) && Height(LeafT(page, es)) == 0 && LeafT(page, es).id == page
  {
  }

  lemma SearchRecords(es: seq<Entry>, key: int, pos: nat, found: bool)
    requires pos <= |es| && (found ==> pos < |es| && Cells(es)[pos].key == key)
    requires forall i :: 0 <= i < pos ==> Cells(es)[i].key < key
    requires forall i :: pos <= i < |es| ==>
               if found && i == pos then Cells(es)[i].key == key else key < Cells(es)[i].key
    ensures found ==> es[pos].cell.key == key
    ensures forall i :: 0 <= i < pos ==> es[i].cell.key < key
    ensures forall i :: (if found then pos + 1 else pos) <= i < |es| ==> key < es[i].cell.key
  {
    var cs := Cells(es);
    forall i | 0 <= i < |es|
      ensures i < pos ==> es[i].cell.key < key
      ensures (if found then pos + 1 else pos) <= i ==> key < es[i].cell.key
    {
      assert cs[i].key == es[i].cell.key;
    }
  }

  lemma SameSelf(v: View, ps: multiset<PageId>)
    ensures Same(v, v, ps)
  {
  }

  lemma RemoveIs(s: seq<KV>, key: rowid)
    ensures Remove(s, key) == Below(s, key) + Above(s, key)
  {
  }

  /** Deletes a record below a page: the tree below keeps its page, its height and every other record. */
  method DeleteRec(sink: PageSink, page: PageId, key: rowid, ghost t: Tree, ghost lo: int, ghost hi: int,
                   ghost others: multiset<PageId>)
    returns (found: bool, ghost t': Tree)
    requires Good(t, page, lo, hi, sink.Pages()) && sink.Owned(Ids(t) + others) && FitsAll(t)
    modifies sink
    ensures Deleted(sink, found, t', t, lo, hi, key, others)
    ensures Same(old(sink.Pages()), sink.Pages(), others)
    decreases t, 1
    ensures sink.pageCount == old(sink.pageCount)
  {
    hide *;
    NodeHeld(t, page, lo, hi, sink.Pages());
    ReadHeld(sink.Pages(), page, NodeOf(t));
    var got := ReadNode(sink, page);
    match got.value
    case Leaf(cells) =>
      found, t' := DeleteLeaf(sink, page, cells, key, t.entries, lo, hi, others);
    case Interior(cells, right) =>
      found, t' := DeleteInterior(sink, page, cells, right, key, t, lo, hi, others);
  }

  method DeleteInterior(sink: PageSink, page: PageId, cells: seq<InteriorCell>, right: PageId, key: rowid, ghost t: Tree,
                        ghost lo: int, ghost hi: int, ghost others: multiset<PageId>)
    returns (found: bool, ghost t': Tree)
    requires t.InteriorT? && |t.kids| == |t.keys| + 1
    requires cells == Pointers(t.kids, t.keys) && right == t.kids[|t.keys|].id
    requires Good(t, page, lo, hi, sink.Pages()) && sink.Owned(Ids(t) + others) && FitsAll(t)
    modifies sink
    ensures Deleted(sink, found, t', t, lo, hi, key, others)
    ensures Same(old(sink.Pages()), sink.Pages(), others)
    decreases t, 0
    ensures sink.pageCount == old(sink.pageCount)
  {
    hide *;
    ghost var view, kids, keys := sink.Pages(), t.kids, t.keys;
    GoodParts(t, page, lo, hi, view);
    var i := FindChild(cells, key);
    ChildAtIs(kids, keys, |keys|);
    FoundChild(kids, keys, key, i);
    ghost var rest := Beside(page, kids, i, others);
    ghost var klo, khi := Lo(keys, i, lo), Hi(keys, i, hi);
    KidGood(kids, keys, lo, hi, i, view);
    BesideOwned(page, kids, keys, i, multiset{}, others);
    NoChain(sink, Ids(t), others, Ids(kids[i]), rest);
    ghost var c: Tree;
    found, c := DeleteRec(sink, ChildAt(cells, right, i), key, kids[i], klo, khi, rest);
    DeletedParts(sink, found, c, kids[i], klo, khi, key, rest);
    BesideParts(page, kids, i, others);
    SiblingsStored(page, kids, i, others, view, sink.Pages());
    HoldsSame(view, sink.Pages(), page, Interior(cells, right), rest);
    SameBeside(view, sink.Pages(), page, kids, i, others);
    KidDone(kids, keys, page, lo, hi, i, c, sink.Pages());
    DeletedFlat(kids, keys, page, lo, hi, i, c, key);
    GoodIs(c, kids[i].id, klo, khi, sink.Pages());
    ReplacedFits(kids, keys, page, i, c);
    DoneIds(kids, keys, page, i, c, others);
    t' := InteriorT(page, kids[i := c], keys);
    sink.Reown(Ids(c) + rest, Ids(t') + others);
    HeightIs(page, kids, keys);
    WithoutKeyInterior(page, kids, keys, key, i);
    InteriorIs(t);
    DeletedIs(sink, found, t', t, lo, hi, key, others);
  }

  lemma ReplacedFits(kids: seq<Tree>, keys: seq<rowid>, page: PageId, i: nat, c: Tree)
    requires |kids| == |keys| + 1 && i < |kids| && c.id == kids[i].id && FitsAll(c)
    requires Fits(page, Interior(Pointers(kids, keys), kids[|keys|].id)) && forall j :: 0 <= j < |kids| ==> FitsAll(kids[j])
    ensures FitsAll(InteriorT(page, kids[i := c], keys))
  {
    hide Fits, Pointers;
    SamePointers(kids, keys, i, c);
  }

  lemma InteriorIs(t: Tree)
    requires t.InteriorT?
    ensures t == InteriorT(t.id, t.kids, t.keys)
  {
  }

  lemma NoChain(sink: PageSink, ids: multiset<PageId>, others: multiset<PageId>, kid: multiset<PageId>, rest: multiset<PageId>)
    requires sink.Owned(ids + others) && ids + multiset{} + others == kid + multiset{} + rest
    ensures sink.Owned(kid + rest)
  {
    assert ids + others == ids + multiset{} + others && kid + rest == kid + multiset{} + rest;
  }

  lemma {:induction false} DeletedFlat(kids: seq<Tree>, keys: seq<rowid>, page: PageId, lo: int, hi: int, i: nat, c: Tree,
                                       key: rowid)
    requires KidsOk(kids, keys, lo, hi) && i == ChildIndex(keys, key) < |kids| && Flat(c) == Remove(Flat(kids[i]), key)
    ensures Flat(InteriorT(page, kids[i := c], keys)) == Remove(Flat(InteriorT(page, kids, keys)), key)
    ensures Lookup(Flat(InteriorT(page, kids, keys)), key) == Lookup(Flat(kids[i]), key)
  {
    hide *;
    FlatIs(page, kids, keys);
    FlatIs(page, kids[i := c], keys);
    InChild(kids, keys, lo, hi, key, []);
    ReplaceParts(kids, i, c);
  }
}
