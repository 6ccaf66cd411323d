/** What a b-tree spread over pages means: a tree of nodes, the pages it owns and its records in order. */
module Trees {
  import opened Common
  import opened Varint
  import opened Nodes
  import opened Table

  /** The content of a page: a b-tree node, or one link of an overflow chain. */
  datatype Page =
    | NodePage(node: Node)
    | OverflowPage(next: PageId, data: seq<byte>)

  type View = map<PageId, Page>

  /** A leaf cell with the overflow pages it owns and the whole record. */
  datatype Entry = Entry(cell: LeafCell, chain: seq<PageId>, value: seq<byte>)

  datatype Tree =
    | LeafT(id: PageId, entries: seq<Entry>)
    | InteriorT(id: PageId, kids: seq<Tree>, keys: seq<rowid>)

  // ---- overflow chains ----

  /** chain holds exactly tail, one full page after another, starting at first. */
  predicate ChainStored(view: View, first: PageId, chain: seq<PageId>, tail: seq<byte>)
    decreases |chain|
  {
    if chain == [] then first == 0 && tail == []
    else
      && first == chain[0] && first != 0 && tail != []
      && first in view && view[first].OverflowPage? && |view[first].data| == OVERFLOW_CAP
      && var n := Min(|tail|, OVERFLOW_CAP);
      && view[first].data[..n] == tail[..n]
      && ChainStored(view, view[first].next, chain[1..], tail[n..])
  }

  /** The cell and its chain hold the record. */
  predicate EntryStored(view: View, e: Entry) {
    && e.cell.payloadLen == |e.value|
    && CellOk(e.cell)
    && InlineLen(|e.value|) <= |e.value|
    && e.cell.inline == e.value[..InlineLen(|e.value|)]
    && ChainStored(view, e.cell.overflow, e.chain, e.value[InlineLen(|e.value|)..])
  }

  /** Two views agree on the pages of ps: those that are there and their content. */
  predicate Same(v: View, v': View, ps: multiset<PageId>) {
    forall p :: p in ps ==> (p in v <==> p in v') && (p in v ==> v'[p] == v[p])
  }

  lemma {:induction false} ChainSame(v: View, v': View, first: PageId, chain: seq<PageId>, tail: seq<byte>)
    requires ChainStored(v, first, chain, tail) && Same(v, v', multiset(chain))
    ensures ChainStored(v', first, chain, tail)
    decreases |chain|
  {
    if chain != [] {
      assert chain[0] in multiset(chain);
      assert multiset(chain[1..]) <= multiset(chain) by { assert chain == [chain[0]] + chain[1..]; }
      ChainSame(v, v', v[first].next, chain[1..], tail[Min(|tail|, OVERFLOW_CAP)..]);
    }
  }

  // ---- leaves ----

  function Cells(es: seq<Entry>): (cs: seq<LeafCell>)
    ensures |cs| == |es| && forall i :: 0 <= i < |es| ==> cs[i] == es[i].cell
  {
    seq(|es|, i requires 0 <= i < |es| => es[i].cell)
  }

  function Records(es: seq<Entry>): (s: seq<KV>)
    ensures |s| == |es| && forall i :: 0 <= i < |es| ==> s[i] == KV(es[i].cell.key, es[i].value)
  {
    seq(|es|, i requires 0 <= i < |es| => KV(es[i].cell.key, es[i].value))
  }

  function ChainIds(es: seq<Entry>): multiset<PageId> {
    if es == [] then multiset{} else multiset(es[0].chain) + ChainIds(es[1..])
  }

  lemma {:induction false} ChainIdsConcat(a: seq<Entry>, b: seq<Entry>)
    ensures ChainIds(a + b) == ChainIds(a) + ChainIds(b)
  {
    if a == [] {
      assert a + b == b;
    } else {
      assert (a + b)[1..] == a[1..] + b;
      ChainIdsConcat(a[1..], b);
    }
  }

  lemma {:induction false} ChainIdsAt(es: seq<Entry>, i: nat)
    requires i < |es|
    ensures ChainIds(es) == ChainIds(es[..i]) + multiset(es[i].chain) + ChainIds(es[i + 1..])
  {
    assert es == es[..i] + es[i..];
    ChainIdsConcat(es[..i], es[i..]);
    assert es[i..][1..] == es[i + 1..];
  }

  predicate LeafOk(es: seq<Entry>, lo: int, hi: int) {
    && SortedCells(Cells(es))
    && forall i :: 0 <= i < |es| ==> lo < es[i].cell.key <= hi && CellOk(es[i].cell)
  }

  // ---- trees ----

  function NodeOf(t: Tree): Node {
    match t
    case LeafT(_, es) => Leaf(Cells(es))
    case InteriorT(_, kids, keys) =>
      if |kids| == |keys| + 1 then Interior(Pointers(kids, keys), kids[|keys|].id) else Leaf([])
  }

  function Pointers(kids: seq<Tree>, keys: seq<rowid>): (cs: seq<InteriorCell>)
    requires |kids| == |keys| + 1
    ensures |cs| == |keys|
    ensures forall i {:trigger cs[i]} :: 0 <= i < |keys| ==> cs[i] == InteriorCell(kids[i].id, keys[i])
  {
    seq(|keys|, i requires 0 <= i < |keys| => InteriorCell(kids[i].id, keys[i]))
  }

  /** Exclusive lower and inclusive upper key bound of the i-th child. */
  function Lo(keys: seq<rowid>, i: nat, lo: int): int
    requires i <= |keys|
  {
    if i == 0 then lo else keys[i - 1]
  }

  function Hi(keys: seq<rowid>, i: nat, hi: int): int
    requires i <= |keys|
  {
    if i == |keys| then hi else keys[i]
  }

  predicate KeysOk(keys: seq<rowid>, lo: int, hi: int) {
    && (forall i, j :: 0 <= i < j < |keys| ==> keys[i] < keys[j])
    && forall i :: 0 <= i < |keys| ==> lo < keys[i] < hi
  }

  /** Levels below the root, counted along the leftmost path. */
  function Height(t: Tree): nat {
    match t
    case LeafT(_, _) => 0
    case InteriorT(_, kids, _) => if kids == [] then 0 else 1 + Height(kids[0])
  }

  predicate KidsOk(kids: seq<Tree>, keys: seq<rowid>, lo: int, hi: int)
    decreases kids, 0
  {
    && |kids| == |keys| + 1 && keys != [] && KeysOk(keys, lo, hi)
    && (forall i :: 0 <= i < |kids| ==> Height(kids[i]) == Height(kids[0]))
    && forall i :: 0 <= i < |kids| ==> TreeOk(kids[i], Lo(keys, i, lo), Hi(keys, i, hi))
  }

  /** A search tree with keys in (lo, hi], all leaves equally deep, every node such that it can be written. */
  predicate TreeOk(t: Tree, lo: int, hi: int)
    decreases t, 1
  {
    && Writes(t.id, NodeOf(t))
    && match t
       case LeafT(_, es) => LeafOk(es, lo, hi)
       case InteriorT(_, kids, keys) => KidsOk(kids, keys, lo, hi)
  }

  /** Every node fits its page, so that reading the page gives the node. */
  predicate FitsAll(t: Tree) {
    Fits(t.id, NodeOf(t)) && (t.InteriorT? ==> forall i :: 0 <= i < |t.kids| ==> FitsAll(t.kids[i]))
  }

  /** Every node but the one on page p does. */
  predicate FitsBut(t: Tree, p: PageId) {
    (t.id != p ==> Fits(t.id, NodeOf(t))) && (t.InteriorT? ==> forall i :: 0 <= i < |t.kids| ==> FitsBut(t.kids[i], p))
  }

  lemma {:induction false} FitsButAll(t: Tree, p: PageId)
    requires FitsAll(t)
    ensures FitsBut(t, p)
  {
    if t.InteriorT? {
      forall i | 0 <= i < |t.kids|
        ensures FitsBut(t.kids[i], p)
      {
        FitsButAll(t.kids[i], p);
      }
    }
  }

  /** The page of the leaf that a key belongs to. */
  function LeafPage(t: Tree, key: int): PageId {
    match t
    case LeafT(id, _) => id
    case InteriorT(id, kids, keys) =>
      if ChildIndex(keys, key) < |kids| then LeafPage(kids[ChildIndex(keys, key)], key) else id
  }

  /** The child to descend for key: the first whose separator is not below it, else the last. */
  function ChildIndex(keys: seq<rowid>, key: int): (i: nat)
    ensures i <= |keys| && (i < |keys| ==> key <= keys[i])
    ensures forall j :: 0 <= j < i ==> keys[j] < key
  {
    if keys == [] || key <= keys[0] then 0 else 1 + ChildIndex(keys[1..], key)
  }

  /** The records of the tree, left to right. */
  function Flat(t: Tree): seq<KV>
    decreases t, 1
  {
    match t
    case LeafT(_, es) => Records(es)
    case InteriorT(_, kids, _) => FlatAll(kids)
  }

  function FlatAll(kids: seq<Tree>): seq<KV>
    decreases kids, 0
  {
    if kids == [] then [] else Flat(kids[0]) + FlatAll(kids[1..])
  }

  /** The entries of the rightmost leaf. */
  function RightLeaf(t: Tree): seq<Entry> {
    match t
    case LeafT(_, es) => es
    case InteriorT(_, kids, _) => if kids == [] then [] else RightLeaf(kids[|kids| - 1])
  }

  /** The pages of the tree with multiplicity: nodes and overflow chains. */
  function Ids(t: Tree): multiset<PageId>
    decreases t, 1
  {
    multiset{t.id} + match t
    case LeafT(_, es) => ChainIds(es)
    case InteriorT(_, kids, _) => IdsAll(kids)
  }

  function IdsAll(kids: seq<Tree>): multiset<PageId>
    decreases kids, 0
  {
    if kids == [] then multiset{} else Ids(kids[0]) + IdsAll(kids[1..])
  }

  /** The pages in view hold the tree. */
  predicate Stored(t: Tree, view: View) {
    && t.id in view && view[t.id] == NodePage(NodeOf(t))
    && match t
       case LeafT(_, es) => forall i :: 0 <= i < |es| ==> EntryStored(view, es[i])
       case InteriorT(_, kids, keys) => |kids| == |keys| + 1 && forall i :: 0 <= i < |kids| ==> Stored(kids[i], view)
  }

  // ---- concatenation ----

  lemma {:induction false} FlatConcat(a: seq<Tree>, b: seq<Tree>)
    ensures FlatAll(a + b) == FlatAll(a) + FlatAll(b)
    decreases |a|
  {
    if a == [] {
      assert a + b == b;
    } else {
      assert (a + b)[1..] == a[1..] + b;
      FlatConcat(a[1..], b);
    }
  }

  lemma {:induction false} IdsConcat(a: seq<Tree>, b: seq<Tree>)
    ensures IdsAll(a + b) == IdsAll(a) + IdsAll(b)
    decreases |a|
  {
    if a == [] {
      assert a + b == b;
    } else {
      assert (a + b)[1..] == a[1..] + b;
      IdsConcat(a[1..], b);
    }
  }

  /** The children around child i, and child i itself. */
  lemma KidAt(kids: seq<Tree>, i: nat)
    requires i < |kids|
    ensures FlatAll(kids) == FlatAll(kids[..i]) + Flat(kids[i]) + FlatAll(kids[i + 1..])
    ensures IdsAll(kids) == IdsAll(kids[..i]) + Ids(kids[i]) + IdsAll(kids[i + 1..])
  {
    assert kids == kids[..i] + kids[i..];
    FlatConcat(kids[..i], kids[i..]);
    IdsConcat(kids[..i], kids[i..]);
    assert kids[i..][1..] == kids[i + 1..];
  }

  // ---- frames ----

  lemma EntriesSame(es: seq<Entry>, v: View, v': View, ps: multiset<PageId>)
    requires forall i :: 0 <= i < |es| ==> EntryStored(v, es[i])
    requires Same(v, v', ps) && ChainIds(es) <= ps
    ensures forall i :: 0 <= i < |es| ==> EntryStored(v', es[i])
  {
    forall i | 0 <= i < |es|
      ensures EntryStored(v', es[i])
    {
      ChainIdsAt(es, i);
      ChainSame(v, v', es[i].cell.overflow, es[i].chain, es[i].value[InlineLen(|es[i].value|)..]);
    }
  }

  /** A tree stays stored while its own pages are left alone. */
  lemma {:induction false} StoredSame(t: Tree, v: View, v': View, ps: multiset<PageId>)
    requires Stored(t, v) && Same(v, v', ps) && Ids(t) <= ps
    ensures Stored(t, v')
  {
    hide EntryStored, NodeOf, ChainIds, IdsAll;
    assert t.id in Ids(t);
    match t
    case LeafT(_, es) => EntriesSame(es, v, v', ps);
    case InteriorT(_, kids, _) =>
      forall i | 0 <= i < |kids|
        ensures Stored(kids[i], v')
      {
        KidAt(kids, i);
        StoredSame(kids[i], v, v', ps);
      }
  }

  lemma KidsSame(kids: seq<Tree>, v: View, v': View, ps: multiset<PageId>)
    requires forall i :: 0 <= i < |kids| ==> Stored(kids[i], v)
    requires Same(v, v', ps) && IdsAll(kids) <= ps
    ensures forall i :: 0 <= i < |kids| ==> Stored(kids[i], v')
  {
    forall i | 0 <= i < |kids|
      ensures Stored(kids[i], v')
    {
      KidAt(kids, i);
      StoredSame(kids[i], v, v', ps);
    }
  }

  // ---- order ----

  lemma LeafBounds(es: seq<Entry>, lo: int, hi: int)
    requires SortedCells(Cells(es))
    requires forall i :: 0 <= i < |es| ==> lo < es[i].cell.key <= hi
    ensures Ascending(Records(es)) && AllAbove(Records(es), lo) && AllBelow(Records(es), hi + 1)
  {
    var cs := Cells(es);
    forall i, j | 0 <= i < j < |es|
      ensures es[i].cell.key < es[j].cell.key
    {
      assert cs[i].key < cs[j].key;
    }
  }

  lemma {:induction false} FlatBounds(t: Tree, lo: int, hi: int)
    requires TreeOk(t, lo, hi)
    ensures Ascending(Flat(t)) && AllAbove(Flat(t), lo) && AllBelow(Flat(t), hi + 1)
    decreases t, 1
  {
    match t
    case LeafT(_, es) => LeafBounds(es, lo, hi);
    case InteriorT(_, kids, keys) =>
      FlatAllBounds(kids, keys, lo, hi, |kids|);
      assert kids[..|kids|] == kids;
  }

  lemma FlatOne(t: Tree)
    ensures FlatAll([t]) == Flat(t)
  {
  }

  lemma FlatNone()
    ensures FlatAll([]) == []
  {
  }

  /** The records of the first n children, ascending and within the bounds of those children. */
  lemma {:induction false} FlatAllBounds(kids: seq<Tree>, keys: seq<rowid>, lo: int, hi: int, n: nat)
    requires KidsOk(kids, keys, lo, hi) && n <= |kids|
    ensures Ascending(FlatAll(kids[..n])) && AllAbove(FlatAll(kids[..n]), lo)
    ensures AllBelow(FlatAll(kids[..n]), (if n == 0 then lo else Hi(keys, n - 1, hi)) + 1)
    decreases kids, 0, n
  {
    hide TreeOk, FlatAll, Flat;
    if n > 0 {
      FlatAllBounds(kids, keys, lo, hi, n - 1);
      FlatBounds(kids[n - 1], Lo(keys, n - 1, lo), Hi(keys, n - 1, hi));
      assert kids[..n] == kids[..n - 1] + [kids[n - 1]];
      FlatConcat(kids[..n - 1], [kids[n - 1]]);
      FlatOne(kids[n - 1]);
    } else {
      FlatNone();
    }
  }
}
