/** Writing leaf pages: whole, or split in two. */
module LeafPages {
  import opened Common
  import opened Varint
  import opened Nodes
  import PageFormat
  import opened Table
  import opened Trees
  import opened TreeEdits
  import opened LeafEdits
  import opened Overflow

  /** What inserting below a page led to. Panicked: the cells of a node to be written took more than a page,
      or a leaf of one cell was to be cut. */
  datatype Outcome =
    | Done
    | Split(sep: rowid, right: PageId)
    | Panicked

  /** Writes a node, whether it fits its page or not; false when that panics. */
  method WriteNode(sink: PageSink, id: PageId, node: Node, ghost rest: multiset<PageId>) returns (ok: bool)
    requires id !in rest && 1 <= id <= sink.pageCount
    modifies sink`pending, sink`steps
    ensures ok == Writes(id, node)
    ensures ok ==> Holds(sink.Pages(), id, node)
    ensures Same(old(sink.Pages()), sink.Pages(), rest)
    ensures forall ps {:trigger sink.Owned(ps)} :: old(sink.Owned(ps)) ==> sink.Owned(ps)
  {
    ok := Writes(id, node);
    if ok {
      sink.PutPage(id, NodePage(node));
    }
  }

  /** Page id is as writing node to it left it; reading it gives `ReadBack(id, node)`. */
  predicate Holds(view: View, id: PageId, node: Node) {
    id in view && view[id] == NodePage(node)
  }

  /** Reads a page that a node was written to and parses it. */
  method ReadNode(sink: PageSink, id: PageId) returns (r: PageFormat.Parsed<Node>)
    requires id in sink.Pages() && sink.Pages()[id].NodePage?
    ensures r == PageFormat.ReadBack(id, sink.Pages()[id].node)
  {
    hide PageFormat.Parse, PageFormat.Image, PageFormat.Encodable, PageFormat.PageHeld, Writes;
    var got := sink.GetPage(id);
    var n := got.value.node;
    if Fits(id, n) && Shaped(n) {
      return PageFormat.Done(n);
    }
    if !PageFormat.Encodable(n) || !Writes(id, n) {
      return PageFormat.Panic;
    }
    var buf := new byte[PAGE_SIZE](_ => 0);
    assert buf[..HeaderOffset(id)] == seq(HeaderOffset(id), _ => 0);
    var _ := PageFormat.SerializeInto(id, n, buf);
    r := PageFormat.ParsePage(id, buf);
  }

  /** A node that fits is read as it was written. */
  lemma ReadHeld(view: View, id: PageId, node: Node)
    requires Holds(view, id, node)
    ensures id in view && view[id] == NodePage(node)
    ensures Fits(id, node) && Shaped(node) ==> PageFormat.ReadBack(id, node) == PageFormat.Done(node)
  {
    hide PageFormat.Parse, PageFormat.Image, PageFormat.Encodable;
  }

  /** A page that is not page 1 has at least as much room as page 2. */
  lemma FitsElsewhere(page: PageId, id: PageId, node: Node)
    requires Fits(page, node) && id != 1
    ensures Fits(id, node)
  {
  }

  lemma HoldsSame(v: View, v': View, id: PageId, node: Node, ps: multiset<PageId>)
    requires Holds(v, id, node) && Same(v, v', ps) && id in ps
    ensures Holds(v', id, node)
  {
  }

  /** Writes the two halves of a node, the right one to a new page. */
  method WriteHalves(sink: PageSink, page: PageId, left: Node, right: Node, ghost rest: multiset<PageId>)
    returns (ok: bool, rightPage: PageId)
    requires sink.Owned(multiset{page} + rest) && (page == 1 || 1 in rest) && Fits(2, right)
    modifies sink
    ensures ok == Writes(page, left) && Same(old(sink.Pages()), sink.Pages(), rest)
    ensures sink.Owned(multiset{page} + rest + multiset{rightPage}) && rightPage != 1
    ensures ok ==> Holds(sink.Pages(), page, left) && Holds(sink.Pages(), rightPage, right)
    ensures sink.pageCount <= old(sink.pageCount) + 1
  {
    hide *;
    sink.OwnedOnce(page, rest);
    rightPage := sink.AllocPage(multiset{page} + rest);
    ghost var view := sink.Pages();
    ok := WriteNode(sink, page, left, multiset{rightPage} + rest);
    SameLess(view, sink.Pages(), multiset{rightPage}, rest);
    if ok {
      ghost var view' := sink.Pages();
      FitsElsewhere(2, rightPage, right);
      FitsWrites(rightPage, right);
      var _ := WriteNode(sink, rightPage, right, multiset{page} + rest);
      HoldsSame(view', sink.Pages(), page, left, multiset{page} + rest);
      SameLess(view', sink.Pages(), multiset{page}, rest);
      SameTrans(view, view', sink.Pages(), rest);
    }
  }

  /** Writes a leaf, cutting it in two when it does not fit. */
  method WriteLeaf(sink: PageSink, page: PageId, cells: seq<LeafCell>, ghost rest: multiset<PageId>) returns (r: Outcome)
    requires sink.Owned(multiset{page} + rest) && (page == 1 || 1 in rest)
    requires |cells| >= 2 ==> Fits(2, Leaf(cells[SplitIndex(cells)..]))
    modifies sink
    ensures r.Panicked? <==> !LeafWrites(page, cells)
    ensures Same(old(sink.Pages()), sink.Pages(), rest)
    ensures r.Done? ==> Fits(page, Leaf(cells)) && sink.Owned(multiset{page} + rest)
    ensures r.Done? ==> Holds(sink.Pages(), page, Leaf(cells))
    ensures r.Split? ==> |cells| >= 2 && r.sep == cells[SplitIndex(cells) - 1].key && r.right != 1
    ensures r.Split? ==> sink.Owned(multiset{page} + rest + multiset{r.right})
    ensures r.Split? ==> !Fits(page, Leaf(cells)) && Writes(page, Leaf(cells[..SplitIndex(cells)]))
    ensures r.Split? ==> Holds(sink.Pages(), page, Leaf(cells[..SplitIndex(cells)]))
    ensures r.Split? ==> Holds(sink.Pages(), r.right, Leaf(cells[SplitIndex(cells)..]))
    ensures sink.pageCount <= old(sink.pageCount) + 1
  {
    sink.OwnedOnce(page, rest);
    if Used(page, Leaf(cells)) <= PAGE_SIZE {
      var _ := WriteNode(sink, page, Leaf(cells), rest);
      return Done;
    }
    if |cells| < 2 {
      return Panicked;
    }
    var left, right, sep := SplitLeaf(cells);
    var ok, rightPage := WriteHalves(sink, page, Leaf(left), Leaf(right), rest);
    if !ok {
      return Panicked;
    }
    return Split(sep, rightPage);
  }

  // ---- a leaf ----

  /** The leaf's entries once e is in. */
  function LeafAfter(es: seq<Entry>, e: Entry): seq<Entry> {
    UpsertEntries(es, HasKey(Cells(es), e.cell.key), CellPos(Cells(es), e.cell.key), e)
  }

  /** The overflow pages that e's predecessor leaves behind. */
  function LeftBehind(es: seq<Entry>, e: Entry): seq<PageId> {
    Replaced(es, HasKey(Cells(es), e.cell.key), CellPos(Cells(es), e.cell.key))
  }

  /** The right half of a leaf split fits wherever it goes. */
  lemma LeafHalfFits(page: PageId, es: seq<Entry>, e: Entry, lo: int, hi: int)
    requires Fits(page, Leaf(Cells(es))) && LeafOk(es, lo, hi) && CellOk(e.cell)
    ensures Cells(LeafAfter(es, e)) == Upserted(Cells(es), e.cell)
    ensures |LeafAfter(es, e)| >= 2 ==>
              Fits(2, Leaf(Upserted(Cells(es), e.cell)[SplitIndex(Upserted(Cells(es), e.cell))..]))
  {
    var cs := Cells(es);
    var found, pos := HasKey(cs, e.cell.key), CellPos(cs, e.cell.key);
    UpsertCellsOf(es, found, pos, e);
    if |LeafAfter(es, e)| >= 2 {
      RightHalfFits(page, 2, cs, found, pos, e.cell);
    }
  }

  /** Puts a cell among the cells of a leaf; freed is the overflow chain of the cell it replaces. */
  method EditCells(cells: seq<LeafCell>, cell: LeafCell) returns (cells': seq<LeafCell>, freed: PageId)
    requires SortedCells(cells)
    ensures cells' == Upserted(cells, cell)
    ensures freed == if HasKey(cells, cell.key) then cells[CellPos(cells, cell.key)].overflow else 0
  {
    var found, pos := Search(cells, cell.key);
    SearchIsPos(cells, cell.key, found, pos);
    if found {
      freed := cells[pos].overflow;
      cells' := cells[pos := cell];
    } else {
      freed := 0;
      cells' := cells[..pos] + [cell] + cells[pos..];
    }
  }

  /** What is left of the old entry is a stored chain. */
  lemma LeftBehindStored(view: View, view': View, es: seq<Entry>, e: Entry, ps: multiset<PageId>)
    returns (tail: seq<byte>)
    requires forall i :: 0 <= i < |es| ==> EntryStored(view, es[i])
    requires Same(view, view', ps) && multiset(LeftBehind(es, e)) <= ps
    ensures var cs := Cells(es);
            ChainStored(view', if HasKey(cs, e.cell.key) then cs[CellPos(cs, e.cell.key)].overflow else 0,
                        LeftBehind(es, e), tail)
  {
    var cs := Cells(es);
    tail := [];
    if HasKey(cs, e.cell.key) {
      var old_e := es[CellPos(cs, e.cell.key)];
      tail := old_e.value[InlineLen(|old_e.value|)..];
      ChainSame(view, view', old_e.cell.overflow, old_e.chain, tail);
    }
  }

  method FreeReplaced(sink: PageSink, freed: PageId, ghost chain: seq<PageId>, ghost tail: seq<byte>,
                      ghost owned: multiset<PageId>)
    requires ChainStored(sink.Pages(), freed, chain, tail) && sink.Owned(owned + multiset(chain))
    modifies sink`pending, sink`freelist, sink`steps
    ensures sink.Owned(owned) && Same(old(sink.Pages()), sink.Pages(), owned)
  {
    if freed != 0 {
      FreeOverflowChain(sink, freed, chain, tail, owned);
    }
  }

  /** The two pages of a leaf after a split. */
  predicate LeafCut(view: View, page: PageId, cells: seq<LeafCell>, right: PageId, sep: int) {
    && |cells| >= 2
    && right != 1 && sep == cells[SplitIndex(cells) - 1].key
    && !Fits(page, Leaf(cells))
    && Writes(page, Leaf(cells[..SplitIndex(cells)])) && Fits(right, Leaf(cells[SplitIndex(cells)..]))
    && Holds(view, page, Leaf(cells[..SplitIndex(cells)])) && Holds(view, right, Leaf(cells[SplitIndex(cells)..]))
  }

  /** The pages a write produced, beside the page written to. */
  function NewPage(r: Outcome): multiset<PageId> {
    if r.Split? then multiset{r.right} else multiset{}
  }

  predicate LeafWritten(view: View, page: PageId, cells: seq<LeafCell>, r: Outcome) {
    match r
    case Panicked => true
    case Done => Fits(page, Leaf(cells)) && Holds(view, page, Leaf(cells))
    case Split(sep, right) => LeafCut(view, page, cells, right, sep)
  }

  lemma WrittenSame(view: View, view': View, page: PageId, cells: seq<LeafCell>, r: Outcome, ps: multiset<PageId>)
    requires LeafWritten(view, page, cells, r) && Same(view, view', ps)
    requires page in ps && (r.Split? ==> r.right in ps)
    ensures LeafWritten(view', page, cells, r)
  {
  }

  /** Writes the cells of a leaf, splitting the page when it must, then frees a replaced record's chain. */
  method PutCells(sink: PageSink, page: PageId, cells: seq<LeafCell>, freed: PageId,
                  ghost chain: seq<PageId>, ghost tail: seq<byte>, ghost keep: multiset<PageId>)
    returns (r: Outcome)
    requires sink.Owned(multiset{page} + (keep + multiset(chain))) && (page == 1 || 1 in keep)
    requires ChainStored(sink.Pages(), freed, chain, tail)
    requires |cells| >= 2 ==> Fits(2, Leaf(cells[SplitIndex(cells)..]))
    modifies sink
    ensures r.Panicked? <==> !LeafWrites(page, cells)
    ensures LeafWritten(sink.Pages(), page, cells, r)
    ensures !r.Panicked? ==> Same(old(sink.Pages()), sink.Pages(), keep)
    ensures !r.Panicked? ==> sink.Owned(multiset{page} + NewPage(r) + keep)
    ensures sink.pageCount <= old(sink.pageCount) + 1
  {
    ghost var view := sink.Pages();
    r := WriteLeaf(sink, page, cells, keep + multiset(chain));
    if r == Panicked {
      return;
    }
    ghost var view' := sink.Pages();
    ChainSame(view, view', freed, chain, tail);
    ghost var owned := multiset{page} + NewPage(r) + keep;
    FreeReplaced(sink, freed, chain, tail, owned);
    WrittenSame(view', sink.Pages(), page, cells, r, owned);
    SameTrans(view, view', sink.Pages(), keep);
  }

  lemma Regroup(p: multiset<PageId>, a: multiset<PageId>, b: multiset<PageId>, a': multiset<PageId>, b': multiset<PageId>,
                o: multiset<PageId>)
    requires a' + b' == a + b
    ensures p + a + b + o == p + (a' + o + b')
  {
    assert p + a + b + o == p + (a + b) + o;
  }

  /** Inserts or replaces a cell of a leaf page, splitting the page when it must, and frees the
      overflow pages of a replaced record. */
  method PutLeaf(sink: PageSink, page: PageId, cells: seq<LeafCell>, cell: LeafCell,
                 ghost es: seq<Entry>, ghost e: Entry, ghost lo: int, ghost hi: int, ghost others: multiset<PageId>)
    returns (r: Outcome)
    requires cells == Cells(es) && cell == e.cell && CellOk(cell)
    requires Fits(page, Leaf(cells)) && LeafOk(es, lo, hi)
    requires forall i :: 0 <= i < |es| ==> EntryStored(sink.Pages(), es[i])
    requires sink.Owned(multiset{page} + ChainIds(es) + multiset(e.chain) + others) && (page == 1 || 1 in others)
    modifies sink
    ensures r.Panicked? <==> !LeafWrites(page, Upserted(cells, cell))
    ensures LeafWritten(sink.Pages(), page, Upserted(cells, cell), r)
    ensures !r.Panicked? ==> Same(old(sink.Pages()), sink.Pages(), ChainIds(LeafAfter(es, e)) + others)
    ensures !r.Panicked? ==> sink.Owned(multiset{page} + NewPage(r) + (ChainIds(LeafAfter(es, e)) + others))
    ensures sink.pageCount <= old(sink.pageCount) + 1
  {
    ghost var chain, after := LeftBehind(es, e), ChainIds(LeafAfter(es, e));
    UpsertChains(es, HasKey(cells, e.cell.key), CellPos(cells, e.cell.key), e);
    Regroup(multiset{page}, ChainIds(es), multiset(e.chain), after, multiset(chain), others);
    sink.Reown(multiset{page} + ChainIds(es) + multiset(e.chain) + others, multiset{page} + (after + others + multiset(chain)));
    LeafHalfFits(page, es, e, lo, hi);
    var cells', freed := EditCells(cells, cell);
    ghost var tail := LeftBehindStored(sink.Pages(), sink.Pages(), es, e, multiset(chain));
    r := PutCells(sink, page, cells', freed, chain, tail, after + others);
  }

  // ---- what an insertion leaves below a page ----

  /** The tree t, its root on page id and its keys in (lo, hi], is what was written to the pages. */
  predicate Good(t: Tree, id: PageId, lo: int, hi: int, view: View) {
    t.id == id && TreeOk(t, lo, hi) && Stored(t, view)
  }

  /** One tree, or two with a separator between them. */
  predicate Grown(r: Outcome, t1: Tree, t2: Tree, page: PageId, lo: int, hi: int, h: nat, view: View) {
    match r
    case Panicked => false
    case Done => Good(t1, page, lo, hi, view) && Height(t1) == h
    case Split(sep, right) =>
      && lo < sep < hi && right != 1
      && Good(t1, page, lo, sep, view) && Good(t2, right, sep, hi, view)
      && Height(t1) == h && Height(t2) == h
  }

  lemma GrownDone(t: Tree, page: PageId, lo: int, hi: int, h: nat, view: View)
    requires Good(t, page, lo, hi, view) && Height(t) == h
    ensures Grown(Done, t, t, page, lo, hi, h, view)
  {
  }

  lemma GrownSplit(t1: Tree, t2: Tree, page: PageId, sep: rowid, right: PageId, lo: int, hi: int, h: nat, view: View)
    requires lo < sep < hi && right != 1
    requires Good(t1, page, lo, sep, view) && Good(t2, right, sep, hi, view)
    requires Height(t1) == h && Height(t2) == h
    ensures Grown(Split(sep, right), t1, t2, page, lo, hi, h, view)
  {
  }

  function FlatOf(r: Outcome, t1: Tree, t2: Tree): seq<KV> {
    if r.Split? then Flat(t1) + Flat(t2) else Flat(t1)
  }

  /** The rightmost leaf of what an insertion left. */
  function RightOf(r: Outcome, t1: Tree, t2: Tree): seq<Entry> {
    RightLeaf(if r.Split? then t2 else t1)
  }

  lemma RightOfIs(r: Outcome, t1: Tree, t2: Tree)
    ensures RightOf(r, t1, t2) == RightLeaf(if r.Split? then t2 else t1)
  {
  }

  /** The rightmost leaf of a tree is empty after an insertion only if it was empty before, below a root that
      is not it. */
  predicate LastKept(after: seq<Entry>, t: Tree) {
    after == [] ==> RightLeaf(t) == [] && t.InteriorT?
  }

  /** All nodes that an insertion left fit, or all but the one on page p. */
  predicate FitsOf(r: Outcome, t1: Tree, t2: Tree) {
    FitsAll(t1) && (r.Split? ==> FitsAll(t2))
  }

  predicate FitsButOf(r: Outcome, t1: Tree, t2: Tree, p: PageId) {
    FitsBut(t1, p) && (r.Split? ==> FitsBut(t2, p))
  }

  function IdsOf(r: Outcome, t1: Tree, t2: Tree): multiset<PageId> {
    if r.Split? then Ids(t1) + Ids(t2) else Ids(t1)
  }

  lemma UpsertStored(es: seq<Entry>, found: bool, pos: nat, e: Entry, view: View)
    requires pos <= |es| && (found ==> pos < |es|) && EntryStored(view, e)
    requires forall i :: 0 <= i < |es| ==> EntryStored(view, es[i])
    ensures forall i :: 0 <= i < |UpsertEntries(es, found, pos, e)| ==>
              EntryStored(view, UpsertEntries(es, found, pos, e)[i])
  {
    var es' := UpsertEntries(es, found, pos, e);
    forall i | 0 <= i < |es'|
      ensures EntryStored(view, es'[i])
    {
      if i < pos {
        assert es'[i] == es[i];
      } else if i > pos {
        assert es'[i] == es[if found then i else i - 1];
      }
    }
  }

  lemma EntriesAfter(es: seq<Entry>, e: Entry, view: View, view': View, ps: multiset<PageId>)
    requires forall i :: 0 <= i < |es| ==> EntryStored(view, es[i])
    requires EntryStored(view, e) && Same(view, view', ChainIds(LeafAfter(es, e)) + ps)
    ensures forall i :: 0 <= i < |LeafAfter(es, e)| ==> EntryStored(view', LeafAfter(es, e)[i])
  {
    UpsertStored(es, HasKey(Cells(es), e.cell.key), CellPos(Cells(es), e.cell.key), e, view);
    EntriesSame(LeafAfter(es, e), view, view', ChainIds(LeafAfter(es, e)) + ps);
  }

  /** The neighbours of e's place are below and above it. */
  lemma AroundPos(es: seq<Entry>, key: int)
    requires SortedCells(Cells(es))
    ensures var pos := CellPos(Cells(es), key);
            && (forall i :: 0 <= i < pos ==> es[i].cell.key < key)
            && forall i :: (if HasKey(Cells(es), key) then pos + 1 else pos) <= i < |es| ==> key < es[i].cell.key
  {
    var cs := Cells(es);
    var pos := CellPos(cs, key);
    forall i | 0 <= i < |es|
      ensures i < pos ==> es[i].cell.key < key
      ensures (if HasKey(cs, key) then pos + 1 else pos) <= i ==> key < es[i].cell.key
    {
      assert cs[i].key == es[i].cell.key;
      assert pos < i ==> cs[pos].key < cs[i].key;
    }
  }

  /** The edited leaf is in order and its records are the old ones with e put in. */
  lemma LeafAfterOk(es: seq<Entry>, e: Entry, lo: int, hi: int)
    requires LeafOk(es, lo, hi) && lo < e.cell.key <= hi && CellOk(e.cell)
    ensures LeafOk(LeafAfter(es, e), lo, hi)
    ensures Records(LeafAfter(es, e)) == Upsert(Records(es), e.cell.key, e.value)
    ensures Cells(LeafAfter(es, e)) == Upserted(Cells(es), e.cell) && LeafAfter(es, e) != []
  {
    var found, pos := HasKey(Cells(es), e.cell.key), CellPos(Cells(es), e.cell.key);
    AroundPos(es, e.cell.key);
    UpsertLeafOk(es, lo, hi, found, pos, e);
    UpsertRecords(es, found, pos, e);
    UpsertCellsOf(es, found, pos, e);
  }

  lemma LeafGood(es: seq<Entry>, page: PageId, lo: int, hi: int, view: View)
    requires LeafOk(es, lo, hi) && Writes(page, Leaf(Cells(es))) && Holds(view, page, Leaf(Cells(es)))
    requires forall i :: 0 <= i < |es| ==> EntryStored(view, es[i])
    ensures Good(LeafT(page, es), page, lo, hi, view) && Height(LeafT(page, es)) == 0
    ensures Flat(LeafT(page, es)) == Records(es) && Ids(LeafT(page, es)) == multiset{page} + ChainIds(es)
  {
  }

  /** The left half of a leaf that is cut. */
  function LeftOf(es: seq<Entry>): seq<Entry> {
    if |es| < 2 then es else es[..SplitIndex(Cells(es))]
  }

  /** The written pages hold the edited leaf, whole or in two. */
  lemma LeafGrown(es: seq<Entry>, page: PageId, lo: int, hi: int, r: Outcome, view: View)
    returns (t1: Tree, t2: Tree)
    requires LeafOk(es, lo, hi) && LeafWritten(view, page, Cells(es), r) && !r.Panicked? && es != []
    requires forall i :: 0 <= i < |es| ==> EntryStored(view, es[i])
    ensures Grown(r, t1, t2, page, lo, hi, 0, view)
    ensures FlatOf(r, t1, t2) == Records(es) && IdsOf(r, t1, t2) == multiset{page} + NewPage(r) + ChainIds(es)
    ensures RightOf(r, t1, t2) != []
    ensures FitsOf(r, t1, t2) <==> LeafRoom(page, Cells(es))
    ensures FitsButOf(r, t1, t2, page)
    ensures r.Done? ==> t1 == LeafT(page, es) && FitsAll(t1)
    ensures r.Split? ==> t1 == LeafT(page, LeftOf(es)) && FitsAll(t2) && !Fits(page, Leaf(Cells(es)))
  {
    hide LeafOk, TreeOk, Stored, EntryStored, CellOk, Good, Grown, Writes, LeafSum;
    if r.Done? {
      t1 := LeafT(page, es);
      t2 := t1;
      FitsWrites(page, Leaf(Cells(es)));
      LeafGood(es, page, lo, hi, view);
      GrownDone(t1, page, lo, hi, 0, view);
    } else {
      var m := SplitIndex(Cells(es));
      t1, t2 := LeafT(page, es[..m]), LeafT(r.right, es[m..]);
      LeafGrownCut(es, page, lo, hi, r, view, m);
      LeafCutParts(es, page, r.right, m);
      CutLeafCells(es, m);
    }
  }

  lemma EntriesCut(es: seq<Entry>, view: View, m: nat)
    requires m <= |es| && forall i :: 0 <= i < |es| ==> EntryStored(view, es[i])
    ensures forall i :: 0 <= i < m ==> EntryStored(view, es[..m][i])
    ensures forall i :: 0 <= i < |es| - m ==> EntryStored(view, es[m..][i])
  {
    hide EntryStored;
    forall i | 0 <= i < |es| - m
      ensures EntryStored(view, es[m..][i])
    {
      assert es[m..][i] == es[m + i];
    }
  }

  lemma {:induction false} LeftLeafGood(es: seq<Entry>, page: PageId, lo: int, hi: int, view: View, m: nat)
    requires LeafOk(es, lo, hi) && 0 < m < |es|
    requires Writes(page, Leaf(Cells(es)[..m])) && Holds(view, page, Leaf(Cells(es)[..m]))
    requires forall i :: 0 <= i < |es| ==> EntryStored(view, es[i])
    ensures Good(LeafT(page, es[..m]), page, lo, es[m - 1].cell.key, view)
  {
    CutLeafOk(es, lo, hi, m);
    CutLeafCells(es, m);
    EntriesCut(es, view, m);
    LeafGood(es[..m], page, lo, es[m - 1].cell.key, view);
  }

  lemma {:induction false} RightLeafGood(es: seq<Entry>, page: PageId, lo: int, hi: int, view: View, m: nat)
    requires LeafOk(es, lo, hi) && 0 < m < |es|
    requires Writes(page, Leaf(Cells(es)[m..])) && Holds(view, page, Leaf(Cells(es)[m..]))
    requires forall i :: 0 <= i < |es| ==> EntryStored(view, es[i])
    ensures Good(LeafT(page, es[m..]), page, es[m - 1].cell.key, hi, view)
  {
    CutLeafOk(es, lo, hi, m);
    CutLeafCells(es, m);
    EntriesCut(es, view, m);
    LeafGood(es[m..], page, es[m - 1].cell.key, hi, view);
  }

  lemma {:induction false} LeafGrownCut(es: seq<Entry>, page: PageId, lo: int, hi: int, r: Outcome, view: View, m: nat)
    requires LeafOk(es, lo, hi) && r.Split? && LeafCut(view, page, Cells(es), r.right, r.sep)
    requires forall i :: 0 <= i < |es| ==> EntryStored(view, es[i])
    requires m == SplitIndex(Cells(es))
    ensures Grown(r, LeafT(page, es[..m]), LeafT(r.right, es[m..]), page, lo, hi, 0, view)
  {
    hide LeafOk, TreeOk, Stored, EntryStored, Fits, Writes, CellOk, Good;
    LeftLeafGood(es, page, lo, hi, view, m);
    FitsWrites(r.right, Leaf(Cells(es)[m..]));
    RightLeafGood(es, r.right, lo, hi, view, m);
    CutLeafOk(es, lo, hi, m);
    GrownSplit(LeafT(page, es[..m]), LeafT(r.right, es[m..]), page, r.sep, r.right, lo, hi, 0, view);
  }

  lemma {:induction false} LeafCutParts(es: seq<Entry>, page: PageId, right: PageId, m: nat)
    requires m <= |es|
    ensures Records(es) == Flat(LeafT(page, es[..m])) + Flat(LeafT(right, es[m..]))
    ensures Ids(LeafT(page, es[..m])) + Ids(LeafT(right, es[m..])) == multiset{page} + multiset{right} + ChainIds(es)
  {
    CutLeafCells(es, m);
    CutLeafChains(es, m);
  }

  /** Whether an insertion finds room: decided by the one leaf the key descends to. Without room it panics, or
      cells are laid over each other. */
  predicate Room(t: Tree, c: LeafCell) {
    match t
    case LeafT(id, es) => LeafRoom(id, Upserted(Cells(es), c))
    case InteriorT(_, kids, keys) =>
      ChildIndex(keys, c.key) < |kids| && Room(kids[ChildIndex(keys, c.key)], c)
  }

  /** Whether an insertion gets through without a panic: decided there too. */
  predicate Survives(t: Tree, c: LeafCell) {
    match t
    case LeafT(id, es) => LeafWrites(id, Upserted(Cells(es), c))
    case InteriorT(_, kids, keys) =>
      ChildIndex(keys, c.key) < |kids| && Survives(kids[ChildIndex(keys, c.key)], c)
  }
}
