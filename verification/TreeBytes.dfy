/** Whole trees as page bytes: every page of a tree the b-tree keeps can be written, and reading
    the bytes back gives the same tree. */
module TreeBytes {
  import opened Common
  import opened Varint
  import opened Nodes
  import opened Trees
  import opened PageFormat

  /** The page's numbers and sizes fit the byte format, so that it can be written. */
  predicate Writable(id: PageId, p: Page) {
    match p
    case NodePage(n) => Encodable(n) && Writes(id, n)
    case OverflowPage(next, data) => next < U32 && |data| == OVERFLOW_CAP
  }

  /** A node on the page fits, so that it reads as it was written. */
  predicate Readable(id: PageId, p: Page) {
    p.NodePage? ==> Fits(id, p.node) && Shaped(p.node)
  }

  /** The bytes s of page id are p as written: they hold it if it fits, and else its cells lie over each other. */
  predicate Held(s: seq<byte>, id: PageId, p: Page) {
    match p
    case NodePage(n) =>
      && Encodable(n)
      && if Fits(id, n) then PageHeld(s, id, n) else Writes(id, n) && s == Image(seq(HeaderOffset(id), _ => 0), id, n)
    case OverflowPage(next, data) => |s| == PAGE_SIZE && Get32(s, 0) == next && s[4..] == data
  }

  /** Writes an overflow page: the next page's number, then the payload. */
  method WriteLink(next: PageId, data: seq<byte>, buf: array<byte>)
    requires buf.Length == PAGE_SIZE && next < U32 && |data| == OVERFLOW_CAP
    modifies buf
    ensures Held(buf[..], 0, OverflowPage(next, data))
  {
    CopyIn(buf, 4, data);
    assert buf[4..] == data;
    WriteU32(buf, 0, next);
    assert buf[..][4..] == data;
  }

  /** What a reader gets from the bytes of a page it takes for a node, or for an overflow page. */
  function Load(id: PageId, s: seq<byte>, isNode: bool): Option<Page>
    requires |s| == PAGE_SIZE
  {
    if isNode then
      match Parse(id, s)
      case Done(n) => Some(NodePage(n))
      case Corrupt => None
      case Panic => None
    else Some(OverflowPage(Get32(s, 0), s[4..]))
  }

  lemma LoadBack(id: PageId, s: seq<byte>, p: Page)
    requires Held(s, id, p) && Readable(id, p)
    ensures |s| == PAGE_SIZE && Load(id, s, p.NodePage?) == Some(p)
  {
    hide Parse, PageHeld, Encodable, Shaped, Fits, Image, Get32;
    if p.NodePage? {
      HeldSize(s, id, p.node);
      ParseBack(s, id, p.node);
    }
  }

  lemma HeldSize(s: seq<byte>, id: PageId, n: Node)
    requires Encodable(n) && PageHeld(s, id, n)
    ensures |s| == PAGE_SIZE
  {
  }

  // ---- trees ----

  predicate Small(ps: multiset<PageId>) {
    forall p :: p in ps ==> p < U32
  }

  /** A part of small pages is small. */
  lemma SmallPart(ps: multiset<PageId>, a: multiset<PageId>, b: multiset<PageId>, c: multiset<PageId>)
    requires Small(ps) && ps == a + b + c
    ensures Small(b)
  {
    forall p | p in b
      ensures p < U32
    {
      assert p in ps;
    }
  }

  lemma {:induction false} ChainWritable(view: View, first: PageId, chain: seq<PageId>, tail: seq<byte>, p: PageId)
    requires ChainStored(view, first, chain, tail) && Small(multiset(chain))
    ensures p in chain ==> p in view && view[p].OverflowPage? && Writable(p, view[p])
    ensures first < U32
    decreases |chain|
  {
    if chain != [] {
      assert chain[0] in multiset(chain);
      assert chain == [chain[0]] + chain[1..];
      SmallPart(multiset(chain), multiset{chain[0]}, multiset(chain[1..]), multiset{});
      ChainWritable(view, view[first].next, chain[1..], tail[Min(|tail|, OVERFLOW_CAP)..], p);
    }
  }

  lemma {:induction false} ChainOf(es: seq<Entry>, p: PageId) returns (i: nat)
    requires p in ChainIds(es)
    ensures i < |es| && p in es[i].chain
  {
    if p in multiset(es[0].chain) {
      i := 0;
    } else {
      i := ChainOf(es[1..], p);
      i := i + 1;
    }
  }

  lemma {:induction false} KidOf(kids: seq<Tree>, p: PageId) returns (i: nat)
    requires p in IdsAll(kids)
    ensures i < |kids| && p in Ids(kids[i])
  {
    hide Ids, IdsAll;
    FirstKid(kids, p);
    if p in Ids(kids[0]) {
      i := 0;
    } else {
      i := KidOf(kids[1..], p);
      i := i + 1;
    }
  }

  lemma FirstKid(kids: seq<Tree>, p: PageId)
    requires p in IdsAll(kids)
    ensures kids != [] && (p in Ids(kids[0]) || p in IdsAll(kids[1..]))
  {
    hide Ids;
  }

  lemma EntryWritable(view: View, es: seq<Entry>, i: nat, p: PageId)
    requires i < |es| && EntryStored(view, es[i]) && Small(ChainIds(es))
    ensures p in es[i].chain ==> p in view && view[p].OverflowPage? && Writable(p, view[p])
    ensures es[i].cell.overflow < U32
  {
    hide ChainIds, ChainStored, Small, Writable, CellOk, InlineLen;
    ChainIdsAt(es, i);
    SmallPart(ChainIds(es), ChainIds(es[..i]), multiset(es[i].chain), ChainIds(es[i + 1..]));
    ChainWritable(view, es[i].cell.overflow, es[i].chain, es[i].value[InlineLen(|es[i].value|)..], p);
  }

  lemma LeafWritable(t: Tree, lo: int, hi: int, view: View)
    requires t.LeafT? && TreeOk(t, lo, hi) && Stored(t, view) && Small(ChainIds(t.entries))
    ensures Encodable(NodeOf(t))
  {
    var cs := Cells(t.entries);
    forall i | 0 <= i < |cs|
      ensures CellOk(cs[i]) && cs[i].overflow < U32
    {
      EntryWritable(view, t.entries, i, 0);
    }
  }

  lemma KidSmall(kids: seq<Tree>, i: nat)
    requires i < |kids| && Small(IdsAll(kids))
    ensures Small(Ids(kids[i])) && kids[i].id < U32
  {
    hide IdsAll, Ids;
    KidAt(kids, i);
    SmallPart(IdsAll(kids), IdsAll(kids[..i]), Ids(kids[i]), IdsAll(kids[i + 1..]));
    OwnId(kids[i]);
  }

  lemma OwnId(t: Tree)
    ensures t.id in Ids(t)
  {
  }

  lemma InteriorWritable(t: Tree, lo: int, hi: int, view: View)
    requires t.InteriorT? && TreeOk(t, lo, hi) && Stored(t, view) && Small(IdsAll(t.kids))
    ensures Encodable(NodeOf(t))
  {
    hide IdsAll, Ids;
    var cs := Pointers(t.kids, t.keys);
    forall i | 0 <= i < |cs|
      ensures cs[i].child < U32
    {
      KidSmall(t.kids, i);
    }
    KidSmall(t.kids, |t.keys|);
  }

  /** The page is the root, or belongs to a child or an overflow chain below it. */
  lemma Below(t: Tree, p: PageId)
    requires p in Ids(t) && Small(Ids(t))
    ensures t.LeafT? ==> Small(ChainIds(t.entries)) && (p == t.id || p in ChainIds(t.entries))
    ensures t.InteriorT? ==> Small(IdsAll(t.kids)) && (p == t.id || p in IdsAll(t.kids))
  {
    match t
    case LeafT(id, es) => SmallPart(Ids(t), multiset{id}, ChainIds(es), multiset{});
    case InteriorT(id, kids, _) => SmallPart(Ids(t), multiset{id}, IdsAll(kids), multiset{});
  }

  lemma KidHeld(t: Tree, lo: int, hi: int, view: View, i: nat)
    requires t.InteriorT? && TreeOk(t, lo, hi) && Stored(t, view) && i < |t.kids|
    ensures i <= |t.keys| && TreeOk(t.kids[i], Lo(t.keys, i, lo), Hi(t.keys, i, hi)) && Stored(t.kids[i], view)
  {
  }

  lemma RootHeld(t: Tree, lo: int, hi: int, view: View)
    requires TreeOk(t, lo, hi) && Stored(t, view)
    ensures t.id in view && view[t.id] == NodePage(NodeOf(t)) && Writes(t.id, NodeOf(t))
  {
  }

  lemma EntryHeld(t: Tree, view: View, i: nat)
    requires t.LeafT? && Stored(t, view) && i < |t.entries|
    ensures EntryStored(view, t.entries[i])
  {
  }

  /** Every page of a stored tree, nodes and overflow pages alike, can be written in the byte format. */
  lemma {:induction false} TreeWritable(t: Tree, lo: int, hi: int, view: View, p: PageId)
    requires TreeOk(t, lo, hi) && Stored(t, view) && Small(Ids(t)) && p in Ids(t)
    ensures p in view && Writable(p, view[p])
    decreases t
  {
    hide TreeOk, Stored, Ids, IdsAll, ChainIds, Small, NodeOf, EntryStored, Writes, Encodable;
    RootHeld(t, lo, hi, view);
    Below(t, p);
    match t
    case LeafT(id, es) =>
      LeafWritable(t, lo, hi, view);
      if p != id {
        var i := ChainOf(es, p);
        EntryHeld(t, view, i);
        EntryWritable(view, es, i, p);
      }
    case InteriorT(id, kids, keys) =>
      InteriorWritable(t, lo, hi, view);
      if p != id {
        var i := KidOf(kids, p);
        KidSmall(kids, i);
        KidHeld(t, lo, hi, view, i);
        TreeWritable(kids[i], Lo(keys, i, lo), Hi(keys, i, hi), view, p);
      }
  }

  type Disk = map<PageId, seq<byte>>

  /** disk holds, byte for byte, the pages of ps. */
  predicate DiskHolds(disk: Disk, view: View, ps: multiset<PageId>) {
    forall p :: p in ps && p in view ==> p in disk && Held(disk[p], p, view[p])
  }

  /** The pages read back from disk, those in nodes as b-tree nodes and the others as overflow pages. */
  function Loaded(disk: Disk, nodes: set<PageId>): View {
    map p | p in disk && |disk[p]| == PAGE_SIZE && Load(p, disk[p], p in nodes).Some? :: Load(p, disk[p], p in nodes).value
  }

  function NodePages(view: View): set<PageId> {
    set p | p in view && view[p].NodePage?
  }

  lemma {:induction false} ChainHas(view: View, first: PageId, chain: seq<PageId>, tail: seq<byte>, p: PageId)
    requires ChainStored(view, first, chain, tail) && p in chain
    ensures p in view && view[p].OverflowPage?
    decreases |chain|
  {
    if p != chain[0] {
      ChainHas(view, view[first].next, chain[1..], tail[Min(|tail|, OVERFLOW_CAP)..], p);
    }
  }

  lemma RootReadable(t: Tree, view: View)
    requires Stored(t, view) && FitsAll(t)
    ensures Readable(t.id, view[t.id])
  {
  }

  /** Every page of a stored tree is there, and reads as it was written where all nodes fit. */
  lemma {:induction false} TreeHas(t: Tree, view: View, p: PageId)
    requires Stored(t, view) && p in Ids(t)
    ensures p in view && (FitsAll(t) ==> Readable(p, view[p]))
    decreases t
  {
    hide IdsAll, ChainIds, ChainStored, Readable, NodeOf, Fits;
    if FitsAll(t) {
      RootReadable(t, view);
    }
    if p != t.id {
      match t
      case LeafT(_, es) =>
        var i := ChainOf(es, p);
        ChainHas(view, es[i].cell.overflow, es[i].chain, es[i].value[InlineLen(|es[i].value|)..], p);
        LinkReadable(p, view[p]);
      case InteriorT(_, kids, _) =>
        var i := KidOf(kids, p);
        TreeHas(kids[i], view, p);
    }
  }

  lemma LinkReadable(id: PageId, p: Page)
    requires p.OverflowPage?
    ensures Readable(id, p)
  {
  }

  /** A tree whose nodes fit, written to disk page by page and read back is the same tree with the same records. */
  lemma TreeReadsBack(t: Tree, view: View, disk: Disk)
    requires Stored(t, view) && FitsAll(t) && DiskHolds(disk, view, Ids(t))
    ensures Stored(t, Loaded(disk, NodePages(view)))
  {
    hide Load, Held, Readable, Stored, FitsAll, Ids;
    var v' := Loaded(disk, NodePages(view));
    forall p | p in Ids(t)
      ensures p in view && p in v' && v'[p] == view[p]
    {
      TreeHas(t, view, p);
      LoadBack(p, disk[p], view[p]);
    }
    StoredSame(t, view, v', Ids(t));
  }
}
