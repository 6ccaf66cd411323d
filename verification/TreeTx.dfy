/** B-trees edited through write transactions: pages are parsed when read, serialised when written, and
    after the commit the bytes hold the edited tree. */
module TreeTransactions {
  import opened Common
  import opened Varint
  import opened Nodes
  import opened Table
  import opened Trees
  import opened PageFormat
  import opened TreeBytes
  import opened WalFrames
  import opened DbHeaders
  import opened Overflow
  import LeafPages
  import InteriorPages
  import BTrees
  import TableRuns
  import Snapshots
  import D = Databases

  type Bytes = Snapshots.View

  // ---- bytes that hold pages ----

  /** Bytes that differ in the database header only hold the same node. */
  lemma HeldAlike(id: PageId, s: Data, s': Data, p: Page)
    requires Held(s, id, p) && Readable(id, p) && Alike(id, s', s) && (id == 1 ==> p.NodePage?)
    ensures Held(s', id, p)
  {
    hide Alike, CellHeld, HeaderHeld, Encodable, Fits, Shaped, Writes, Image, Get32, Count, ArrayAt;
    if id == 1 {
      FromHeader(s, s');
      NodeAlike(s, s', p.node);
    } else {
      AlikeElsewhere(id, Some(s'), Some(s));
    }
  }

  lemma FromHeader(s: Data, s': Data)
    requires Alike(1, s', s)
    ensures forall j :: HEADER_SIZE <= j < PAGE_SIZE ==> s'[j] == s[j]
  {
    forall j | HEADER_SIZE <= j < PAGE_SIZE
      ensures s'[j] == s[j]
    {
      assert s'[j] == s'[HEADER_SIZE..][j - HEADER_SIZE] && s[j] == s[HEADER_SIZE..][j - HEADER_SIZE];
    }
  }

  lemma NodeAlike(s: Data, s': Data, n: Node)
    requires Encodable(n) && Fits(1, n) && PageHeld(s, 1, n)
    requires forall j :: HEADER_SIZE <= j < PAGE_SIZE ==> s'[j] == s[j]
    ensures PageHeld(s', 1, n)
  {
    hide CellHeld, HeaderHeld, Encodable, Fits, CellAt, CellBytes;
    CellsTile(1, n);
    HeaderSame(s, s', 1, n);
    forall i | 0 <= i < Count(n)
      ensures CellHeld(s', 1, n, i)
    {
      assert CellAt(n, 0) <= CellAt(n, i) && CellAt(n, i + 1) == CellAt(n, i) + |CellBytes(n, i)|;
      assert CellAt(n, i + 1) <= PAGE_SIZE;
      CellSame(s, s', 1, n, i);
    }
  }

  /** The bytes hold every page of ps, page 1 as a node. */
  ghost predicate HeldPages(bytes: Bytes, view: View, ps: multiset<PageId>) {
    forall p :: p in ps ==>
      p in view && Readable(p, view[p]) && p in bytes && Held(bytes[p], p, view[p]) && (p == 1 ==> view[p].NodePage?)
  }

  /** The tree and its records are what the bytes hold. */
  ghost predicate HeldTree(bytes: Bytes, t: Tree, view: View) {
    Stored(t, view) && HeldPages(bytes, view, Ids(t))
  }

  lemma HeldPart(bytes: Bytes, view: View, ps: multiset<PageId>, qs: multiset<PageId>)
    requires HeldPages(bytes, view, ps) && qs <= ps
    ensures HeldPages(bytes, view, qs)
  {
    hide Held, Readable;
  }

  lemma HeldAt(bytes: Bytes, view: View, ps: multiset<PageId>, p: PageId)
    requires HeldPages(bytes, view, ps) && p in ps
    ensures p in view && Readable(p, view[p]) && p in bytes && Held(bytes[p], p, view[p]) && (p == 1 ==> view[p].NodePage?)
  {
    hide Held, Readable;
  }

  /** base holds the pages of ps and no other, as view has them. */
  ghost predicate Loads(base: View, view: View, ps: multiset<PageId>) {
    && (forall p :: p in base <==> p in ps)
    && forall p :: p in base ==> p in view && base[p] == view[p]
  }

  lemma LoadsNone(view: View)
    ensures Loads(map[], view, multiset{})
  {
  }

  lemma LoadsMore(base: View, base': View, view: View, ps: multiset<PageId>, qs: multiset<PageId>)
    requires Loads(base, view, ps) && Loads(base', view, qs)
    ensures Loads(base + base', view, ps + qs)
  {
  }

  lemma LoadsOne(view: View, id: PageId, page: Page)
    requires id in view && view[id] == page
    ensures Loads(map[id := page], view, multiset{id})
  {
  }

  // ---- reading a tree through a transaction ----

  /** A write transaction that has written nothing yet. */
  predicate Fresh(m: D.Model) {
    !m.lost && m.writer.Some? && m.writer.value.pending == map[]
  }

  lemma GotPage(m: D.Model, m': D.Model, p: PageId, r: Option<Data>)
    requires Fresh(m) && D.Allows(m, D.Get(p), m', r) && p in m.committed
    ensures m' == m && r.Some? && Alike(p, r.value, m.committed[p])
  {
    hide Alike;
    assert m.committed + map[] == m.committed;
  }

  /** A page as the b-tree gets it: read through the transaction and parsed. */
  method GetPage(d: D.Database, id: PageId, isNode: bool, ghost view: View, ghost ps: multiset<PageId>) returns (page: Page)
    requires d.Valid() && Fresh(d.model) && HeldPages(d.model.committed, view, ps) && id in ps
    requires view[id].NodePage? == isNode
    modifies d.Footprint()
    ensures d.Valid() && d.model == old(d.model) && d.Footprint() == old(d.Footprint())
    ensures page == view[id]
  {
    hide *;
    HeldAt(d.model.committed, view, ps, id);
    ghost var m := d.model;
    var r := d.GetPage(id);
    GotPage(m, d.model, id, r);
    HeldAlike(id, m.committed[id], r.value, view[id]);
    LoadBack(id, r.value, view[id]);
    page := Load(id, r.value, isNode).value;
  }

  method LoadChain(d: D.Database, first: PageId, ghost chain: seq<PageId>, ghost tail: seq<byte>, ghost view: View)
    returns (base: View)
    requires d.Valid() && Fresh(d.model) && HeldPages(d.model.committed, view, multiset(chain))
    requires ChainStored(view, first, chain, tail)
    modifies d.Footprint()
    ensures d.Valid() && d.model == old(d.model) && d.Footprint() == old(d.Footprint())
    ensures Loads(base, view, multiset(chain))
  {
    hide *;
    base := map[];
    LoadsNone(view);
    var next := first;
    ghost var left, rest, done := chain, tail, [];
    assert chain == done + left;
    while next != 0
      invariant d.Valid() && d.model == old(d.model) && d.Footprint() == old(d.Footprint())
      invariant ChainStored(view, next, left, rest) && chain == done + left
      invariant Loads(base, view, multiset(done))
      decreases |left|
    {
      FirstLink(view, next, left, rest);
      ChainTaken(chain, done, left);
      var page := GetPage(d, next, false, view, multiset(chain));
      LoadsOne(view, next, page);
      LoadsMore(base, map[next := page], view, multiset(done), multiset{next});
      base := base + map[next := page];
      ChainRest(view, next, left, rest);
      done, left, rest := done + [next], left[1..], rest[Min(|rest|, OVERFLOW_CAP)..];
      next := page.next;
    }
    ChainEnds(view, left, rest);
    assert done == chain;
  }

  lemma ChainTaken(chain: seq<PageId>, done: seq<PageId>, left: seq<PageId>)
    requires chain == done + left && left != []
    ensures left[0] in multiset(chain) && done + [left[0]] + left[1..] == chain
    ensures multiset(done + [left[0]]) == multiset(done) + multiset{left[0]}
  {
    assert left == [left[0]] + left[1..];
    assert chain[|done|] == left[0];
  }

  lemma ChainRest(view: View, first: PageId, chain: seq<PageId>, tail: seq<byte>)
    requires first != 0 && ChainStored(view, first, chain, tail)
    ensures chain != [] && first in view && view[first].OverflowPage? && Min(|tail|, OVERFLOW_CAP) <= |tail|
    ensures ChainStored(view, view[first].next, chain[1..], tail[Min(|tail|, OVERFLOW_CAP)..])
  {
  }

  lemma ChainEnds(view: View, chain: seq<PageId>, tail: seq<byte>)
    requires ChainStored(view, 0, chain, tail)
    ensures chain == []
  {
  }

  method LoadLeaf(d: D.Database, cells: seq<LeafCell>, ghost es: seq<Entry>, ghost view: View) returns (base: View)
    requires d.Valid() && Fresh(d.model) && HeldPages(d.model.committed, view, ChainIds(es))
    requires cells == Cells(es) && forall i :: 0 <= i < |es| ==> EntryStored(view, es[i])
    modifies d.Footprint()
    ensures d.Valid() && d.model == old(d.model) && d.Footprint() == old(d.Footprint())
    ensures Loads(base, view, ChainIds(es))
  {
    hide *;
    base := map[];
    CellsAre(es);
    NoChains(view);
    assert es[..0] == [];
    for i := 0 to |cells|
      invariant d.Valid() && d.model == old(d.model) && d.Footprint() == old(d.Footprint())
      invariant Loads(base, view, ChainIds(es[..i]))
    {
      ChainIdsAt(es, i);
      ChainIdsNext(es, i);
      EntryChain(view, es[i]);
      HeldPart(d.model.committed, view, ChainIds(es), multiset(es[i].chain));
      var chain := LoadChain(d, cells[i].overflow, es[i].chain, es[i].value[InlineLen(|es[i].value|)..], view);
      LoadsMore(base, chain, view, ChainIds(es[..i]), multiset(es[i].chain));
      base := base + chain;
    }
    assert es[..|es|] == es;
  }

  lemma CellsAre(es: seq<Entry>)
    ensures |Cells(es)| == |es| && forall i :: 0 <= i < |es| ==> Cells(es)[i] == es[i].cell
  {
  }

  lemma NoChains(view: View)
    ensures Loads(map[], view, ChainIds([]))
  {
  }

  lemma ChainIdsNext(es: seq<Entry>, i: nat)
    requires i < |es|
    ensures ChainIds(es[..i + 1]) == ChainIds(es[..i]) + multiset(es[i].chain)
    ensures multiset(es[i].chain) <= ChainIds(es)
  {
    hide ChainIds;
    ChainIdsAt(es, i);
    ChainIdsAt(es[..i + 1], i);
    assert es[..i + 1][..i] == es[..i] && es[..i + 1][i + 1..] == [];
    NoChainIds();
  }

  lemma NoChainIds()
    ensures ChainIds([]) == multiset{}
  {
  }

  lemma EntryChain(view: View, e: Entry)
    requires EntryStored(view, e)
    ensures InlineLen(|e.value|) <= |e.value|
    ensures ChainStored(view, e.cell.overflow, e.chain, e.value[InlineLen(|e.value|)..])
  {
  }

  /** Reads every page of a tree, parsing each as what its parent takes it for. */
  method LoadTree(d: D.Database, page: PageId, ghost t: Tree, ghost view: View) returns (base: View)
    requires d.Valid() && Fresh(d.model) && HeldTree(d.model.committed, t, view) && t.id == page
    modifies d.Footprint()
    ensures d.Valid() && d.model == old(d.model) && d.Footprint() == old(d.Footprint())
    ensures Loads(base, view, Ids(t))
    decreases t, 1
  {
    hide *;
    TreeParts(d.model.committed, t, view);
    var got := GetPage(d, page, true, view, Ids(t));
    LoadsOne(view, page, got);
    var below: View;
    match got.node {
      case Leaf(cells) =>
        HeldPart(d.model.committed, view, Ids(t), ChainIds(t.entries));
        below := LoadLeaf(d, cells, t.entries, view);
        LoadsMore(map[page := got], below, view, multiset{page}, ChainIds(t.entries));
      case Interior(cells, right) =>
        HeldPart(d.model.committed, view, Ids(t), IdsAll(t.kids));
        below := LoadKids(d, cells, right, t.kids, t.keys, view);
        LoadsMore(map[page := got], below, view, multiset{page}, IdsAll(t.kids));
    }
    base := map[page := got] + below;
  }

  lemma TreeParts(bytes: Bytes, t: Tree, view: View)
    requires HeldTree(bytes, t, view)
    ensures Stored(t, view) && HeldPages(bytes, view, Ids(t))
    ensures t.id in Ids(t) && t.id in view && view[t.id] == NodePage(NodeOf(t))
    ensures t.LeafT? ==> NodeOf(t) == Leaf(Cells(t.entries)) && Ids(t) == multiset{t.id} + ChainIds(t.entries)
    ensures t.LeafT? ==> forall i :: 0 <= i < |t.entries| ==> EntryStored(view, t.entries[i])
    ensures t.InteriorT? ==> Ids(t) == multiset{t.id} + IdsAll(t.kids) && |t.kids| == |t.keys| + 1
    ensures t.InteriorT? ==> NodeOf(t) == Interior(Pointers(t.kids, t.keys), t.kids[|t.keys|].id)
    ensures t.InteriorT? ==> forall i :: 0 <= i < |t.kids| ==> Stored(t.kids[i], view)
  {
    hide Held, Readable, EntryStored, ChainIds, IdsAll, Pointers, Cells;
  }

  method LoadKids(d: D.Database, cells: seq<InteriorCell>, right: PageId, ghost kids: seq<Tree>, ghost keys: seq<rowid>,
                  ghost view: View)
    returns (base: View)
    requires d.Valid() && Fresh(d.model) && HeldPages(d.model.committed, view, IdsAll(kids))
    requires |kids| == |keys| + 1 && cells == Pointers(kids, keys) && right == kids[|keys|].id
    requires forall i :: 0 <= i < |kids| ==> Stored(kids[i], view)
    modifies d.Footprint()
    ensures d.Valid() && d.model == old(d.model) && d.Footprint() == old(d.Footprint())
    ensures Loads(base, view, IdsAll(kids))
    decreases kids, 0
  {
    hide *;
    base := map[];
    PointersAre(kids, keys);
    NoKids(view);
    assert kids[..0] == [];
    for i := 0 to |cells| + 1
      invariant d.Valid() && d.model == old(d.model) && d.Footprint() == old(d.Footprint())
      invariant Loads(base, view, IdsAll(kids[..i]))
    {
      KidIdsNext(kids, i);
      HeldPart(d.model.committed, view, IdsAll(kids), Ids(kids[i]));
      TreeHeld(d.model.committed, kids[i], view);
      var kid := LoadTree(d, if i < |cells| then cells[i].child else right, kids[i], view);
      LoadsMore(base, kid, view, IdsAll(kids[..i]), Ids(kids[i]));
      base := base + kid;
    }
    assert kids[..|kids|] == kids;
  }

  lemma TreeHeld(bytes: Bytes, t: Tree, view: View)
    requires Stored(t, view) && HeldPages(bytes, view, Ids(t))
    ensures HeldTree(bytes, t, view)
  {
  }

  lemma PointersAre(kids: seq<Tree>, keys: seq<rowid>)
    requires |kids| == |keys| + 1
    ensures |Pointers(kids, keys)| == |keys|
    ensures forall i :: 0 <= i < |keys| ==> Pointers(kids, keys)[i].child == kids[i].id
  {
  }

  lemma NoKids(view: View)
    ensures Loads(map[], view, IdsAll([]))
  {
  }

  lemma KidIdsNext(kids: seq<Tree>, i: nat)
    requires i < |kids|
    ensures IdsAll(kids[..i + 1]) == IdsAll(kids[..i]) + Ids(kids[i])
    ensures Ids(kids[i]) <= IdsAll(kids)
  {
    hide IdsAll, Ids;
    KidAt(kids, i);
    KidAt(kids[..i + 1], i);
    assert kids[..i + 1][..i] == kids[..i] && kids[..i + 1][i + 1..] == [];
    NoKidIds();
  }

  lemma NoKidIds()
    ensures IdsAll([]) == multiset{}
  {
  }

  // ---- writing pages through a transaction ----

  /** The bytes of a page as it is put: a node over a page of zeros, or an overflow page. A node that does not fit
      is put too. */
  method Serialize(id: PageId, page: Page) returns (s: Data)
    ensures Writable(id, page) ==> Held(s, id, page)
    ensures id == 1 && page.NodePage? && Readable(id, page) ==> Bare(s)
  {
    hide PageHeld, Encodable, Fits, Shaped, Writes, Image, Bare;
    var buf := new byte[PAGE_SIZE](_ => 0);
    ghost var zeros := buf[..];
    BareZeros(zeros);
    if Writable(id, page) {
      match page {
        case NodePage(n) =>
          var _ := SerializeInto(id, n, buf);
          assert zeros[..HeaderOffset(id)] == seq(HeaderOffset(id), _ => 0);
          if Fits(id, n) {
            BareFront(zeros, buf[..], id);
          }
        case OverflowPage(next, data) => WriteLink(next, data, buf);
      }
    }
    s := buf[..];
  }

  /** A page 1 without a header, and so without the user version. */
  predicate Bare(s: Data) {
    ReadHeader(s) == Bad(BadMagic) && Get32(s, 60) == 0
  }

  lemma BareZeros(s: Data)
    requires forall i :: 0 <= i < HEADER_SIZE ==> s[i] == 0
    ensures Bare(s)
  {
    hide ReadHeader;
    ZeroFrontRefused(s);
  }

  lemma BareFront(s: Data, s': Data, id: PageId)
    requires forall i :: 0 <= i < HEADER_SIZE ==> s[i] == 0
    requires s'[..HeaderOffset(id)] == s[..HeaderOffset(id)]
    ensures id == 1 ==> Bare(s')
  {
    hide Bare;
    if id == 1 {
      forall i | 0 <= i < HEADER_SIZE
        ensures s'[i] == 0
      {
        assert s'[i] == s'[..HeaderOffset(id)][i] == s[..HeaderOffset(id)][i];
      }
      BareZeros(s');
    }
  }

  /** The transaction holds what the b-tree asked it to: the same allocator, and the bytes of each page put;
      a node put on page 1 took the place of the database header. */
  ghost predicate Mirrors(b: Buffer, w: D.Writer) {
    && w.size == b.pageCount && w.free == b.freelist
    && (forall p :: p in w.pending <==> p in b.pending)
    && forall p :: p in b.pending ==>
         && (Writable(p, b.pending[p]) ==> Held(w.pending[p], p, b.pending[p]))
         && (p == 1 && b.pending[p].NodePage? && Readable(p, b.pending[p]) ==> Bare(w.pending[p]))
  }

  lemma MirrorsPut(b: Buffer, w: D.Writer, id: PageId, page: Page, s: Data)
    requires Mirrors(b, w)
    requires Writable(id, page) ==> Held(s, id, page)
    requires id == 1 && page.NodePage? && Readable(id, page) ==> Bare(s)
    ensures Mirrors(AfterStep(b, Put(id, page)), w.(pending := w.pending[id := s]))
  {
    hide Held, Writable, Readable, Bare;
  }

  lemma MirrorsFree(b: Buffer, w: D.Writer, id: PageId)
    requires Mirrors(b, w)
    ensures Mirrors(AfterStep(b, Free(id)), w.(pending := w.pending - {id}, free := w.free + [id]))
  {
    hide Held, Writable, Readable, Bare;
  }

  lemma MirrorsAlloc(b: Buffer, w: D.Writer)
    requires Mirrors(b, w)
    ensures Mirrors(AfterStep(b, Alloc),
                    if w.free != [] then w.(free := w.free[..|w.free| - 1]) else w.(size := w.size + 1))
  {
    hide Held, Writable, Readable, Bare;
  }

  /** A database with an open transaction that mirrors a buffer. */
  ghost predicate Carries(m: D.Model, b: Buffer) {
    !m.lost && m.writer.Some? && Mirrors(b, m.writer.value)
  }

  lemma StepAllowed(m: D.Model, m': D.Model, b: Buffer, s: Step, bytes: Data, op: D.Op)
    requires Carries(m, b) && D.Allows(m, op, m', None)
    requires match s
             case Alloc => op == D.Alloc && b.pageCount + 1 < U32
             case Put(id, page) =>
               && op == D.Op.Put(id, bytes) && 1 <= id <= b.pageCount
               && (Writable(id, page) ==> Held(bytes, id, page))
               && (id == 1 && page.NodePage? && Readable(id, page) ==> Bare(bytes))
             case Free(id) => op == D.Op.Free(id) && 1 <= id <= b.pageCount
    ensures Carries(m', AfterStep(b, s)) && m' == m.(writer := m'.writer)
  {
    hide Held, Writable, Readable, Bare, Mirrors;
    MirrorsSize(b, m.writer.value);
    match s
    case Alloc => MirrorsAlloc(b, m.writer.value);
    case Put(id, page) => MirrorsPut(b, m.writer.value, id, page, bytes);
    case Free(id) => MirrorsFree(b, m.writer.value, id);
  }

  lemma MirrorsSize(b: Buffer, w: D.Writer)
    requires Mirrors(b, w)
    ensures w.size == b.pageCount && w.free == b.freelist
  {
    hide Held, Writable, Readable, Bare;
  }

  /** What the b-tree reads is what the transaction reads: at any point of an edit, a page of base or one put since
      is there, and where its node fits its bytes parse to what the b-tree has. */
  lemma ReadsAlike(m: D.Model, m': D.Model, b: Buffer, base: View, view: View, ids: multiset<PageId>, p: PageId, r: Option<Data>)
    requires Carries(m, b) && Loads(base, view, ids) && HeldPages(m.committed, view, ids)
    requires p in base + b.pending && Writable(p, (base + b.pending)[p]) && D.Allows(m, D.Get(p), m', r)
    ensures m' == m && r.Some?
    ensures var page := (base + b.pending)[p];
            Readable(p, page) && (p == 1 ==> page.NodePage?) ==> Load(p, r.value, page.NodePage?) == Some(page)
  {
    hide Held, Writable, Readable, Bare, Alike, Load;
    var page := (base + b.pending)[p];
    if p in b.pending {
      if Readable(p, page) && (p == 1 ==> page.NodePage?) {
        HeldAlike(p, m.writer.value.pending[p], r.value, page);
        LoadBack(p, r.value, page);
      }
    } else {
      HeldAt(m.committed, view, ids, p);
      HeldAlike(p, m.committed[p], r.value, page);
      LoadBack(p, r.value, page);
    }
  }

  lemma {:induction false} CountGrows(b: Buffer, steps: seq<Step>, i: nat)
    requires i <= |steps|
    ensures After(b, steps[..i]).pageCount <= After(b, steps).pageCount
    decreases |steps|
  {
    if i < |steps| {
      CountGrows(b, steps[..|steps| - 1], i);
      assert steps[..|steps| - 1][..i] == steps[..i];
    } else {
      assert steps[..i] == steps;
    }
  }

  lemma {:induction false} OrderlyAt(b: Buffer, steps: seq<Step>, i: nat)
    requires Orderly(b, steps) && i < |steps|
    ensures steps[i].Alloc? || 1 <= steps[i].id <= After(b, steps[..i]).pageCount
    decreases |steps|
  {
    if i < |steps| - 1 {
      OrderlyAt(b, steps[..|steps| - 1], i);
      assert steps[..|steps| - 1][..i] == steps[..i];
    }
  }

  /** Performs the calls of a b-tree on the transaction, one by one; after each the transaction carries what the
      b-tree had at that point. */
  method Replay(d: D.Database, steps: seq<Step>, ghost b: Buffer) returns (ghost models: seq<D.Model>)
    requires d.Valid() && Carries(d.model, b) && Orderly(b, steps) && After(b, steps).pageCount + 1 < U32
    modifies d.Footprint()
    ensures d.Valid() && d.Footprint() == old(d.Footprint())
    ensures |models| == |steps| + 1 && models[0] == old(d.model) && models[|steps|] == d.model
    ensures forall i :: 0 <= i <= |steps| ==>
              Carries(models[i], After(b, steps[..i])) && models[i] == old(d.model).(writer := models[i].writer)
  {
    hide *;
    AfterNone(b);
    assert steps[..0] == [];
    models := [d.model];
    for i := 0 to |steps|
      invariant d.Valid() && d.Footprint() == old(d.Footprint())
      invariant |models| == i + 1 && models[0] == old(d.model) && models[i] == d.model
      invariant forall k :: 0 <= k <= i ==>
                  Carries(models[k], After(b, steps[..k])) && models[k] == old(d.model).(writer := models[k].writer)
    {
      ghost var m, now := d.model, After(b, steps[..i]);
      CountGrows(b, steps, i);
      OrderlyAt(b, steps, i);
      StepTraced(b, steps[..i], steps[i]);
      assert steps[..i + 1] == steps[..i] + [steps[i]];
      match steps[i] {
        case Alloc =>
          var page := d.AllocPage();
          StepAllowed(m, d.model, now, steps[i], Zeros(), D.Alloc);
        case Put(id, page) =>
          var bytes := Serialize(id, page);
          d.PutPage(id, bytes);
          StepAllowed(m, d.model, now, steps[i], bytes, D.Op.Put(id, bytes));
        case Free(id) =>
          d.FreePage(id);
          StepAllowed(m, d.model, now, steps[i], Zeros(), D.Op.Free(id));
      }
      models := models + [d.model];
    }
    assert steps[..|steps|] == steps;
  }

  lemma AfterNone(b: Buffer)
    ensures After(b, []) == b
  {
  }

  // ---- whole edits ----

  const LOW: int := MIN_ROWID - 1

  /** The committed pages hold table t on page root; with the pages of others and the free pages, its pages
      are the allocated ones, each once. */
  ghost predicate HasTable(m: D.Model, root: PageId, t: Tree, view: View, others: multiset<PageId>) {
    && LeafPages.Good(t, root, LOW, MAX_ROWID, view) && FitsAll(t) && HeldTree(m.committed, t, view)
    && Once(Ids(t) + others, m.free, m.size) && (root == 1 || 1 in others)
  }

  /** The committed pages are those of table t, but for page bad, where cells were laid over each other: each page
      is committed as view has it, and all but bad hold the nodes of the tree. */
  ghost predicate SpoiltTable(m: D.Model, root: PageId, t: Tree, view: View, bad: PageId, others: multiset<PageId>) {
    && t.id == root && TreeOk(t, LOW, MAX_ROWID) && BTrees.StoredBut(t, view, bad) && FitsBut(t, bad)
    && (forall p :: p in Ids(t) ==> p in view && p in m.committed && Held(m.committed[p], p, view[p]))
    && ((Stored(t, view) && !FitsAll(t)) || BTrees.Misread(view, root, t, bad))
    && Once(Ids(t) + others, m.free, m.size) && (root == 1 || 1 in others)
  }

  /** The page count of the edit fits 32 bits with one to spare. */
  method Fits32(sink: PageSink) returns (ok: bool)
    ensures ok <==> sink.pageCount + 1 < U32
  {
    hide *;
    U32Is();
    ok := sink.pageCount < 0xffff_ffff;
  }

  lemma U32Is()
    ensures U32 == 0x1_0000_0000
  {
  }

  lemma BaseTable(sink: PageSink, root: PageId, t: Tree, view: View, others: multiset<PageId>, m: D.Model)
    requires HasTable(m, root, t, view, others) && Loads(sink.base, view, Ids(t))
    requires sink.pending == map[] && sink.freelist == m.free && sink.pageCount == m.size && sink.Traced()
    ensures BTrees.IsTable(sink, root, t, others)
  {
    hide Held, Readable, TreeOk, Stored, FitsAll, Ids, Once, PageSink.Traced;
    BaseStored(sink.base, t, view);
    assert sink.base + map[] == sink.base;
  }

  lemma BaseStored(base: View, t: Tree, view: View)
    requires Loads(base, view, Ids(t)) && Stored(t, view)
    ensures Stored(t, base)
  {
    hide Stored, Ids;
    forall p | p in Ids(t)
      ensures p in view && p in base && base[p] == view[p]
    {
      TreeHas(t, view, p);
    }
    StoredSame(t, view, base, Ids(t));
  }

  /** Pages of an owned tree are small numbers, and page 1 among them is its root. */
  lemma OwnedSmall(sink: PageSink, root: PageId, ids: multiset<PageId>, others: multiset<PageId>)
    requires sink.Owned(ids + others) && (root == 1 || 1 in others) && sink.pageCount < U32
    ensures Small(ids) && (1 in ids ==> root == 1) && Once(ids + others, sink.freelist, sink.pageCount) && sink.Traced()
  {
    hide PageSink.Traced;
    forall p | p in ids
      ensures p < U32
    {
      assert (ids + others)[p] >= 1;
    }
    assert (ids + others)[1] == ids[1] + others[1];
    assert root != 1 ==> others[1] >= 1 && (ids + others)[1] + multiset(sink.freelist)[1] <= 1;
  }

  /** The bytes are what was written, for every page that can be. */
  ghost predicate HeldPut(bytes: Bytes, v: View) {
    forall p :: p in v && Writable(p, v[p]) ==> p in bytes && Held(bytes[p], p, v[p])
  }

  lemma PutHeld(bytes: Bytes, b: Buffer, w: D.Writer, base: View, view: View, ids: multiset<PageId>)
    requires Loads(base, view, ids) && HeldPages(bytes, view, ids) && Mirrors(b, w)
    ensures HeldPut(bytes + w.pending, base + b.pending)
  {
    hide Held, Writable, Readable, Bare;
    var v := base + b.pending;
    forall p | p in v && Writable(p, v[p])
      ensures p in bytes + w.pending && Held((bytes + w.pending)[p], p, v[p])
    {
      if p !in b.pending {
        HeldAt(bytes, view, ids, p);
      }
    }
  }

  /** Committing what mirrors the b-tree's pages leaves bytes that hold its tree. */
  lemma CommittedHolds(bytes: Bytes, v: View, t: Tree)
    requires HeldPut(bytes, v) && TreeOk(t, LOW, MAX_ROWID) && Stored(t, v) && FitsAll(t)
    requires Small(Ids(t)) && (1 in Ids(t) ==> t.id == 1)
    ensures HeldTree(bytes, t, v)
  {
    hide Held, Writable, Readable, TreeOk, Stored, FitsAll, Ids, Small;
    forall p | p in Ids(t)
      ensures p in v && Readable(p, v[p]) && p in bytes && Held(bytes[p], p, v[p]) && (p == 1 ==> v[p].NodePage?)
    {
      TreeWritable(t, LOW, MAX_ROWID, v, p);
      TreeHas(t, v, p);
      if p == 1 {
        RootHeld(t, LOW, MAX_ROWID, v);
      }
    }
  }

  /** Pages of a spoilt tree can be written: the tree's own, and what was read from the root page. */
  lemma SpoiltHolds(bytes: Bytes, v: View, root: PageId, t: Tree, bad: PageId, p: PageId)
    requires HeldPut(bytes, v) && TreeOk(t, LOW, MAX_ROWID) && BTrees.StoredBut(t, v, bad) && Small(Ids(t)) && p in Ids(t)
    requires Stored(t, v) || BTrees.Misread(v, root, t, bad)
    ensures p in v && p in bytes && Held(bytes[p], p, v[p])
  {
    hide Held, Writable, TreeOk, Stored, Ids, Small, BTrees.StoredBut, BTrees.Misread;
    if Stored(t, v) {
      TreeWritable(t, LOW, MAX_ROWID, v, p);
    } else if p == bad {
      MisreadWritable(v, root, t, bad);
    } else {
      WritableBut(t, LOW, MAX_ROWID, v, bad, p);
    }
  }

  lemma MisreadWritable(v: View, root: PageId, t: Tree, bad: PageId)
    requires BTrees.Misread(v, root, t, bad)
    ensures bad in v && Writable(bad, v[bad])
  {
    hide Parse, Image, Writes, Encodable, Shaped;
    ParsedBack(root, Leaf(Cells(t.kids[0].entries)));
  }

  /** What is read from a page fits the byte format. */
  lemma ParsedBack(page: PageId, n: Node)
    requires !Fits(page, n) && ReadBack(page, n).Done?
    ensures Encodable(ReadBack(page, n).value)
  {
    hide Parse, Image, Writes, Encodable, Shaped;
    ParseEncodable(page, Image(seq(HeaderOffset(page), _ => 0), page, n));
  }

  lemma ButParts(t: Tree, lo: int, hi: int, view: View, bad: PageId)
    requires TreeOk(t, lo, hi) && BTrees.StoredBut(t, view, bad)
    ensures t.id != bad ==> t.id in view && view[t.id] == NodePage(NodeOf(t)) && Writes(t.id, NodeOf(t))
    ensures t.LeafT? ==> NodeOf(t) == Leaf(Cells(t.entries)) && forall i :: 0 <= i < |t.entries| ==> EntryStored(view, t.entries[i])
    ensures t.InteriorT? ==> |t.kids| == |t.keys| + 1 && NodeOf(t) == Interior(Pointers(t.kids, t.keys), t.kids[|t.keys|].id)
    ensures t.InteriorT? ==> forall i :: 0 <= i < |t.kids| ==>
              i <= |t.keys| && TreeOk(t.kids[i], Lo(t.keys, i, lo), Hi(t.keys, i, hi)) && BTrees.StoredBut(t.kids[i], view, bad)
  {
  }

  lemma {:induction false} LeafNumbers(es: seq<Entry>, view: View)
    requires Small(ChainIds(es)) && forall i :: 0 <= i < |es| ==> EntryStored(view, es[i])
    ensures Encodable(Leaf(Cells(es)))
  {
    forall i | 0 <= i < |es|
      ensures Cells(es)[i].overflow < U32
    {
      EntryWritable(view, es, i, 0);
    }
  }

  lemma {:induction false} InteriorNumbers(kids: seq<Tree>, keys: seq<rowid>)
    requires |kids| == |keys| + 1 && Small(IdsAll(kids))
    ensures Encodable(Interior(Pointers(kids, keys), kids[|keys|].id))
  {
    hide Ids, IdsAll;
    forall i | 0 <= i < |kids|
      ensures kids[i].id < U32
    {
      KidSmall(kids, i);
    }
  }

  lemma {:induction false} WritableBut(t: Tree, lo: int, hi: int, view: View, bad: PageId, p: PageId)
    requires TreeOk(t, lo, hi) && BTrees.StoredBut(t, view, bad) && Small(Ids(t)) && p in Ids(t) && p != bad
    ensures p in view && Writable(p, view[p])
    decreases t
  {
    hide TreeOk, Stored, BTrees.StoredBut, Ids, IdsAll, ChainIds, Small, NodeOf, EntryStored, Writes, Encodable;
    ButParts(t, lo, hi, view, bad);
    TreeBytes.Below(t, p);
    match t
    case LeafT(id, es) =>
      LeafNumbers(es, view);
      if p != id {
        var i := ChainOf(es, p);
        EntryWritable(view, es, i, p);
      }
    case InteriorT(id, kids, keys) =>
      InteriorNumbers(kids, keys);
      if p != id {
        var i := KidOf(kids, p);
        KidSmall(kids, i);
        WritableBut(kids[i], Lo(keys, i, lo), Hi(keys, i, hi), view, bad, p);
      }
  }

  /** Pages of others were not put. */
  lemma OthersApart(sink: PageSink, base: View, ids: multiset<PageId>, others: multiset<PageId>)
    requires Same(base, sink.Pages(), others) && base == sink.base && forall p :: p in base <==> p in ids
    requires forall p :: p in others ==> p !in ids
    ensures forall p :: p in others ==> p !in sink.pending
  {
  }

  lemma OnceApart(ids: multiset<PageId>, others: multiset<PageId>, free: seq<PageId>, n: nat)
    requires Once(ids + others, free, n)
    ensures forall p :: p in others ==> p !in ids
  {
    forall p | p in others
      ensures p !in ids
    {
      assert (ids + others)[p] <= 1;
    }
  }

  /** What an edit left, beside its own table: the pages it did not write, those of others among them, as they were.
      A page 1 written by a b-tree went to the log without the database header, and so without the user version. */
  ghost predicate EditedApart(m: D.Model, m': D.Model, before: View, after: View, written: set<PageId>, others: multiset<PageId>) {
    && (forall p :: p !in written ==> (p in m'.committed <==> p in m.committed)
                                      && (p in m.committed ==> m'.committed[p] == m.committed[p]))
    && (forall p :: p in others ==> p !in written)
    && (forall p :: p in after && p !in written ==> p in before && after[p] == before[p])
    && (1 in written ==>
          && 1 in after && 1 in m'.logged && 1 in m'.committed
          && (after[1].NodePage? && Readable(1, after[1]) ==> Bare(m'.logged[1]) && Bare(m'.committed[1])))
  }

  lemma EditApart(m: D.Model, m': D.Model, b: Buffer, w: D.Writer, base: View, others: multiset<PageId>)
    requires m'.committed == m.committed + w.pending && m'.logged == m.logged + w.pending
    requires Mirrors(b, w) && forall p :: p in others ==> p !in b.pending
    ensures EditedApart(m, m', base, base + b.pending, b.pending.Keys, others)
  {
    hide Held, Writable, Readable, Bare;
  }

  /** The stored user version survives an edit exactly if the edit does not write page 1, or it was 0. */
  lemma UserVersionKept(m: D.Model, m': D.Model, before: View, after: View, written: set<PageId>, others: multiset<PageId>)
    requires EditedApart(m, m', before, after, written, others) && 1 in m.committed
    requires 1 in after ==> after[1].NodePage? && Readable(1, after[1])
    ensures Get32(m'.committed[1], 60) == Get32(m.committed[1], 60) <==> 1 !in written || Get32(m.committed[1], 60) == 0
  {
    hide Readable, ReadHeader, Get32;
  }

  /** The allocator an open transaction began with. */
  method WriterState(d: D.Database) returns (size: nat, free: seq<nat>)
    requires d.Valid() && Fresh(d.model)
    ensures size == d.model.writer.value.size && free == d.model.writer.value.free
  {
    hide *;
    D.Parts(d);
    FreshIs(d.model);
    return d.tx.localPageCount, d.tx.localFreelist;
  }

  lemma FreshIs(m: D.Model)
    ensures Fresh(m) <==> !m.lost && m.writer.Some? && m.writer.value.pending == map[]
  {
  }

  /** Another version can be numbered. */
  method HasVersions(d: D.Database) returns (room: bool)
    requires d.Valid() && !d.model.lost
    ensures room <==> d.model.version + 1 < TWO_64
  {
    hide *;
    D.Parts(d);
    D.LimitsAre();
    room := d.engine.mvcc.committed < 0xffff_ffff_ffff_ffff;
  }

  lemma Begun(m: D.Model, m': D.Model)
    requires !m.lost && m.writer == None && D.Allows(m, D.BeginWrite, m', None)
    ensures m' == m.(writer := Some(D.Writer(map[], m.size, m.free))) && Fresh(m')
  {
  }

  lemma TableHeld(m: D.Model, root: PageId, t: Tree, view: View, others: multiset<PageId>)
    requires HasTable(m, root, t, view, others)
    ensures HeldTree(m.committed, t, view) && HeldPages(m.committed, view, Ids(t)) && t.id == root
    ensures Once(Ids(t) + others, m.free, m.size) && FitsAll(t) && forall p :: p in others ==> p !in Ids(t)
  {
    hide Held, Readable, TreeOk, Stored, FitsAll, Ids, Once, HeldPages;
    OnceApart(Ids(t), others, m.free, m.size);
  }

  lemma PagesAre(sink: PageSink)
    ensures sink.Pages() == sink.base + sink.pending
    ensures sink.pending == map[] ==> sink.Pages() == sink.base
  {
    assert sink.base + map[] == sink.base;
  }

  lemma LoadsKeys(base: View, view: View, ps: multiset<PageId>)
    requires Loads(base, view, ps)
    ensures forall p :: p in base <==> p in ps
  {
  }

  lemma RolledBack(m: D.Model, open: D.Model, m': D.Model)
    requires !m.lost && m.writer == None && open.writer.Some? && open == m.(writer := open.writer)
    requires D.Allows(open, D.Rollback, m', None)
    ensures m' == m
  {
  }

  lemma BeginsCarrying(m: D.Model, open: D.Model)
    requires !m.lost && open == m.(writer := Some(D.Writer(map[], m.size, m.free)))
    ensures Carries(open, Buffer(map[], m.free, m.size))
  {
  }

  lemma Traced(sink: PageSink)
    requires sink.Traced()
    ensures Buffer(sink.pending, sink.freelist, sink.pageCount) == After(sink.start, sink.steps)
    ensures Orderly(sink.start, sink.steps)
  {
  }

  lemma CarriesIs(m: D.Model, b: Buffer)
    requires Carries(m, b)
    ensures !m.lost && m.writer.Some? && Mirrors(b, m.writer.value)
    ensures m.writer.value.size == b.pageCount && m.writer.value.free == b.freelist
  {
    hide Mirrors;
    MirrorsSize(b, m.writer.value);
  }

  lemma CommitIs(open: D.Model, m': D.Model)
    requires !open.lost && open.writer.Some? && open.version + 1 < TWO_64 && D.Allows(open, D.Op.Commit, m', None)
    ensures var w := open.writer.value;
            m' == open.(committed := open.committed + w.pending, version := open.version + 1, size := w.size, free := w.free,
                        logged := open.logged + w.pending, writer := None)
  {
  }

  lemma EditedTable(m: D.Model, root: PageId, t: Tree, view: View, others: multiset<PageId>)
    requires LeafPages.Good(t, root, LOW, MAX_ROWID, view) && FitsAll(t) && HeldTree(m.committed, t, view)
    requires Once(Ids(t) + others, m.free, m.size) && (root == 1 || 1 in others)
    ensures HasTable(m, root, t, view, others)
  {
  }

  /** The committed pages hold a table of the page store. */
  lemma TableCommitted(m: D.Model, sink: PageSink, root: PageId, t: Tree, others: multiset<PageId>)
    requires BTrees.IsTable(sink, root, t, others) && HeldPut(m.committed, sink.Pages()) && sink.pageCount < U32
    requires m.free == sink.freelist && m.size == sink.pageCount
    ensures HasTable(m, root, t, sink.Pages(), others)
  {
    hide *;
    LowIs();
    BTrees.TableIs(sink, root, t, others);
    InteriorPages.GoodIs(t, root, LOW, MAX_ROWID, sink.Pages());
    OwnedSmall(sink, root, Ids(t), others);
    CommittedHolds(m.committed, sink.Pages(), t);
    EditedTable(m, root, t, sink.Pages(), others);
  }

  lemma LowIs()
    ensures LOW == MIN_ROWID - 1
  {
  }

  lemma SpoiltParts(sink: PageSink, root: PageId, t: Tree, bad: PageId, others: multiset<PageId>)
    requires BTrees.Spoilt(sink, root, t, bad, others)
    ensures t.id == root && TreeOk(t, LOW, MAX_ROWID) && BTrees.StoredBut(t, sink.Pages(), bad) && FitsBut(t, bad)
    ensures sink.Owned(Ids(t) + others) && (root == 1 || 1 in others)
  {
  }

  lemma SpoiltCommitted(m: D.Model, sink: PageSink, root: PageId, t: Tree, bad: PageId, others: multiset<PageId>)
    requires BTrees.Spoilt(sink, root, t, bad, others) && HeldPut(m.committed, sink.Pages()) && sink.pageCount < U32
    requires (Stored(t, sink.Pages()) && !FitsAll(t)) || BTrees.Misread(sink.Pages(), root, t, bad)
    requires m.free == sink.freelist && m.size == sink.pageCount
    ensures SpoiltTable(m, root, t, sink.Pages(), bad, others)
  {
    hide *;
    SpoiltParts(sink, root, t, bad, others);
    OwnedSmall(sink, root, Ids(t), others);
    forall p | p in Ids(t)
      ensures p in sink.Pages() && p in m.committed && Held(m.committed[p], p, sink.Pages()[p])
    {
      SpoiltHolds(m.committed, sink.Pages(), root, t, bad, p);
    }
    SpoiltTableIs(m, root, t, sink.Pages(), bad, others);
  }

  lemma SpoiltTableIs(m: D.Model, root: PageId, t: Tree, view: View, bad: PageId, others: multiset<PageId>)
    requires t.id == root && TreeOk(t, LOW, MAX_ROWID) && BTrees.StoredBut(t, view, bad) && FitsBut(t, bad)
    requires forall p :: p in Ids(t) ==> p in view && p in m.committed && Held(m.committed[p], p, view[p])
    requires (Stored(t, view) && !FitsAll(t)) || BTrees.Misread(view, root, t, bad)
    requires Once(Ids(t) + others, m.free, m.size) && (root == 1 || 1 in others)
    ensures SpoiltTable(m, root, t, view, bad, others)
  {
  }

  /** Begins a write transaction and reads the table through it. */
  method BeginEdit(d: D.Database, root: PageId, ghost t: Tree, ghost view: View, ghost others: multiset<PageId>)
    returns (sink: PageSink)
    requires d.Valid() && !d.model.lost && d.model.writer == None && HasTable(d.model, root, t, view, others)
    modifies d.Footprint()
    ensures d.Valid() && fresh(d.Footprint() - old(d.Footprint())) && fresh(sink) && sink !in d.Footprint()
    ensures d.model == Opened(old(d.model))
    ensures BTrees.IsTable(sink, root, t, others) && Loads(sink.base, view, Ids(t)) && sink.Pages() == sink.base
    ensures sink.start == Buffer(map[], old(d.model).free, old(d.model).size) && sink.pageCount == old(d.model).size
  {
    hide *;
    ghost var m := d.model;
    d.OpenWriter();
    Begun(m, d.model);
    TableHeld(m, root, t, view, others);
    var base := LoadTree(d, root, t, view);
    var size, free := WriterState(d);
    OpenedIs(m);
    D.Parts(d);
    ghost var footprint := d.Footprint();
    sink := new PageSink(base, size, free);
    assert sink !in footprint;
    BaseTable(sink, root, t, view, others, m);
    PagesAre(sink);
  }

  /** The simple store with a write transaction that has done nothing. */
  ghost function Opened(m: D.Model): D.Model {
    m.(writer := Some(D.Writer(map[], m.size, m.free)))
  }

  lemma OpenedIs(m: D.Model)
    ensures Opened(m) == m.(writer := Some(D.Writer(map[], m.size, m.free)))
  {
  }

  /** Performs what the b-tree asked for on the transaction, and commits: the committed bytes are what it put. */
  method EndEdit(d: D.Database, sink: PageSink, ghost m: D.Model, ghost view: View, ghost ids: multiset<PageId>,
                 ghost others: multiset<PageId>)
    requires d.Valid() && !m.lost && m.writer == None && d.model == Opened(m) && sink !in d.Footprint()
    requires HeldPages(m.committed, view, ids) && Loads(sink.base, view, ids) && forall p :: p in others ==> p !in ids
    requires Same(sink.base, sink.Pages(), others) && sink.Traced()
    requires sink.start == Buffer(map[], m.free, m.size) && sink.pageCount + 1 < U32 && m.version + 1 < TWO_64
    modifies d.Footprint()
    ensures d.Valid() && d.Footprint() <= old(d.Footprint())
    ensures HeldPut(d.model.committed, sink.Pages()) && d.model.free == sink.freelist && d.model.size == sink.pageCount
    ensures Edited(m, d.model) && EditedApart(m, d.model, sink.base, sink.Pages(), sink.pending.Keys, others)
  {
    hide *;
    OpenedIs(m);
    PagesAre(sink);
    Traced(sink);
    LoadsKeys(sink.base, view, ids);
    OthersApart(sink, sink.base, ids, others);
    BeginsCarrying(m, d.model);
    ghost var b := Buffer(sink.pending, sink.freelist, sink.pageCount);
    ghost var models := Replay(d, sink.steps, sink.start);
    assert sink.steps[..|sink.steps|] == sink.steps;
    ghost var open := d.model;
    CarriesIs(open, b);
    PutHeld(m.committed, b, open.writer.value, sink.base, view, ids);
    d.CommitWriter();
    CommitIs(open, d.model);
    EditApart(m, d.model, b, open.writer.value, sink.base, others);
    EditedIs(m, d.model);
  }

  /** One more version is committed, no reader noticed, and the log has all that changed. */
  ghost predicate Edited(m: D.Model, m': D.Model) {
    !m'.lost && m'.writer == None && m'.readers == m.readers && m'.version == m.version + 1
  }

  lemma EditedIs(m: D.Model, m': D.Model)
    requires !m'.lost && m'.writer == None && m'.readers == m.readers && m'.version == m.version + 1
    ensures Edited(m, m')
  {
  }

  /** Edits a table in one write transaction and commits it. When all insertions find room the committed bytes hold
      the table that the operations mean. Up to one that does not: after a panic or a refusal nothing has changed,
      but one that lays cells over each other is committed like any other, and its leaf does not read as what was
      put there. */
  method EditTable(d: D.Database, root: PageId, ops: seq<TableRuns.Op>, ghost t: Tree, ghost view: View, ghost others: multiset<PageId>)
    returns (fate: BTrees.Fate, committed: bool, done: nat, ghost t': Tree, ghost bad: PageId, ghost before: View,
             ghost after: View, ghost written: set<PageId>)
    requires d.Valid() && !d.model.lost && d.model.writer == None && HasTable(d.model, root, t, view, others)
    requires forall i :: 0 <= i < |ops| ==> TableRuns.OpOk(ops[i])
    modifies d.Footprint()
    ensures d.Valid() && fresh(d.Footprint() - old(d.Footprint()))
    ensures !committed ==> d.model == old(d.model)
    ensures committed ==> fate.Right? || fate.Damaged?
    ensures fate.Right? || fate.Damaged? ==> done <= |ops| && (fate.Right? <==> done == |ops|)
    ensures old(d.model).size + TableRuns.Growth(ops, Height(t)) + 1 < U32 && old(d.model).version + 1 < TWO_64 ==>
              (committed <==> fate.Right? || fate.Damaged?)
    ensures TableRuns.AllSmall(Flat(t)) && (forall i :: 0 <= i < |ops| ==> TableRuns.SmallOp(ops[i])) ==> fate.Right?
    ensures committed && fate.Right? ==>
              HasTable(d.model, root, t', after, others) && Flat(t') == TableRuns.Meaning(Flat(t), ops)
    ensures committed && fate.Damaged? ==>
              SpoiltTable(d.model, root, t', after, bad, others) && Flat(t') == TableRuns.Meaning(Flat(t), ops[..done + 1])
    ensures committed ==>
              && Edited(old(d.model), d.model) && Loads(before, view, Ids(t))
              && EditedApart(old(d.model), d.model, before, after, written, others)
  {
    hide *;
    committed, t', before, after, written := false, t, map[], map[], {};
    ghost var m := d.model;
    var sink := BeginEdit(d, root, t, view, others);
    OpenedIs(m);
    D.Parts(d);
    ghost var tree: Tree;
    fate, done, tree, t', bad := TableRuns.Run(sink, root, ops, t, others);
    var fits := Fits32(sink);
    var room := HasVersions(d);
    if !(fate.Right? || fate.Damaged?) || !fits || !room {
      d.RollbackWriter();
      RolledBack(m, Opened(m), d.model);
      return;
    }
    committed := true;
    assert done == |ops| ==> ops[..done] == ops;
    TableHeld(m, root, t, view, others);
    EndsOwned(sink, root, t', bad, others, fate);
    HeldPagesOf(m.committed, t, view);
    PagesAre(sink);
    EndEdit(d, sink, m, view, Ids(t), others);
    before, after, written := sink.base, sink.Pages(), sink.pending.Keys;
    if fate.Right? {
      TableCommitted(d.model, sink, root, t', others);
    } else {
      SpoiltCommitted(d.model, sink, root, t', bad, others);
    }
  }

  lemma HeldPagesOf(bytes: Bytes, t: Tree, view: View)
    requires HeldTree(bytes, t, view)
    ensures HeldPages(bytes, view, Ids(t))
  {
  }

  lemma EndsOwned(sink: PageSink, root: PageId, t: Tree, bad: PageId, others: multiset<PageId>, fate: BTrees.Fate)
    requires fate.Right? ==> BTrees.IsTable(sink, root, t, others)
    requires fate.Damaged? ==> BTrees.Spoilt(sink, root, t, bad, others)
    ensures fate.Right? || fate.Damaged? ==> sink.Traced()
  {
    hide After, Orderly, TreeOk, Stored, FitsAll, FitsBut, BTrees.StoredBut, Ids, Once;
  }

  /** An edit of one table keeps every other. */
  lemma OtherTableKept(m: D.Model, m': D.Model, ids: multiset<PageId>, before: View, after: View, written: set<PageId>,
                       others: multiset<PageId>, root: PageId, t: Tree, view: View, others2: multiset<PageId>)
    returns (others2': multiset<PageId>)
    requires EditedApart(m, m', before, after, written, others) && Once(ids + others, m'.free, m'.size)
    requires HasTable(m, root, t, view, others2) && Ids(t) <= others && (root == 1 || 1 in ids + others)
    ensures HasTable(m', root, t, view, others2') && others2' == ids + (others - Ids(t))
  {
    hide Held, Readable, TreeOk, Stored, FitsAll, Ids, Bare;
    others2' := ids + (others - Ids(t));
    forall p: PageId
      ensures (Ids(t) + others2')[p] == (ids + others)[p]
    {
    }
    OwnId(t);
    if root != 1 {
      OtherRoot(m, root, t, view, others2);
    }
  }

  lemma OtherRoot(m: D.Model, root: PageId, t: Tree, view: View, others: multiset<PageId>)
    requires HasTable(m, root, t, view, others) && root != 1
    ensures 1 !in Ids(t)
  {
    hide Held, Readable, TreeOk, Stored, FitsAll, HeldPages, Ids;
    assert (Ids(t) + others)[1] <= 1;
  }

  lemma EmptyFits(id: PageId)
    ensures Fits(id, Leaf(Cells([])))
  {
  }

  // ---- the catalog, whose root is page 1 ----

  /** A new database holds an empty catalog on page 1. */
  lemma NewCatalog(m: D.Model)
    requires m == D.Model(map[1 := FirstPage()], 0, 1, [], map[], [], None, false)
    ensures HasTable(m, 1, LeafT(1, []), map[1 := NodePage(Leaf([]))], multiset{})
  {
    hide FirstPage, PageHeld, HeaderOk, Held;
    FirstPageHeld();
    EmptyFits(1);
    HeldNode(FirstPage(), 1, Leaf([]));
    var t := LeafT(1, []);
    assert Cells([]) == [];
    assert Ids(t) == multiset{1};
  }

  lemma HeldNode(s: seq<byte>, id: PageId, n: Node)
    requires Encodable(n) && Fits(id, n) && PageHeld(s, id, n)
    ensures Held(s, id, NodePage(n))
  {
    hide PageHeld, Encodable;
  }

  /** With a catalog page in the log, a checkpoint cut off among its page writes loses the database, and one
      cut off before the first write or after the header does not. */
  lemma CatalogCrash(m: D.Model, j: nat, m': D.Model)
    requires !m.lost && !D.Lagging(m) && 1 in m.logged && ReadHeader(m.logged[1]) == Bad(BadMagic)
    requires D.Allows(m, D.CrashInCheckpoint(j), m', None)
    ensures m'.lost <==> 1 <= j <= |m.logged|
  {
    hide ReadHeader, D.Lagging;
  }

  function OneRecord(): (ops: seq<TableRuns.Op>)
    ensures |ops| == 1
  {
    [TableRuns.Op.Put(1, [7, 8, 9])]
  }

  /** One insertion into the catalog of a new database, then a crash after the first page write of the
      checkpoint: the database no longer opens, though all of the commit is in the log. */
  method InsertThenCrash() returns (d: D.Database, ghost t: Tree, ghost view: View, ghost committed: D.Model)
    ensures d.Valid() && d.model.lost && d.model.committed == committed.committed && d.model.logged == committed.logged
    ensures HasTable(committed, 1, t, view, multiset{}) && Flat(t) == [KV(1, [7, 8, 9])] && !committed.lost
  {
    hide *;
    d := new D.Database.Create();
    ghost var m := d.model;
    NewCatalog(m);
    OneIs();
    var fate: BTrees.Fate, ok: bool, done: nat;
    ghost var bad: PageId, before: View, after: View, written: set<PageId>;
    fate, ok, done, t, bad, before, after, written :=
      EditTable(d, 1, OneRecord(), LeafT(1, []), map[1 := NodePage(Leaf([]))], multiset{});
    view, committed := after, d.model;
    CatalogEdited(m, committed, t, before, after, written);
    d.CrashWhileFolding(1);
    CatalogCrash(committed, 1, d.model);
    CatalogLost(committed, d.model);
  }

  lemma OneIs()
    ensures TableRuns.OpOk(OneRecord()[0]) && TableRuns.SmallOp(OneRecord()[0]) && TableRuns.AllSmall(Flat(LeafT(1, [])))
    ensures TableRuns.Growth(OneRecord(), Height(LeafT(1, []))) == 5 && 1 + 5 + 1 < U32 && 1 < TWO_64
    ensures TableRuns.Meaning(Flat(LeafT(1, [])), OneRecord()) == [KV(1, [7, 8, 9])]
  {
    assert OneRecord()[..0] == [];
    TableRuns.ShortIsSmall(1, [7, 8, 9]);
  }

  /** The catalog's page was written, and went to the log without a header. */
  lemma CatalogEdited(m: D.Model, m': D.Model, t: Tree, before: View, after: View, written: set<PageId>)
    requires m == D.Model(map[1 := FirstPage()], 0, 1, [], map[], [], None, false)
    requires Edited(m, m') && EditedApart(m, m', before, after, written, multiset{})
    requires HasTable(m', 1, t, after, multiset{}) && Flat(t) == [KV(1, [7, 8, 9])]
    requires Loads(before, map[1 := NodePage(Leaf([]))], Ids(LeafT(1, [])))
    ensures 1 in m'.logged && ReadHeader(m'.logged[1]) == Bad(BadMagic) && !m'.lost && !D.Lagging(m') && m'.logged != map[]
  {
    hide FirstPage, Held, TreeOk, Ids, HeldPages, ReadHeader, Get32;
    RootChanged(t, after);
  }

  lemma RootChanged(t: Tree, view: View)
    requires Stored(t, view) && t.id == 1 && FitsAll(t) && Flat(t) == [KV(1, [7, 8, 9])]
    ensures 1 in view && view[1].NodePage? && view[1] != NodePage(Leaf([])) && Readable(1, view[1])
  {
    if t.LeafT? {
      assert |Cells(t.entries)| == |Records(t.entries)|;
    }
  }

  lemma CatalogLost(m: D.Model, m': D.Model)
    requires !m.lost && m'.lost && D.Allows(m, D.CrashInCheckpoint(1), m', None)
    ensures m'.committed == m.committed && m'.logged == m.logged
  {
    hide D.Lagging;
  }

  // ---- crashes ----

  /** A crash that the database survives keeps every table; the free pages of the lost freelist are no longer
      accounted for by anyone, as if they belonged to others. */
  lemma CrashKeepsTable(m: D.Model, m': D.Model, root: PageId, t: Tree, view: View, others: multiset<PageId>, logged: Bytes)
    returns (others': multiset<PageId>)
    requires HasTable(m, root, t, view, others) && D.Reopened(m', m.committed, logged)
    ensures HasTable(m', root, t, view, others')
    ensures forall p :: p in others && p <= m'.size ==> p in others'
  {
    hide TreeOk, Stored, FitsAll, Ids, Held, Readable;
    others' := multiset(set p: PageId | 1 <= p <= m'.size && p !in Ids(t));
    OwnId(t);
    forall p: PageId
      ensures (Ids(t) + others')[p] + multiset(m'.free)[p] == if 1 <= p <= m'.size then 1 else 0
      ensures p in others && p <= m'.size ==> p in others'
    {
      var once := (Ids(t) + others)[p] + multiset(m.free)[p];
      if p in Ids(t) {
        assert p in m.committed;
      }
    }
    if root != 1 {
      assert (Ids(t) + others)[1] + multiset(m.free)[1] == 1;
      assert t.id in m.committed;
    }
  }
}
