/** The page store a b-tree writes through, and the overflow chains of long records. */
module Overflow {
  import opened Common
  import opened Varint
  import opened Nodes
  import opened Trees

  /** One call on a write transaction. */
  datatype Step = Alloc | Put(id: PageId, page: Page) | Free(id: PageId)

  /** The pages, free pages and page count of a write transaction. */
  datatype Buffer = Buffer(pending: View, freelist: seq<PageId>, pageCount: nat)

  function AfterStep(b: Buffer, s: Step): Buffer {
    match s
    case Alloc =>
      if b.freelist != [] then b.(freelist := b.freelist[..|b.freelist| - 1]) else b.(pageCount := b.pageCount + 1)
    case Put(id, page) => b.(pending := b.pending[id := page])
    case Free(id) => b.(pending := b.pending - {id}, freelist := b.freelist + [id])
  }

  function After(b: Buffer, steps: seq<Step>): Buffer {
    if steps == [] then b else AfterStep(After(b, steps[..|steps| - 1]), steps[|steps| - 1])
  }

  /** Pages written or freed are allocated ones. */
  predicate Orderly(b: Buffer, steps: seq<Step>) {
    steps == [] ||
    (var before, s := After(b, steps[..|steps| - 1]), steps[|steps| - 1];
     Orderly(b, steps[..|steps| - 1]) && (s.Alloc? || 1 <= s.id <= before.pageCount))
  }

  lemma StepTraced(b: Buffer, steps: seq<Step>, s: Step)
    ensures After(b, steps + [s]) == AfterStep(After(b, steps), s)
    ensures Orderly(b, steps + [s]) <==> Orderly(b, steps) && (s.Alloc? || 1 <= s.id <= After(b, steps).pageCount)
  {
    assert (steps + [s])[..|steps|] == steps;
  }

  /** The pages ps and the free pages are together the pages 1 to n, each exactly once. */
  ghost predicate Once(ps: multiset<PageId>, free: seq<PageId>, n: nat) {
    forall p: PageId :: ps[p] + multiset(free)[p] == if 1 <= p <= n then 1 else 0
  }

  lemma Popped(ps: multiset<PageId>, free: seq<PageId>, n: nat)
    requires Once(ps, free, n) && free != []
    ensures var id := free[|free| - 1];
            Once(ps + multiset{id}, free[..|free| - 1], n) && id !in ps && 1 <= id <= n
    ensures free == free[..|free| - 1] + [free[|free| - 1]]
  {
    var id := free[|free| - 1];
    assert free == free[..|free| - 1] + [id];
    assert multiset(free) == multiset(free[..|free| - 1]) + multiset{id};
    assert ps[id] + multiset(free)[id] <= 1;
  }

  lemma Grew(ps: multiset<PageId>, n: nat)
    requires Once(ps, [], n)
    ensures Once(ps + multiset{n + 1}, [], n + 1) && n + 1 !in ps
  {
    assert ps[n + 1] == 0;
  }

  /** What a write transaction offers the b-tree: its snapshot overlaid with its own pages, and an
      allocator that reuses freed pages last in, first out. */
  class PageSink {
    const base: View
    var pending: View
    var freelist: seq<PageId>
    var pageCount: nat

    /** What has been asked of the transaction so far, from the allocator it began with. */
    var steps: seq<Step>
    ghost const start: Buffer

    constructor (base: View, pageCount: nat, freelist: seq<PageId>)
      ensures this.base == base && pending == map[] && this.freelist == freelist && this.pageCount == pageCount
      ensures Traced() && start == Buffer(map[], freelist, pageCount) && steps == []
    {
      this.base, pending, this.freelist, this.pageCount := base, map[], freelist, pageCount;
      steps, start := [], Buffer(map[], freelist, pageCount);
    }

    ghost function Pages(): View
      reads this`pending
    {
      base + pending
    }

    /** The steps, all of them within the allocated pages, led to the present state. */
    ghost predicate Traced()
      reads this
    {
      Buffer(pending, freelist, pageCount) == After(start, steps) && Orderly(start, steps)
    }

    /** The pages ps and the freelist are together the allocated pages, each exactly once. */
    ghost predicate Counted(ps: multiset<PageId>)
      reads this`freelist, this`pageCount
    {
      Once(ps, freelist, pageCount)
    }

    ghost predicate Owned(ps: multiset<PageId>)
      reads this
    {
      Traced() && Counted(ps)
    }

    lemma Reown(ps: multiset<PageId>, qs: multiset<PageId>)
      requires Owned(ps) && ps == qs
      ensures Owned(qs)
    {
    }

    /** An owned page is owned once. */
    lemma OwnedOnce(id: PageId, rest: multiset<PageId>)
      requires Owned(multiset{id} + rest)
      ensures id !in rest && 1 <= id <= pageCount
    {
      hide Traced;
      assert (multiset{id} + rest)[id] <= 1;
    }

    method GetPage(id: PageId) returns (p: Option<Page>)
      ensures p == if id in Pages() then Some(Pages()[id]) else None
    {
      if id in pending {
        return Some(pending[id]);
      } else if id in base {
        return Some(base[id]);
      }
      return None;
    }

    method AllocPage(ghost owned: multiset<PageId>) returns (id: PageId)
      requires Owned(owned)
      modifies this
      ensures Owned(owned + multiset{id}) && id !in owned && 1 <= id <= pageCount
      ensures Pages() == old(Pages())
      ensures if old(freelist) == [] then id == old(pageCount) + 1 == pageCount && freelist == []
              else old(freelist) == freelist + [id] && pageCount == old(pageCount)
    {
      hide After, Orderly, Once;
      StepTraced(start, steps, Alloc);
      if freelist != [] {
        id := freelist[|freelist| - 1];
        Popped(owned, freelist, pageCount);
        freelist := freelist[..|freelist| - 1];
      } else {
        Grew(owned, pageCount);
        pageCount := pageCount + 1;
        id := pageCount;
      }
      steps := steps + [Alloc];
    }

    method PutPage(id: PageId, page: Page)
      requires 1 <= id <= pageCount
      modifies this`pending, this`steps
      ensures Pages() == old(Pages())[id := page]
      ensures forall ps {:trigger Owned(ps)} :: old(Owned(ps)) ==> Owned(ps)
    {
      hide After, Orderly;
      StepTraced(start, steps, Put(id, page));
      pending := pending[id := page];
      steps := steps + [Put(id, page)];
    }

    method FreePage(id: PageId, ghost owned: multiset<PageId>)
      requires Owned(owned + multiset{id})
      modifies this`pending, this`freelist, this`steps
      ensures Owned(owned) && freelist == old(freelist) + [id]
      ensures Same(old(Pages()), Pages(), owned)
    {
      hide After, Orderly;
      assert (owned + multiset{id})[id] >= 1;
      StepTraced(start, steps, Free(id));
      steps := steps + [Free(id)];
      pending := pending - {id};
      freelist := freelist + [id];
      assert id !in owned by {
        assert (owned + multiset{id})[id] <= 1;
      }
    }
  }

  // ---- writing a chain ----

  /** A record's tail cut into pages, all full but the last. */
  function Chunks(tail: seq<byte>): (cs: seq<seq<byte>>)
    ensures forall i :: 0 <= i < |cs| ==> |cs[i]| <= OVERFLOW_CAP
    ensures tail != [] ==> cs != []
    ensures |cs| <= |tail|
    decreases |tail|
  {
    if tail == [] then []
    else [tail[..Min(|tail|, OVERFLOW_CAP)]] + Chunks(tail[Min(|tail|, OVERFLOW_CAP)..])
  }

  function Padded(chunk: seq<byte>): (data: seq<byte>)
    requires |chunk| <= OVERFLOW_CAP
    ensures |data| == OVERFLOW_CAP && data[..|chunk|] == chunk
  {
    chunk + seq(OVERFLOW_CAP - |chunk|, _ => 0)
  }

  function NextId(ids: seq<PageId>, i: nat): PageId {
    if i + 1 < |ids| then ids[i + 1] else 0
  }

  predicate LinkWritten(view: View, ids: seq<PageId>, cs: seq<seq<byte>>, i: nat)
    requires i < |ids| == |cs| && |cs[i]| <= OVERFLOW_CAP
  {
    ids[i] in view && view[ids[i]] == OverflowPage(NextId(ids, i), Padded(cs[i]))
  }

  /** Linked pages that hold the chunks of tail are a chain holding tail. */
  lemma {:induction false} LinksMakeChain(view: View, ids: seq<PageId>, tail: seq<byte>)
    requires |ids| == |Chunks(tail)| && 0 !in ids
    requires forall i :: 0 <= i < |ids| ==> LinkWritten(view, ids, Chunks(tail), i)
    ensures ChainStored(view, if ids == [] then 0 else ids[0], ids, tail)
    decreases |ids|
  {
    if ids != [] {
      var n := Min(|tail|, OVERFLOW_CAP);
      assert Chunks(tail)[1..] == Chunks(tail[n..]);
      assert LinkWritten(view, ids, Chunks(tail), 0);
      forall i | 0 <= i < |ids| - 1
        ensures LinkWritten(view, ids[1..], Chunks(tail[n..]), i)
      {
        assert LinkWritten(view, ids, Chunks(tail), i + 1);
      }
      LinksMakeChain(view, ids[1..], tail[n..]);
    }
  }

  lemma Distinct(ids: seq<PageId>, i: nat, j: nat)
    requires i < j < |ids| && multiset(ids)[ids[i]] <= 1
    ensures ids[i] != ids[j]
  {
    assert ids == ids[..j] + [ids[j]] + ids[j + 1..];
    assert ids[..j][i] in multiset(ids[..j]);
  }

  lemma LinksApart(sink: PageSink, owned: multiset<PageId>, ids: seq<PageId>, i: nat)
    requires sink.Owned(owned + multiset(ids)) && i < |ids|
    ensures ids[i] !in owned && 1 <= ids[i] <= sink.pageCount && forall j :: 0 <= j < i ==> ids[j] != ids[i]
  {
    hide PageSink.Traced;
    assert (owned + multiset(ids))[ids[i]] <= 1;
    assert ids[i] in multiset(ids);
    forall j | 0 <= j < i
      ensures ids[j] != ids[i]
    {
      assert (owned + multiset(ids))[ids[j]] <= 1;
      Distinct(ids, j, i);
    }
  }

  method AllocChain(sink: PageSink, n: nat, ghost owned: multiset<PageId>) returns (ids: seq<PageId>)
    requires sink.Owned(owned)
    modifies sink
    ensures |ids| == n && 0 !in ids && sink.Owned(owned + multiset(ids)) && sink.Pages() == old(sink.Pages())
    ensures sink.pageCount <= old(sink.pageCount) + n
  {
    hide PageSink.Traced;
    ids := [];
    while |ids| < n
      invariant |ids| <= n && 0 !in ids
      invariant sink.Owned(owned + multiset(ids)) && sink.Pages() == old(sink.Pages())
      invariant sink.pageCount <= old(sink.pageCount) + |ids|
    {
      var id := sink.AllocPage(owned + multiset(ids));
      ghost var old_ids := ids;
      ids := ids + [id];
      assert owned + multiset(ids) == owned + multiset(old_ids) + multiset{id};
    }
  }

  method FillLink(sink: PageSink, ids: seq<PageId>, cs: seq<seq<byte>>, i: nat, ghost owned: multiset<PageId>)
    requires i < |ids| == |cs| && forall j :: 0 <= j < |cs| ==> |cs[j]| <= OVERFLOW_CAP
    requires sink.Owned(owned + multiset(ids))
    requires forall j :: 0 <= j < i ==> LinkWritten(sink.Pages(), ids, cs, j)
    modifies sink`pending, sink`steps
    ensures forall j :: 0 <= j <= i ==> LinkWritten(sink.Pages(), ids, cs, j)
    ensures Same(old(sink.Pages()), sink.Pages(), owned) && sink.Owned(owned + multiset(ids))
  {
    hide PageSink.Owned;
    LinksApart(sink, owned, ids, i);
    ghost var before := sink.Pages();
    sink.PutPage(ids[i], OverflowPage(NextId(ids, i), Padded(cs[i])));
    forall j | 0 <= j <= i
      ensures LinkWritten(sink.Pages(), ids, cs, j)
    {
      assert j < i ==> LinkWritten(before, ids, cs, j);
    }
  }

  method FillChain(sink: PageSink, ids: seq<PageId>, cs: seq<seq<byte>>, ghost owned: multiset<PageId>)
    requires |ids| == |cs| && forall j :: 0 <= j < |cs| ==> |cs[j]| <= OVERFLOW_CAP
    requires sink.Owned(owned + multiset(ids))
    modifies sink`pending, sink`steps
    ensures forall j :: 0 <= j < |ids| ==> LinkWritten(sink.Pages(), ids, cs, j)
    ensures Same(old(sink.Pages()), sink.Pages(), owned) && sink.Owned(owned + multiset(ids))
  {
    hide PageSink.Owned;
    var i := 0;
    while i < |cs|
      invariant i <= |cs| && Same(old(sink.Pages()), sink.Pages(), owned) && sink.Owned(owned + multiset(ids))
      invariant forall j :: 0 <= j < i ==> LinkWritten(sink.Pages(), ids, cs, j)
    {
      FillLink(sink, ids, cs, i, owned);
      i := i + 1;
    }
  }

  /** Writes the spilled tail of a record: allocates every page first, then links and fills them. */
  method WriteOverflow(sink: PageSink, tail: seq<byte>, ghost owned: multiset<PageId>)
    returns (first: PageId, ids: seq<PageId>)
    requires tail != [] && sink.Owned(owned)
    modifies sink
    ensures first != 0 && ChainStored(sink.Pages(), first, ids, tail)
    ensures sink.Owned(owned + multiset(ids)) && Same(old(sink.Pages()), sink.Pages(), owned)
    ensures sink.pageCount <= old(sink.pageCount) + |tail|
  {
    var chunks := Chunks(tail);
    ids := AllocChain(sink, |chunks|, owned);
    FillChain(sink, ids, chunks, owned);
    LinksMakeChain(sink.Pages(), ids, tail);
    first := ids[0];
    assert first in ids;
  }

  // ---- reading and freeing ----

  /** Reassembles a record; None is the source's corruption error or a missing page. */
  method ReadValue(sink: PageSink, cell: LeafCell, ghost e: Entry) returns (r: Option<seq<byte>>)
    requires EntryStored(sink.Pages(), e) && e.cell == cell
    ensures r == Some(e.value)
  {
    InlineBounds(|e.value|);
    if cell.overflow == 0 {
      assert cell.inline == e.value;
      return Some(cell.inline);
    }
    assert cell.inline + e.value[|cell.inline|..] == e.value;
    r := ReadChain(sink, cell.inline, cell.overflow, cell.payloadLen, e.chain, e.value[|cell.inline|..]);
  }

  method ReadChain(sink: PageSink, inline: seq<byte>, first: PageId, payloadLen: nat,
                   ghost chain: seq<PageId>, ghost tail: seq<byte>)
    returns (r: Option<seq<byte>>)
    requires ChainStored(sink.Pages(), first, chain, tail) && payloadLen == |inline| + |tail|
    ensures r == Some(inline + tail)
  {
    var out, next := inline, first;
    ghost var rest, left := tail, chain;
    while next != 0
      invariant out + rest == inline + tail && ChainStored(sink.Pages(), next, left, rest)
      decreases |left|
    {
      var got := sink.GetPage(next);
      if got.None? || !got.value.OverflowPage? {
        return None;
      }
      var page := got.value;
      var take := Min(payloadLen - |out|, OVERFLOW_CAP);
      assert rest == rest[..take] + rest[take..];
      out := out + page.data[..take];
      left, rest := left[1..], rest[take..];
      next := page.next;
    }
    if |out| != payloadLen {
      return None;
    }
    assert out + rest == out;
    return Some(out);
  }

  /** The rest of a chain survives while its own pages do. */
  lemma RestOfChain(v: View, v': View, chain: seq<PageId>, tail: seq<byte>, owned: multiset<PageId>)
    requires chain != [] && ChainStored(v, chain[0], chain, tail) && Same(v, v', owned + multiset(chain[1..]))
    ensures ChainStored(v', v[chain[0]].next, chain[1..], tail[Min(|tail|, OVERFLOW_CAP)..])
  {
    ChainSame(v, v', v[chain[0]].next, chain[1..], tail[Min(|tail|, OVERFLOW_CAP)..]);
  }

  lemma TakeOne(owned: multiset<PageId>, chain: seq<PageId>)
    requires chain != []
    ensures owned + multiset(chain) == owned + multiset(chain[1..]) + multiset{chain[0]}
  {
    assert chain == [chain[0]] + chain[1..];
  }

  lemma FirstLink(view: View, id: PageId, chain: seq<PageId>, tail: seq<byte>)
    requires id != 0 && ChainStored(view, id, chain, tail)
    ensures chain != [] && chain[0] == id && id in view && view[id].OverflowPage?
    ensures Min(|tail|, OVERFLOW_CAP) <= |tail|
  {
  }

  lemma Regrouped(a: seq<PageId>, b: seq<PageId>, c: seq<PageId>)
    ensures (a + b) + c == a + (b + c)
  {
  }

  lemma SameLess(v: View, v': View, ps: multiset<PageId>, qs: multiset<PageId>)
    requires Same(v, v', ps + qs) || Same(v, v', qs + ps)
    ensures Same(v, v', qs)
  {
  }

  method FreeLink(sink: PageSink, id: PageId, ghost chain: seq<PageId>, ghost tail: seq<byte>,
                  ghost owned: multiset<PageId>)
    returns (next: PageId, ghost chain': seq<PageId>, ghost tail': seq<byte>)
    requires id != 0 && ChainStored(sink.Pages(), id, chain, tail) && sink.Owned(owned + multiset(chain))
    modifies sink`pending, sink`freelist, sink`steps
    ensures |chain'| < |chain| && ChainStored(sink.Pages(), next, chain', tail')
    ensures sink.Owned(owned + multiset(chain')) && Same(old(sink.Pages()), sink.Pages(), owned)
    ensures sink.freelist + chain' == old(sink.freelist) + chain
  {
    hide *;

    FirstLink(sink.Pages(), id, chain, tail);
    ghost var view := sink.Pages();
    var got := sink.GetPage(id);
    next := got.value.next;
    chain', tail' := chain[1..], tail[Min(|tail|, OVERFLOW_CAP)..];
    assert chain == [id] + chain';
    TakeOne(owned, chain);
    sink.Reown(owned + multiset(chain), owned + multiset(chain') + multiset{id});
    sink.FreePage(id, owned + multiset(chain'));
    RestOfChain(view, sink.Pages(), chain, tail, owned);
    SameLess(view, sink.Pages(), multiset(chain'), owned);
    Regrouped(old(sink.freelist), [id], chain');
  }

  lemma SameTrans(u: View, v: View, w: View, ps: multiset<PageId>)
    requires Same(u, v, ps) && Same(v, w, ps)
    ensures Same(u, w, ps)
  {
  }

  /** Frees every page of a chain, and no other. */
  method FreeOverflowChain(sink: PageSink, first: PageId, ghost chain: seq<PageId>, ghost tail: seq<byte>,
                           ghost owned: multiset<PageId>)
    requires ChainStored(sink.Pages(), first, chain, tail) && sink.Owned(owned + multiset(chain))
    modifies sink`pending, sink`freelist, sink`steps
    ensures sink.Owned(owned) && Same(old(sink.Pages()), sink.Pages(), owned)
    ensures sink.freelist == old(sink.freelist) + chain
  {
    var next := first;
    ghost var rest, bytes := chain, tail;
    while next != 0
      invariant ChainStored(sink.Pages(), next, rest, bytes) && sink.Owned(owned + multiset(rest))
      invariant Same(old(sink.Pages()), sink.Pages(), owned)
      invariant sink.freelist + rest == old(sink.freelist) + chain
      decreases |rest|
    {
      ghost var view := sink.Pages();
      next, rest, bytes := FreeLink(sink, next, rest, bytes, owned);
      SameTrans(old(sink.Pages()), view, sink.Pages(), owned);
    }
    assert rest == [];
  }
}
