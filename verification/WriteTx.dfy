/** Write transactions: changes buffered over a snapshot, published whole or dropped whole. */
module WriteTransactions {
  import opened Common
  import opened Varint
  import opened Nodes
  import opened PageFormat
  import opened WalFrames
  import opened Wal
  import opened WriteAheadLogs
  import opened Snapshots
  import opened PageCaches
  import opened Mvcc
  import opened Recovery
  import opened Storage
  import opened DbHeaders

  // ---- frames of a transaction ----

  /** Frames that carry exactly the pending pages, each once, as the transaction of a version. */
  ghost predicate Carries(fs: seq<Frame>, pending: View, version: nat, size: nat) {
    && TxPages(fs) == pending && DistinctPages(fs) && IsTx(fs)
    && fs[|fs| - 1].version == version && fs[|fs| - 1].dbSize == size
    && forall i :: 0 <= i < |fs| ==> 1 <= fs[i].page <= size
  }

  lemma TxPagesSnoc(fs: seq<Frame>, f: Frame)
    ensures TxPages(fs + [f]) == TxPages(fs)[f.page := f.data]
  {
    assert (fs + [f])[..|fs + [f]| - 1] == fs;
  }

  lemma DistinctSnoc(fs: seq<Frame>, f: Frame)
    requires DistinctPages(fs) && forall i :: 0 <= i < |fs| ==> fs[i].page != f.page
    ensures DistinctPages(fs + [f])
  {
  }

  lemma {:induction false} SamePages(fs: seq<Frame>, gs: seq<Frame>)
    requires |fs| == |gs| && forall i :: 0 <= i < |fs| ==> gs[i].page == fs[i].page && gs[i].data == fs[i].data
    ensures TxPages(gs) == TxPages(fs) && (DistinctPages(fs) ==> DistinctPages(gs))
  {
    if fs != [] {
      SamePages(fs[..|fs| - 1], gs[..|gs| - 1]);
    }
  }

  lemma {:induction false} TxPagesSize(fs: seq<Frame>)
    requires DistinctPages(fs)
    ensures |TxPages(fs)| == |fs|
  {
    if fs != [] {
      var front, f := fs[..|fs| - 1], fs[|fs| - 1];
      TxPagesSize(front);
      TxPagesKeys(front, f.page);
      assert TxPages(fs).Keys == TxPages(front).Keys + {f.page};
    }
  }

  lemma StampedCarries(fs: seq<Frame>, pending: View, version: u64, size: u32)
    requires fs != [] && TxPages(fs) == pending && DistinctPages(fs) && size != 0
    requires forall i :: 0 <= i < |fs| ==> 1 <= fs[i].page <= size
    ensures Carries(Stamped(fs, version, size), pending, version, size)
  {
    hide TxPages, DistinctPages, Stamped;
    var gs := Stamped(fs, version, size);
    forall i | 0 <= i < |fs|
      ensures gs[i].page == fs[i].page && gs[i].data == fs[i].data && gs[i].version == version
      ensures gs[i].dbSize == if i == |fs| - 1 then size else 0
    {
      assert gs[i] == fs[i].(version := version, dbSize := if i == |fs| - 1 then size else 0);
    }
    SamePages(fs, gs);
  }

  lemma SaltIs()
    ensures SALT == 0x5147_5253
  {
  }

  /** One frame per pending page, in whatever order the map yields them; each page leaves the cache. */
  method BuildFrames(pending: View, version: u64, cache: PageCache, ghost pages: seq<Data>, ghost size: nat)
    returns (frames: seq<Frame>)
    requires cache.Valid() && Clean(cache.pages, pages) && InBounds(pending, size) && size < U32
    modifies cache
    ensures cache.Valid() && Clean(cache.pages, pages)
    ensures TxPages(frames) == pending && DistinctPages(frames)
    ensures forall i :: 0 <= i < |frames| ==> 1 <= frames[i].page <= size
    ensures forall i :: 0 <= i < |frames| ==> frames[i].version == version && frames[i].salt == 0x5147_5253
    ensures frames == [] ==> pending == map[]
  {
    hide *;
    frames := [];
    var todo := pending.Keys;
    NoFrames();
    LessAll(pending);
    while todo != {}
      invariant todo <= pending.Keys && cache.Valid() && Clean(cache.pages, pages)
      invariant TxPages(frames) == Less(pending, todo) && DistinctPages(frames)
      invariant forall i :: 0 <= i < |frames| ==> frames[i].page in pending && frames[i].page !in todo
      invariant forall i :: 0 <= i < |frames| ==> frames[i].version == version && frames[i].salt == SALT
      decreases |todo|
    {
      var id :| id in todo;
      BoundAt(pending, size, id);
      var f := Frame(id, version, 0, SALT, pending[id]);
      TxPagesSnoc(frames, f);
      DistinctSnoc(frames, f);
      LessStep(pending, todo, id);
      CleanLess(cache.pages, pages, id);
      frames := frames + [f];
      cache.Invalidate(id);
      todo := todo - {id};
    }
    FramesInBounds(frames, pending, size);
    if frames == [] { NoFrames(); }
    SaltIs();
  }

  ghost function Less(pending: View, todo: set<nat>): View {
    pending - todo
  }

  lemma LessAll(pending: View)
    ensures Less(pending, pending.Keys) == map[] && Less(pending, {}) == pending
  {
  }

  lemma LessStep(pending: View, todo: set<nat>, id: nat)
    requires id in todo && todo <= pending.Keys
    ensures Less(pending, todo - {id}) == Less(pending, todo)[id := pending[id]]
  {
  }

  lemma BoundAt(pending: View, size: nat, id: nat)
    requires InBounds(pending, size) && id in pending && size < U32
    ensures 1 <= id <= size && id < 0x1_0000_0000
  {
  }

  lemma FramesInBounds(fs: seq<Frame>, pending: View, size: nat)
    requires InBounds(pending, size) && forall i :: 0 <= i < |fs| ==> fs[i].page in pending
    ensures forall i :: 0 <= i < |fs| ==> 1 <= fs[i].page <= size
  {
  }

  lemma NoFrames()
    ensures TxPages([]) == map[] && DistinctPages([])
  {
  }

  lemma CleanLess(cached: map<nat, Data>, pages: seq<Data>, id: nat)
    requires Clean(cached, pages)
    ensures Clean(cached - {id}, pages)
  {
    hide FileRead;
  }

  // ---- what a commit does to the invariants ----

  lemma CommitRecorded(history: map<nat, View>, committed: nat, live: multiset<nat>, index: Index, pages: seq<Data>,
                       fs: seq<Frame>)
    requires Recorded(history, committed, live, index, pages) && DistinctPages(fs)
    ensures var w := committed + 1;
            Recorded(history[w := history[committed] + TxPages(fs)], w, live, PushAll(index, w, fs), pages)
  {
    hide Shows, AllAtMost, DistinctPages, TxPages, PushAll;
    var w := committed + 1;
    var history' := history[w := history[committed] + TxPages(fs)];
    CommitAtMost(index, committed, w, fs);
    CommitShowsNew(index, pages, committed, history[committed], w, fs);
    forall v | v in history'
      ensures v <= w && Shows(PushAll(index, w, fs), pages, v, history'[v])
    {
      if v != w {
        CommitKeepsOld(index, pages, v, history[v], w, fs);
      }
    }
  }

  lemma CommitCounted(pageCount: nat, index: Index, logSize: nat, pages: seq<Data>, view: View,
                      w: nat, fs: seq<Frame>, size: nat)
    requires Counted(pageCount, index, logSize, pages, view)
    requires DistinctPages(fs) && pageCount <= size < U32
    requires forall i :: 0 <= i < |fs| ==> 1 <= fs[i].page <= size
    ensures Counted(size, PushAll(index, w, fs), size, pages, view + TxPages(fs))
  {
    hide DistinctPages, TxPages, PushAll, Covered;
    CommitCovered(index, w, fs, view, logSize, size, |pages|);
    var index' := PushAll(index, w, fs);
    forall p | p in index'
      ensures 1 <= p <= size && index'[p] != []
    {
      PushAllKeeps(index, w, fs, p);
      TxPagesKeys(fs, p);
    }
  }

  lemma EmptyCommit(history: map<nat, View>, committed: nat, live: multiset<nat>, index: Index, logSize: nat,
                    pages: seq<Data>, pageCount: nat, size: nat, pending: View)
    requires Recorded(history, committed, live, index, pages) && pending == map[]
    requires Counted(pageCount, index, logSize, pages, history[committed]) && pageCount <= size < U32
    ensures Recorded(history[committed + 1 := history[committed] + pending], committed + 1, live, index, pages)
    ensures Counted(size, index, logSize, pages, history[committed] + pending)
    ensures Logged(index) + pending == Logged(index)
  {
    hide Shows, AllAtMost, Covered, Logged;
    assert history[committed] + pending == history[committed];
    AtMostTrans(index, committed, committed + 1);
    TopShows(index, pages, committed, history[committed], committed + 1);
  }

  lemma CarriesParts(fs: seq<Frame>, pending: View, version: nat, size: nat)
    requires Carries(fs, pending, version, size)
    ensures TxPages(fs) == pending && DistinctPages(fs) && fs != []
    ensures fs[|fs| - 1].version == version && fs[|fs| - 1].dbSize == size
    ensures forall i :: 0 <= i < |fs| ==> 1 <= fs[i].page <= size
  {
  }

  lemma AppliedIs(log: Log, fs: seq<Frame>)
    requires fs != []
    ensures ApplyTx(log, fs).index == PushAll(log.index, fs[|fs| - 1].version, fs)
    ensures ApplyTx(log, fs).dbSize == fs[|fs| - 1].dbSize
  {
  }

  /** Appends frames as one transaction: the new version is the last one with their pages laid over. */
  method AppendFrames(wal: WriteAheadLog, frames: seq<Frame>, version: u64, size: u32,
                      ghost history: map<nat, View>, ghost committed: nat, ghost live: multiset<nat>,
                      ghost pages: seq<Data>, ghost pageCount: nat)
    requires wal.Valid() && frames != [] && DistinctPages(frames) && version == committed + 1
    requires size != 0 && pageCount <= size && forall i :: 0 <= i < |frames| ==> 1 <= frames[i].page <= size
    requires Recorded(history, committed, live, wal.index, pages) && committed in history
    requires Counted(pageCount, wal.index, wal.dbSize, pages, history[committed])
    modifies wal
    ensures wal.Valid()
    ensures var view := history[committed] + TxPages(frames);
            && Recorded(history[version := view], version, live, wal.index, pages)
            && Counted(size, wal.index, wal.dbSize, pages, view)
    ensures Logged(wal.index) == old(Logged(wal.index)) + TxPages(frames)
  {
    hide *;
    LogIs(wal);
    ghost var index, logSize, fs := wal.index, wal.dbSize, Stamped(frames, version, size);
    StampedCarries(frames, TxPages(frames), version, size);
    CarriesParts(fs, TxPages(frames), version, size);
    AppliedIs(wal.State(), fs);
    wal.AppendCommit(frames, version, size);
    LogIs(wal);
    U32Is(size);
    CommitRecorded(history, committed, live, index, pages, fs);
    CommitCounted(pageCount, index, logSize, pages, history[committed], version, fs, size);
    LoggedCommit(index, version, fs);
  }

  lemma U32Is(size: u32)
    ensures size < U32
  {
  }

  class WriteTx {
    const engine: StorageEngine
    const id: nat
    const snapshot: nat
    var pending: View
    var localPageCount: nat
    var localFreelist: seq<nat>
    var finished: bool

    /** While open, the transaction holds the gate, its snapshot is the last commit, and its pages
        and free pages are within its own page count. */
    ghost predicate Valid()
      reads this, engine, engine.Repr
    {
      && engine.Valid() && this !in engine.Repr
      && (!finished ==>
            && engine.writing && snapshot == engine.mvcc.committed
            && engine.pageCount <= localPageCount < U32 && InBounds(pending, localPageCount)
            && forall i :: 0 <= i < |localFreelist| ==> 1 <= localFreelist[i] <= localPageCount)
    }

    /** What the transaction sees: its snapshot with its own changes laid over. */
    ghost function View(): View
      reads this, engine, engine.mvcc
    {
      engine.Current() + pending
    }

    /** Takes the gate, which must be free, and starts from the last commit. */
    constructor Begin(e: StorageEngine)
      requires e.Valid() && !e.writing
      modifies e`writing, e.mvcc`txIds
      ensures engine == e && Valid() && !finished && View() == e.Current() == old(e.Current())
      ensures pending == map[] && localPageCount == e.pageCount && localFreelist == e.freelist
      ensures snapshot == e.mvcc.committed && id == old(e.mvcc.txIds) + 1
    {
      hide *;
      ghost var view := e.Current();
      GateApart(e);
      var n := e.AcquireGate();
      engine, id, snapshot := e, n, e.mvcc.committed;
      pending, localPageCount, localFreelist, finished := map[], e.pageCount, e.freelist, false;
      new;
      NoneInBounds(localPageCount);
      TxFrom(this, view);
      assert view + map[] == view;
    }

    /** A page as the transaction sees it. */
    method GetPage(page: nat) returns (r: Option<Data>)
      requires Valid() && !finished
      modifies engine.cache
      ensures Valid() && View() == old(View())
      ensures AlikeRead(page, r, Expected(View(), |engine.file.pages|, page))
      ensures page in pending ==> r == Some(pending[page])
    {
      hide *;
      OpenParts(this);
      ValidParts(engine);
      ghost var view := engine.Current();
      if page in pending {
        r := Some(pending[page]);
        AlikeSelf(page, r);
      } else {
        r := engine.ReadPageAt(page, snapshot);
        ValidParts(engine);
      }
      Overlay(view, pending, |engine.file.pages|, page);
      TxFrom(this, view);
    }

    method WritePage(page: nat, data: Data)
      requires Valid() && !finished && 1 <= page <= localPageCount
      modifies this`pending
      ensures Valid() && View() == old(View())[page := data] && pending == old(pending)[page := data]
    {
      hide *;
      OpenParts(this);
      ghost var view := engine.Current();
      PutInBounds(pending, page, data, localPageCount);
      OverlayPut(view, pending, page, data);
      pending := pending[page := data];
      TxFrom(this, view);
    }

    /** A page to use: the last freed one, else a new one past the end. */
    method AllocPage() returns (page: nat)
      requires Valid() && !finished && localPageCount + 1 < U32
      modifies this`localFreelist, this`localPageCount
      ensures Valid() && View() == old(View()) && 1 <= page <= localPageCount
      ensures old(localFreelist) != [] ==>
                old(localFreelist) == localFreelist + [page] && localPageCount == old(localPageCount)
      ensures old(localFreelist) == [] ==>
                localFreelist == [] && page == localPageCount == old(localPageCount) + 1 && page !in View()
    {
      hide *;
      OpenParts(this);
      ghost var view := engine.Current();
      if localFreelist != [] {
        page := localFreelist[|localFreelist| - 1];
        localFreelist := localFreelist[..|localFreelist| - 1];
      } else {
        CurrentBounds(engine);
        Unused(view, pending, engine.pageCount, localPageCount);
        localPageCount := localPageCount + 1;
        page := localPageCount;
      }
      TxFrom(this, view);
    }

    /** Returns a page to the transaction's free pages and forgets what was written to it. */
    method FreePage(page: nat)
      requires Valid() && !finished && 1 <= page <= localPageCount
      modifies this`pending, this`localFreelist
      ensures Valid() && pending == old(pending) - {page} && localFreelist == old(localFreelist) + [page]
    {
      pending := pending - {page};
      localFreelist := localFreelist + [page];
    }

    /** Appends the pending pages to the log as one transaction, if there are any. */
    method AppendPending(version: u64, size: u32)
      requires engine.Valid() && InBounds(pending, size) && engine.pageCount <= size
      requires version == engine.mvcc.committed + 1
      modifies engine.cache, engine.wal
      ensures engine.wal.Valid() && engine.cache.Valid() && Clean(engine.cache.pages, engine.file.pages)
      ensures var view := engine.Current() + pending;
              && Recorded(engine.history[version := view], version, engine.mvcc.live, engine.wal.index, engine.file.pages)
              && Counted(size, engine.wal.index, engine.wal.dbSize, engine.file.pages, view)
      ensures Logged(engine.wal.index) == old(Logged(engine.wal.index)) + pending
    {
      hide *;
      ValidParts(engine);
      SizePositive(engine.pageCount, engine.wal.index, engine.wal.dbSize, engine.file.pages, engine.Current());
      var frames := BuildFrames(pending, version, engine.cache, engine.file.pages, size);
      if frames != [] {
        AppendFrames(engine.wal, frames, version, size, engine.history, engine.mvcc.committed, engine.mvcc.live,
                     engine.file.pages, engine.pageCount);
      } else {
        EmptyCommit(engine.history, engine.mvcc.committed, engine.mvcc.live, engine.wal.index, engine.wal.dbSize,
                    engine.file.pages, engine.pageCount, size, pending);
      }
    }

    /** Publishes everything as the next version; readers keep what they see. */
    method Commit()
      requires Valid() && !finished && engine.mvcc.committed + 1 < TWO_64
      modifies this`finished, engine, engine.cache, engine.wal, engine.mvcc`committed, engine.mvcc`txIds
      ensures Valid() && finished && !engine.writing
      ensures engine.mvcc.committed == old(engine.mvcc.committed) + 1
      ensures engine.Current() == old(View())
      ensures forall v :: v in old(engine.history) ==> v in engine.history && engine.history[v] == old(engine.history)[v]
      ensures engine.pageCount == localPageCount && engine.freelist == localFreelist
      ensures Logged(engine.wal.index) == old(Logged(engine.wal.index)) + pending
    {
      hide *;
      U64U32();
      OpenParts(this);
      ValidParts(engine);
      ghost var view := View();
      PastCommitted(engine.history, engine.mvcc.committed, engine.mvcc.live, engine.wal.index, engine.file.pages);
      var version := engine.mvcc.ReserveCommitVersion();
      VersionIs(engine.mvcc);
      AppendPending(version, localPageCount);
      engine.Publish(version, localPageCount, localFreelist, view);
      finished := true;
      TxDone(this);
    }

    /** Drops everything; the engine is as it was before the transaction began. */
    method Rollback()
      requires Valid()
      modifies this`finished, engine`writing
      ensures Valid() && finished && engine.Current() == old(engine.Current())
      ensures !old(finished) ==> !engine.writing
      ensures old(finished) ==> engine.writing == old(engine.writing)
    {
      hide *;
      OpenParts(this);
      ValidParts(engine);
      ghost var view := engine.Current();
      Finish();
      ValidFrom(engine, view);
      TxDone(this);
    }

    /** Gives the gate back, once. */
    method Finish()
      modifies this`finished, engine`writing
      ensures finished
      ensures engine.writing == (old(finished) && old(engine.writing))
    {
      if !finished {
        finished := true;
        engine.writing := false;
      }
    }
  }

  lemma OpenParts(tx: WriteTx)
    requires tx.Valid()
    ensures tx.engine.Valid() && tx !in tx.engine.Repr && tx.View() == tx.engine.Current() + tx.pending
    ensures !tx.finished ==>
              && tx.engine.writing && tx.snapshot == tx.engine.mvcc.committed
              && tx.engine.pageCount <= tx.localPageCount < U32 && InBounds(tx.pending, tx.localPageCount)
              && forall i :: 0 <= i < |tx.localFreelist| ==> 1 <= tx.localFreelist[i] <= tx.localPageCount
  {
    hide InBounds;
  }

  lemma TxFrom(tx: WriteTx, view: View)
    requires tx.engine.Valid() && tx !in tx.engine.Repr && tx.engine.Current() == view
    requires tx.engine.writing && tx.snapshot == tx.engine.mvcc.committed
    requires tx.engine.pageCount <= tx.localPageCount < U32 && InBounds(tx.pending, tx.localPageCount)
    requires forall i :: 0 <= i < |tx.localFreelist| ==> 1 <= tx.localFreelist[i] <= tx.localPageCount
    ensures tx.Valid() && tx.View() == view + tx.pending
  {
    hide InBounds;
  }

  lemma TxDone(tx: WriteTx)
    requires tx.engine.Valid() && tx !in tx.engine.Repr && tx.finished
    ensures tx.Valid()
  {
  }

  lemma U64U32()
    ensures TWO_64 == 0x1_0000_0000_0000_0000 && U32 == 0x1_0000_0000
  {
  }

  lemma GateApart(e: StorageEngine)
    requires e.Valid()
    ensures e.Repr == {e, e.file, e.cache, e.wal, e.mvcc}
  {
    ValidParts(e);
  }

  lemma NoneInBounds(n: nat)
    ensures InBounds(map[], n)
  {
  }

  lemma PutInBounds(pending: View, page: nat, data: Data, n: nat)
    requires InBounds(pending, n) && 1 <= page <= n
    ensures InBounds(pending[page := data], n)
  {
  }

  /** The page past the end holds nothing yet. */
  lemma Unused(view: View, pending: View, n: nat, m: nat)
    requires InBounds(view, n) && InBounds(pending, m) && n <= m
    ensures m + 1 !in view + pending && InBounds(pending, m + 1)
  {
  }

  lemma OverlayPut(view: View, pending: View, page: nat, data: Data)
    ensures view + pending[page := data] == (view + pending)[page := data]
  {
  }

  lemma SizePositive(pageCount: nat, index: Index, logSize: nat, pages: seq<Data>, view: View)
    requires Counted(pageCount, index, logSize, pages, view)
    ensures pageCount >= 1
  {
  }

  lemma PastCommitted(history: map<nat, View>, committed: nat, live: multiset<nat>, index: Index, pages: seq<Data>)
    requires Recorded(history, committed, live, index, pages)
    ensures committed + 1 !in history
  {
  }

  lemma VersionIs(m: MvccManager)
    ensures m.ReserveCommitVersion() == m.committed + 1
  {
  }

  lemma Overlay(view: View, pending: View, size: nat, page: nat)
    ensures Expected(view + pending, size, page) == if page in pending then Some(pending[page]) else Expected(view, size, page)
  {
  }

  /** Committed pages are within the engine's page count. */
  lemma CurrentBounds(e: StorageEngine)
    requires e.Valid()
    ensures InBounds(e.Current(), e.pageCount)
  {
    ValidParts(e);
    CountedBounds(e.pageCount, e.wal.index, e.wal.dbSize, e.file.pages, e.Current());
  }

  lemma CountedBounds(pageCount: nat, index: Index, logSize: nat, pages: seq<Data>, view: View)
    requires Counted(pageCount, index, logSize, pages, view)
    ensures InBounds(view, pageCount)
  {
  }
}
