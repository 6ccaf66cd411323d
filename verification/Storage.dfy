/** The storage engine: readers pinned to snapshots, one writer at a time, commits, checkpoints. */
module Storage {
  import opened Common
  import opened Varint
  import opened Nodes
  import opened PageFormat
  import opened WalFrames
  import opened Wal
  import opened WriteAheadLogs
  import opened Snapshots
  import opened PageCaches
  import opened Mvcc
  import opened Recovery
  import opened DbHeaders

  /** Every version a reader may hold is recorded, and reads exactly as it was committed. */
  ghost predicate Recorded(history: map<nat, View>, committed: nat, live: multiset<nat>, index: Index, pages: seq<Data>) {
    && committed in history && AllAtMost(index, committed)
    && (forall v :: v in live ==> v in history)
    && forall v :: v in history ==> v <= committed && Shows(index, pages, v, history[v])
  }

  /** The page count covers everything in the log and the file, the file's header included, and they cover the
      committed view. */
  ghost predicate Counted(pageCount: nat, index: Index, logSize: nat, pages: seq<Data>, view: View) {
    && 1 <= pageCount < U32 && |pages| <= pageCount && logSize <= pageCount && HeaderCount(pages) <= pageCount
    && (forall p :: p in index ==> 1 <= p <= logSize && index[p] != [])
    && Covered(view, index, logSize, |pages|)
  }

  class StorageEngine {
    const file: DatabaseFile
    const cache: PageCache
    const wal: WriteAheadLog
    const mvcc: MvccManager
    /** Whether a write transaction holds the gate. */
    var writing: bool
    var pageCount: nat
    var freelist: seq<nat>

    /** What was committed at each version that can still be read. */
    ghost var history: map<nat, View>

    ghost const Repr: set<object>

    ghost predicate Valid()
      reads this, Repr
    {
      && Repr == {this, file, cache, wal, mvcc}
      && wal.Valid() && cache.Valid() && mvcc.Valid()
      && Clean(cache.pages, file.pages) && Opens(file.pages)
      && Recorded(history, mvcc.committed, mvcc.live, wal.index, file.pages)
      && Counted(pageCount, wal.index, wal.dbSize, file.pages, Current())
      && forall i :: 0 <= i < |freelist| ==> 1 <= freelist[i] <= pageCount
    }

    /** The last committed view. */
    ghost function Current(): View
      reads this, mvcc
    {
      if mvcc.committed in history then history[mvcc.committed] else map[]
    }

    /** The engine over files whose header was read. */
    constructor Open(pages: seq<Data>, bytes: seq<byte>, ghost view: View, ghost logged: View)
      requires Opens(pages) && Recoverable(pages, bytes, view, logged)
      requires LogInBounds(OpenedLog(pages, bytes), |pages|)
      ensures Valid() && fresh(Repr) && !writing && mvcc.live == multiset{} && Current() == view
      ensures pageCount == PageCountOf(HeaderCount(pages), wal.dbSize, |pages|) && InBounds(view, pageCount)
      ensures freelist == [] && mvcc.committed == wal.maxVersion && Logged(wal.index) == logged
      ensures (wal.State(), wal.file) == Recover(Log(map[], 0, HeaderCount(pages)), bytes) && file.pages == pages
    {
      hide *;
      var f := new DatabaseFile(pages);
      var w := new WriteAheadLog.Open(bytes, HeaderCount(pages));
      var c := new PageCache(2000);
      var m := new MvccManager(w.maxVersion);
      file, wal, cache, mvcc := f, w, c, m;
      writing, freelist := false, [];
      pageCount := PageCountOf(HeaderCount(pages), w.dbSize, |pages|);
      history := map[w.maxVersion := view];
      Repr := {this, f, c, w, m};
      LogIs(w);
      OpenedIs(pages, bytes);
      OpenMeaning(pages, bytes, view, logged);
      new;
      ValidFrom(this, view);
    }

    /** A page as of a version: from the log, else from the cache, else from the file, which fills
        the cache. None is the error for a page out of range. */
    method ReadPageAt(id: nat, version: nat) returns (r: Option<Data>)
      requires Valid()
      modifies cache
      ensures Valid()
      ensures AlikeRead(id, r, ReadFrom(wal.index, file.pages, id, version))
      ensures version in history ==> AlikeRead(id, r, Expected(history[version], |file.pages|, id))
    {
      hide *;
      ValidParts(this);
      ghost var view := Current();
      ReadMeaning(history, mvcc.committed, mvcc.live, wal.index, file.pages, id, version);
      r := wal.ReadPage(id, version);
      if r == None {
        CleanAt(cache.pages, file.pages, id);
        r := cache.Get(id);
        if r == None {
          r := file.ReadPage(id);
          if r != None {
            ghost var before := cache.pages;
            cache.Insert(id, r.value);
            CleanInsert(before, cache.pages, file.pages, id, r.value);
          }
          AlikeSelf(id, r);
        }
      } else {
        AlikeSelf(id, r);
      }
      ReadAs(history, wal.index, file.pages, id, version, r);
      ValidFrom(this, view);
    }

    /** Pins the last committed version. */
    method BeginRead() returns (snapshot: nat)
      requires Valid()
      modifies mvcc
      ensures Valid() && snapshot == mvcc.committed == old(mvcc.committed)
      ensures mvcc.live == old(mvcc.live) + multiset{snapshot} && Current() == old(Current())
    {
      hide *;
      ValidParts(this);
      ghost var view := Current();
      snapshot := mvcc.BeginRead();
      RecordedLive(history, mvcc.committed, old(mvcc.live), mvcc.live, wal.index, file.pages);
      ValidFrom(this, view);
    }

    method EndRead(snapshot: nat)
      requires Valid()
      modifies mvcc
      ensures Valid() && mvcc.live == old(mvcc.live) - multiset{snapshot}
      ensures mvcc.committed == old(mvcc.committed) && Current() == old(Current())
    {
      hide *;
      ValidParts(this);
      ghost var view := Current();
      mvcc.EndRead(snapshot);
      RecordedLive(history, mvcc.committed, old(mvcc.live), mvcc.live, wal.index, file.pages);
      ValidFrom(this, view);
    }

    /** Takes the gate for a new write transaction. */
    method AcquireGate() returns (id: nat)
      requires Valid() && !writing
      modifies this`writing, mvcc`txIds
      ensures Valid() && writing && Current() == old(Current()) && pageCount < U32
      ensures id == mvcc.txIds == old(mvcc.txIds) + 1
      ensures forall i :: 0 <= i < |freelist| ==> 1 <= freelist[i] <= pageCount
    {
      hide *;
      ValidParts(this);
      CountedLimit(pageCount, wal.index, wal.dbSize, file.pages, Current());
      ghost var view := Current();
      writing := true;
      id := mvcc.BeginWrite();
      ValidFrom(this, view);
    }

    /** Makes an appended version current, hands over the allocator and opens the gate. */
    method Publish(version: nat, size: nat, free: seq<nat>, ghost view: View)
      requires Repr == {this, file, cache, wal, mvcc} && version == mvcc.committed + 1
      requires wal.Valid() && cache.Valid() && mvcc.Valid() && Clean(cache.pages, file.pages) && Opens(file.pages)
      requires Recorded(history[version := view], version, mvcc.live, wal.index, file.pages)
      requires Counted(size, wal.index, wal.dbSize, file.pages, view)
      requires forall i :: 0 <= i < |free| ==> 1 <= free[i] <= size
      modifies this, mvcc`committed, mvcc`txIds
      ensures Valid() && Current() == view && mvcc.committed == version
      ensures pageCount == size && freelist == free && !writing && history == old(history)[version := view]
    {
      hide *;
      mvcc.PublishCommit(version);
      history := history[version := view];
      pageCount := size;
      freelist := free;
      writing := false;
      ValidFrom(this, view);
    }

    /** Folds the log into the file, unless some reader is pinned before the last commit. No live
        reader and no writer sees any difference. */
    method CheckpointLog()
      requires Valid()
      modifies this`history, wal, file, cache
      ensures Valid() && Current() == old(Current())
      ensures forall v :: v in mvcc.live ==> v in history && history[v] == old(history)[v]
      ensures (exists v :: v in mvcc.live && v < mvcc.committed) ==>
                wal.file == old(wal.file) && file.pages == old(file.pages) && history == old(history)
      ensures !(exists v :: v in mvcc.live && v < mvcc.committed) ==>
                wal.index == map[]
                && (old(wal.index) != map[] ==> wal.file == [] && HasFinalHeader(file.pages, old(wal.dbSize), old(wal.maxVersion)))
      ensures (exists v :: v in mvcc.live && v < mvcc.committed) ==> wal.index == old(wal.index)
    {
      hide *;
      ValidParts(this);
      ghost var view := Current();
      RecordedParts(history, mvcc.committed, mvcc.live, wal.index, file.pages);
      var oldest := mvcc.OldestRequiredVersion();
      if oldest < mvcc.committed { return; }
      LogIs(wal);
      CountedParts(pageCount, wal.index, wal.dbSize, file.pages, view);
      ghost var order := Checkpoint(wal, file, cache, pageCount);
      LogIs(wal);
      if old(wal.index) != map[] {
        FinalCount(file.pages, old(wal.dbSize), old(wal.maxVersion));
      }
      history := map[mvcc.committed := view];
      AfterFold(old(history), mvcc.committed, mvcc.live, old(wal.index), old(file.pages), file.pages, view,
                pageCount, wal.dbSize);
      ValidFrom(this, view);
    }
  }

  lemma RecordedParts(history: map<nat, View>, committed: nat, live: multiset<nat>, index: Index, pages: seq<Data>)
    requires Recorded(history, committed, live, index, pages)
    ensures committed in history && AllAtMost(index, committed)
    ensures forall v :: v in live ==> v in history && v <= committed
  {
  }

  lemma ReadMeaning(history: map<nat, View>, committed: nat, live: multiset<nat>, index: Index, pages: seq<Data>,
                    id: nat, v: nat)
    requires Recorded(history, committed, live, index, pages)
    ensures ReadFrom(index, pages, id, v) ==
            match Visible(Entries(index, id), v)
            case Some(d) => Some(d)
            case None => FileRead(pages, id)
    ensures v in history ==> AlikeRead(id, ReadFrom(index, pages, id, v), Expected(history[v], |pages|, id))
  {
    hide ReadFrom, Expected, AllAtMost, AlikeRead;
    if v in history {
      assert ShowsAt(index, pages, v, history[v], id);
    }
    ReadFromIs(index, pages, id, v);
  }

  lemma ReadAs(history: map<nat, View>, index: Index, pages: seq<Data>, id: nat, v: nat, r: Option<Data>)
    requires AlikeRead(id, r, ReadFrom(index, pages, id, v))
    requires v in history ==> AlikeRead(id, ReadFrom(index, pages, id, v), Expected(history[v], |pages|, id))
    ensures v in history ==> AlikeRead(id, r, Expected(history[v], |pages|, id))
  {
    hide *;
    if v in history {
      AlikeTrans(id, r, ReadFrom(index, pages, id, v), Expected(history[v], |pages|, id));
    }
  }

  lemma ReadFromIs(index: Index, pages: seq<Data>, id: nat, v: nat)
    ensures ReadFrom(index, pages, id, v) ==
            match Visible(Entries(index, id), v)
            case Some(d) => Some(d)
            case None => FileRead(pages, id)
  {
  }

  lemma CleanAt(cached: map<nat, Data>, pages: seq<Data>, id: nat)
    requires Clean(cached, pages)
    ensures id in cached ==> AlikeRead(id, Some(cached[id]), FileRead(pages, id))
  {
    hide AlikeRead, FileRead;
    if id in cached {
      AlikeFlip(id, FileRead(pages, id), Some(cached[id]));
    }
  }

  lemma CleanInsert(cached: map<nat, Data>, cached': map<nat, Data>, pages: seq<Data>, id: nat, data: Data)
    requires Clean(cached, pages) && FileRead(pages, id) == Some(data)
    requires id in cached' && cached'[id] == data
    requires forall p :: p in cached' && p != id ==> p in cached && cached'[p] == cached[p]
    ensures Clean(cached', pages)
  {
    hide AlikeRead, FileRead;
    AlikeSelf(id, Some(data));
  }

  lemma RecordedLive(history: map<nat, View>, committed: nat, live: multiset<nat>, live': multiset<nat>,
                     index: Index, pages: seq<Data>)
    requires Recorded(history, committed, live, index, pages) && forall v :: v in live' ==> v in live || v == committed
    ensures Recorded(history, committed, live', index, pages)
  {
    hide Shows, AllAtMost;
  }

  lemma CountedParts(pageCount: nat, index: Index, logSize: nat, pages: seq<Data>, view: View)
    requires Counted(pageCount, index, logSize, pages, view)
    ensures |pages| <= pageCount < U32 && logSize <= pageCount && HeaderCount(pages) <= pageCount
    ensures forall p :: p in index ==> 1 <= p <= pageCount && index[p] != []
  {
    hide Covered;
  }

  /** The invariants after a checkpoint that no lagging reader prevented. */
  lemma AfterFold(history: map<nat, View>, committed: nat, live: multiset<nat>, index: Index,
                  pages: seq<Data>, pages': seq<Data>, view: View,
                  pageCount: nat, logSize: nat)
    requires Recorded(history, committed, live, index, pages) && history[committed] == view
    requires Counted(pageCount, index, logSize, pages, view)
    requires !(exists v :: v in live && v < committed)
    requires Folded(index, pages, pages') && |pages'| <= pageCount && HeaderCount(pages') <= pageCount
    ensures Recorded(map[committed := view], committed, live, map[], pages')
    ensures Counted(pageCount, map[], logSize, pages', view)
    ensures forall v :: v in live ==> v == committed
  {
    hide Shows, AllAtMost, Folded, Covered;
    RecordedParts(history, committed, live, index, pages);
    FoldShows(index, pages, pages', committed, view);
    NoneAtMost(committed);
    FoldCovered(index, pages, pages', view, logSize);
  }

  lemma CountedLimit(pageCount: nat, index: Index, logSize: nat, pages: seq<Data>, view: View)
    requires Counted(pageCount, index, logSize, pages, view)
    ensures pageCount < U32
  {
    hide Covered;
  }

  /** Every committed page is in the file after a checkpoint. */
  lemma FoldCovered(index: Index, pages: seq<Data>, pages': seq<Data>, view: View, logSize: nat)
    requires Covered(view, index, logSize, |pages|) && Folded(index, pages, pages')
    requires forall p :: p in index ==> index[p] != []
    ensures Covered(view, map[], logSize, |pages'|)
  {
    hide FileRead;
    forall id | id in view
      ensures 1 <= id <= |pages'|
    {
      assert FoldedAt(index, pages', id);
      if id > |pages| {
        NewestIs(index, id);
        PastEnd(pages', id);
      }
    }
  }

  /** The pages in a recovered log are within its page count, and there are fewer than 2^32. */
  predicate LogInBounds(log: Log, physical: nat) {
    && log.dbSize < U32 && physical < U32
    && forall p :: p in log.index ==> 1 <= p <= log.dbSize && log.index[p] != []
  }

  lemma RecoveredAtMost(header: nat, bytes: seq<byte>)
    ensures var log := Recover(Log(map[], 0, header), bytes).0; AllAtMost(log.index, log.maxVersion)
  {
    hide Frames, ScanFrom, AllAtMost;
    ScanAtMost(Log(map[], 0, header), Frames(bytes));
  }

  lemma OpenMeaning(pages: seq<Data>, bytes: seq<byte>, view: View, logged: View)
    requires Recoverable(pages, bytes, view, logged) && LogInBounds(OpenedLog(pages, bytes), |pages|)
    ensures var log := OpenedLog(pages, bytes);
            var n := PageCountOf(HeaderCount(pages), log.dbSize, |pages|);
            && Recorded(map[log.maxVersion := view], log.maxVersion, multiset{}, log.index, pages)
            && Counted(n, log.index, log.dbSize, pages, view) && InBounds(view, n)
            && Clean(map[], pages) && Logged(log.index) == logged
  {
    hide Recover, Shows, AllAtMost, HeaderCount, Logged;
    RecoveredAtMost(HeaderCount(pages), bytes);
  }

  lemma OpenedIs(pages: seq<Data>, bytes: seq<byte>)
    ensures OpenedLog(pages, bytes) == Recover(Log(map[], 0, HeaderCount(pages)), bytes).0
  {
  }

  // ---- opening ----

  /** An empty file is given a first page. */
  function OnDisk(pages: seq<Data>): seq<Data> {
    if pages == [] then [FirstPage()] else pages
  }

  datatype Opening = Opened(engine: StorageEngine) | Refused(why: HeaderError)

  /** Opens a database: exactly when page 1 of its file begins with a header. */
  method OpenDatabase(file: seq<Data>, bytes: seq<byte>, ghost view: View, ghost logged: View) returns (r: Opening)
    requires Recoverable(OnDisk(file), bytes, view, logged) && LogInBounds(OpenedLog(OnDisk(file), bytes), |OnDisk(file)|)
    ensures r.Opened? <==> Opens(OnDisk(file))
    ensures r.Refused? ==> file != [] && ReadHeader(file[0]) == Bad(r.why)
    ensures r.Opened? ==>
              && r.engine.Valid() && fresh(r.engine.Repr) && !r.engine.writing && r.engine.mvcc.live == multiset{}
              && r.engine.Current() == view && InBounds(view, r.engine.pageCount) && r.engine.freelist == []
              && Logged(r.engine.wal.index) == logged && r.engine.mvcc.committed == r.engine.wal.maxVersion
              && r.engine.pageCount == PageCountOf(HeaderCount(OnDisk(file)), r.engine.wal.dbSize, |OnDisk(file)|)
              && (r.engine.wal.State(), r.engine.wal.file) == Recover(Log(map[], 0, HeaderCount(OnDisk(file))), bytes)
  {
    hide *;
    var pages := OnDisk(file);
    OnDiskIs(file);
    var header := ReadHeader(pages[0]);
    OpensIs(pages);
    if header.Bad? {
      return Refused(header.why);
    }
    var e := new StorageEngine.Open(pages, bytes, view, logged);
    return Opened(e);
  }

  lemma OnDiskIs(file: seq<Data>)
    ensures OnDisk(file) != [] && (file != [] ==> OnDisk(file) == file)
    ensures file == [] ==> Opens(OnDisk(file))
  {
    hide HeaderOk, FirstPage;
    FirstPageHeld();
  }

  lemma OpensIs(pages: seq<Data>)
    requires pages != []
    ensures Opens(pages) <==> ReadHeader(pages[0]).Header?
  {
    hide ReadHeader;
  }

  lemma FullIs(start: Log, bytes: seq<byte>, log: Log)
    requires Whole(start, bytes, log)
    ensures Recover(start, bytes) == (log, bytes)
  {
    hide Frames, ScanFrom;
    RecoverIs(start, bytes, Frames(bytes), log, [], |bytes|);
    assert bytes[..|bytes|] == bytes;
  }

  /** The page count that opening the files gives. */
  function OpenedCount(pages: seq<Data>, bytes: seq<byte>): nat {
    PageCountOf(HeaderCount(pages), OpenedLog(pages, bytes).dbSize, |pages|)
  }

  /** It is the largest of what the header, the log and the length of the file say, and at least 1. */
  lemma CountIs(pages: seq<Data>, bytes: seq<byte>, logSize: nat, bound: nat)
    requires OpenedLog(pages, bytes).dbSize == logSize
    ensures OpenedCount(pages, bytes) <= bound <==> HeaderCount(pages) <= bound && logSize <= bound && |pages| <= bound && 1 <= bound
    ensures logSize <= OpenedCount(pages, bytes)
  {
    hide OpenedLog, HeaderCount;
  }

  /** A database can be opened again from its files at any moment between operations, and shows what
      was last committed. */
  lemma CrashDisk(e: StorageEngine)
    requires e.Valid()
    ensures Opens(e.file.pages) && Recoverable(e.file.pages, e.wal.file, e.Current(), Logged(e.wal.index))
    ensures LogInBounds(OpenedLog(e.file.pages, e.wal.file), |e.file.pages|)
    ensures OpenedCount(e.file.pages, e.wal.file) <= e.pageCount
  {
    hide *;
    ValidParts(e);
    LogIs(e.wal);
    WalParts(e.wal);
    var header, index, logSize := HeaderCount(e.file.pages), e.wal.index, e.wal.dbSize;
    RecordedAt(e.history, e.mvcc.committed, e.mvcc.live, index, e.file.pages);
    CountedAll(e.pageCount, index, logSize, e.file.pages, e.Current());
    CrashIdle(e.wal.start, e.wal.file, e.wal.State(), e.file.pages, e.mvcc.committed, e.Current());
    var log' := WholeSwap(e.wal.start, e.wal.file, e.wal.State(), header);
    FullIs(Log(map[], 0, header), e.wal.file, log');
    OpenedIs(e.file.pages, e.wal.file);
    CountIs(e.file.pages, e.wal.file, log'.dbSize, e.pageCount);
    StillInBounds(e.pageCount, header, index, logSize, e.file.pages, |e.file.pages|, e.Current(), log');
  }

  /** The same while a commit is being appended: the old view until the last byte, then the new one. */
  lemma CrashDiskInCommit(e: StorageEngine, fs: seq<Frame>, k: nat)
    requires e.Valid() && IsTx(fs) && DistinctPages(fs) && k <= |EncodeAll(fs)|
    requires fs[|fs| - 1].version > e.mvcc.committed && fs[|fs| - 1].dbSize >= e.pageCount
    requires forall i :: 0 <= i < |fs| ==> 1 <= fs[i].page <= fs[|fs| - 1].dbSize
    ensures var bytes, all := e.wal.file + EncodeAll(fs)[..k], k == |EncodeAll(fs)|;
            && Opens(e.file.pages)
            && Recoverable(e.file.pages, bytes, if all then e.Current() + TxPages(fs) else e.Current(),
                           if all then Logged(e.wal.index) + TxPages(fs) else Logged(e.wal.index))
            && LogInBounds(OpenedLog(e.file.pages, bytes), |e.file.pages|)
            && if all then OpenedCount(e.file.pages, bytes) == fs[|fs| - 1].dbSize
               else OpenedCount(e.file.pages, bytes) <= e.pageCount
  {
    hide *;
    ValidParts(e);
    LogIs(e.wal);
    WalParts(e.wal);
    NonEmpty(fs);
    var header, index, logSize := HeaderCount(e.file.pages), e.wal.index, e.wal.dbSize;
    RecordedAt(e.history, e.mvcc.committed, e.mvcc.live, index, e.file.pages);
    CountedAll(e.pageCount, index, logSize, e.file.pages, e.Current());
    CrashInCommit(e.wal.start, e.wal.file, e.wal.State(), fs, k, e.file.pages, e.mvcc.committed, e.Current());
    var log' := WholeSwap(e.wal.start, e.wal.file, e.wal.State(), header);
    OpenedIs(e.file.pages, e.wal.file + EncodeAll(fs)[..k]);
    StillInBounds(e.pageCount, header, index, logSize, e.file.pages, |e.file.pages|, e.Current(), log');
    CrashDuringAppend(Log(map[], 0, header), e.wal.file, log', fs, k);
    if k < |EncodeAll(fs)| {
      CountIs(e.file.pages, e.wal.file + EncodeAll(fs)[..k], log'.dbSize, e.pageCount);
    } else {
      AppliedSize(log', fs);
      CountIs(e.file.pages, e.wal.file + EncodeAll(fs)[..k], fs[|fs| - 1].dbSize, fs[|fs| - 1].dbSize);
    }
    if k == |EncodeAll(fs)| {
      assert EncodeAll(fs)[..k] == EncodeAll(fs);
      AppliedInBounds(log', fs, |e.file.pages|);
    }
  }

  lemma NonEmpty(fs: seq<Frame>)
    requires IsTx(fs)
    ensures fs != []
  {
  }

  lemma WalParts(wal: WriteAheadLog)
    requires wal.Valid()
    ensures wal.start.index == map[] && Whole(wal.start, wal.file, wal.State())
  {
    hide Whole;
  }

  lemma RecordedAt(history: map<nat, View>, committed: nat, live: multiset<nat>, index: Index, pages: seq<Data>)
    requires Recorded(history, committed, live, index, pages)
    ensures committed in history && AllAtMost(index, committed) && Shows(index, pages, committed, history[committed])
  {
    hide Shows, AllAtMost;
  }

  lemma CountedAll(pageCount: nat, index: Index, logSize: nat, pages: seq<Data>, view: View)
    requires Counted(pageCount, index, logSize, pages, view)
    ensures Covered(view, index, logSize, |pages|) && 1 <= pageCount < U32 && logSize <= pageCount
    ensures |pages| <= pageCount && HeaderCount(pages) <= pageCount
  {
    hide Covered;
  }

  /** A replayed log is within the counts of the live one. */
  lemma StillInBounds(pageCount: nat, header: nat, index: Index, logSize: nat, pages: seq<Data>, physical: nat,
                      view: View, log: Log)
    requires Counted(pageCount, index, logSize, pages, view) && physical <= pageCount && header < U32
    requires log.index == index && (log.dbSize == logSize || (index == map[] && log.dbSize == header))
    ensures LogInBounds(log, physical)
  {
    hide Covered;
  }

  lemma AppliedSize(log: Log, fs: seq<Frame>)
    requires fs != []
    ensures ApplyTx(log, fs).dbSize == fs[|fs| - 1].dbSize
  {
    hide PushAll;
  }

  lemma AppliedInBounds(log: Log, fs: seq<Frame>, physical: nat)
    requires fs != [] && LogInBounds(log, physical) && (log.index == map[] || log.dbSize <= fs[|fs| - 1].dbSize)
    requires forall i :: 0 <= i < |fs| ==> 1 <= fs[i].page <= fs[|fs| - 1].dbSize
    ensures LogInBounds(ApplyTx(log, fs), physical)
  {
    hide PushAll, TxPages;
    var log' := ApplyTx(log, fs);
    forall p | p in log'.index
      ensures 1 <= p <= log'.dbSize && log'.index[p] != []
    {
      PushAllKeeps(log.index, fs[|fs| - 1].version, fs, p);
      TxPagesKeys(fs, p);
    }
  }

  /** Inside a checkpoint, with the file's pages half written, even torn, the files still hold the last
      commit; whether they open is up to the front of page 1. */
  lemma CrashDiskInCheckpoint(e: StorageEngine, pages': seq<Data>)
    requires e.Valid() && PartlyFolded(e.wal.index, e.file.pages, pages') && |pages'| <= e.pageCount
    ensures Recoverable(pages', e.wal.file, e.Current(), Logged(e.wal.index))
    ensures LogInBounds(OpenedLog(pages', e.wal.file), |pages'|)
    ensures OpenedCount(pages', e.wal.file) <= Max(e.pageCount, HeaderCount(pages'))
  {
    hide *;
    ValidParts(e);
    LogIs(e.wal);
    WalParts(e.wal);
    var header, index, logSize := HeaderCount(pages'), e.wal.index, e.wal.dbSize;
    RecordedAt(e.history, e.mvcc.committed, e.mvcc.live, index, e.file.pages);
    CountedAll(e.pageCount, index, logSize, e.file.pages, e.Current());
    CrashInCheckpoint(e.wal.start, e.wal.file, e.wal.State(), e.file.pages, pages', e.mvcc.committed, e.Current());
    var log' := WholeSwap(e.wal.start, e.wal.file, e.wal.State(), header);
    FullIs(Log(map[], 0, header), e.wal.file, log');
    OpenedIs(pages', e.wal.file);
    MaxIs(e.pageCount, header);
    CountIs(pages', e.wal.file, log'.dbSize, Max(e.pageCount, header));
    StillInBounds(e.pageCount, header, index, logSize, e.file.pages, |pages'|, e.Current(), log');
  }

  lemma MaxIs(a: nat, b: nat)
    ensures Max(a, b) == if a >= b then a else b
  {
  }

  lemma ValidParts(e: StorageEngine)
    requires e.Valid()
    ensures e.Repr == {e, e.file, e.cache, e.wal, e.mvcc}
    ensures e.wal.Valid() && e.cache.Valid() && e.mvcc.Valid() && Clean(e.cache.pages, e.file.pages) && Opens(e.file.pages)
    ensures Recorded(e.history, e.mvcc.committed, e.mvcc.live, e.wal.index, e.file.pages)
    ensures Counted(e.pageCount, e.wal.index, e.wal.dbSize, e.file.pages, e.Current())
    ensures e.mvcc.committed in e.history && e.Current() == e.history[e.mvcc.committed]
    ensures forall i :: 0 <= i < |e.freelist| ==> 1 <= e.freelist[i] <= e.pageCount
  {
  }

  lemma ValidFrom(e: StorageEngine, view: View)
    requires e.Repr == {e, e.file, e.cache, e.wal, e.mvcc}
    requires e.wal.Valid() && e.cache.Valid() && e.mvcc.Valid() && Clean(e.cache.pages, e.file.pages) && Opens(e.file.pages)
    requires Recorded(e.history, e.mvcc.committed, e.mvcc.live, e.wal.index, e.file.pages)
    requires e.mvcc.committed in e.history && e.history[e.mvcc.committed] == view
    requires Counted(e.pageCount, e.wal.index, e.wal.dbSize, e.file.pages, view)
    requires forall i :: 0 <= i < |e.freelist| ==> 1 <= e.freelist[i] <= e.pageCount
    ensures e.Valid() && e.Current() == view
  {
  }
}
