/** Runs of a database: any sequence of reads, writes, commits, checkpoints and crashes behaves like
    a store that is simply replaced at each commit. */
module Databases {
  import opened Common
  import opened Varint
  import opened Nodes
  import opened PageFormat
  import opened WalFrames
  import opened Wal
  import opened WriteAheadLogs
  import opened Snapshots
  import opened PageCaches
  import opened Mvcc
  import opened Recovery
  import opened Storage
  import opened WriteTransactions
  import opened DbHeaders

  // ---- the simple store ----

  /** An open write transaction: its changes and its allocator. */
  datatype Writer = Writer(pending: View, size: nat, free: seq<nat>)

  /** A reader: the version it is pinned to and what was committed then. */
  datatype Reader = Reader(version: nat, view: View)

  /** The committed pages, those of them that are in the log, the readers, and the writer if any; lost
      when the database no longer opens. */
  datatype Model = Model(committed: View, version: nat, size: nat, free: seq<nat>, logged: View,
                         readers: seq<Reader>, writer: Option<Writer>, lost: bool)

  datatype Op =
    | BeginRead
    | Read(reader: nat, page: nat)
    | EndRead(reader: nat)
    | BeginWrite
    | Get(page: nat)
    | Put(page: nat, data: Data)
    | Alloc
    | Free(page: nat)
    | Commit
    | Rollback
    | Checkpoint
    | Crash
    | CrashInCommit(written: nat)
    | CrashInCheckpoint(writes: nat)

  /** Ops that do nothing: a lost database, no such reader, no writer or already one, a page out of the writer's range,
      numbers at their 32- or 64-bit end. */
  predicate Idle(m: Model, op: Op) {
    m.lost ||
    match op
    case Read(i, _) => i >= |m.readers|
    case EndRead(i) => i >= |m.readers|
    case BeginWrite => m.writer.Some?
    case Get(_) => m.writer.None?
    case Put(p, _) => m.writer.None? || !(1 <= p <= m.writer.value.size)
    case Alloc => m.writer.None? || m.writer.value.size + 1 >= U32
    case Free(p) => m.writer.None? || !(1 <= p <= m.writer.value.size)
    case Commit => m.writer.None? || m.version + 1 >= TWO_64
    case CrashInCommit(_) => m.writer.None? || m.version + 1 >= TWO_64
    case Rollback => m.writer.None?
    case _ => false
  }

  /** A page that reads as view says, where view says anything. */
  predicate Reads(view: View, page: nat, r: Option<Data>) {
    if page in view then AlikeRead(page, r, Some(view[page])) else r == None || AlikeRead(page, r, Some(Zeros()))
  }

  function Drop(readers: seq<Reader>, i: nat): seq<Reader>
    requires i < |readers|
  {
    readers[..i] + readers[i + 1..]
  }

  /** Some reader is pinned before the last commit. */
  predicate Lagging(m: Model) {
    exists i :: 0 <= i < |m.readers| && m.readers[i].version < m.version
  }

  /** After a crash: the readers, the writer and the free list are gone, the committed pages are not. */
  ghost predicate Reopened(m': Model, view: View, logged: View) {
    && m'.committed == view && m'.logged == logged && m'.readers == [] && m'.writer == None && m'.free == []
    && InBounds(view, m'.size) && !m'.lost
  }

  /** The page count in the newest image of page 1, if that is in the log and begins with a header. */
  function FrontCount(logged: View): nat {
    if 1 in logged then HeaderCount([logged[1]]) else 0
  }

  /** The version and the page count that opening these files gives: those of the last transaction in what is left
      of the log, with the header's and the file's own page count. */
  ghost predicate Restarted(m: Model, pages: seq<Data>, bytes: seq<byte>) {
    && m.version == OpenedLog(pages, bytes).maxVersion
    && m.size == OpenedCount(pages, bytes)
  }

  function Lost(m: Model): Model {
    m.(readers := [], writer := None, lost := true)
  }

  /** The page the next allocation hands out. */
  function NextPage(w: Writer): nat {
    if w.free != [] then w.free[|w.free| - 1] else w.size + 1
  }

  /** What an op may answer and how it changes the store. */
  ghost predicate Allows(m: Model, op: Op, m': Model, r: Option<Data>) {
    if Idle(m, op) then m' == m
    else
      match op
      case BeginRead => m' == m.(readers := m.readers + [Reader(m.version, m.committed)])
      case Read(i, p) => m' == m && Reads(m.readers[i].view, p, r)
      case EndRead(i) => m' == m.(readers := Drop(m.readers, i))
      case BeginWrite => m' == m.(writer := Some(Writer(map[], m.size, m.free)))
      case Get(p) => m' == m && Reads(m.committed + m.writer.value.pending, p, r)
      case Put(p, d) =>
        var w := m.writer.value;
        m' == m.(writer := Some(w.(pending := w.pending[p := d])))
      case Alloc =>
        var w := m.writer.value;
        m' == m.(writer := Some(if w.free != [] then w.(free := w.free[..|w.free| - 1]) else w.(size := w.size + 1)))
      case Free(p) =>
        var w := m.writer.value;
        m' == m.(writer := Some(w.(pending := w.pending - {p}, free := w.free + [p])))
      case Commit =>
        var w := m.writer.value;
        m' == m.(committed := m.committed + w.pending, version := m.version + 1, size := w.size, free := w.free,
                 logged := m.logged + w.pending, writer := None)
      case Rollback => m' == m.(writer := None)
      case Checkpoint => m' == if Lagging(m) then m else m.(logged := map[])
      case Crash => Reopened(m', m.committed, m.logged) && m'.size <= m.size
      case CrashInCommit(k) =>
        var w := m.writer.value;
        if k < FRAME_SIZE * |w.pending| then Reopened(m', m.committed, m.logged) && m'.size <= m.size
        else
          && Reopened(m', m.committed + w.pending, m.logged + w.pending)
          && (if w.pending == map[] then m'.size <= m.size else m'.size == w.size)
      case CrashInCheckpoint(j) => CrashedFolding(m, j, m')
  }

  /** A crash after j writes of a checkpoint: the pages of the log in page order, the header, and at last the
      truncation of the log. The database is lost while the header that a page write took is not back. Only a header
      that a writer put there itself can enlarge the page count. */
  ghost predicate CrashedFolding(m: Model, j: nat, m': Model) {
    if Lagging(m) || m.logged == map[] then Reopened(m', m.committed, m.logged) && m'.size <= m.size
    else if j > |m.logged| + 1 then Reopened(m', m.committed, map[]) && m'.size <= m.size
    else if HeaderSurvives(m.logged, j) then
      && Reopened(m', m.committed, m.logged)
      && m'.size <= if 1 <= j <= |m.logged| then Max(m.size, FrontCount(m.logged)) else m.size
    else m' == Lost(m)
  }

  ghost predicate ReadersMatch(readers: seq<nat>, history: map<nat, View>, rs: seq<Reader>) {
    && |readers| == |rs|
    && forall i :: 0 <= i < |readers| ==> readers[i] in history && rs[i] == Reader(readers[i], history[readers[i]])
  }

  ghost function WriterOf(tx: WriteTx): Writer
    reads tx
  {
    Writer(tx.pending, tx.localPageCount, tx.localFreelist)
  }

  class Database {
    var engine: StorageEngine
    var tx: WriteTx?
    /** The snapshot of each live reader. */
    var readers: seq<nat>
    /** The database file was refused. */
    var lost: bool

    ghost var model: Model

    ghost function Footprint(): set<object>
      reads this, engine
    {
      {this} + engine.Repr + if tx == null then {} else {tx}
    }

    /** The engine holds what the simple store says; the pinned versions are exactly the readers'. */
    ghost predicate Valid()
      reads this, engine, engine.mvcc, engine.wal, engine.Repr, tx
    {
      && this !in engine.Repr && lost == model.lost
      && if lost then tx == null && readers == [] && model.readers == [] && model.writer == None
         else Live()
    }

    ghost predicate Live()
      reads this, engine, engine.mvcc, engine.wal, engine.Repr, tx
    {
      && (tx != null ==> tx.engine == engine && !tx.finished && tx.Valid())
      && engine.Valid()
      && multiset(readers) == engine.mvcc.live
      && ReadersMatch(readers, engine.history, model.readers)
      && (tx == null ==> !engine.writing)
      && model == Model(engine.Current(), engine.mvcc.committed, engine.pageCount, engine.freelist, Logged(engine.wal.index),
                        model.readers, if tx == null then None else Some(WriterOf(tx)), false)
    }

    /** A new database, over an empty file and an empty log. */
    constructor Create()
      ensures Valid() && fresh(Footprint())
      ensures model == Model(map[1 := FirstPage()], 0, 1, [], map[], [], None, false)
    {
      hide *;
      FreshDisk();
      var r := OpenDatabase([], [], map[1 := FirstPage()], map[]);
      var e := r.engine;
      engine, tx, readers, lost := e, null, [], false;
      model := Model(map[1 := FirstPage()], e.mvcc.committed, e.pageCount, [], map[], [], None, false);
      new;
      NoReaders(e.history);
      LogIs(e.wal);
      ClosedFrom(this);
    }

    method OpenReader()
      requires Valid()
      modifies Footprint()
      ensures Valid() && Footprint() == old(Footprint())
      ensures Allows(old(model), BeginRead, model, None)
    {
      hide *;
      Parts(this);
      if lost {
        StepLost(model, BeginRead, None);
        return;
      }
      var snapshot := engine.BeginRead();
      ReaderAdded(readers, engine.history, model.readers, snapshot);
      HistoryIs(engine);
      readers := readers + [snapshot];
      ghost var before := model;
      model := before.(readers := before.readers + [Reader(before.version, before.committed)]);
      StepBeginRead(before, model);
      Assembled(this);
    }

    method ReadPage(i: nat, page: nat) returns (r: Option<Data>)
      requires Valid()
      modifies Footprint()
      ensures Valid() && Footprint() == old(Footprint())
      ensures Allows(old(model), Read(i, page), model, r)
    {
      hide *;
      r := None;
      Parts(this);
      if lost {
        StepLost(model, Read(i, page), r);
        return;
      }
      if i >= |readers| {
        ReaderCount(readers, engine.history, model.readers);
        StepIdle(model, Read(i, page), r);
        IdleRead(model, i, page);
        return;
      }
      ReaderAt(readers, engine.history, model.readers, i);
      r := engine.ReadPageAt(page, readers[i]);
      StepRead(model, i, page, |engine.file.pages|, r);
      Assembled(this);
    }

    method CloseReader(i: nat)
      requires Valid()
      modifies Footprint()
      ensures Valid() && Footprint() == old(Footprint())
      ensures Allows(old(model), EndRead(i), model, None)
    {
      hide *;
      Parts(this);
      if lost {
        StepLost(model, EndRead(i), None);
        return;
      }
      if i >= |readers| {
        ReaderCount(readers, engine.history, model.readers);
        IdleEndRead(model, i);
        StepIdle(model, EndRead(i), None);
        return;
      }
      ReaderCount(readers, engine.history, model.readers);
      ReaderDropped(readers, engine.history, model.readers, i);
      engine.EndRead(readers[i]);
      readers := readers[..i] + readers[i + 1..];
      ghost var before := model;
      model := before.(readers := Drop(before.readers, i));
      StepEndRead(before, i, model);
      Assembled(this);
    }

    method OpenWriter()
      requires Valid()
      modifies Footprint()
      ensures Valid() && fresh(Footprint() - old(Footprint()))
      ensures Allows(old(model), BeginWrite, model, None)
    {
      hide *;
      Parts(this);
      if lost {
        StepLost(model, BeginWrite, None);
        return;
      }
      IdleWrites(model, 0, []);
      if tx != null {
        StepIdle(model, BeginWrite, None);
        return;
      }
      tx := new WriteTx.Begin(engine);
      ghost var before := model;
      model := before.(writer := Some(Writer(map[], before.size, before.free)));
      StepBeginWrite(before, model);
      OpenParts(tx);
      Assembled(this);
    }

    method GetPage(page: nat) returns (r: Option<Data>)
      requires Valid()
      modifies Footprint()
      ensures Valid() && Footprint() == old(Footprint())
      ensures Allows(old(model), Get(page), model, r)
    {
      hide *;
      r := None;
      Parts(this);
      if lost {
        StepLost(model, Get(page), r);
        return;
      }
      IdleWrites(model, page, []);
      if tx == null {
        StepIdle(model, Get(page), r);
        return;
      }
      r := tx.GetPage(page);
      OpenParts(tx);
      StepGet(model, page, |engine.file.pages|, r);
      Assembled(this);
    }

    method PutPage(page: nat, data: Data)
      requires Valid()
      modifies Footprint()
      ensures Valid() && Footprint() == old(Footprint())
      ensures Allows(old(model), Put(page, data), model, None)
    {
      hide *;
      Parts(this);
      if lost {
        StepLost(model, Put(page, data), None);
        return;
      }
      IdleWrites(model, page, data);
      if tx == null || page < 1 || page > tx.localPageCount {
        StepIdle(model, Put(page, data), None);
        return;
      }
      tx.WritePage(page, data);
      OpenParts(tx);
      ghost var before, w := model, model.writer.value;
      model := before.(writer := Some(w.(pending := w.pending[page := data])));
      StepPut(before, page, data, model);
      Assembled(this);
    }

    method AllocPage() returns (page: nat)
      requires Valid()
      modifies Footprint()
      ensures Valid() && Footprint() == old(Footprint())
      ensures Allows(old(model), Alloc, model, None)
      ensures page == 0 ==> Idle(old(model), Alloc)
      ensures page != 0 ==> old(model).writer.Some? && page == NextPage(old(model).writer.value)
    {
      hide *;
      page := 0;
      Parts(this);
      if lost {
        StepLost(model, Alloc, None);
        return;
      }
      IdleWrites(model, 0, []);
      LimitsAre();
      if tx == null || tx.localPageCount + 1 >= U32 {
        StepIdle(model, Alloc, None);
        return;
      }
      page := tx.AllocPage();
      OpenParts(tx);
      ghost var before, w := model, model.writer.value;
      model := before.(writer := Some(Writer(tx.pending, tx.localPageCount, tx.localFreelist)));
      StepAlloc(before, page, model);
      Assembled(this);
    }

    method FreePage(page: nat)
      requires Valid()
      modifies Footprint()
      ensures Valid() && Footprint() == old(Footprint())
      ensures Allows(old(model), Free(page), model, None)
    {
      hide *;
      Parts(this);
      if lost {
        StepLost(model, Free(page), None);
        return;
      }
      IdleWrites(model, page, []);
      if tx == null || page < 1 || page > tx.localPageCount {
        StepIdle(model, Free(page), None);
        return;
      }
      tx.FreePage(page);
      OpenParts(tx);
      ghost var before, w := model, model.writer.value;
      model := before.(writer := Some(w.(pending := w.pending - {page}, free := w.free + [page])));
      StepFree(before, page, model);
      Assembled(this);
    }

    method CommitWriter()
      requires Valid()
      modifies Footprint()
      ensures Valid() && Footprint() <= old(Footprint())
      ensures Allows(old(model), Commit, model, None)
    {
      hide *;
      Parts(this);
      if lost {
        StepLost(model, Commit, None);
        return;
      }
      IdleWrites(model, 0, []);
      LimitsAre();
      if tx == null || engine.mvcc.committed + 1 >= TWO_64 {
        StepIdle(model, Commit, None);
        return;
      }
      ghost var history, before, w := engine.history, model, model.writer.value;
      OpenParts(tx);
      tx.Commit();
      OpenParts(tx);
      ReadersKept(readers, engine.mvcc.live, history, engine.history, before.readers);
      tx := null;
      model := before.(committed := before.committed + w.pending, version := before.version + 1,
                       size := w.size, free := w.free, logged := before.logged + w.pending, writer := None);
      StepCommit(before, model);
      Assembled(this);
    }

    method RollbackWriter()
      requires Valid()
      modifies Footprint()
      ensures Valid() && Footprint() <= old(Footprint())
      ensures Allows(old(model), Rollback, model, None)
    {
      hide *;
      Parts(this);
      if lost {
        StepLost(model, Rollback, None);
        return;
      }
      IdleWrites(model, 0, []);
      if tx == null {
        StepIdle(model, Rollback, None);
        return;
      }
      tx.Rollback();
      OpenParts(tx);
      tx := null;
      ghost var before := model;
      model := before.(writer := None);
      StepRollback(before, model);
      Assembled(this);
    }

    method RunCheckpoint()
      requires Valid()
      modifies Footprint()
      ensures Valid() && Footprint() == old(Footprint())
      ensures Allows(old(model), Op.Checkpoint, model, None)
    {
      hide *;
      Parts(this);
      if lost {
        StepLost(model, Op.Checkpoint, None);
        return;
      }
      ghost var history, before := engine.history, model;
      LaggingIs(readers, engine.mvcc.live, history, before, engine.mvcc.committed);
      engine.CheckpointLog();
      ReadersKept(readers, engine.mvcc.live, history, engine.history, before.readers);
      LoggedNone();
      model := if Lagging(before) then before else before.(logged := map[]);
      StepCheckpoint(before, model);
      Assembled(this);
    }

    /** Opens the database again over given files; it is lost exactly when page 1 has no header. */
    method Reopen(pages: seq<Data>, bytes: seq<byte>, ghost view: View, ghost logged: View)
      requires this !in engine.Repr && pages != []
      requires Recoverable(pages, bytes, view, logged) && LogInBounds(OpenedLog(pages, bytes), |pages|)
      modifies this
      ensures Valid() && fresh(Footprint() - old(Footprint()))
      ensures Opens(pages) ==> Reopened(model, view, logged) && Restarted(model, pages, bytes)
      ensures !Opens(pages) ==> model == Lost(old(model))
    {
      hide *;
      OnDiskIs(pages);
      FootprintIs(this);
      var r := OpenDatabase(pages, bytes, view, logged);
      tx, readers := null, [];
      match r {
        case Opened(e) =>
          engine, lost := e, false;
          model := Model(view, e.mvcc.committed, e.pageCount, [], logged, [], None, false);
          NoReaders(e.history);
          ReopenedIs(model, view, logged);
          LogIs(e.wal);
          OpenedIs(pages, bytes);
          RestartedIs(model, pages, bytes, e.wal.State());
          ClosedFrom(this);
        case Refused(_) =>
          lost := true;
          model := Lost(model);
          LostFrom(this, old(model));
      }
    }

    /** A crash between operations. */
    method CrashNow()
      requires Valid()
      modifies Footprint()
      ensures Valid() && fresh(Footprint() - old(Footprint()))
      ensures Allows(old(model), Crash, model, None)
      ensures !old(lost) ==> Restarted(model, old(engine.file.pages), old(engine.wal.file))
    {
      hide *;
      Parts(this);
      if lost {
        StepLost(model, Crash, None);
        return;
      }
      ghost var before := model;
      CrashDisk(engine);
      OpensParts(engine.file.pages);
      Reopen(engine.file.pages, engine.wal.file, before.committed, before.logged);
      RestartedParts(model, old(engine.file.pages), old(engine.wal.file));
      StepCrash(before, model);
    }

    /** The frames a commit would append. */
    method CommitFrames() returns (fs: seq<Frame>)
      requires Valid() && !lost && tx != null && model.version + 1 < TWO_64
      modifies engine.cache
      ensures Valid() && Footprint() == old(Footprint()) && model.writer.Some?
      ensures fs == [] ==> model.writer.value.pending == map[]
      ensures fs != [] ==>
                && IsTx(fs) && DistinctPages(fs) && TxPages(fs) == model.writer.value.pending
                && |EncodeAll(fs)| == FRAME_SIZE * |model.writer.value.pending|
                && fs[|fs| - 1].version > engine.mvcc.committed && fs[|fs| - 1].dbSize >= engine.pageCount
                && fs[|fs| - 1].dbSize == model.writer.value.size && model.writer.value.pending != map[]
                && forall i :: 0 <= i < |fs| ==> 1 <= fs[i].page <= fs[|fs| - 1].dbSize
    {
      hide *;
      Parts(this);
      LimitsAre();
      ValidParts(engine);
      var version, size := engine.mvcc.committed + 1, tx.localPageCount;
      var frames := BuildFrames(tx.pending, version, engine.cache, engine.file.pages, size);
      ValidFrom(engine, model.committed);
      Assembled(this);
      if frames == [] {
        return [];
      }
      SizeOne(engine);
      StampedCarries(frames, tx.pending, version, size);
      fs := Stamped(frames, version, size);
      CarriesParts(fs, tx.pending, version, size);
      CarriesTx(fs, tx.pending, version, size);
      TxPagesSize(fs);
      EncodeLength(fs);
    }

    /** A crash after some of the bytes of a commit's log append were written. */
    method CrashWhileCommitting(written: nat)
      requires Valid()
      modifies Footprint()
      ensures Valid() && fresh(Footprint() - old(Footprint()))
      ensures Allows(old(model), CrashInCommit(written), model, None)
    {
      hide *;
      Parts(this);
      if lost {
        StepLost(model, CrashInCommit(written), None);
        return;
      }
      IdleCrash(model, written);
      LimitsAre();
      if tx == null || engine.mvcc.committed + 1 >= TWO_64 {
        StepIdle(model, CrashInCommit(written), None);
        return;
      }
      ghost var before := model;
      var fs := CommitFrames();
      label Framed:
      if fs == [] {
        CrashNow();
        StepCrashEmpty(before, written, model);
      } else {
        CrashAppending(fs, written);
        StepCrashCommit(before, written, model);
      }
      assert forall o: object :: o in Footprint() && old(allocated(o)) ==> old@Framed(allocated(o));
    }

    /** A crash after some of the bytes of these frames were written. */
    method CrashAppending(fs: seq<Frame>, written: nat)
      requires Valid() && !lost && IsTx(fs) && DistinctPages(fs) && |EncodeAll(fs)| == FRAME_SIZE * |TxPages(fs)|
      requires fs[|fs| - 1].version > engine.mvcc.committed && fs[|fs| - 1].dbSize >= engine.pageCount
      requires forall i :: 0 <= i < |fs| ==> 1 <= fs[i].page <= fs[|fs| - 1].dbSize
      modifies Footprint()
      ensures Valid() && fresh(Footprint() - old(Footprint()))
      ensures var m := old(model);
              if written < FRAME_SIZE * |TxPages(fs)| then Reopened(model, m.committed, m.logged) && model.size <= m.size
              else
                && Reopened(model, m.committed + TxPages(fs), m.logged + TxPages(fs))
                && model.size == fs[|fs| - 1].dbSize
      ensures var bytes := EncodeAll(fs);
              Restarted(model, old(engine.file.pages), old(engine.wal.file) + bytes[..Min(written, |bytes|)])
    {
      hide *;
      Parts(this);
      ghost var before := model;
      var bytes := EncodeAll(fs);
      var k := Min(written, |bytes|);
      MinIs(written, |bytes|);
      CrashDiskInCommit(engine, fs, k);
      OpensParts(engine.file.pages);
      Reopen(engine.file.pages, engine.wal.file + bytes[..k],
             if k == |bytes| then before.committed + TxPages(fs) else before.committed,
             if k == |bytes| then before.logged + TxPages(fs) else before.logged);
      RestartedParts(model, old(engine.file.pages), old(engine.wal.file) + bytes[..k]);
    }

    /** A checkpoint, then a crash. */
    method CrashFolded() returns (ghost folded: Model)
      requires Valid()
      modifies Footprint()
      ensures Valid() && fresh(Footprint() - old(Footprint()))
      ensures Allows(old(model), Op.Checkpoint, folded, None) && Allows(folded, Crash, model, None)
    {
      hide *;
      RunCheckpoint();
      label Folded:
      folded := model;
      CrashNow();
      assert forall o: object :: o in Footprint() && old(allocated(o)) ==> old@Folded(allocated(o));
    }

    /** A crash after some writes of a checkpoint, the header the last of them. */
    method CrashFolding(writes: nat)
      requires Valid() && !lost && writes <= |model.logged| + 1
      modifies Footprint()
      ensures Valid() && fresh(Footprint() - old(Footprint()))
      ensures var m := old(model);
              if HeaderSurvives(m.logged, writes) then
                && Reopened(model, m.committed, m.logged)
                && model.size <= if 1 <= writes <= |m.logged| then Max(m.size, FrontCount(m.logged)) else m.size
              else model == Lost(m)
    {
      hide *;
      Parts(this);
      ghost var before := model;
      label Writing:
      var pages := FileAfter(engine, writes);
      Reopen(pages, engine.wal.file, before.committed, before.logged);
      if Opens(pages) {
        RestartedParts(model, pages, old(engine.wal.file));
      }
      assert forall o: object :: o in Footprint() && old(allocated(o)) ==> old@Writing(allocated(o));
    }

    /** A crash after some writes of a checkpoint. */
    method CrashWhileFolding(writes: nat)
      requires Valid()
      modifies Footprint()
      ensures Valid() && fresh(Footprint() - old(Footprint()))
      ensures Allows(old(model), CrashInCheckpoint(writes), model, None)
    {
      hide *;
      Parts(this);
      ghost var before := model;
      if lost {
        StepLost(model, CrashInCheckpoint(writes), None);
        return;
      }
      var idle, n := CheckpointSize();
      label Measured:
      if idle {
        CrashNow();
        StepCrashIdleFold(before, writes, model);
      } else if writes > n + 1 {
        ghost var folded := CrashFolded();
        StepCrashFolded(before, folded, writes, model);
      } else {
        CrashFolding(writes);
        StepCrashFolding(before, writes, model);
      }
      assert forall o: object :: o in Footprint() && old(allocated(o)) ==> old@Measured(allocated(o));
    }

    /** Whether a checkpoint would do nothing, and how many pages it would write. */
    method CheckpointSize() returns (idle: bool, n: nat)
      requires Valid() && !lost
      ensures idle <==> Lagging(model) || model.logged == map[]
      ensures n == |model.logged|
    {
      hide *;
      Parts(this);
      ValidParts(engine);
      CountedParts(engine.pageCount, engine.wal.index, engine.wal.dbSize, engine.file.pages, engine.Current());
      LoggedKeys(engine.wal.index);
      LaggingIs(readers, engine.mvcc.live, engine.history, model, engine.mvcc.committed);
      LoggedNone();
      var oldest := engine.mvcc.OldestRequiredVersion();
      n := |engine.wal.index.Keys|;
      idle := oldest < engine.mvcc.committed || engine.wal.index == map[];
    }

    /** A crash inside a checkpoint that tore its writes: the pages of the log may hold anything. If page 1
        still begins with a header nothing is lost, and otherwise the file is refused. */
    method CrashTearing(pages': seq<Data>)
      requires Valid() && !lost && PartlyFolded(engine.wal.index, engine.file.pages, pages') && |pages'| <= engine.pageCount
      modifies Footprint()
      ensures Valid() && fresh(Footprint() - old(Footprint()))
      ensures Opens(pages') ==>
                Reopened(model, old(model).committed, old(model).logged) && Restarted(model, pages', old(engine.wal.file))
      ensures !Opens(pages') ==> model == Lost(old(model))
    {
      hide *;
      Parts(this);
      ghost var before := model;
      ValidParts(engine);
      OpensParts(engine.file.pages);
      PartlyFoldedParts(engine.wal.index, engine.file.pages, pages');
      CrashDiskInCheckpoint(engine, pages');
      Reopen(pages', engine.wal.file, before.committed, before.logged);
    }
  }

  lemma PartlyFoldedParts(index: Index, pages: seq<Data>, pages': seq<Data>)
    requires PartlyFolded(index, pages, pages')
    ensures |pages| <= |pages'|
  {
    hide PartlyFoldedAt;
  }

  /** The file that a checkpoint leaves if it is cut off after some writes, the header the last of them. */
  method FileAfter(e: StorageEngine, writes: nat) returns (pages: seq<Data>)
    requires e.Valid()
    ensures Recoverable(pages, e.wal.file, e.Current(), Logged(e.wal.index)) && pages != []
    ensures LogInBounds(OpenedLog(pages, e.wal.file), |pages|)
    ensures writes <= |Logged(e.wal.index)| + 1 ==> (Opens(pages) <==> HeaderSurvives(Logged(e.wal.index), writes))
    ensures OpenedCount(pages, e.wal.file) <=
            if 1 <= writes <= |Logged(e.wal.index)| then Max(e.pageCount, FrontCount(Logged(e.wal.index))) else e.pageCount
  {
    hide *;
    ValidParts(e);
    LogIs(e.wal);
    OpensParts(e.file.pages);
    CountedParts(e.pageCount, e.wal.index, e.wal.dbSize, e.file.pages, e.Current());
    LoggedKeys(e.wal.index);
    var index, log := e.wal.index, e.wal.State();
    var file := new DatabaseFile(e.file.pages);
    var cache := new PageCache(1);
    NoneClean(cache.pages, file.pages);
    ghost var order := WritePages(index, file, cache, writes, e.pageCount);
    MinIs(writes, |index.Keys|);
    pages := file.pages;
    if writes <= |index.Keys| {
      WrittenOpens(log, order, e.file.pages, writes);
      WrittenCount(Logged(index), order, e.file.pages, writes);
    } else {
      AfterAll(log, order, e.file.pages);
      FinalHeader(file.pages, log);
      WriteFileHeader(log, file, cache, index, e.file.pages);
      FinalCount(file.pages, log.dbSize, log.maxVersion);
      pages := file.pages;
      SurvivesAll(Logged(index), writes);
    }
    MaxIs(e.pageCount, FrontCount(Logged(index)));
    MaxIs(HeaderCount(e.file.pages), FrontCount(Logged(index)));
    MaxIs(e.pageCount, HeaderCount(pages));
    CrashDiskInCheckpoint(e, pages);
  }

  lemma WrittenCount(logged: View, order: seq<nat>, pages: seq<Data>, j: nat)
    requires j <= |order| && (forall i :: 0 <= i < |order| ==> order[i] > 0 && order[i] in logged)
    requires Leading(order, logged.Keys) && pages != []
    ensures HeaderCount(Written(logged, order, pages, j)) <= if j == 0 then HeaderCount(pages) else Max(HeaderCount(pages), FrontCount(logged))
  {
    hide Written, ReadHeader, Leading;
    WrittenFirst(logged, order, pages, j);
  }

  lemma NoneClean(cached: map<nat, Data>, pages: seq<Data>)
    requires cached == map[]
    ensures Clean(cached, pages)
  {
  }

  lemma SurvivesAll(logged: View, writes: nat)
    requires writes > |logged|
    ensures HeaderSurvives(logged, writes)
  {
  }

  lemma LoggedKeys(index: Index)
    requires forall p :: p in index ==> index[p] != []
    ensures Logged(index).Keys == index.Keys && |Logged(index)| == |index.Keys|
  {
    assert Logged(index).Keys == index.Keys;
    assert |Logged(index)| == |Logged(index).Keys|;
  }

  lemma LoggedNone()
    ensures Logged(map[]) == map[]
  {
  }

  ghost predicate SameRun(models: seq<Model>, ops: seq<Op>, answers: seq<Option<Data>>) {
    && |models| == |ops| + 1 && |answers| == |ops|
    && forall i :: 0 <= i < |ops| ==> Allows(models[i], ops[i], models[i + 1], answers[i])
  }

  /** Performs one op. */
  method Do(d: Database, op: Op) returns (r: Option<Data>)
    requires d.Valid()
    modifies d.Footprint()
    ensures d.Valid() && fresh(d.Footprint() - old(d.Footprint()))
    ensures Allows(old(d.model), op, d.model, r)
  {
    hide *;
    r := None;
    match op {
      case BeginRead => d.OpenReader();
      case Read(i, p) => r := d.ReadPage(i, p);
      case EndRead(i) => d.CloseReader(i);
      case BeginWrite => d.OpenWriter();
      case Get(p) => r := d.GetPage(p);
      case Put(p, data) => d.PutPage(p, data);
      case Alloc => var page := d.AllocPage();
      case Free(p) => d.FreePage(p);
      case Commit => d.CommitWriter();
      case Rollback => d.RollbackWriter();
      case Checkpoint => d.RunCheckpoint();
      case Crash => d.CrashNow();
      case CrashInCommit(k) => d.CrashWhileCommitting(k);
      case CrashInCheckpoint(j) => d.CrashWhileFolding(j);
    }
  }

  /** Any run of a database, crashes included, is a run of the simple store with the same answers. */
  method Run(d: Database, ops: seq<Op>) returns (answers: seq<Option<Data>>, ghost models: seq<Model>)
    requires d.Valid()
    modifies d.Footprint()
    ensures d.Valid() && SameRun(models, ops, answers)
    ensures models[0] == old(d.model) && models[|ops|] == d.model
  {
    hide *;
    answers, models := [], [d.model];
    RunStart(d.model);
    assert ops[..0] == [];
    for i := 0 to |ops|
      invariant d.Valid() && fresh(d.Footprint() - old(d.Footprint()))
      invariant |models| == i + 1 && |answers| == i && SameRun(models, ops[..i], answers)
      invariant models[0] == old(d.model) && models[i] == d.model
    {
      label BeforeOp:
      var r := Do(d, ops[i]);
      assert forall o: object :: o in d.Footprint() && old(allocated(o)) ==> old@BeforeOp(allocated(o));
      RunSnoc(models, ops[..i], answers, ops[i], d.model, r);
      assert ops[..i] + [ops[i]] == ops[..i + 1];
      answers, models := answers + [r], models + [d.model];
    }
    assert ops[..|ops|] == ops;
  }

  lemma RunStart(m: Model)
    ensures SameRun([m], [], [])
  {
  }

  lemma RunSnoc(models: seq<Model>, ops: seq<Op>, answers: seq<Option<Data>>, op: Op, m: Model, r: Option<Data>)
    requires SameRun(models, ops, answers) && Allows(models[|ops|], op, m, r)
    ensures SameRun(models + [m], ops + [op], answers + [r])
  {
    hide Allows;
  }

  /** Ops that leave the readers up to the i-th in place. */
  predicate Keeps(op: Op, i: nat) {
    match op
    case EndRead(j) => j > i
    case Crash => false
    case CrashInCommit(_) => false
    case CrashInCheckpoint(_) => false
    case _ => true
  }

  lemma StepKeepsReader(m: Model, op: Op, m': Model, r: Option<Data>, i: nat)
    requires Allows(m, op, m', r) && Keeps(op, i) && i < |m.readers|
    ensures i < |m'.readers| && m'.readers[i] == m.readers[i] && m'.lost == m.lost
  {
  }

  /** Snapshot isolation: in every run, whatever is written, committed, freed or checkpointed meanwhile,
      a reader that began at step a sees exactly what was committed then, for as long as it lives. */
  lemma {:induction false} SnapshotIsolation(models: seq<Model>, ops: seq<Op>, answers: seq<Option<Data>>, a: nat, b: nat)
    requires SameRun(models, ops, answers) && a < b <= |ops| && ops[a] == BeginRead
    requires !models[a].lost
    requires var i := |models[a].readers|; forall k :: a < k < b ==> Keeps(ops[k], i)
    ensures var i := |models[a].readers|;
            && !models[b].lost && i < |models[b].readers| && models[b].readers[i].view == models[a].committed
            && forall p :: b < |ops| && ops[b] == Read(i, p) ==> Reads(models[a].committed, p, answers[b])
    decreases b
  {
    hide Reads;
    var i := |models[a].readers|;
    if a + 1 < b {
      SnapshotIsolation(models, ops, answers, a, b - 1);
      StepKeepsReader(models[b - 1], ops[b - 1], models[b], answers[b - 1], i);
    } else {
      assert Allows(models[a], ops[a], models[b], answers[a]);
    }
    if b < |ops| {
      assert Allows(models[b], ops[b], models[b + 1], answers[b]);
    }
  }

  // ---- steps of the simple store ----

  lemma StepIdle(m: Model, op: Op, r: Option<Data>)
    requires Idle(m, op)
    ensures Allows(m, op, m, r)
  {
  }

  lemma IdleRead(m: Model, i: nat, page: nat)
    ensures !m.lost ==> Idle(m, Read(i, page)) == (i >= |m.readers|)
  {
  }

  lemma IdleEndRead(m: Model, i: nat)
    ensures !m.lost ==> Idle(m, EndRead(i)) == (i >= |m.readers|)
  {
  }

  lemma StepBeginRead(m: Model, m': Model)
    requires !m.lost && m' == m.(readers := m.readers + [Reader(m.version, m.committed)])
    ensures Allows(m, BeginRead, m', None)
  {
  }

  lemma StepRead(m: Model, i: nat, page: nat, size: nat, r: Option<Data>)
    requires !m.lost && i < |m.readers| && AlikeRead(page, r, Expected(m.readers[i].view, size, page))
    ensures Allows(m, Read(i, page), m, r)
  {
    hide Zeros, Alike;
  }

  lemma StepEndRead(m: Model, i: nat, m': Model)
    requires !m.lost && i < |m.readers| && m' == m.(readers := Drop(m.readers, i))
    ensures Allows(m, EndRead(i), m', None)
  {
  }

  lemma IdleWrites(m: Model, p: nat, d: seq<byte>)
    requires !m.lost
    ensures Idle(m, BeginWrite) == m.writer.Some?
    ensures Idle(m, Get(p)) == m.writer.None?
    ensures |d| == PAGE_SIZE ==> Idle(m, Put(p, d)) == (m.writer.None? || p < 1 || p > m.writer.value.size)
    ensures Idle(m, Free(p)) == (m.writer.None? || p < 1 || p > m.writer.value.size)
    ensures Idle(m, Alloc) == (m.writer.None? || m.writer.value.size + 1 >= U32)
    ensures Idle(m, Commit) == (m.writer.None? || m.version + 1 >= TWO_64)
    ensures Idle(m, Rollback) == m.writer.None?
  {
  }

  lemma LimitsAre()
    ensures U32 == 0x1_0000_0000 && TWO_64 == 0x1_0000_0000_0000_0000
  {
  }

  lemma StepBeginWrite(m: Model, m': Model)
    requires !m.lost && m.writer == None && m' == m.(writer := Some(Writer(map[], m.size, m.free)))
    ensures Allows(m, BeginWrite, m', None)
  {
  }

  lemma StepGet(m: Model, page: nat, size: nat, r: Option<Data>)
    requires !m.lost && m.writer.Some? && AlikeRead(page, r, Expected(m.committed + m.writer.value.pending, size, page))
    ensures Allows(m, Get(page), m, r)
  {
    hide Zeros, Alike;
  }

  lemma StepPut(m: Model, page: nat, data: Data, m': Model)
    requires !m.lost && m.writer.Some? && 1 <= page <= m.writer.value.size
    requires var w := m.writer.value; m' == m.(writer := Some(w.(pending := w.pending[page := data])))
    ensures Allows(m, Put(page, data), m', None)
  {
  }

  lemma StepAlloc(m: Model, page: nat, m': Model)
    requires !m.lost && m.writer.Some? && m'.writer.Some? && m' == m.(writer := m'.writer) && m.writer.value.size + 1 < U32
    requires m'.writer.value.pending == m.writer.value.pending
    requires m.writer.value.free != [] ==>
               m.writer.value.free == m'.writer.value.free + [page] && m'.writer.value.size == m.writer.value.size
    requires m.writer.value.free == [] ==>
               m'.writer.value.free == [] && page == m'.writer.value.size == m.writer.value.size + 1
    ensures Allows(m, Alloc, m', None) && page == NextPage(m.writer.value)
  {
    var w, w' := m.writer.value, m'.writer.value;
    if w.free != [] {
      assert w'.free == w.free[..|w.free| - 1];
    }
  }

  lemma StepFree(m: Model, page: nat, m': Model)
    requires !m.lost && m.writer.Some? && 1 <= page <= m.writer.value.size
    requires var w := m.writer.value;
             m' == m.(writer := Some(w.(pending := w.pending - {page}, free := w.free + [page])))
    ensures Allows(m, Free(page), m', None)
  {
  }

  lemma RestartedIs(m: Model, pages: seq<Data>, bytes: seq<byte>, log: Log)
    requires OpenedLog(pages, bytes) == log && m.version == log.maxVersion
    requires m.size == PageCountOf(HeaderCount(pages), log.dbSize, |pages|)
    ensures Restarted(m, pages, bytes)
  {
    hide HeaderCount, PageCountOf, OpenedLog;
  }

  lemma RestartedParts(m: Model, pages: seq<Data>, bytes: seq<byte>)
    requires Restarted(m, pages, bytes)
    ensures m.size == OpenedCount(pages, bytes)
  {
    hide OpenedLog, OpenedCount;
  }

  lemma StepCommit(m: Model, m': Model)
    requires !m.lost && m.writer.Some? && m.version + 1 < TWO_64
    requires var w := m.writer.value;
             m' == m.(committed := m.committed + w.pending, version := m.version + 1, size := w.size, free := w.free,
                        logged := m.logged + w.pending, writer := None)
    ensures Allows(m, Commit, m', None)
  {
  }

  lemma StepRollback(m: Model, m': Model)
    requires !m.lost && m.writer.Some? && m' == m.(writer := None)
    ensures Allows(m, Rollback, m', None)
  {
  }

  lemma StepCheckpoint(m: Model, m': Model)
    requires !m.lost && m' == if Lagging(m) then m else m.(logged := map[])
    ensures Allows(m, Op.Checkpoint, m', None)
  {
  }

  lemma StepCrash(m: Model, m': Model)
    requires !m.lost && Reopened(m', m.committed, m.logged) && m'.size <= m.size
    ensures Allows(m, Crash, m', None)
  {
  }

  lemma StepLost(m: Model, op: Op, r: Option<Data>)
    requires m.lost
    ensures Allows(m, op, m, r)
  {
  }

  lemma StepCrashIdleFold(m: Model, j: nat, m': Model)
    requires !m.lost && (Lagging(m) || m.logged == map[]) && Allows(m, Crash, m', None)
    ensures Allows(m, CrashInCheckpoint(j), m', None)
  {
    hide Lagging;
  }

  lemma StepCrashFolded(m: Model, folded: Model, j: nat, m': Model)
    requires !m.lost && !Lagging(m) && m.logged != map[] && j > |m.logged| + 1
    requires Allows(m, Op.Checkpoint, folded, None) && Allows(folded, Crash, m', None)
    ensures Allows(m, CrashInCheckpoint(j), m', None)
  {
    hide Lagging;
  }

  lemma StepCrashFolding(m: Model, j: nat, m': Model)
    requires !m.lost && !Lagging(m) && m.logged != map[] && j <= |m.logged| + 1
    requires if HeaderSurvives(m.logged, j) then
               && Reopened(m', m.committed, m.logged)
               && m'.size <= if 1 <= j <= |m.logged| then Max(m.size, FrontCount(m.logged)) else m.size
             else m' == Lost(m)
    ensures Allows(m, CrashInCheckpoint(j), m', None)
  {
    hide Lagging, HeaderSurvives, FrontCount;
  }

  lemma IdleCrash(m: Model, k: nat)
    requires !m.lost
    ensures Idle(m, CrashInCommit(k)) == (m.writer.None? || m.version + 1 >= TWO_64)
  {
  }

  lemma StepCrashEmpty(m: Model, k: nat, m': Model)
    requires m.writer.Some? && m.writer.value.pending == map[] && m.version + 1 < TWO_64
    requires Allows(m, Crash, m', None)
    ensures Allows(m, CrashInCommit(k), m', None)
  {
    assert m.committed + map[] == m.committed && m.logged + map[] == m.logged;
  }

  lemma StepCrashCommit(m: Model, k: nat, m': Model)
    requires !m.lost && m.writer.Some? && m.version + 1 < TWO_64
    requires var w := m.writer.value;
             if k < FRAME_SIZE * |w.pending| then Reopened(m', m.committed, m.logged) && m'.size <= m.size
             else Reopened(m', m.committed + w.pending, m.logged + w.pending) && m'.size == w.size && w.pending != map[]
    ensures Allows(m, CrashInCommit(k), m', None)
  {
  }

  lemma CarriesTx(fs: seq<Frame>, pending: View, version: nat, size: nat)
    requires Carries(fs, pending, version, size)
    ensures IsTx(fs)
  {
  }

  lemma SizeOne(e: StorageEngine)
    requires e.Valid()
    ensures e.pageCount >= 1
  {
  }

  lemma ReopenedIs(m: Model, view: View, logged: View)
    requires m.committed == view && m.logged == logged && m.readers == [] && m.writer == None && m.free == []
    requires InBounds(view, m.size) && !m.lost
    ensures Reopened(m, view, logged)
  {
  }

  // ---- readers ----

  /** Readers whose versions are still recorded go on seeing the same. */
  lemma ReadersKept(readers: seq<nat>, live: multiset<nat>, history: map<nat, View>, history': map<nat, View>, rs: seq<Reader>)
    requires ReadersMatch(readers, history, rs) && multiset(readers) == live
    requires (forall v :: v in live ==> v in history' && history'[v] == history[v])
          || (forall v :: v in history ==> v in history' && history'[v] == history[v])
    ensures ReadersMatch(readers, history', rs)
  {
    forall i | 0 <= i < |readers|
      ensures readers[i] in history' && rs[i] == Reader(readers[i], history'[readers[i]])
    {
      assert readers[i] in multiset(readers);
    }
  }

  lemma ReaderCount(readers: seq<nat>, history: map<nat, View>, rs: seq<Reader>)
    requires ReadersMatch(readers, history, rs)
    ensures |readers| == |rs|
  {
  }

  lemma ReaderAt(readers: seq<nat>, history: map<nat, View>, rs: seq<Reader>, i: nat)
    requires ReadersMatch(readers, history, rs) && i < |readers|
    ensures |readers| == |rs| && readers[i] in history && rs[i] == Reader(readers[i], history[readers[i]])
  {
  }

  lemma ReaderAdded(readers: seq<nat>, history: map<nat, View>, rs: seq<Reader>, snapshot: nat)
    requires ReadersMatch(readers, history, rs)
    ensures snapshot in history ==> ReadersMatch(readers + [snapshot], history, rs + [Reader(snapshot, history[snapshot])])
    ensures multiset(readers + [snapshot]) == multiset(readers) + multiset{snapshot}
  {
  }

  lemma ReaderDropped(readers: seq<nat>, history: map<nat, View>, rs: seq<Reader>, i: nat)
    requires ReadersMatch(readers, history, rs) && i < |readers| == |rs|
    ensures ReadersMatch(readers[..i] + readers[i + 1..], history, Drop(rs, i))
    ensures multiset(readers[..i] + readers[i + 1..]) == multiset(readers) - multiset{readers[i]}
  {
    hide ReadersMatch;
    MatchDropped(readers, history, rs, i);
    WithoutOne(readers, i);
  }

  lemma MatchDropped(readers: seq<nat>, history: map<nat, View>, rs: seq<Reader>, i: nat)
    requires ReadersMatch(readers, history, rs) && i < |readers| == |rs|
    ensures ReadersMatch(readers[..i] + readers[i + 1..], history, Drop(rs, i))
  {
  }

  lemma WithoutOne(readers: seq<nat>, i: nat)
    requires i < |readers|
    ensures multiset(readers[..i] + readers[i + 1..]) == multiset(readers) - multiset{readers[i]}
  {
    var a, b := readers[..i], readers[i + 1..];
    assert readers == a + [readers[i]] + b;
    assert multiset(readers) == multiset(a) + multiset{readers[i]} + multiset(b);
  }

  /** Readers lag in the simple store when their versions do. */
  lemma LaggingIs(readers: seq<nat>, live: multiset<nat>, history: map<nat, View>, m: Model, committed: nat)
    requires ReadersMatch(readers, history, m.readers) && multiset(readers) == live && m.version == committed
    ensures Lagging(m) <==> exists v :: v in live && v < committed
  {
    if exists v :: v in live && v < committed {
      var v :| v in live && v < committed;
      assert v in readers;
      var i :| 0 <= i < |readers| && readers[i] == v;
      assert m.readers[i].version == v;
    }
    if Lagging(m) {
      var i :| 0 <= i < |m.readers| && m.readers[i].version < m.version;
      assert readers[i] in multiset(readers);
    }
  }

  lemma HistoryIs(e: StorageEngine)
    requires e.Valid()
    ensures e.mvcc.committed in e.history && e.Current() == e.history[e.mvcc.committed]
  {
    ValidParts(e);
  }

  // ---- taking a database apart and putting it together ----

  lemma Parts(d: Database)
    requires d.Valid()
    ensures d.lost == d.model.lost && d !in d.engine.Repr
    ensures d.lost ==> d.Footprint() == {d} + d.engine.Repr
    ensures !d.lost ==> d.engine.Valid() && d.engine.Repr == {d.engine, d.engine.file, d.engine.cache, d.engine.wal, d.engine.mvcc}
    ensures !d.lost ==> multiset(d.readers) == d.engine.mvcc.live && ReadersMatch(d.readers, d.engine.history, d.model.readers)
    ensures !d.lost ==> d.model.committed == d.engine.Current() && d.model.version == d.engine.mvcc.committed
    ensures !d.lost ==> d.model.size == d.engine.pageCount && d.model.free == d.engine.freelist
    ensures !d.lost ==> d.model.logged == Logged(d.engine.wal.index)
    ensures !d.lost && d.tx == null ==> !d.engine.writing && d.model.writer == None
    ensures !d.lost && d.tx != null ==> d.tx.engine == d.engine && !d.tx.finished && d.tx.Valid() && d.tx !in d.engine.Repr
    ensures !d.lost && d.tx != null ==> d.model.writer == Some(Writer(d.tx.pending, d.tx.localPageCount, d.tx.localFreelist))
    ensures !d.lost && d.tx != null ==> InBounds(d.tx.pending, d.tx.localPageCount)
    ensures !d.lost && d.tx != null ==> d.engine.writing && d.tx.snapshot == d.engine.mvcc.committed
    ensures !d.lost && d.tx != null ==> d.engine.pageCount <= d.tx.localPageCount < U32
    ensures !d.lost && d.tx != null ==>
              forall i :: 0 <= i < |d.tx.localFreelist| ==> 1 <= d.tx.localFreelist[i] <= d.tx.localPageCount
    ensures !d.lost ==>
              d.Footprint() == {d, d.engine, d.engine.file, d.engine.cache, d.engine.wal, d.engine.mvcc} + if d.tx == null then {} else {d.tx}
  {
    hide ReadersMatch, InBounds, Logged, StorageEngine.Valid, WriteTx.Valid;
    if !d.lost {
      ValidParts(d.engine);
      if d.tx != null {
        OpenParts(d.tx);
      }
    }
  }

  lemma Assembled(d: Database)
    requires d.engine.Valid() && d !in d.engine.Repr && !d.lost && !d.model.lost
    requires multiset(d.readers) == d.engine.mvcc.live
    requires ReadersMatch(d.readers, d.engine.history, d.model.readers)
    requires d.model.committed == d.engine.Current() && d.model.version == d.engine.mvcc.committed
    requires d.model.size == d.engine.pageCount && d.model.free == d.engine.freelist
    requires d.model.logged == Logged(d.engine.wal.index)
    requires d.tx == null ==> !d.engine.writing && d.model.writer == None
    requires d.tx != null ==> d.tx.engine == d.engine && !d.tx.finished && d.tx !in d.engine.Repr
    requires d.tx != null ==> d.model.writer == Some(Writer(d.tx.pending, d.tx.localPageCount, d.tx.localFreelist))
    requires d.tx != null ==> InBounds(d.tx.pending, d.tx.localPageCount)
    requires d.tx != null ==> d.engine.writing && d.tx.snapshot == d.engine.mvcc.committed
    requires d.tx != null ==> d.engine.pageCount <= d.tx.localPageCount < U32
    requires d.tx != null ==> forall i :: 0 <= i < |d.tx.localFreelist| ==> 1 <= d.tx.localFreelist[i] <= d.tx.localPageCount
    ensures d.Valid()
    ensures d.Footprint() == {d, d.engine, d.engine.file, d.engine.cache, d.engine.wal, d.engine.mvcc} + if d.tx == null then {} else {d.tx}
  {
    hide ReadersMatch, InBounds, Logged, StorageEngine.Valid, WriteTx.Valid, StorageEngine.Current;
    ValidParts(d.engine);
    if d.tx == null {
      assert d.model == Model(d.engine.Current(), d.engine.mvcc.committed, d.engine.pageCount, d.engine.freelist,
                              Logged(d.engine.wal.index), d.model.readers, None, false);
      ClosedFrom(d);
    } else {
      TxFrom(d.tx, d.engine.Current());
    }
  }

  lemma FootprintIs(d: Database)
    ensures d.Footprint() == {d} + d.engine.Repr + if d.tx == null then {} else {d.tx}
  {
  }

  /** A database whose file was refused. */
  lemma LostFrom(d: Database, m: Model)
    requires d !in d.engine.Repr && d.lost && d.tx == null && d.readers == [] && d.model == Lost(m)
    ensures d.Valid() && d.Footprint() == {d} + d.engine.Repr
  {
  }

  lemma NoReaders(history: map<nat, View>)
    ensures ReadersMatch([], history, [])
  {
  }

  /** With no writer, the pieces that make a database valid. */
  lemma ClosedFrom(d: Database)
    requires d.engine.Valid() && d !in d.engine.Repr && d.tx == null && !d.engine.writing && !d.lost
    requires multiset(d.readers) == d.engine.mvcc.live
    requires ReadersMatch(d.readers, d.engine.history, d.model.readers)
    requires d.model == Model(d.engine.Current(), d.engine.mvcc.committed, d.engine.pageCount, d.engine.freelist,
                             Logged(d.engine.wal.index), d.model.readers, None, false)
    ensures d.Valid() && d.Footprint() == {d} + d.engine.Repr
  {
    hide ReadersMatch;
  }

  lemma FreshDisk()
    ensures OnDisk([]) == [FirstPage()] && Opens([FirstPage()]) && HeaderCount([FirstPage()]) == 1
    ensures Recoverable([FirstPage()], [], map[1 := FirstPage()], map[])
    ensures LogInBounds(OpenedLog([FirstPage()], []), 1)
    ensures Recover(Log(map[], 0, 1), []) == (Log(map[], 0, 1), [])
    ensures PageCountOf(1, 1, 1) == 1
  {
    hide Frames, ScanFrom, Shows, FirstPage, ReadHeader;
    FirstPageHeld();
    FirstCount();
    FramesNone([]);
    ScanNone(Log(map[], 0, 1));
    RecoverIs(Log(map[], 0, 1), [], [], Log(map[], 0, 1), [], 0);
    FreshShows(FirstPage());
  }

  lemma FirstCount()
    ensures ReadHeader(FirstPage()) == Header(NewHeader())
  {
    hide HeaderBytes, ReadHeader;
    var rest := ([TABLE_LEAF, 0, 0, 0, 0] + Be16(PAGE_SIZE) + [0]) + seq(PAGE_SIZE - 108, _ => 0);
    HeaderRoundTrip(NewHeader(), rest);
    assert FirstPage() == HeaderBytes(NewHeader()) + rest;
  }

  lemma FreshShows(first: Data)
    ensures Shows(map[], [first], 0, map[1 := first])
  {
    hide Zeros, Alike;
    forall id: nat
      ensures ShowsAt(map[], [first], 0, map[1 := first], id)
    {
      VisibleTop([], 0);
      AlikeSelf(id, FileRead([first], id));
    }
  }
}
