/** Checkpointing the log into the database file, and opening a database from what is on disk. */
module Recovery {
  import opened Common
  import opened Varint
  import opened Nodes
  import opened PageFormat
  import opened WalFrames
  import opened Wal
  import opened WriteAheadLogs
  import opened Snapshots
  import opened PageCaches
  import opened Mvcc
  import opened DbHeaders

  /** A file that opens: page 1 begins with a header. */
  predicate Opens(pages: seq<Data>) {
    pages != [] && HeaderOk(pages[0])
  }

  /** The page count recorded in the header of page 1. */
  function HeaderCount(pages: seq<Data>): (n: nat)
    ensures n < U32
  {
    if pages == [] then 0
    else
      match ReadHeader(pages[0])
      case Header(h) => h.dbSize
      case Bad(_) => 0
  }

  /** The file with its header replaced. */
  function SetHeader(pages: seq<Data>, h: DbHeader): seq<Data> {
    FileWrite(pages, 1, WithHeader(if pages == [] then Zeros() else pages[0], h))
  }

  class DatabaseFile {
    var pages: seq<Data>

    constructor (initial: seq<Data>)
      ensures pages == initial
    {
      pages := initial;
    }

    method ReadPage(id: nat) returns (r: Option<Data>)
      ensures r == FileRead(pages, id)
    {
      return if id == 0 || id > |pages| then None else Some(pages[id - 1]);
    }

    method WritePage(id: nat, data: Data)
      requires id > 0
      modifies this`pages
      ensures pages == FileWrite(old(pages), id, data)
    {
      if id > |pages| {
        pages := pages + seq(id - 1 - |pages|, _ => Zeros()) + [data];
      } else {
        pages := pages[id - 1 := data];
      }
    }

    /** Replaces the first 100 bytes of page 1 and keeps the rest of it. */
    method WriteHeader(h: DbHeader)
      modifies this`pages
      ensures pages == SetHeader(old(pages), h)
    {
      hide FileWrite, FileRead, WithHeader, Zeros;
      var page := ReadPage(1);
      FirstRead(pages);
      WritePage(1, WithHeader(if page.Some? then page.value else Zeros(), h));
    }
  }

  lemma FirstRead(pages: seq<Data>)
    ensures FileRead(pages, 1) == if pages == [] then None else Some(pages[0])
  {
  }

  /** Every cached page is the file's, up to the header in front of page 1. */
  ghost predicate Clean(cached: map<nat, Data>, pages: seq<Data>) {
    forall p :: p in cached ==> AlikeRead(p, FileRead(pages, p), Some(cached[p]))
  }

  lemma CleanWrite(cached: map<nat, Data>, pages: seq<Data>, id: nat, data: Data)
    requires id > 0 && Clean(cached, pages)
    ensures Clean(cached - {id}, FileWrite(pages, id, data))
  {
    hide FileWrite, FileRead, Zeros, AlikeRead;
    forall p | p in cached - {id}
      ensures AlikeRead(p, FileRead(FileWrite(pages, id, data), p), Some((cached - {id})[p]))
    {
      FileWriteMeaning(pages, id, data, p);
      PastEnd(pages, p);
      PresentRead(p, Some(cached[p]));
    }
  }

  /** Writing the newest version of a page keeps a checkpoint on course. */
  lemma FoldStep(index: Index, start: seq<Data>, pages: seq<Data>, id: nat, data: Data)
    requires id > 0 && PartlyFolded(index, start, pages) && Newest(index, id) == Some(data)
    ensures PartlyFolded(index, start, FileWrite(pages, id, data))
    ensures FoldedAt(index, FileWrite(pages, id, data), id)
    ensures forall p: nat :: FoldedAt(index, pages, p) ==> FoldedAt(index, FileWrite(pages, id, data), p)
  {
    hide FileWrite, FileRead, Zeros, Newest, AlikeRead;
    var pages' := FileWrite(pages, id, data);
    FileWriteMeaning(pages, id, data, id);
    AlikeSelf(id, Some(data));
    forall p: nat
      ensures PartlyFoldedAt(index, start, pages', p)
    {
      assert PartlyFoldedAt(index, start, pages, p);
      FileWriteMeaning(pages, id, data, p);
      PastEnd(pages, p);
      PastEnd(start, p);
      AlikeSelf(p, Some(Zeros()));
    }
    forall p: nat | FoldedAt(index, pages, p)
      ensures FoldedAt(index, pages', p)
    {
      FileWriteMeaning(pages, id, data, p);
      PastEnd(pages, p);
      if Newest(index, p).Some? && FileRead(pages, p) == None {
        PresentRead(p, Newest(index, p));
      }
    }
  }

  lemma FoldNone(index: Index, pages: seq<Data>)
    ensures PartlyFolded(index, pages, pages)
    ensures index == map[] ==> Folded(index, pages, pages)
  {
    hide Zeros;
    forall p: nat
      ensures PartlyFoldedAt(index, pages, pages, p) && (index == map[] ==> FoldedAt(index, pages, p))
    {
      AlikeSelf(p, FileRead(pages, p));
    }
    assert |pages| <= |pages| && forall p: nat :: PartlyFoldedAt(index, pages, pages, p);
    if index == map[] {
      assert forall p: nat :: FoldedAt(index, pages, p);
    }
  }

  /** Moves one page of the log to the file and drops it from the cache. */
  method FoldPage(file: DatabaseFile, cache: PageCache, id: nat, data: Data,
                  ghost index: Index, ghost start: seq<Data>, ghost bound: nat)
    requires 0 < id <= bound && Newest(index, id) == Some(data) && |file.pages| <= bound
    requires cache.Valid() && Clean(cache.pages, file.pages) && PartlyFolded(index, start, file.pages)
    modifies file`pages, cache
    ensures cache.Valid() && Clean(cache.pages, file.pages)
    ensures file.pages == FileWrite(old(file.pages), id, data) && |old(file.pages)| <= |file.pages| <= bound
    ensures PartlyFolded(index, start, file.pages) && FoldedAt(index, file.pages, id)
    ensures forall p: nat :: FoldedAt(index, old(file.pages), p) ==> FoldedAt(index, file.pages, p)
  {
    hide FileWrite, FileRead, PartlyFolded, FoldedAt, Newest, Clean;
    FoldStep(index, start, file.pages, id, data);
    CleanWrite(cache.pages, file.pages, id, data);
    FileWriteMeaning(file.pages, id, data, id);
    file.WritePage(id, data);
    cache.Invalidate(id);
  }

  // ---- the writes of a checkpoint, in order ----

  /** The first pages of a log in page order. */
  ghost predicate Leading(order: seq<nat>, keys: set<nat>) {
    && (forall i, j :: 0 <= i < j < |order| ==> order[i] < order[j])
    && (forall i :: 0 <= i < |order| ==> order[i] in keys)
    && forall i, k :: 0 <= i < |order| && k in keys && k < order[i] ==> k in order
  }

  /** The file after the first j page writes. */
  ghost function Written(logged: View, order: seq<nat>, pages: seq<Data>, j: nat): seq<Data>
    requires j <= |order| && forall i :: 0 <= i < |order| ==> order[i] > 0 && order[i] in logged
  {
    if j == 0 then pages
    else FileWrite(Written(logged, order, pages, j - 1), order[j - 1], logged[order[j - 1]])
  }

  lemma {:induction false} WrittenPrefix(logged: View, order: seq<nat>, id: nat, pages: seq<Data>, j: nat)
    requires j <= |order| && id > 0 && id in logged
    requires forall i :: 0 <= i < |order| ==> order[i] > 0 && order[i] in logged
    ensures Written(logged, order + [id], pages, j) == Written(logged, order, pages, j)
  {
    hide FileWrite;
    if j > 0 {
      WrittenPrefix(logged, order, id, pages, j - 1);
    }
  }

  /** One more write. */
  lemma WrittenNext(logged: View, order: seq<nat>, id: nat, pages: seq<Data>)
    requires id > 0 && id in logged
    requires forall i :: 0 <= i < |order| ==> order[i] > 0 && order[i] in logged
    ensures Written(logged, order + [id], pages, |order| + 1) ==
            FileWrite(Written(logged, order, pages, |order|), id, logged[id])
  {
    hide FileWrite;
    WrittenPrefix(logged, order, id, pages, |order|);
  }

  lemma LeadingNext(order: seq<nat>, keys: set<nat>, todo: set<nat>, id: nat)
    requires Leading(order, keys) && todo <= keys && id in todo && forall w :: w in todo ==> id <= w
    requires forall k :: k in keys ==> (k in todo <==> k !in order)
    requires forall i, w :: 0 <= i < |order| && w in todo ==> order[i] < w
    ensures Leading(order + [id], keys)
    ensures forall k :: k in keys ==> (k in todo - {id} <==> k !in order + [id])
    ensures forall i, w :: 0 <= i < |order + [id]| && w in todo - {id} ==> (order + [id])[i] < w
  {
    var next := order + [id];
    forall k
      ensures k in next <==> k in order || k == id
    {
    }
  }

  ghost function Members(order: seq<nat>): set<nat> {
    set k | k in order
  }

  lemma LeadingCount(order: seq<nat>, keys: set<nat>, todo: set<nat>)
    requires Leading(order, keys) && todo <= keys && forall k :: k in keys ==> (k in todo <==> k !in order)
    ensures |order| + |todo| == |keys|
  {
    OrderSize(order);
    assert Members(order) + todo == keys && Members(order) !! todo;
    assert |Members(order) + todo| == |Members(order)| + |todo|;
  }

  lemma {:induction false} OrderSize(order: seq<nat>)
    requires forall i, j :: 0 <= i < j < |order| ==> order[i] < order[j]
    ensures |Members(order)| == |order|
  {
    if order != [] {
      var front, k := order[..|order| - 1], order[|order| - 1];
      OrderSize(front);
      assert order == front + [k];
      assert Members(order) == Members(front) + {k} && k !in Members(front);
    }
  }

  /** The file after the pages in order, and the pages of the log still to do. */
  ghost predicate Folding(index: Index, start: seq<Data>, pages: seq<Data>, order: seq<nat>, todo: set<nat>) {
    && todo <= index.Keys && PartlyFolded(index, start, pages) && |start| <= |pages|
    && Leading(order, index.Keys) && (forall k :: k in index.Keys ==> (k in todo <==> k !in order))
    && (forall i, w :: 0 <= i < |order| && w in todo ==> order[i] < w)
    && (forall i :: 0 <= i < |order| ==> order[i] > 0 && order[i] in Logged(index))
    && pages == Written(Logged(index), order, start, |order|)
    && forall p :: p in index.Keys - todo ==> FoldedAt(index, pages, p)
  }

  lemma FoldingStart(index: Index, pages: seq<Data>)
    ensures Folding(index, pages, pages, [], index.Keys)
  {
    hide FoldedAt, Logged, PartlyFolded;
    FoldNone(index, pages);
  }

  lemma FoldingParts(index: Index, start: seq<Data>, pages: seq<Data>, order: seq<nat>, todo: set<nat>)
    requires Folding(index, start, pages, order, todo)
    ensures todo <= index.Keys && PartlyFolded(index, start, pages) && |start| <= |pages|
    ensures Leading(order, index.Keys) && |order| + |todo| == |index.Keys|
    ensures forall i :: 0 <= i < |order| ==> order[i] > 0 && order[i] in Logged(index)
    ensures pages == Written(Logged(index), order, start, |order|)
  {
    hide FoldedAt, Logged, PartlyFolded, Leading, Written;
    LeadingCount(order, index.Keys, todo);
  }

  lemma FoldingNext(index: Index, start: seq<Data>, pages: seq<Data>, pages': seq<Data>, order: seq<nat>, todo: set<nat>, id: nat)
    requires Folding(index, start, pages, order, todo) && id in todo && (forall w :: w in todo ==> id <= w) && id > 0
    requires id in Logged(index) && pages' == FileWrite(pages, id, Logged(index)[id]) && |pages| <= |pages'|
    requires PartlyFolded(index, start, pages') && FoldedAt(index, pages', id)
    requires forall p: nat :: FoldedAt(index, pages, p) ==> FoldedAt(index, pages', p)
    ensures Folding(index, start, pages', order + [id], todo - {id})
  {
    hide FoldedAt, Logged, PartlyFolded, Leading, Written, FileWrite;
    WrittenNext(Logged(index), order, id, start);
    LeadingNext(order, index.Keys, todo, id);
  }

  lemma FoldingDone(index: Index, start: seq<Data>, pages: seq<Data>, order: seq<nat>, todo: set<nat>)
    requires Folding(index, start, pages, order, todo) && todo == {}
    ensures Folded(index, start, pages)
  {
    hide FoldedAt, Logged, PartlyFolded, Leading, Written;
    AllFolded(index, start, pages);
  }

  /** Writes the newest version of the first pages of the log to the file, in page order, dropping each
      from the cache, and stops after a number of writes. */
  method WritePages(index: Index, file: DatabaseFile, cache: PageCache, stop: nat, ghost bound: nat)
    returns (ghost order: seq<nat>)
    requires cache.Valid() && Clean(cache.pages, file.pages)
    requires |file.pages| <= bound && forall p :: p in index ==> 1 <= p <= bound && index[p] != []
    modifies file`pages, cache
    ensures cache.Valid() && Clean(cache.pages, file.pages)
    ensures Leading(order, index.Keys) && |order| == Min(stop, |index.Keys|)
    ensures forall i :: 0 <= i < |order| ==> order[i] > 0 && order[i] in Logged(index)
    ensures file.pages == Written(Logged(index), order, old(file.pages), |order|)
    ensures PartlyFolded(index, old(file.pages), file.pages) && |old(file.pages)| <= |file.pages| <= bound
    ensures stop >= |index.Keys| ==> Folded(index, old(file.pages), file.pages)
  {
    hide *;
    FoldingStart(index, file.pages);
    var todo := index.Keys;
    order := [];
    var n := 0;
    while todo != {} && n < stop
      invariant n == |order| && n <= stop && |file.pages| <= bound
      invariant cache.Valid() && Clean(cache.pages, file.pages)
      invariant Folding(index, old(file.pages), file.pages, order, todo)
      decreases |todo|
    {
      FoldingParts(index, old(file.pages), file.pages, order, todo);
      ghost var pages := file.pages;
      ghost var least := Least(todo);
      var id :| id in todo && forall w :: w in todo ==> id <= w;
      var versions := index[id];
      var data := versions[|versions| - 1].data;
      NewestIs(index, id);
      LoggedNewest(index, id);
      FoldPage(file, cache, id, data, index, old(file.pages), bound);
      FoldingNext(index, old(file.pages), pages, file.pages, order, todo, id);
      order, todo, n := order + [id], todo - {id}, n + 1;
    }
    FoldingParts(index, old(file.pages), file.pages, order, todo);
    MinIs(stop, |index.Keys|);
    if stop >= |index.Keys| {
      FoldingDone(index, old(file.pages), file.pages, order, todo);
    }
  }

  lemma MinIs(a: nat, b: nat)
    ensures Min(a, b) == if a <= b then a else b
  {
  }

  /** The header a checkpoint writes: the size of the file or the log, whichever is larger, the last
      version as the change counter, and the user version that page 1 holds by then. */
  function CheckpointHeader(pages: seq<Data>, log: Log): DbHeader
    requires |pages| < U32 && log.dbSize < U32
  {
    var version := log.maxVersion % U32;
    DbHeader(Max(|pages|, log.dbSize), Max(version, 1), 1, 0, 0, if pages == [] then 0 else Get32(pages[0], 60))
  }

  /** The header write changes nothing but the front of page 1, and not the user version. */
  lemma HeaderAlike(pages: seq<Data>, log: Log, id: nat)
    requires 1 <= |pages| < U32 && log.dbSize < U32
    ensures var pages' := SetHeader(pages, CheckpointHeader(pages, log));
            && |pages'| == |pages| && Opens(pages') && AlikeRead(id, FileRead(pages', id), FileRead(pages, id))
  {
    hide WithHeader, Alike, ReadHeader, HeaderOk, Get32, Zeros;
    var h := CheckpointHeader(pages, log);
    WithHeaderAlike(pages[0], h);
    if id != 1 {
      AlikeSelf(id, FileRead(pages, id));
    }
  }

  lemma HeaderKeepsFold(index: Index, start: seq<Data>, pages: seq<Data>, log: Log)
    requires 1 <= |pages| < U32 && log.dbSize < U32 && PartlyFolded(index, start, pages)
    ensures var pages' := SetHeader(pages, CheckpointHeader(pages, log));
            && |pages'| == |pages| && Opens(pages') && PartlyFolded(index, start, pages')
            && (Folded(index, start, pages) ==> Folded(index, start, pages'))
  {
    hide SetHeader, CheckpointHeader, AlikeRead, FileRead, Zeros, Newest, Opens;
    var pages' := SetHeader(pages, CheckpointHeader(pages, log));
    HeaderAlike(pages, log, 1);
    forall id: nat
      ensures PartlyFoldedAt(index, start, pages', id)
      ensures FoldedAt(index, pages, id) ==> FoldedAt(index, pages', id)
    {
      assert PartlyFoldedAt(index, start, pages, id);
      HeaderAlike(pages, log, id);
      var r, r' := FileRead(pages, id), FileRead(pages', id);
      if Newest(index, id) == None {
        AlikeTrans(id, r', r, if |start| < id <= |pages| then Some(Zeros()) else FileRead(start, id));
      } else if FoldedAt(index, pages, id) {
        AlikeTrans(id, r', r, Newest(index, id));
      }
    }
    assert |start| <= |pages'| && forall id: nat :: PartlyFoldedAt(index, start, pages', id);
  }

  lemma HeaderKeepsClean(cached: map<nat, Data>, pages: seq<Data>, log: Log)
    requires 1 <= |pages| < U32 && log.dbSize < U32 && Clean(cached, pages)
    ensures Clean(cached, SetHeader(pages, CheckpointHeader(pages, log)))
  {
    hide SetHeader, CheckpointHeader, AlikeRead, FileRead, Opens;
    var pages' := SetHeader(pages, CheckpointHeader(pages, log));
    forall p | p in cached
      ensures AlikeRead(p, FileRead(pages', p), Some(cached[p]))
    {
      HeaderAlike(pages, log, p);
      AlikeTrans(p, FileRead(pages', p), FileRead(pages, p), Some(cached[p]));
    }
  }

  /** The header that page 1 begins with gives as page count the larger of the file's length and the log's size, and
      as change counter the low 32 bits of the last version, or 1. */
  predicate HasFinalHeader(pages: seq<Data>, logSize: nat, version: nat) {
    && pages != [] && ReadHeader(pages[0]).Header?
    && var h := ReadHeader(pages[0]).header;
       && h.dbSize == (if |pages| >= logSize then |pages| else logSize)
       && h.changeCounter == (if version % U32 > 0 then version % U32 else 1)
       && h.schemaCookie == 1 && h.freelistTrunk == 0 && h.freelistCount == 0
  }

  lemma FinalHeader(pages: seq<Data>, log: Log)
    requires 1 <= |pages| < U32 && log.dbSize < U32
    ensures HasFinalHeader(SetHeader(pages, CheckpointHeader(pages, log)), log.dbSize, log.maxVersion)
  {
    hide HeaderBytes, Get32, ReadHeader, Zeros;
    HeaderRoundTrip(CheckpointHeader(pages, log), pages[0][HEADER_SIZE..]);
  }

  lemma FinalCount(pages: seq<Data>, logSize: nat, version: nat)
    requires HasFinalHeader(pages, logSize, version)
    ensures HeaderCount(pages) == if |pages| >= logSize then |pages| else logSize
  {
    hide ReadHeader;
  }

  /** Writes the header over page 1; a cached page 1 keeps the front it had. */
  method WriteFileHeader(log: Log, file: DatabaseFile, cache: PageCache, ghost index: Index, ghost start: seq<Data>)
    requires 1 <= |file.pages| < U32 && log.dbSize < U32
    requires Clean(cache.pages, file.pages) && PartlyFolded(index, start, file.pages)
    modifies file`pages
    ensures file.pages == SetHeader(old(file.pages), CheckpointHeader(old(file.pages), log))
    ensures |file.pages| == |old(file.pages)| && Opens(file.pages) && Clean(cache.pages, file.pages)
    ensures PartlyFolded(index, start, file.pages)
    ensures Folded(index, start, old(file.pages)) ==> Folded(index, start, file.pages)
  {
    hide *;
    HeaderKeepsFold(index, start, file.pages, log);
    HeaderKeepsClean(cache.pages, file.pages, log);
    file.WriteHeader(CheckpointHeader(file.pages, log));
  }

  /** The file after j writes of a checkpoint: the pages of the log in page order, then the header. */
  ghost function AfterWrites(log: Log, order: seq<nat>, pages: seq<Data>, j: nat): seq<Data>
    requires forall i :: 0 <= i < |order| ==> order[i] > 0 && order[i] in Logged(log.index)
  {
    if j <= |order| then Written(Logged(log.index), order, pages, j)
    else WithFinalHeader(Written(Logged(log.index), order, pages, |order|), log)
  }

  ghost function WithFinalHeader(pages: seq<Data>, log: Log): seq<Data> {
    if |pages| < U32 && log.dbSize < U32 then SetHeader(pages, CheckpointHeader(pages, log)) else pages
  }

  /** Writes the newest version of every page of the log to the file, in page order, dropping each
      from the cache; then the header, into the front of page 1; then empties the log. */
  method Checkpoint(wal: WriteAheadLog, file: DatabaseFile, cache: PageCache, ghost bound: nat)
    returns (ghost order: seq<nat>)
    requires wal.Valid() && cache.Valid() && Clean(cache.pages, file.pages) && Opens(file.pages)
    requires |file.pages| <= bound < U32 && wal.dbSize <= bound
    requires forall p :: p in wal.index ==> 1 <= p <= bound && wal.index[p] != []
    modifies wal, file, cache
    ensures wal.Valid() && cache.Valid() && Clean(cache.pages, file.pages) && Opens(file.pages)
    ensures wal.State() == Log(map[], old(wal.maxVersion), old(wal.dbSize))
    ensures old(wal.index) == map[] ==> wal.file == old(wal.file) && file.pages == old(file.pages)
    ensures old(wal.index) != map[] ==>
              && wal.file == [] && Leading(order, old(wal.index).Keys) && |order| == |old(wal.index).Keys|
              && (forall i :: 0 <= i < |order| ==> order[i] > 0 && order[i] in Logged(old(wal.index)))
              && file.pages == AfterWrites(old(wal.State()), order, old(file.pages), |order| + 1)
    ensures old(wal.index) != map[] ==>
              HasFinalHeader(file.pages, old(wal.dbSize), old(wal.maxVersion))
    ensures Folded(old(wal.index), old(file.pages), file.pages) && |file.pages| <= bound
  {
    hide *;
    LogIs(wal);
    OpensParts(file.pages);
    var log := wal.State();
    FoldNone(log.index, file.pages);
    order := [];
    if log.index == map[] { return; }
    order := WritePages(log.index, file, cache, |log.index.Keys|, bound);
    MinIs(|log.index.Keys|, |log.index.Keys|);
    AfterAll(log, order, old(file.pages));
    FinalHeader(file.pages, log);
    WriteFileHeader(log, file, cache, log.index, old(file.pages));
    wal.Reset();
    LogIs(wal);
  }

  lemma AfterAll(log: Log, order: seq<nat>, pages: seq<Data>)
    requires forall i :: 0 <= i < |order| ==> order[i] > 0 && order[i] in Logged(log.index)
    ensures var pages' := Written(Logged(log.index), order, pages, |order|);
            |pages'| < U32 && log.dbSize < U32 ==>
              AfterWrites(log, order, pages, |order| + 1) == SetHeader(pages', CheckpointHeader(pages', log))
  {
    hide SetHeader, CheckpointHeader, Written;
  }

  lemma OpensParts(pages: seq<Data>)
    requires Opens(pages)
    ensures |pages| >= 1
  {
  }

  // ---- which crashes a checkpoint survives ----

  /** Whether a file cut off after j writes of a checkpoint still opens: page 1 is not in the log, or its
      newest image begins with a header, or nothing has been written, or the header has. */
  predicate HeaderSurvives(logged: View, j: nat) {
    1 !in logged || HeaderOk(logged[1]) || j == 0 || j > |logged|
  }

  lemma {:induction false} WrittenFirst(logged: View, order: seq<nat>, pages: seq<Data>, j: nat)
    requires j <= |order| && forall i :: 0 <= i < |order| ==> order[i] > 0 && order[i] in logged
    requires Leading(order, logged.Keys) && pages != []
    ensures |Written(logged, order, pages, j)| >= |pages|
    ensures Written(logged, order, pages, j)[0] == if j > 0 && 1 in logged then logged[1] else pages[0]
  {
    hide Zeros;
    if j > 0 {
      WrittenFirst(logged, order, pages, j - 1);
      if 1 in logged {
        FirstIsOne(order, logged.Keys);
      }
    }
  }

  lemma FirstIsOne(order: seq<nat>, keys: set<nat>)
    requires Leading(order, keys) && order != [] && order[0] > 0 && 1 in keys
    ensures order[0] == 1
  {
    FirstLeast(order, 1);
  }

  lemma FirstLeast(order: seq<nat>, k: nat)
    requires forall i, j :: 0 <= i < j < |order| ==> order[i] < order[j]
    ensures k in order ==> order[0] <= k
  {
  }

  /** A crash after j writes of a checkpoint leaves a file that opens if and only if the header survives. */
  lemma CrashOpens(log: Log, order: seq<nat>, pages: seq<Data>, j: nat)
    requires Opens(pages) && Leading(order, Logged(log.index).Keys) && |order| == |Logged(log.index)|
    requires forall i :: 0 <= i < |order| ==> order[i] > 0 && order[i] in Logged(log.index)
    requires |Written(Logged(log.index), order, pages, |order|)| < U32 && log.dbSize < U32
    ensures Opens(AfterWrites(log, order, pages, j)) <==> HeaderSurvives(Logged(log.index), j)
  {
    hide HeaderOk, Logged, SetHeader, CheckpointHeader, Written, Leading;
    var logged := Logged(log.index);
    if j <= |order| {
      WrittenFirst(logged, order, pages, j);
    } else {
      WrittenFirst(logged, order, pages, |order|);
      HeaderAlike(Written(logged, order, pages, |order|), log, 1);
    }
  }

  lemma LogIs(wal: WriteAheadLog)
    ensures wal.State() == Log(wal.index, wal.maxVersion, wal.dbSize)
  {
  }

  lemma NewestIs(index: Index, id: nat)
    requires id in index && index[id] != []
    ensures Newest(index, id) == Some(index[id][|index[id]| - 1].data)
  {
  }

  lemma AllFolded(index: Index, start: seq<Data>, pages: seq<Data>)
    requires PartlyFolded(index, start, pages) && forall p :: p in index ==> FoldedAt(index, pages, p)
    ensures Folded(index, start, pages)
  {
    forall p: nat
      ensures FoldedAt(index, pages, p)
    {
      assert p !in index ==> Newest(index, p) == None;
    }
  }

  /** The same, for a checkpoint stopped among its page writes. */
  lemma WrittenOpens(log: Log, order: seq<nat>, pages: seq<Data>, j: nat)
    requires Opens(pages) && Leading(order, Logged(log.index).Keys) && |order| == j <= |Logged(log.index)|
    requires forall i :: 0 <= i < |order| ==> order[i] > 0 && order[i] in Logged(log.index)
    ensures Opens(Written(Logged(log.index), order, pages, j)) <==> HeaderSurvives(Logged(log.index), j)
  {
    hide HeaderOk, Logged, Written, Leading;
    WrittenFirst(Logged(log.index), order, pages, j);
  }

  // ---- opening ----

  /** Pages a database has when opened: what the header, the log or the file itself says, at least one. */
  function PageCountOf(header: nat, logSize: nat, physical: nat): nat {
    Max(Max(Max(header, logSize), physical), 1)
  }

  /** Every page of view lies in the file, or in the log within the page count of its last commit. */
  ghost predicate Covered(view: View, index: Index, logSize: nat, physical: nat) {
    forall id :: id in view ==> 1 <= id && (id <= physical || (id in index && id <= logSize))
  }

  ghost predicate InBounds(view: View, size: nat) {
    forall id :: id in view ==> 1 <= id <= size
  }

  /** The log that opening a database file and a log file rebuilds. */
  function OpenedLog(pages: seq<Data>, bytes: seq<byte>): Log {
    Recover(Log(map[], 0, HeaderCount(pages)), bytes).0
  }

  /** What a database file and a log file hold, if the file opens: the committed view, every page of it
      allocated, and the pages of it that are in the log. */
  ghost predicate Recoverable(pages: seq<Data>, bytes: seq<byte>, view: View, logged: View) {
    var log := OpenedLog(pages, bytes);
    && Shows(log.index, pages, log.maxVersion, view)
    && Covered(view, log.index, log.dbSize, |pages|)
    && Logged(log.index) == logged
  }

  lemma {:induction false} PushAllAtMost(index: Index, v: nat, fs: seq<Frame>, w: nat)
    requires AllAtMost(index, w) && v <= w
    ensures AllAtMost(PushAll(index, v, fs), w)
  {
    if fs != [] {
      PushAllAtMost(index, v, fs[..|fs| - 1], w);
    }
  }

  lemma AtMostTrans(index: Index, v: nat, w: nat)
    requires AllAtMost(index, v) && v <= w
    ensures AllAtMost(index, w)
  {
  }

  /** A replayed index holds no version past the one it reports. */
  lemma {:induction false} ScanAtMost(start: Log, fs: seq<Frame>)
    requires start.index == map[]
    ensures AllAtMost(ScanFrom(Scan(start, []), fs).log.index, ScanFrom(Scan(start, []), fs).log.maxVersion)
  {
    hide AllAtMost;
    if fs == [] {
      NoneAtMost(start.maxVersion);
    } else {
      var s := ScanFrom(Scan(start, []), fs[..|fs| - 1]);
      var f := fs[|fs| - 1];
      ScanAtMost(start, fs[..|fs| - 1]);
      TxStep(s, f);
      var m := Max(s.log.maxVersion, f.version);
      AtMostTrans(s.log.index, s.log.maxVersion, m);
      PushAllAtMost(s.log.index, f.version, s.pending + [f], m);
    }
  }

  lemma NoneAtMost(v: nat)
    ensures AllAtMost(map[], v)
  {
  }

  /** Replay rebuilds the same index whatever versions and size it starts from. */
  lemma {:induction false} StartSwap(start: Log, start': Log, fs: seq<Frame>)
    requires start.index == start'.index
    ensures var s, s' := ScanFrom(Scan(start, []), fs), ScanFrom(Scan(start', []), fs);
            && s.pending == s'.pending && s.log.index == s'.log.index
            && (s.log.dbSize == s'.log.dbSize || (s.log.index == start.index && s'.log.dbSize == start'.dbSize))
  {
    hide PushAll;
    if fs != [] {
      StartSwap(start, start', fs[..|fs| - 1]);
    }
  }

  /** The log rebuilt from a live log's file has the live log's index. */
  lemma WholeSwap(start: Log, bytes: seq<byte>, log: Log, header: nat) returns (log': Log)
    requires start.index == map[] && Whole(start, bytes, log)
    ensures Whole(Log(map[], 0, header), bytes, log') && log'.index == log.index
    ensures log'.dbSize == log.dbSize || (log.index == map[] && log'.dbSize == header)
    ensures AllAtMost(log'.index, log'.maxVersion)
  {
    hide AllAtMost, Frames, ScanFrom;
    var start' := Log(map[], 0, header);
    StartSwap(start, start', Frames(bytes));
    ScanAtMost(start', Frames(bytes));
    log' := ScanFrom(Scan(start', []), Frames(bytes)).log;
    assert ScanFrom(Scan(start', []), Frames(bytes)) == Scan(log', []);
  }

  lemma CoveredSwap(view: View, index: Index, logSize: nat, physical: nat, logSize': nat, physical': nat)
    requires Covered(view, index, logSize, physical) && physical <= physical'
    requires index != map[] ==> logSize' == logSize
    ensures Covered(view, index, logSize', physical')
  {
  }

  /** A crash between operations loses nothing: reopening shows the last committed view. */
  lemma CrashIdle(start: Log, bytes: seq<byte>, log: Log, pages: seq<Data>, v: nat, view: View)
    requires start.index == map[] && Whole(start, bytes, log)
    requires Shows(log.index, pages, v, view) && AllAtMost(log.index, v) && Covered(view, log.index, log.dbSize, |pages|)
    ensures Recoverable(pages, bytes, view, Logged(log.index))
  {
    hide Whole, Recover, Shows, AllAtMost, Covered, HeaderCount, Logged;
    var header := HeaderCount(pages);
    var log' := WholeSwap(start, bytes, log, header);
    RecoverFull(Log(map[], 0, header), bytes, log');
    TopShows(log'.index, pages, v, view, log'.maxVersion);
    CoveredSwap(view, log.index, log.dbSize, |pages|, log'.dbSize, |pages|);
  }

  lemma RecoverFull(start: Log, bytes: seq<byte>, log: Log)
    requires Whole(start, bytes, log)
    ensures Recover(start, bytes).0 == log
  {
    hide Frames, ScanFrom;
    RecoverIs(start, bytes, Frames(bytes), log, [], |bytes|);
  }

  /** A crash while a commit is being appended: reopening shows the view with the whole transaction
      if all of its bytes are there, and the view without it after any fewer. */
  lemma CrashInCommit(start: Log, bytes: seq<byte>, log: Log, fs: seq<Frame>, k: nat,
                      pages: seq<Data>, v: nat, view: View)
    requires start.index == map[] && Whole(start, bytes, log)
    requires Shows(log.index, pages, v, view) && AllAtMost(log.index, v) && Covered(view, log.index, log.dbSize, |pages|)
    requires IsTx(fs) && DistinctPages(fs) && k <= |EncodeAll(fs)|
    requires v < fs[|fs| - 1].version && log.dbSize <= fs[|fs| - 1].dbSize
    requires forall i :: 0 <= i < |fs| ==> 1 <= fs[i].page <= fs[|fs| - 1].dbSize
    ensures var all := k == |EncodeAll(fs)|;
            Recoverable(pages, bytes + EncodeAll(fs)[..k], if all then view + TxPages(fs) else view,
                        if all then Logged(log.index) + TxPages(fs) else Logged(log.index))
  {
    hide Whole, Recover, Shows, AllAtMost, Covered, EncodeAll, IsTx, DistinctPages, ApplyTx, TxPages, HeaderCount, Logged;
    var header := HeaderCount(pages);
    var log' := WholeSwap(start, bytes, log, header);
    CrashDuringAppend(Log(map[], 0, header), bytes, log', fs, k);
    TopShows(log'.index, pages, v, view, log'.maxVersion);
    if k == |EncodeAll(fs)| {
      AppliedShows(log', fs, pages, v, view, log.dbSize);
    } else {
      CoveredSwap(view, log.index, log.dbSize, |pages|, log'.dbSize, |pages|);
    }
  }

  lemma AppliedShows(log: Log, fs: seq<Frame>, pages: seq<Data>, v: nat, view: View, size: nat)
    requires IsTx(fs) && DistinctPages(fs) && Shows(log.index, pages, v, view) && AllAtMost(log.index, v)
    requires v < fs[|fs| - 1].version && size <= fs[|fs| - 1].dbSize
    requires AllAtMost(log.index, log.maxVersion) && Covered(view, log.index, size, |pages|)
    requires forall i :: 0 <= i < |fs| ==> 1 <= fs[i].page <= fs[|fs| - 1].dbSize
    ensures var log' := ApplyTx(log, fs);
            && Shows(log'.index, pages, log'.maxVersion, view + TxPages(fs))
            && Covered(view + TxPages(fs), log'.index, log'.dbSize, |pages|)
            && Logged(log'.index) == Logged(log.index) + TxPages(fs)
  {
    hide Shows, AllAtMost, Covered, DistinctPages, TxPages, PushAll, Logged;
    var w := fs[|fs| - 1].version;
    var log' := ApplyTx(log, fs);
    CommitShowsNew(log.index, pages, v, view, w, fs);
    CommitAtMost(log.index, v, w, fs);
    AtMostTrans(log'.index, w, log'.maxVersion);
    TopShows(log'.index, pages, w, view + TxPages(fs), log'.maxVersion);
    CommitCovered(log.index, w, fs, view, size, log'.dbSize, |pages|);
    LoggedCommit(log.index, w, fs);
  }

  lemma CommitCovered(index: Index, w: nat, fs: seq<Frame>, view: View, size: nat, size': nat, physical: nat)
    requires DistinctPages(fs) && Covered(view, index, size, physical) && size <= size'
    requires forall i :: 0 <= i < |fs| ==> 1 <= fs[i].page <= size'
    ensures Covered(view + TxPages(fs), PushAll(index, w, fs), size', physical)
  {
    hide DistinctPages, TxPages, PushAll;
    var view', index' := view + TxPages(fs), PushAll(index, w, fs);
    forall id | id in view'
      ensures 1 <= id && (id <= physical || (id in index' && id <= size'))
    {
      TxPagesKeys(fs, id);
      PushAllKeeps(index, w, fs, id);
    }
  }

  /** Pushing drops no page from the index and leaves no page without versions. */
  lemma {:induction false} PushAllKeeps(index: Index, w: nat, fs: seq<Frame>, id: nat)
    ensures id in PushAll(index, w, fs) <==> id in index || id in TxPages(fs)
    ensures id in PushAll(index, w, fs) && (id in index ==> index[id] != []) ==> PushAll(index, w, fs)[id] != []
  {
    if fs != [] {
      PushAllKeeps(index, w, fs[..|fs| - 1], id);
    }
  }

  /** A crash inside a checkpoint, with any part of the log's pages written, even torn: the files still hold
      the last committed view, for as far as the database file opens. */
  lemma CrashInCheckpoint(start: Log, bytes: seq<byte>, log: Log, pages: seq<Data>, pages': seq<Data>, v: nat, view: View)
    requires start.index == map[] && Whole(start, bytes, log)
    requires Shows(log.index, pages, v, view) && AllAtMost(log.index, v) && Covered(view, log.index, log.dbSize, |pages|)
    requires PartlyFolded(log.index, pages, pages')
    ensures Recoverable(pages', bytes, view, Logged(log.index))
  {
    hide Whole, Recover, Shows, AllAtMost, Covered, HeaderCount, Logged;
    PartFoldShows(log.index, pages, pages', v, view);
    CoveredSwap(view, log.index, log.dbSize, |pages|, log.dbSize, |pages'|);
    CrashIdle(start, bytes, log, pages', v, view);
  }
}
