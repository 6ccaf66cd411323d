/** What a snapshot shows: the newest log version not past it, and behind the log the database file. */
module Snapshots {
  import opened Common
  import opened Varint
  import opened Nodes
  import opened PageFormat
  import opened WalFrames
  import opened Wal
  import opened DbHeaders

  /** The content of every page that has been committed. */
  type View = map<nat, Data>

  // ---- the database file ----

  /** Page ids are 1-based; pages past the end are absent. */
  function FileRead(pages: seq<Data>, id: nat): Option<Data> {
    if id == 0 || id > |pages| then None else Some(pages[id - 1])
  }

  /** Writing past the end fills the gap with zeros. */
  function FileWrite(pages: seq<Data>, id: nat, data: Data): seq<Data>
    requires id > 0
  {
    if id <= |pages| then pages[id - 1 := data]
    else pages + seq(id - 1 - |pages|, _ => Zeros()) + [data]
  }

  lemma FileWriteMeaning(pages: seq<Data>, id: nat, data: Data, p: nat)
    requires id > 0
    ensures |FileWrite(pages, id, data)| == Max(|pages|, id)
    ensures FileRead(FileWrite(pages, id, data), p) ==
            if p == id then Some(data)
            else if |pages| < p < id then Some(Zeros())
            else FileRead(pages, p)
  {
    hide Zeros;
  }

  // ---- the log index ----

  /** The pages a transaction writes. */
  function TxPages(fs: seq<Frame>): View {
    if fs == [] then map[] else TxPages(fs[..|fs| - 1])[fs[|fs| - 1].page := fs[|fs| - 1].data]
  }

  predicate DistinctPages(fs: seq<Frame>) {
    forall i, j :: 0 <= i < j < |fs| ==> fs[i].page != fs[j].page
  }

  lemma {:induction false} TxPagesKeys(fs: seq<Frame>, p: nat)
    ensures p in TxPages(fs) <==> exists i :: 0 <= i < |fs| && fs[i].page == p
  {
    if fs != [] {
      TxPagesKeys(fs[..|fs| - 1], p);
      if p in TxPages(fs[..|fs| - 1]) {
        var i :| 0 <= i < |fs| - 1 && fs[..|fs| - 1][i].page == p;
        assert fs[i].page == p;
      }
    }
  }

  /** A transaction adds one version to each page it writes and touches no other. */
  lemma {:induction false} PushAllAt(index: Index, version: nat, fs: seq<Frame>, p: nat)
    requires DistinctPages(fs)
    ensures Entries(PushAll(index, version, fs), p) ==
            Entries(index, p) + if p in TxPages(fs) then [Version(version, TxPages(fs)[p])] else []
  {
    if fs != [] {
      var front, f := fs[..|fs| - 1], fs[|fs| - 1];
      PushAllAt(index, version, front, p);
      TxPagesKeys(front, f.page);
    }
  }

  /** No version in es is past v. */
  predicate AtMost(es: seq<Version>, v: nat) {
    forall i :: 0 <= i < |es| ==> es[i].version <= v
  }

  predicate AllAtMost(index: Index, v: nat) {
    forall p :: p in index ==> AtMost(index[p], v)
  }

  /** Snapshots past every version see the same: the newest. */
  lemma VisibleTop(es: seq<Version>, v: nat)
    requires AtMost(es, v)
    ensures Visible(es, v) == if es == [] then None else Some(es[|es| - 1].data)
  {
  }

  lemma VisibleSnoc(es: seq<Version>, e: Version, v: nat)
    ensures Visible(es + [e], v) == if e.version <= v then Some(e.data) else Visible(es, v)
  {
    assert (es + [e])[..|es + [e]| - 1] == es;
  }

  // ---- reading ----

  /** A page read at snapshot v: from the log if it holds a version, else from the file. */
  function ReadFrom(index: Index, pages: seq<Data>, id: nat, v: nat): Option<Data> {
    match Visible(Entries(index, id), v)
    case Some(d) => Some(d)
    case None => FileRead(pages, id)
  }

  /** What reading must give: the committed content; pages never committed read as zeros where the
      file has grown past them and are out of range elsewhere. */
  function Expected(view: View, size: nat, id: nat): Option<Data> {
    if id in view then Some(view[id])
    else if 1 <= id <= size then Some(Zeros())
    else None
  }

  /** Snapshot v reads as view, up to the database header in front of page 1. */
  predicate ShowsAt(index: Index, pages: seq<Data>, v: nat, view: View, id: nat) {
    AlikeRead(id, ReadFrom(index, pages, id, v), Expected(view, |pages|, id))
  }

  ghost predicate Shows(index: Index, pages: seq<Data>, v: nat, view: View) {
    forall id: nat :: ShowsAt(index, pages, v, view, id)
  }

  lemma EntriesAtMost(index: Index, v: nat, id: nat)
    requires AllAtMost(index, v)
    ensures AtMost(Entries(index, id), v)
  {
  }

  /** A commit leaves every earlier snapshot as it was. */
  lemma CommitKeepsOld(index: Index, pages: seq<Data>, v: nat, view: View, w: nat, fs: seq<Frame>)
    requires Shows(index, pages, v, view) && v < w && DistinctPages(fs)
    ensures Shows(PushAll(index, w, fs), pages, v, view)
  {
    hide PushAll, Visible, Entries, DistinctPages, Expected;
    var index' := PushAll(index, w, fs);
    forall id: nat
      ensures ShowsAt(index', pages, v, view, id)
    {
      assert ShowsAt(index, pages, v, view, id);
      PushAllAt(index, w, fs, id);
      if id in TxPages(fs) {
        VisibleSnoc(Entries(index, id), Version(w, TxPages(fs)[id]), v);
      } else {
        assert Entries(index, id) + [] == Entries(index, id);
      }
    }
  }

  /** At the new version a commit shows the old view with the pages it wrote laid over. */
  lemma CommitShowsNew(index: Index, pages: seq<Data>, v: nat, view: View, w: nat, fs: seq<Frame>)
    requires Shows(index, pages, v, view) && v < w && DistinctPages(fs) && AllAtMost(index, v)
    ensures Shows(PushAll(index, w, fs), pages, w, view + TxPages(fs))
  {
    hide PushAll, Visible, Entries, DistinctPages, AllAtMost, TxPages;
    var index' := PushAll(index, w, fs);
    forall id: nat
      ensures ShowsAt(index', pages, w, view + TxPages(fs), id)
    {
      assert ShowsAt(index, pages, v, view, id);
      PushAllAt(index, w, fs, id);
      if id in TxPages(fs) {
        VisibleSnoc(Entries(index, id), Version(w, TxPages(fs)[id]), w);
      } else {
        assert Entries(index, id) + [] == Entries(index, id);
        EntriesAtMost(index, v, id);
        VisibleTop(Entries(index, id), v);
        VisibleTop(Entries(index, id), w);
      }
    }
  }

  lemma CommitAtMost(index: Index, v: nat, w: nat, fs: seq<Frame>)
    requires AllAtMost(index, v) && v <= w && DistinctPages(fs)
    ensures AllAtMost(PushAll(index, w, fs), w)
  {
    hide PushAll, DistinctPages, TxPages;
    var index' := PushAll(index, w, fs);
    forall p | p in index'
      ensures AtMost(index'[p], w)
    {
      PushAllAt(index, w, fs, p);
      EntriesAtMost(index, v, p);
      assert Entries(index', p) == index'[p];
    }
  }

  /** Any two snapshots at or past every version show the same. */
  lemma TopShows(index: Index, pages: seq<Data>, v: nat, view: View, w: nat)
    requires Shows(index, pages, v, view) && AllAtMost(index, v) && AllAtMost(index, w)
    ensures Shows(index, pages, w, view)
  {
    hide Visible, Entries, AllAtMost, Expected;
    forall id: nat
      ensures ShowsAt(index, pages, w, view, id)
    {
      assert ShowsAt(index, pages, v, view, id);
      EntriesAtMost(index, v, id);
      EntriesAtMost(index, w, id);
      VisibleTop(Entries(index, id), v);
      VisibleTop(Entries(index, id), w);
    }
  }

  // ---- checkpoint ----

  /** The newest version of a page in the log. */
  function Newest(index: Index, id: nat): Option<Data> {
    var es := Entries(index, id);
    if es == [] then None else Some(es[|es| - 1].data)
  }

  /** A file part-way through a checkpoint: pages of the log may hold anything, other pages are as
      they were but for the header in front of page 1, and the file has only grown, by zeros. */
  predicate PartlyFoldedAt(index: Index, pages: seq<Data>, pages': seq<Data>, id: nat) {
    Newest(index, id) == None ==>
      AlikeRead(id, FileRead(pages', id), if |pages| < id <= |pages'| then Some(Zeros()) else FileRead(pages, id))
  }

  ghost predicate PartlyFolded(index: Index, pages: seq<Data>, pages': seq<Data>) {
    |pages| <= |pages'| && forall id: nat :: PartlyFoldedAt(index, pages, pages', id)
  }

  /** A finished checkpoint: every page of the log has reached the file. */
  predicate FoldedAt(index: Index, pages': seq<Data>, id: nat) {
    Newest(index, id).Some? ==> AlikeRead(id, FileRead(pages', id), Newest(index, id))
  }

  ghost predicate Folded(index: Index, pages: seq<Data>, pages': seq<Data>) {
    PartlyFolded(index, pages, pages') && forall id: nat :: FoldedAt(index, pages', id)
  }

  /** While the log is kept, what the latest snapshot reads does not depend on how far a checkpoint got. */
  lemma PartFoldShows(index: Index, pages: seq<Data>, pages': seq<Data>, v: nat, view: View)
    requires Shows(index, pages, v, view) && AllAtMost(index, v) && PartlyFolded(index, pages, pages')
    ensures Shows(index, pages', v, view)
  {
    hide Visible, Entries, AllAtMost, FileRead, Zeros, Alike;
    forall id: nat
      ensures ShowsAt(index, pages', v, view, id)
    {
      assert ShowsAt(index, pages, v, view, id) && PartlyFoldedAt(index, pages, pages', id);
      EntriesAtMost(index, v, id);
      VisibleTop(Entries(index, id), v);
      PastEnd(pages, id);
      if Newest(index, id) == None {
        UnloggedShows(pages, pages', view, id);
      }
    }
  }

  lemma UnloggedShows(pages: seq<Data>, pages': seq<Data>, view: View, id: nat)
    requires |pages| <= |pages'|
    requires AlikeRead(id, FileRead(pages, id), Expected(view, |pages|, id))
    requires AlikeRead(id, FileRead(pages', id), if |pages| < id <= |pages'| then Some(Zeros()) else FileRead(pages, id))
    ensures AlikeRead(id, FileRead(pages', id), Expected(view, |pages'|, id))
  {
    hide FileRead, Zeros, AlikeRead;
    PastEnd(pages, id);
    if |pages| < id <= |pages'| {
      PresentRead(id, Expected(view, |pages|, id));
    } else {
      AlikeTrans(id, FileRead(pages', id), FileRead(pages, id), Expected(view, |pages|, id));
    }
  }

  lemma PresentRead(id: nat, s: Option<Data>)
    ensures AlikeRead(id, None, s) ==> s == None
  {
  }

  lemma PastEnd(pages: seq<Data>, id: nat)
    ensures FileRead(pages, id) == None <==> id == 0 || id > |pages|
  {
  }

  /** Once all pages of the log are in the file, the log can go. */
  lemma FoldShows(index: Index, pages: seq<Data>, pages': seq<Data>, v: nat, view: View)
    requires Shows(index, pages, v, view) && AllAtMost(index, v) && Folded(index, pages, pages')
    ensures Shows(map[], pages', v, view)
  {
    hide Visible, AllAtMost, FileRead, Zeros, AlikeRead;
    PartFoldShows(index, pages, pages', v, view);
    forall id: nat
      ensures ShowsAt(map[], pages', v, view, id)
    {
      assert ShowsAt(index, pages', v, view, id) && FoldedAt(index, pages', id);
      EntriesAtMost(index, v, id);
      VisibleTop(Entries(index, id), v);
      VisibleTop([], v);
      if Newest(index, id).Some? {
        AlikeTrans(id, FileRead(pages', id), Newest(index, id), Expected(view, |pages'|, id));
      }
    }
  }

  // ---- the pages of the log ----

  /** The newest image of each page in the log. */
  function Logged(index: Index): View {
    map p | p in index && index[p] != [] :: index[p][|index[p]| - 1].data
  }

  lemma LoggedNewest(index: Index, p: nat)
    ensures p in Logged(index) <==> Newest(index, p).Some?
    ensures p in Logged(index) ==> Newest(index, p) == Some(Logged(index)[p])
  {
  }

  /** A commit lays its pages over those of the log. */
  lemma LoggedCommit(index: Index, w: nat, fs: seq<Frame>)
    requires DistinctPages(fs)
    ensures Logged(PushAll(index, w, fs)) == Logged(index) + TxPages(fs)
  {
    hide PushAll, TxPages, Logged, DistinctPages;
    var index' := PushAll(index, w, fs);
    forall p: nat
      ensures p in Logged(index') <==> p in Logged(index) + TxPages(fs)
      ensures p in Logged(index') ==> Logged(index')[p] == (Logged(index) + TxPages(fs))[p]
    {
      PushAllAt(index, w, fs, p);
      LoggedNewest(index, p);
      LoggedNewest(index', p);
    }
  }
}
