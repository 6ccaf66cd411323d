/** The user version in the database header: set by writing page 1, and lost when a b-tree writes it. */
module UserVersions {
  import opened Common
  import opened Varint
  import opened Nodes
  import opened Table
  import opened Trees
  import opened PageFormat
  import opened TreeBytes
  import opened WalFrames
  import opened DbHeaders
  import opened Overflow
  import BTrees
  import opened TreeTransactions
  import D = Databases

  function Versioned(page: Data, v: nat): (r: Data)
    requires v < U32
    ensures Get32(r, 60) == v && forall j :: 0 <= j < 60 || 64 <= j < PAGE_SIZE ==> r[j] == page[j]
  {
    var r := page[..60] + Be32(v) + page[64..];
    assert r[60..64] == Be32(v);
    Get32Be32(r, 60, v);
    r
  }

  /** Sets the user version in a write transaction of its own. */
  method SetUserVersion(d: D.Database, v: nat) returns (ghost page: Data)
    requires d.Valid() && !d.model.lost && d.model.writer == None && 1 in d.model.committed
    requires v < U32 && d.model.version + 1 < TWO_64 && 1 <= d.model.size
    modifies d.Footprint()
    ensures d.Valid() && fresh(d.Footprint() - old(d.Footprint()))
    ensures VersionSet(old(d.model), d.model, page, v)
  {
    hide *;
    ghost var m := d.model;
    d.OpenWriter();
    Begun(m, d.model);
    ghost var m1 := d.model;
    var r := d.GetPage(1);
    GotPage(m1, d.model, 1, r);
    page := r.value;
    d.PutPage(1, Versioned(r.value, v));
    ghost var m2 := d.model;
    d.CommitWriter();
    VersionCommitted(m, m1, m2, d.model, r, v);
  }

  /** Page 1 is committed with the new user version, and all else is as it was. */
  ghost predicate VersionSet(m: D.Model, m': D.Model, page: Data, v: nat) {
    && v < U32 && 1 in m.committed && Alike(1, page, m.committed[1])
    && m' == m.(committed := m.committed[1 := Versioned(page, v)], version := m.version + 1,
                logged := m.logged[1 := Versioned(page, v)])
  }

  lemma VersionCommitted(m: D.Model, m1: D.Model, m2: D.Model, m3: D.Model, r: Option<Data>, v: nat)
    requires !m.lost && m.writer == None && v < U32 && m.version + 1 < TWO_64 && 1 <= m.size && 1 in m.committed
    requires m1 == m.(writer := Some(D.Writer(map[], m.size, m.free))) && r.Some? && Alike(1, r.value, m.committed[1])
    requires D.Allows(m1, D.Op.Put(1, Versioned(r.value, v)), m2, None) && D.Allows(m2, D.Op.Commit, m3, None)
    ensures VersionSet(m, m3, r.value, v)
  {
    hide Alike, Versioned, D.Allows;
    VersionPut(m1, m2, r.value, v);
    CommitIs(m2, m3);
  }

  lemma VersionPut(m: D.Model, m': D.Model, page: Data, v: nat)
    requires !m.lost && m.writer.Some? && v < U32 && 1 <= m.writer.value.size
    requires D.Allows(m, D.Op.Put(1, Versioned(page, v)), m', None)
    ensures m' == m.(writer := Some(m.writer.value.(pending := m.writer.value.pending[1 := Versioned(page, v)])))
  {
    hide Versioned;
  }

  /** Tables, the catalog on page 1 among them, are untouched. */
  lemma VersionKeepsTable(m: D.Model, m': D.Model, page: Data, v: nat, root: PageId, t: Tree, view: View, others: multiset<PageId>)
    requires VersionSet(m, m', page, v) && HasTable(m, root, t, view, others)
    ensures HasTable(m', root, t, view, others)
  {
    hide Held, Readable, TreeOk, Stored, FitsAll, Ids, Alike, Versioned;
    if 1 in Ids(t) {
      HeldAt(m.committed, view, Ids(t), 1);
      VersionedHeld(m.committed[1], page, v, view[1]);
    }
  }

  lemma VersionedHeld(s: Data, page: Data, v: nat, p: Page)
    requires v < U32 && Held(s, 1, p) && Readable(1, p) && p.NodePage? && Alike(1, page, s)
    ensures Held(Versioned(page, v), 1, p)
  {
    hide Alike, CellHeld, HeaderHeld, Encodable, Fits, Shaped, Writes, Image, Get32, Count, ArrayAt;
    FromHeader(s, page);
    NodeAlike(s, Versioned(page, v), p.node);
  }

  /** A new database, its user version set to 7, one record put into the catalog: the version reads 0. */
  method VersionLost() returns (d: D.Database, ghost versioned: D.Model)
    ensures d.Valid() && !d.model.lost && 1 in versioned.committed && 1 in d.model.committed
    ensures Get32(versioned.committed[1], 60) == 7 && Get32(d.model.committed[1], 60) == 0
  {
    hide *;
    d := new D.Database.Create();
    ghost var m := d.model;
    NewCatalog(m);
    NewIs(m);
    var page := SetUserVersion(d, 7);
    versioned := d.model;
    VersionKeepsTable(m, versioned, page, 7, 1, LeafT(1, []), map[1 := NodePage(Leaf([]))], multiset{});
    OneIs();
    VersionIs(m, versioned, page);
    var fate: BTrees.Fate, ok: bool, done: nat;
    ghost var t: Tree, bad: PageId, before: View, after: View, written: set<PageId>;
    fate, ok, done, t, bad, before, after, written :=
      EditTable(d, 1, OneRecord(), LeafT(1, []), map[1 := NodePage(Leaf([]))], multiset{});
    VersionGone(versioned, d.model, t, before, after, written);
  }

  lemma NewIs(m: D.Model)
    requires m == D.Model(map[1 := FirstPage()], 0, 1, [], map[], [], None, false)
    ensures !m.lost && m.writer == None && 1 in m.committed && 7 < U32 && m.version + 1 < TWO_64 && 1 <= m.size
  {
    hide FirstPage;
  }

  lemma VersionIs(m: D.Model, m': D.Model, page: Data)
    requires VersionSet(m, m', page, 7) && m == D.Model(map[1 := FirstPage()], 0, 1, [], map[], [], None, false)
    ensures 1 in m'.committed && Get32(m'.committed[1], 60) == 7 && !m'.lost && m'.writer == None
    ensures m'.size == 1 && m'.version == 1 && 2 < TWO_64
  {
    hide FirstPage, Alike;
  }

  lemma VersionGone(m: D.Model, m': D.Model, t: Tree, before: View, after: View, written: set<PageId>)
    requires Edited(m, m') && EditedApart(m, m', before, after, written, multiset{})
    requires HasTable(m', 1, t, after, multiset{}) && Flat(t) == [KV(1, [7, 8, 9])]
    requires Loads(before, map[1 := NodePage(Leaf([]))], Ids(LeafT(1, [])))
    ensures !m'.lost && 1 in m'.committed && Get32(m'.committed[1], 60) == 0
  {
    hide Held, TreeOk, Ids, HeldPages, ReadHeader, Get32;
    RootChanged(t, after);
  }
}
