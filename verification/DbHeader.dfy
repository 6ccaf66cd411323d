/** The 100-byte database header at the front of page 1 (SQLite Database File Format, section 1.3). */
module DbHeaders {
  import opened Common
  import opened Varint
  import opened Nodes
  import opened PageFormat
  import opened WalFrames

  const HEADER_SIZE: nat := 100

  /** "SQLite format 3" and a NUL. */
  const MAGIC: seq<byte> := [83, 81, 76, 105, 116, 101, 32, 102, 111, 114, 109, 97, 116, 32, 51, 0]

  const SQLITE_VERSION: nat := 3_045_000

  datatype DbHeader = DbHeader(dbSize: u32, changeCounter: u32, schemaCookie: u32, freelistTrunk: u32,
                               freelistCount: u32, userVersion: u32)

  datatype HeaderError = BadMagic | BadPageSize(size: nat)

  datatype HeaderResult = Header(header: DbHeader) | Bad(why: HeaderError)

  /** The header of a new database. */
  function NewHeader(): DbHeader {
    DbHeader(1, 1, 0, 0, 0, 0)
  }

  /** Bytes 0 to 60: magic, page size, format versions, fractions, counters, encoding. */
  function Front(h: DbHeader): (s: seq<byte>)
    ensures |s| == 60
  {
    MAGIC + Be16(PAGE_SIZE) + [1, 1, 0, 64, 32, 32]
    + (Be32(h.changeCounter) + Be32(h.dbSize) + Be32(h.freelistTrunk) + Be32(h.freelistCount) + Be32(h.schemaCookie))
    + (Be32(4) + Be32(0) + Be32(0) + Be32(1))
  }

  /** Bytes 64 to 100, past the user version. */
  function Back(h: DbHeader): (s: seq<byte>)
    ensures |s| == 36
  {
    Be32(0) + Be32(0) + seq(20, _ => 0) + Be32(h.changeCounter) + Be32(SQLITE_VERSION)
  }

  function HeaderBytes(h: DbHeader): (s: seq<byte>)
    ensures |s| == HEADER_SIZE
  {
    Front(h) + Be32(h.userVersion) + Back(h)
  }

  /** Reads the header of page 1; without the magic, or with another page size, the file is refused. */
  function ReadHeader(s: seq<byte>): HeaderResult {
    if |s| < HEADER_SIZE || s[..16] != MAGIC then Bad(BadMagic)
    else
      var raw := Get16(s, 16);
      var size := if raw == 1 then 65_536 else raw;
      if size != PAGE_SIZE then Bad(BadPageSize(size))
      else Header(DbHeader(Get32(s, 28), Get32(s, 24), Get32(s, 40), Get32(s, 32), Get32(s, 36), Get32(s, 60)))
  }

  /** Reading a written header, whatever follows it, gives the header. */
  lemma HeaderRoundTrip(h: DbHeader, rest: seq<byte>)
    ensures ReadHeader(HeaderBytes(h) + rest) == Header(h)
  {
    hide Be32, Be16, Get32, Get16, Back;
    var s := HeaderBytes(h) + rest;
    var f := Front(h);
    assert s[..60] == f;
    assert f[..16] == MAGIC && f[16..18] == Be16(PAGE_SIZE);
    assert f[24..28] == Be32(h.changeCounter) && f[28..32] == Be32(h.dbSize) && f[32..36] == Be32(h.freelistTrunk);
    assert f[36..40] == Be32(h.freelistCount) && f[40..44] == Be32(h.schemaCookie);
    FrontAt(s, f, 16, 18);
    FrontAt(s, f, 24, 28);
    FrontAt(s, f, 28, 32);
    FrontAt(s, f, 32, 36);
    FrontAt(s, f, 36, 40);
    FrontAt(s, f, 40, 44);
    assert s[..16] == MAGIC;
    assert s[60..64] == Be32(h.userVersion);
    Get16Be16(s, 16, PAGE_SIZE);
    Get32Be32(s, 24, h.changeCounter);
    Get32Be32(s, 28, h.dbSize);
    Get32Be32(s, 32, h.freelistTrunk);
    Get32Be32(s, 36, h.freelistCount);
    Get32Be32(s, 40, h.schemaCookie);
    Get32Be32(s, 60, h.userVersion);
  }

  /** A header is read exactly from a page that begins with the magic string and a page size of 4096; where its fields
      are. */
  lemma ReadNumbers(s: seq<byte>)
    ensures ReadHeader(s).Header? <==>
            |s| >= 100 && s[..16] == [83, 81, 76, 105, 116, 101, 32, 102, 111, 114, 109, 97, 116, 32, 51, 0] && Two(s[16], s[17]) == 4096
    ensures ReadHeader(s).Header? ==>
              var h := ReadHeader(s).header;
              && h.changeCounter == Four(s[24], s[25], s[26], s[27]) && h.dbSize == Four(s[28], s[29], s[30], s[31])
              && h.freelistTrunk == Four(s[32], s[33], s[34], s[35]) && h.freelistCount == Four(s[36], s[37], s[38], s[39])
              && h.schemaCookie == Four(s[40], s[41], s[42], s[43]) && h.userVersion == Four(s[60], s[61], s[62], s[63])
    ensures ReadHeader(s) == Bad(BadMagic) <==>
            |s| < 100 || s[..16] != [83, 81, 76, 105, 116, 101, 32, 102, 111, 114, 109, 97, 116, 32, 51, 0]
  {
  }

  /** The rest of a written header: rollback-journal mode, payload fractions, schema format 4, UTF-8, the counter again,
      and the version number that SQLite's own library would leave. */
  lemma WrittenNumbers(h: DbHeader)
    ensures var s := HeaderBytes(h);
            && |s| == 100 && s[18..24] == [1, 1, 0, 64, 32, 32] && Get32(s, 44) == 4 && Get32(s, 56) == 1
            && Get32(s, 92) == h.changeCounter && Get32(s, 96) == 3_045_000
            && Get32(s, 48) == Get32(s, 52) == Get32(s, 64) == Get32(s, 68) == 0 && forall i :: 72 <= i < 92 ==> s[i] == 0
  {
    hide Be32, Be16, Get32;
    var s, f, b := HeaderBytes(h), Front(h), Back(h);
    assert s[..60] == f && s[64..] == b;
    FrontAt(s, f, 18, 24);
    assert f[18..24] == [1, 1, 0, 64, 32, 32];
    assert f[44..48] == Be32(4) && f[48..52] == Be32(0) && f[52..56] == Be32(0) && f[56..60] == Be32(1);
    FrontAt(s, f, 44, 48);
    FrontAt(s, f, 48, 52);
    FrontAt(s, f, 52, 56);
    FrontAt(s, f, 56, 60);
    assert s[64..68] == b[..4] == Be32(0) && s[68..72] == b[4..8] == Be32(0);
    assert s[92..96] == b[28..32] == Be32(h.changeCounter) && s[96..100] == b[32..36] == Be32(SQLITE_VERSION);
    Get32Be32(s, 44, 4);
    Get32Be32(s, 48, 0);
    Get32Be32(s, 52, 0);
    Get32Be32(s, 56, 1);
    Get32Be32(s, 64, 0);
    Get32Be32(s, 68, 0);
    Get32Be32(s, 92, h.changeCounter);
    Get32Be32(s, 96, SQLITE_VERSION);
    forall i | 72 <= i < 92
      ensures s[i] == 0
    {
      assert s[i] == b[i - 64];
    }
  }

  lemma FrontAt(s: seq<byte>, f: seq<byte>, i: nat, j: nat)
    requires i <= j <= |f| <= |s| && s[..|f|] == f
    ensures s[i..j] == f[i..j]
  {
    assert s[..|f|][i..j] == s[i..j];
  }

  // ---- page 1 ----

  /** Opening a file succeeds exactly when its first page begins with a header. */
  predicate HeaderOk(page: seq<byte>) {
    ReadHeader(page).Header?
  }

  /** A page whose front is zeros, as every b-tree node is first written, has no header. */
  lemma ZeroFrontRefused(page: seq<byte>)
    requires |page| == PAGE_SIZE && forall i :: 0 <= i < HEADER_SIZE ==> page[i] == 0
    ensures ReadHeader(page) == Bad(BadMagic)
  {
    assert page[..16][0] == 0 && MAGIC[0] == 83;
  }

  /** Page 1 with its first 100 bytes replaced by a header. */
  function WithHeader(page: Data, h: DbHeader): (r: Data)
    ensures HeaderOk(r)
  {
    HeaderRoundTrip(h, page[HEADER_SIZE..]);
    HeaderBytes(h) + page[HEADER_SIZE..]
  }

  /** Two contents of a page that no reader of the b-tree or of the user version can tell apart: they are
      equal, but on page 1 the rest of the database header may differ. */
  predicate Alike(id: nat, a: Data, b: Data) {
    if id == 1 then a[60..64] == b[60..64] && a[HEADER_SIZE..] == b[HEADER_SIZE..] else a == b
  }

  predicate AlikeRead(id: nat, r: Option<Data>, s: Option<Data>) {
    if r.Some? && s.Some? then Alike(id, r.value, s.value) else r == s
  }

  lemma AlikeSelf(id: nat, r: Option<Data>)
    ensures AlikeRead(id, r, r)
  {
  }

  lemma AlikeTrans(id: nat, r: Option<Data>, s: Option<Data>, t: Option<Data>)
    requires AlikeRead(id, r, s) && AlikeRead(id, s, t)
    ensures AlikeRead(id, r, t)
  {
  }

  lemma AlikeFlip(id: nat, r: Option<Data>, s: Option<Data>)
    requires AlikeRead(id, r, s)
    ensures AlikeRead(id, s, r)
  {
  }

  lemma AlikeElsewhere(id: nat, r: Option<Data>, s: Option<Data>)
    requires AlikeRead(id, r, s) && id != 1
    ensures r == s
  {
  }

  lemma Be32Get32(s: seq<byte>, at: nat)
    requires at + 4 <= |s|
    ensures Be32(Get32(s, at)) == s[at..at + 4]
  {
  }

  /** A header that carries on the user version leaves a page alike. */
  lemma WithHeaderAlike(page: Data, h: DbHeader)
    requires h.userVersion == Get32(page, 60)
    ensures Alike(1, WithHeader(page, h), page)
  {
    hide Front, Back, Be32, Get32;
    var r := WithHeader(page, h);
    Be32Get32(page, 60);
    assert r[60..64] == Be32(h.userVersion);
    assert r[HEADER_SIZE..] == page[HEADER_SIZE..];
  }

  // ---- a new database ----

  /** Page 1 of a new database: the header, and an empty table leaf past it. */
  function FirstPage(): Data {
    HeaderBytes(NewHeader()) + ([TABLE_LEAF, 0, 0, 0, 0] + Be16(PAGE_SIZE) + [0]) + seq(PAGE_SIZE - 108, _ => 0)
  }

  lemma FirstPageHeld()
    ensures HeaderOk(FirstPage()) && PageHeld(FirstPage(), 1, Leaf([]))
    ensures ReadHeader(FirstPage()) == Header(DbHeader(dbSize := 1, changeCounter := 1, schemaCookie := 0, freelistTrunk := 0,
                                                       freelistCount := 0, userVersion := 0))
  {
    hide HeaderBytes, Be16, ReadHeader;
    var front, leaf := HeaderBytes(NewHeader()), [TABLE_LEAF, 0, 0, 0, 0] + Be16(PAGE_SIZE) + [0];
    var rest := leaf + seq(PAGE_SIZE - 108, _ => 0);
    var s := FirstPage();
    assert s == front + rest;
    HeaderRoundTrip(NewHeader(), rest);
    assert s[100..108] == leaf;
    assert s[105..107] == leaf[5..7] == Be16(PAGE_SIZE);
    Get16Be16(s, 105, PAGE_SIZE);
    forall i | 0 <= i < 8
      ensures s[100 + i] == leaf[i]
    {
      assert s[100..108][i] == leaf[i];
    }
  }
}
