/** B-tree pages as bytes (SQLite Database File Format, section 1.6): a header, the cell pointer
    array growing up, and the cells laid end to end against the end of the page. */
module PageFormat {
  import opened Common
  import opened Varint
  import opened Nodes

  const TABLE_LEAF: byte := 0x0d
  const TABLE_INTERIOR: byte := 0x05
  const U16: nat := 0x1_0000
  const U32: nat := 0x1_0000_0000

  // ---- big-endian integers ----

  function Be16(v: nat): (s: seq<byte>)
    requires v < U16
    ensures |s| == 2
  {
    [v / 256, v % 256]
  }

  function Be32(v: nat): (s: seq<byte>)
    requires v < U32
    ensures |s| == 4
  {
    Be16(v / U16) + Be16(v % U16)
  }

  function Get16(s: seq<byte>, at: nat): (v: nat)
    requires at + 2 <= |s|
    ensures v < U16
  {
    (s[at] as int) * 256 + s[at + 1]
  }

  function Get32(s: seq<byte>, at: nat): (v: nat)
    requires at + 4 <= |s|
    ensures v < U32
  {
    Get16(s, at) * U16 + Get16(s, at + 2)
  }

  lemma Get16Be16(s: seq<byte>, at: nat, v: nat)
    requires v < U16 && at + 2 <= |s| && s[at..at + 2] == Be16(v)
    ensures Get16(s, at) == v
  {
    assert s[at] == s[at..at + 2][0] && s[at + 1] == s[at..at + 2][1];
  }

  lemma Get32Be32(s: seq<byte>, at: nat, v: nat)
    requires v < U32 && at + 4 <= |s| && s[at..at + 4] == Be32(v)
    ensures Get32(s, at) == v
  {
    assert s[at..at + 2] == s[at..at + 4][..2] == Be16(v / U16);
    assert s[at + 2..at + 4] == s[at..at + 4][2..] == Be16(v % U16);
    Get16Be16(s, at, v / U16);
    Get16Be16(s, at + 2, v % U16);
  }

  // ---- layout ----

  function Count(n: Node): nat {
    match n
    case Leaf(cs) => |cs|
    case Interior(cs, _) => |cs|
  }

  function HeaderLen(n: Node): nat {
    if n.Leaf? then 8 else 12
  }

  /** The node's page numbers fit the fields of the page. */
  predicate Encodable(n: Node) {
    match n
    case Leaf(cs) => forall i :: 0 <= i < |cs| ==> cs[i].overflow < U32
    case Interior(cs, right) => right < U32 && forall i :: 0 <= i < |cs| ==> cs[i].child < U32
  }

  function LeafBytes(c: LeafCell): (s: seq<byte>)
    requires c.overflow < U32
    ensures |s| == LeafCellLen(c)
  {
    Encode(c.payloadLen) + Encode(Unsigned(c.key)) + c.inline + if c.overflow != 0 then Be32(c.overflow) else []
  }

  function InteriorBytes(c: InteriorCell): (s: seq<byte>)
    requires c.child < U32
    ensures |s| == InteriorCellLen(c)
  {
    Be32(c.child) + Encode(Unsigned(c.key))
  }

  /** The bytes of cell i. */
  function CellBytes(n: Node, i: nat): seq<byte>
    requires Encodable(n) && i < Count(n)
  {
    match n
    case Leaf(cs) => LeafBytes(cs[i])
    case Interior(cs, _) => InteriorBytes(cs[i])
  }

  /** Bytes taken by the first i cells. */
  function SumTo(n: Node, i: nat): nat
    requires i <= Count(n)
  {
    match n
    case Leaf(cs) => LeafSum(cs[..i])
    case Interior(cs, _) => InteriorSum(cs[..i])
  }

  function ArrayAt(page: PageId, n: Node): nat {
    HeaderOffset(page) + HeaderLen(n)
  }

  /** Where cell i begins; where the cells end for i == Count(n). */
  function CellAt(n: Node, i: nat): int
    requires i <= Count(n)
  {
    PAGE_SIZE - SumTo(n, Count(n)) + SumTo(n, i)
  }

  lemma SumStep(n: Node, i: nat)
    requires Encodable(n) && i < Count(n)
    ensures SumTo(n, i + 1) == SumTo(n, i) + |CellBytes(n, i)|
  {
    match n
    case Leaf(cs) => assert cs[..i + 1][..i] == cs[..i];
    case Interior(cs, _) => assert cs[..i + 1][..i] == cs[..i];
  }

  lemma {:induction false} SumGrows(n: Node, i: nat, j: nat)
    requires Encodable(n) && i <= j <= Count(n)
    ensures SumTo(n, i) <= SumTo(n, j)
    decreases j - i
  {
    hide SumTo, CellBytes, Encodable, Count;
    if i < j {
      SumStep(n, i);
      SumGrows(n, i + 1, j);
    }
  }

  /** The cells of a node that fits lie end to end, from beyond the pointer array to the end of the page. */
  lemma CellsTile(page: PageId, n: Node)
    requires Encodable(n) && Fits(page, n)
    ensures CellAt(n, 0) >= ArrayAt(page, n) + 2 * Count(n) && CellAt(n, Count(n)) == PAGE_SIZE
    ensures forall i {:trigger CellBytes(n, i)} :: 0 <= i < Count(n) ==> CellAt(n, i + 1) == CellAt(n, i) + |CellBytes(n, i)|
    ensures forall i {:trigger CellAt(n, i)} :: 0 <= i <= Count(n) ==> CellAt(n, 0) <= CellAt(n, i) <= PAGE_SIZE
  {
    forall i | 0 <= i < Count(n)
      ensures CellAt(n, i + 1) == CellAt(n, i) + |CellBytes(n, i)|
    {
      SumStep(n, i);
    }
    forall i | 0 <= i <= Count(n)
      ensures CellAt(n, 0) <= CellAt(n, i) <= PAGE_SIZE
    {
      SumGrows(n, 0, i);
      SumGrows(n, i, Count(n));
    }
    SumEnds(n);
  }

  lemma SumEnds(n: Node)
    ensures SumTo(n, 0) == 0
    ensures SumTo(n, Count(n)) == match n case Leaf(cs) => LeafSum(cs) case Interior(cs, _) => InteriorSum(cs)
  {
    match n
    case Leaf(cs) => assert cs[..|cs|] == cs && cs[..0] == [];
    case Interior(cs, _) => assert cs[..|cs|] == cs && cs[..0] == [];
  }

  /** Pointer i leads to cell i, and cell i is there. */
  predicate CellHeld(s: seq<byte>, page: PageId, n: Node, i: nat)
    requires |s| == PAGE_SIZE && Encodable(n) && i < Count(n)
  {
    && ArrayAt(page, n) + 2 * i + 2 <= PAGE_SIZE
    && 0 <= CellAt(n, i) && CellAt(n, i) + |CellBytes(n, i)| <= PAGE_SIZE
    && Get16(s, ArrayAt(page, n) + 2 * i) == CellAt(n, i)
    && s[CellAt(n, i)..CellAt(n, i) + |CellBytes(n, i)|] == CellBytes(n, i)
  }

  /** The page header: type, no freeblock, cell count, start of the cells, no fragments, right child. */
  predicate HeaderHeld(s: seq<byte>, page: PageId, n: Node)
    requires |s| == PAGE_SIZE
  {
    && var off := HeaderOffset(page);
    && s[off] == (if n.Leaf? then TABLE_LEAF else TABLE_INTERIOR)
    && Get16(s, off + 1) == 0 && Get16(s, off + 3) == Count(n)
    && Get16(s, off + 5) == CellAt(n, 0) && s[off + 7] == 0
    && (n.Interior? ==> Get32(s, off + 8) == n.rightChild)
  }

  /** Every byte of the page from the header on: header, pointers and cells, and zeros between. */
  predicate PageHeld(s: seq<byte>, page: PageId, n: Node)
    requires Encodable(n)
  {
    && |s| == PAGE_SIZE && HeaderHeld(s, page, n)
    && (forall i :: 0 <= i < Count(n) ==> CellHeld(s, page, n, i))
    && forall j :: ArrayAt(page, n) + 2 * Count(n) <= j < CellAt(n, 0) ==> s[j] == 0
  }

  // ---- parsing ----

  /** Corrupt is the reported error; Panic is an index past the end of the page. */
  datatype Parsed<+T> = Done(value: T) | Corrupt | Panic

  /** The rowid with a given 64-bit pattern. */
  function Signed(v: u64): rowid {
    if v <= MAX_ROWID then v else v - TWO_64
  }

  function DecodeAt(s: seq<byte>, pos: nat): Parsed<(u64, nat)> {
    if pos > |s| then Panic
    else
      DecodeLimits(s[pos..]);
      match Decode(s[pos..])
      case None => Corrupt
      case Some(r) => Done((r.0, pos + r.1))
  }

  function ParseLeafCell(s: seq<byte>, pos: nat): Parsed<LeafCell> {
    match DecodeAt(s, pos)
    case Corrupt => Corrupt
    case Panic => Panic
    case Done((p, pos1)) =>
      match DecodeAt(s, pos1)
      case Corrupt => Corrupt
      case Panic => Panic
      case Done((key, pos2)) =>
        var inlineEnd := pos2 + InlineLen(p);
        if inlineEnd > |s| then Panic
        else if p <= MAX_INLINE then Done(LeafCell(Signed(key), p, 0, s[pos2..inlineEnd]))
        else if inlineEnd + 4 > |s| then Panic
        else Done(LeafCell(Signed(key), p, Get32(s, inlineEnd), s[pos2..inlineEnd]))
  }

  function ParseInteriorCell(s: seq<byte>, pos: nat): Parsed<InteriorCell> {
    if pos + 4 > |s| then Panic
    else
      match DecodeAt(s, pos + 4)
      case Corrupt => Corrupt
      case Panic => Panic
      case Done((key, _)) => Done(InteriorCell(Get32(s, pos), Signed(key)))
  }

  /** The cells found through the first n pointers of the array at arr. */
  function ParseLeafCells(s: seq<byte>, arr: nat, n: nat): Parsed<seq<LeafCell>> {
    if n == 0 then Done([])
    else
      var front := ParseLeafCells(s, arr, n - 1);
      if !front.Done? then front
      else if arr + 2 * n > |s| then Panic
      else
        match ParseLeafCell(s, Get16(s, arr + 2 * (n - 1)))
        case Corrupt => Corrupt
        case Panic => Panic
        case Done(c) => Done(front.value + [c])
  }

  function ParseInteriorCells(s: seq<byte>, arr: nat, n: nat): Parsed<seq<InteriorCell>> {
    if n == 0 then Done([])
    else
      var front := ParseInteriorCells(s, arr, n - 1);
      if !front.Done? then front
      else if arr + 2 * n > |s| then Panic
      else
        match ParseInteriorCell(s, Get16(s, arr + 2 * (n - 1)))
        case Corrupt => Corrupt
        case Panic => Panic
        case Done(c) => Done(front.value + [c])
  }

  /** The node a page's bytes describe. */
  function Parse(page: PageId, s: seq<byte>): Parsed<Node>
    requires |s| == PAGE_SIZE
  {
    var off := HeaderOffset(page);
    var n := Get16(s, off + 3);
    if s[off] == TABLE_LEAF then
      match ParseLeafCells(s, off + 8, n)
      case Corrupt => Corrupt
      case Panic => Panic
      case Done(cs) => Done(Leaf(cs))
    else if s[off] == TABLE_INTERIOR then
      match ParseInteriorCells(s, off + 12, n)
      case Corrupt => Corrupt
      case Panic => Panic
      case Done(cs) => Done(Interior(cs, Get32(s, off + 8)))
    else Corrupt
  }

  /** Page numbers read from a page have 32 bits. */
  lemma {:induction false} LeavesEncodable(s: seq<byte>, arr: nat, n: nat)
    requires ParseLeafCells(s, arr, n).Done?
    ensures Encodable(Leaf(ParseLeafCells(s, arr, n).value))
  {
    hide DecodeAt, InlineLen, Signed, Get16;
    if n > 0 {
      LeavesEncodable(s, arr, n - 1);
    }
  }

  lemma {:induction false} InteriorsEncodable(s: seq<byte>, arr: nat, n: nat)
    requires ParseInteriorCells(s, arr, n).Done?
    ensures Encodable(Interior(ParseInteriorCells(s, arr, n).value, 0))
  {
    hide DecodeAt, Signed, Get16;
    if n > 0 {
      InteriorsEncodable(s, arr, n - 1);
    }
  }

  lemma ParseEncodable(page: PageId, s: seq<byte>)
    requires |s| == PAGE_SIZE && Parse(page, s).Done?
    ensures Encodable(Parse(page, s).value)
  {
    hide ParseLeafCells, ParseInteriorCells, Get16;
    var off, n := HeaderOffset(page), Get16(s, HeaderOffset(page) + 3);
    if s[off] == TABLE_LEAF {
      LeavesEncodable(s, off + 8, n);
    } else {
      InteriorsEncodable(s, off + 12, n);
    }
  }

  // ---- round trip ----

  lemma SignedUnsigned(k: rowid)
    ensures Signed(Unsigned(k)) == k
  {
  }

  lemma DecodeAtEncode(s: seq<byte>, pos: nat, v: u64)
    requires pos + Len(v) <= |s| && s[pos..pos + Len(v)] == Encode(v)
    ensures DecodeAt(s, pos) == Done((v, pos + Len(v)))
  {
    hide Encode, Decode, Len;
    assert s[pos..] == Encode(v) + s[pos + Len(v)..];
    RoundTrip(v, s[pos + Len(v)..]);
  }

  /** A slice of a slice. */
  lemma Inner(s: seq<byte>, at: nat, t: seq<byte>, i: nat, j: nat)
    requires at + |t| <= |s| && s[at..at + |t|] == t && i <= j <= |t|
    ensures s[at + i..at + j] == t[i..j]
  {
    var u := s[at..at + |t|];
    var l, r := s[at + i..at + j], u[i..j];
    assert |l| == |r| && forall k :: 0 <= k < |l| ==> l[k] == r[k];
  }

  lemma LeafPieces(c: LeafCell)
    requires c.overflow < U32
    ensures var a, b := Len(c.payloadLen), Len(Unsigned(c.key));
            var t := LeafBytes(c);
            && |t| == LeafCellLen(c) >= a + b + |c.inline|
            && t[..a] == Encode(c.payloadLen) && t[a..a + b] == Encode(Unsigned(c.key))
            && t[a + b..a + b + |c.inline|] == c.inline
            && (c.overflow != 0 ==> t[a + b + |c.inline|..] == Be32(c.overflow) && |t| == a + b + |c.inline| + 4)
  {
    hide Encode, Len, Be32;
  }

  lemma LeafCellBack(s: seq<byte>, pos: nat, c: LeafCell)
    requires CellOk(c) && c.overflow < U32
    requires pos + LeafCellLen(c) <= |s| && s[pos..pos + LeafCellLen(c)] == LeafBytes(c)
    ensures ParseLeafCell(s, pos) == Done(c)
  {
    hide Encode, Len, Be32, LeafBytes, LeafCellLen, DecodeAt, InlineLen, Signed, Unsigned;
    LeafPieces(c);
    var a, b := Len(c.payloadLen), Len(Unsigned(c.key));
    var t := LeafBytes(c);
    Inner(s, pos, t, 0, a);
    DecodeAtEncode(s, pos, c.payloadLen);
    Inner(s, pos, t, a, a + b);
    DecodeAtEncode(s, pos + a, Unsigned(c.key));
    Inner(s, pos, t, a + b, a + b + |c.inline|);
    SignedUnsigned(c.key);
    if c.overflow != 0 {
      Inner(s, pos, t, a + b + |c.inline|, |t|);
      Get32Be32(s, pos + a + b + |c.inline|, c.overflow);
    }
  }

  lemma InteriorCellBack(s: seq<byte>, pos: nat, c: InteriorCell)
    requires c.child < U32
    requires pos + InteriorCellLen(c) <= |s| && s[pos..pos + InteriorCellLen(c)] == InteriorBytes(c)
    ensures ParseInteriorCell(s, pos) == Done(c)
  {
    hide Encode, Len, Be32, DecodeAt, Signed, Unsigned;
    var t := InteriorBytes(c);
    Inner(s, pos, t, 0, 4);
    Get32Be32(s, pos, c.child);
    Inner(s, pos, t, 4, |t|);
    DecodeAtEncode(s, pos + 4, Unsigned(c.key));
    SignedUnsigned(c.key);
  }

  lemma LeafCellAt(s: seq<byte>, page: PageId, n: Node, i: nat)
    requires n.Leaf? && Encodable(n) && Shaped(n) && PageHeld(s, page, n) && i < |n.cells|
    ensures ArrayAt(page, n) + 2 * i + 2 <= |s|
    ensures ParseLeafCell(s, Get16(s, ArrayAt(page, n) + 2 * i)) == Done(n.cells[i])
  {
    hide ParseLeafCell, LeafBytes, LeafCellLen, CellAt, CellOk, HeaderHeld, ArrayAt, Get16;
    assert CellHeld(s, page, n, i);
    LeafCellBack(s, CellAt(n, i), n.cells[i]);
  }

  lemma InteriorCellAt(s: seq<byte>, page: PageId, n: Node, i: nat)
    requires n.Interior? && Encodable(n) && PageHeld(s, page, n) && i < |n.icells|
    ensures ArrayAt(page, n) + 2 * i + 2 <= |s|
    ensures ParseInteriorCell(s, Get16(s, ArrayAt(page, n) + 2 * i)) == Done(n.icells[i])
  {
    hide ParseInteriorCell, InteriorBytes, InteriorCellLen, CellAt, HeaderHeld, ArrayAt, Get16;
    assert CellHeld(s, page, n, i);
    InteriorCellBack(s, CellAt(n, i), n.icells[i]);
  }

  lemma Front<T>(s: seq<T>, i: nat)
    requires 0 < i <= |s|
    ensures s[..i] == s[..i - 1] + [s[i - 1]]
  {
  }

  lemma {:induction false} LeafCellsBack(s: seq<byte>, page: PageId, n: Node, i: nat)
    requires n.Leaf? && Encodable(n) && Shaped(n) && PageHeld(s, page, n) && i <= |n.cells|
    ensures ParseLeafCells(s, ArrayAt(page, n), i) == Done(n.cells[..i])
  {
    hide ParseLeafCell, PageHeld, ArrayAt, Encodable, Shaped, Get16;
    if i > 0 {
      LeafCellsBack(s, page, n, i - 1);
      LeafCellAt(s, page, n, i - 1);
      Front(n.cells, i);
    }
  }

  lemma {:induction false} InteriorCellsBack(s: seq<byte>, page: PageId, n: Node, i: nat)
    requires n.Interior? && Encodable(n) && PageHeld(s, page, n) && i <= |n.icells|
    ensures ParseInteriorCells(s, ArrayAt(page, n), i) == Done(n.icells[..i])
  {
    hide ParseInteriorCell, PageHeld, ArrayAt, Encodable, Get16;
    if i > 0 {
      InteriorCellsBack(s, page, n, i - 1);
      InteriorCellAt(s, page, n, i - 1);
      Front(n.icells, i);
    }
  }

  /** Parsing a page that holds a node gives the node back, on page 1 as on any other. */
  lemma ParseBack(s: seq<byte>, page: PageId, n: Node)
    requires Encodable(n) && Shaped(n) && PageHeld(s, page, n)
    ensures Parse(page, s) == Done(n)
  {
    hide ParseLeafCells, ParseInteriorCells, CellHeld, CellAt;
    match n
    case Leaf(cs) =>
      LeafCellsBack(s, page, n, |cs|);
      assert cs[..|cs|] == cs;
    case Interior(cs, _) =>
      InteriorCellsBack(s, page, n, |cs|);
      assert cs[..|cs|] == cs;
  }

  // ---- writing ----

  /** Copies bytes into buf from at on. */
  method CopyIn(buf: array<byte>, at: nat, bytes: seq<byte>)
    requires at + |bytes| <= buf.Length
    modifies buf
    ensures buf[at..at + |bytes|] == bytes
    ensures forall j :: 0 <= j < at || at + |bytes| <= j < buf.Length ==> buf[j] == old(buf[j])
  {
    for i := 0 to |bytes|
      invariant buf[at..at + i] == bytes[..i]
      invariant forall j :: 0 <= j < at || at + i <= j < buf.Length ==> buf[j] == old(buf[j])
    {
      buf[at + i] := bytes[i];
    }
  }

  method WriteU16(buf: array<byte>, at: nat, v: nat)
    requires v < U16 && at + 2 <= buf.Length
    modifies buf
    ensures Get16(buf[..], at) == v
    ensures forall j :: 0 <= j < at || at + 2 <= j < buf.Length ==> buf[j] == old(buf[j])
  {
    CopyIn(buf, at, Be16(v));
    assert buf[..][at..at + 2] == buf[at..at + 2];
    Get16Be16(buf[..], at, v);
  }

  method WriteU32(buf: array<byte>, at: nat, v: nat)
    requires v < U32 && at + 4 <= buf.Length
    modifies buf
    ensures Get32(buf[..], at) == v
    ensures forall j :: 0 <= j < at || at + 4 <= j < buf.Length ==> buf[j] == old(buf[j])
  {
    CopyIn(buf, at, Be32(v));
    assert buf[..][at..at + 4] == buf[at..at + 4];
    Get32Be32(buf[..], at, v);
  }

  /** Builds the bytes of cell i field by field. */
  method EncodeCell(n: Node, i: nat) returns (tmp: seq<byte>)
    requires Encodable(n) && i < Count(n)
    ensures tmp == CellBytes(n, i)
  {
    hide Encode, Len, Be32, Unsigned;
    var len;
    match n {
      case Leaf(cs) =>
        var c := cs[i];
        tmp, len := Write([], c.payloadLen);
        tmp, len := Write(tmp, Unsigned(c.key));
        tmp := tmp + c.inline;
        if c.overflow != 0 {
          tmp := tmp + Be32(c.overflow);
        }
      case Interior(cs, _) =>
        tmp, len := Write(Be32(cs[i].child), Unsigned(cs[i].key));
    }
  }

  /** s with t laid over it from at on. */
  function Over(s: seq<byte>, at: nat, t: seq<byte>): (r: seq<byte>)
    requires at + |t| <= |s|
    ensures |r| == |s| && r[at..at + |t|] == t
    ensures forall j :: 0 <= j < at || at + |t| <= j < |s| ==> r[j] == s[j]
  {
    s[..at] + t + s[at + |t|..]
  }

  /** The cells and pointers of a node that is written lie within the page. */
  lemma CellInside(page: PageId, n: Node, i: nat)
    requires Encodable(n) && Writes(page, n) && i < Count(n)
    ensures 0 <= CellAt(n, i) && CellAt(n, i) + |CellBytes(n, i)| == CellAt(n, i + 1) <= PAGE_SIZE
    ensures ArrayAt(page, n) + 2 * i + 2 <= PAGE_SIZE
  {
    SumStep(n, i);
    SumGrows(n, 0, i);
    SumGrows(n, i + 1, Count(n));
    SumEnds(n);
  }

  /** A page with pointer i and cell i written over it. */
  function Laid(s: seq<byte>, page: PageId, n: Node, i: nat): (r: seq<byte>)
    requires |s| == PAGE_SIZE && Encodable(n) && Writes(page, n) && i < Count(n)
    ensures |r| == PAGE_SIZE
  {
    CellInside(page, n, i);
    Over(Over(s, ArrayAt(page, n) + 2 * i, Be16(CellAt(n, i))), CellAt(n, i), CellBytes(n, i))
  }

  /** The page once the first i pointers and cells are written, in turn, over s. */
  function Overlaid(s: seq<byte>, page: PageId, n: Node, i: nat): (r: seq<byte>)
    requires |s| == PAGE_SIZE && Encodable(n) && Writes(page, n) && i <= Count(n)
    ensures |r| == PAGE_SIZE
    decreases i
  {
    if i == 0 then s else Laid(Overlaid(s, page, n, i - 1), page, n, i - 1)
  }

  lemma Starts(page: PageId, n: Node)
    requires Encodable(n) && Writes(page, n)
    ensures 0 <= CellAt(n, 0) <= PAGE_SIZE && Count(n) < U16
    ensures n.Interior? ==> n.rightChild < U32
  {
    SumEnds(n);
  }

  /** A page with the header of a node behind front, and zeros. */
  function Headed(front: seq<byte>, page: PageId, n: Node): (r: seq<byte>)
    requires |front| == HeaderOffset(page) && Encodable(n) && Writes(page, n)
    ensures |r| == PAGE_SIZE
  {
    Starts(page, n);
    front + ([if n.Leaf? then TABLE_LEAF else TABLE_INTERIOR] + Be16(0) + Be16(Count(n)) + Be16(CellAt(n, 0)) + [0]
             + if n.Interior? then Be32(n.rightChild) else [])
    + seq(PAGE_SIZE - ArrayAt(page, n), _ => 0)
  }

  /** The bytes of a page behind front once a node is written to it, whether it fits or not. */
  function Image(front: seq<byte>, page: PageId, n: Node): (r: seq<byte>)
    requires |front| == HeaderOffset(page) && Encodable(n) && Writes(page, n)
    ensures |r| == PAGE_SIZE
  {
    Overlaid(Headed(front, page, n), page, n, Count(n))
  }

  /** Writes pointer i and then cell i, over whatever is there. */
  method PutCell(page: PageId, n: Node, i: nat, buf: array<byte>, ghost s: seq<byte>)
    requires buf.Length == PAGE_SIZE && Encodable(n) && Writes(page, n) && i < Count(n)
    requires |s| == PAGE_SIZE && buf[..] == Overlaid(s, page, n, i)
    modifies buf
    ensures buf[..] == Overlaid(s, page, n, i + 1)
  {
    hide *;
    CellInside(page, n, i);
    OverlaidNext(s, page, n, i);
    ghost var before := buf[..];
    var p := ArrayAt(page, n) + 2 * i;
    CopyIn(buf, p, Be16(CellAt(n, i)));
    ghost var middle := buf[..];
    CopiedIs(before, middle, p, Be16(CellAt(n, i)));
    var tmp := EncodeCell(n, i);
    CopyIn(buf, CellAt(n, i), tmp);
    CopiedIs(middle, buf[..], CellAt(n, i), tmp);
  }

  lemma OverlaidNext(s: seq<byte>, page: PageId, n: Node, i: nat)
    requires |s| == PAGE_SIZE && Encodable(n) && Writes(page, n) && i < Count(n)
    ensures 0 <= CellAt(n, i) < U16 && ArrayAt(page, n) + 2 * i + 2 <= PAGE_SIZE
    ensures CellAt(n, i) + |CellBytes(n, i)| <= PAGE_SIZE
    ensures Overlaid(s, page, n, i + 1) ==
            Over(Over(Overlaid(s, page, n, i), ArrayAt(page, n) + 2 * i, Be16(CellAt(n, i))), CellAt(n, i), CellBytes(n, i))
  {
    hide Over, Be16, CellBytes, CellAt, Encodable, Writes;
    CellInside(page, n, i);
  }

  lemma CopiedIs(s: seq<byte>, s': seq<byte>, at: nat, t: seq<byte>)
    requires at + |t| <= |s| == |s'| && s'[at..at + |t|] == t
    requires forall j :: 0 <= j < at || at + |t| <= j < |s| ==> s'[j] == s[j]
    ensures s' == Over(s, at, t)
  {
    forall j | 0 <= j < |s|
      ensures s'[j] == Over(s, at, t)[j]
    {
      if at <= j < at + |t| {
        assert s'[j] == s'[at..at + |t|][j - at];
        assert Over(s, at, t)[j] == Over(s, at, t)[at..at + |t|][j - at];
      }
    }
  }

  lemma Get16Same(s: seq<byte>, s': seq<byte>, at: nat)
    requires at + 2 <= |s| == |s'| && s[at] == s'[at] && s[at + 1] == s'[at + 1]
    ensures Get16(s, at) == Get16(s', at)
  {
  }

  /** A cell is still held once bytes outside its pointer and its own range have changed. */
  lemma CellSame(s: seq<byte>, s': seq<byte>, page: PageId, n: Node, k: nat)
    requires |s| == |s'| == PAGE_SIZE && Encodable(n) && k < Count(n) && CellHeld(s, page, n, k)
    requires forall j :: CellAt(n, k) <= j < CellAt(n, k) + |CellBytes(n, k)| ==> s'[j] == s[j]
    requires var p := ArrayAt(page, n) + 2 * k; s'[p] == s[p] && s'[p + 1] == s[p + 1]
    ensures CellHeld(s', page, n, k)
  {
    hide CellAt, CellBytes, Encodable, Count, ArrayAt, Get16;
    Get16Same(s, s', ArrayAt(page, n) + 2 * k);
    var a, b := CellAt(n, k), CellAt(n, k) + |CellBytes(n, k)|;
    assert s'[a..b] == s[a..b];
  }

  lemma HeaderSame(s: seq<byte>, s': seq<byte>, page: PageId, n: Node)
    requires |s| == |s'| == PAGE_SIZE && HeaderHeld(s, page, n)
    requires forall j :: HeaderOffset(page) <= j < ArrayAt(page, n) ==> s'[j] == s[j]
    ensures HeaderHeld(s', page, n)
  {
  }

  /** Lays the cells out, each behind its pointer. */
  method LayCells(page: PageId, n: Node, buf: array<byte>)
    requires buf.Length == PAGE_SIZE && Encodable(n) && Writes(page, n)
    modifies buf
    ensures buf[..] == Overlaid(old(buf[..]), page, n, Count(n))
  {
    hide *;
    ghost var s := buf[..];
    OverlaidNone(s, page, n);
    for i := 0 to Count(n)
      invariant buf[..] == Overlaid(s, page, n, i)
    {
      PutCell(page, n, i, buf, s);
    }
  }

  lemma OverlaidNone(s: seq<byte>, page: PageId, n: Node)
    requires |s| == PAGE_SIZE && Encodable(n) && Writes(page, n)
    ensures Overlaid(s, page, n, 0) == s
  {
  }

  /** In a node that fits no write touches what an earlier one wrote. */
  lemma {:induction false} OverlaidHeld(s: seq<byte>, page: PageId, n: Node, i: nat)
    requires |s| == PAGE_SIZE && Encodable(n) && Writes(page, n) && Fits(page, n) && i <= Count(n)
    requires forall j :: ArrayAt(page, n) <= j < PAGE_SIZE ==> s[j] == 0
    ensures forall k :: 0 <= k < i ==> CellHeld(Overlaid(s, page, n, i), page, n, k)
    ensures forall j :: ArrayAt(page, n) + 2 * i <= j < CellAt(n, 0) ==> Overlaid(s, page, n, i)[j] == 0
    ensures forall j :: 0 <= j < ArrayAt(page, n) ==> Overlaid(s, page, n, i)[j] == s[j]
  {
    hide CellAt, CellBytes, Encodable, Fits, Writes, Count, ArrayAt, Get16, CellHeld, Be16, Overlaid;
    CellsTile(page, n);
    if i == 0 {
      OverlaidNone(s, page, n);
    } else {
      OverlaidHeld(s, page, n, i - 1);
      OverlaidStep(s, page, n, i - 1);
      CellsKept(Overlaid(s, page, n, i - 1), Overlaid(s, page, n, i), page, n, i - 1);
    }
  }

  /** One pointer and one cell are written, and nothing else. */
  lemma OverlaidStep(s: seq<byte>, page: PageId, n: Node, i: nat)
    requires |s| == PAGE_SIZE && Encodable(n) && Writes(page, n) && Fits(page, n) && i < Count(n)
    ensures CellHeld(Overlaid(s, page, n, i + 1), page, n, i)
    ensures 0 <= CellAt(n, i) <= CellAt(n, i + 1) <= PAGE_SIZE
    ensures var p := ArrayAt(page, n) + 2 * i;
            forall j {:trigger Overlaid(s, page, n, i + 1)[j]} ::
              0 <= j < PAGE_SIZE && !(p <= j < p + 2) && !(CellAt(n, i) <= j < CellAt(n, i + 1)) ==>
              Overlaid(s, page, n, i + 1)[j] == Overlaid(s, page, n, i)[j]
  {
    hide CellAt, CellBytes, Encodable, Fits, Writes, Count, ArrayAt, Get16, Be16;
    CellsTile(page, n);
    CellInside(page, n, i);
    var p := ArrayAt(page, n) + 2 * i;
    var middle := Over(Overlaid(s, page, n, i), p, Be16(CellAt(n, i)));
    Get16Be16(middle, p, CellAt(n, i));
    Get16Same(middle, Overlaid(s, page, n, i + 1), p);
  }

  /** The image of a node that fits holds it. */
  lemma ImageHeld(front: seq<byte>, page: PageId, n: Node)
    requires |front| == HeaderOffset(page) && Encodable(n) && Writes(page, n) && Fits(page, n)
    ensures PageHeld(Image(front, page, n), page, n)
  {
    hide CellHeld, HeaderHeld, Encodable, Fits, CellAt, Overlaid, Headed;
    var s := Headed(front, page, n);
    HeadedHeld(front, page, n);
    OverlaidHeld(s, page, n, Count(n));
    HeaderSame(s, Image(front, page, n), page, n);
  }

  lemma HeadedHeld(front: seq<byte>, page: PageId, n: Node)
    requires |front| == HeaderOffset(page) && Encodable(n) && Writes(page, n)
    ensures HeaderHeld(Headed(front, page, n), page, n)
    ensures forall j :: ArrayAt(page, n) <= j < PAGE_SIZE ==> Headed(front, page, n)[j] == 0
    ensures Headed(front, page, n)[..HeaderOffset(page)] == front
  {
    hide Encodable, Writes, CellAt, Count, Be16, Be32, Get16, Get32;
    Starts(page, n);
    var s, off := Headed(front, page, n), HeaderOffset(page);
    HeaderPieces(front, if n.Leaf? then TABLE_LEAF else TABLE_INTERIOR, Be16(0), Be16(Count(n)), Be16(CellAt(n, 0)),
                 if n.Interior? then Be32(n.rightChild) else [], seq(PAGE_SIZE - ArrayAt(page, n), _ => 0));
    Get16Be16(s, off + 1, 0);
    Get16Be16(s, off + 3, Count(n));
    Get16Be16(s, off + 5, CellAt(n, 0));
    if n.Interior? {
      Get32Be32(s, off + 8, n.rightChild);
    }
  }

  lemma HeaderPieces(front: seq<byte>, kind: byte, a: seq<byte>, b: seq<byte>, c: seq<byte>, right: seq<byte>, rest: seq<byte>)
    requires |a| == |b| == |c| == 2
    ensures var s, off := front + ([kind] + a + b + c + [0] + right) + rest, |front|;
            && s[..off] == front && s[off] == kind && s[off + 1..off + 3] == a && s[off + 3..off + 5] == b
            && s[off + 5..off + 7] == c && s[off + 7] == 0 && s[off + 8..off + 8 + |right|] == right && s[off + 8 + |right|..] == rest
  {
  }

  lemma CellsKept(s: seq<byte>, s': seq<byte>, page: PageId, n: Node, i: nat)
    requires |s| == |s'| == PAGE_SIZE && Encodable(n) && Fits(page, n) && i < Count(n)
    requires forall k :: 0 <= k < i ==> CellHeld(s, page, n, k)
    requires var p := ArrayAt(page, n) + 2 * i;
             forall j {:trigger s'[j]} :: 0 <= j < PAGE_SIZE && !(p <= j < p + 2) && !(CellAt(n, i) <= j < CellAt(n, i + 1)) ==> s'[j] == s[j]
    ensures forall k :: 0 <= k < i ==> CellHeld(s', page, n, k)
  {
    hide CellAt, CellBytes, Encodable, Fits, Count, ArrayAt, Get16, CellHeld;
    forall k | 0 <= k < i
      ensures CellHeld(s', page, n, k)
    {
      CellsOrder(page, n, k, i);
      CellSame(s, s', page, n, k);
    }
  }

  /** Earlier cells end before later ones begin, and all begin past the pointer array. */
  lemma CellsOrder(page: PageId, n: Node, k: nat, i: nat)
    requires Encodable(n) && Fits(page, n) && k < i < Count(n)
    ensures ArrayAt(page, n) + 2 * Count(n) <= CellAt(n, k)
    ensures CellAt(n, k) + |CellBytes(n, k)| == CellAt(n, k + 1) <= CellAt(n, i) <= CellAt(n, i + 1) <= PAGE_SIZE
  {
    hide CellBytes, Encodable, Fits, SumTo, ArrayAt;
    CellsTile(page, n);
    SumGrows(n, k + 1, i);
    SumGrows(n, i, i + 1);
    var b := CellBytes(n, k);
  }

  /** Writes the page header. */
  method WriteHeader(page: PageId, n: Node, buf: array<byte>)
    requires buf.Length == PAGE_SIZE && Encodable(n) && Writes(page, n)
    modifies buf
    ensures HeaderHeld(buf[..], page, n)
    ensures forall j :: 0 <= j < HeaderOffset(page) || ArrayAt(page, n) <= j < PAGE_SIZE ==> buf[j] == old(buf[j])
  {
    Starts(page, n);
    var off := HeaderOffset(page);
    buf[off] := if n.Leaf? then TABLE_LEAF else TABLE_INTERIOR;
    WriteU16(buf, off + 1, 0);
    WriteU16(buf, off + 3, Count(n));
    WriteU16(buf, off + 5, CellAt(n, 0));
    buf[off + 7] := 0;
    if n.Interior? {
      WriteU32(buf, off + 8, n.rightChild);
    }
  }

  /** A page of header and zeros is the only one. */
  lemma HeadedIs(s: seq<byte>, front: seq<byte>, page: PageId, n: Node)
    requires |s| == PAGE_SIZE && |front| == HeaderOffset(page) && Encodable(n) && Writes(page, n)
    requires HeaderHeld(s, page, n) && s[..HeaderOffset(page)] == front
    requires forall j :: ArrayAt(page, n) <= j < PAGE_SIZE ==> s[j] == 0
    ensures s == Headed(front, page, n)
  {
    hide Encodable, Writes, HeaderHeld, Headed;
    HeadedHeld(front, page, n);
    var s' := Headed(front, page, n);
    forall j | 0 <= j < PAGE_SIZE
      ensures s[j] == s'[j]
    {
      if j < HeaderOffset(page) {
        assert s[j] == s[..HeaderOffset(page)][j] && s'[j] == s'[..HeaderOffset(page)][j];
      } else if j < ArrayAt(page, n) {
        HeaderDetermined(s, s', page, n, j);
      }
    }
  }

  /** Writes a node over a page of any earlier content, leaving only the first 100 bytes of page 1 alone. It
      panics exactly when the cells take more than a page or the pointers run past it; a node that does not
      fit is otherwise written too, its cells over its pointers and header. */
  method SerializeInto(page: PageId, n: Node, buf: array<byte>) returns (ok: bool)
    requires buf.Length == PAGE_SIZE && Encodable(n)
    modifies buf
    ensures ok <==> Writes(page, n)
    ensures ok ==> buf[..] == Image(old(buf[..HeaderOffset(page)]), page, n)
    ensures Fits(page, n) ==> ok && PageHeld(buf[..], page, n) && buf[..HeaderOffset(page)] == old(buf[..HeaderOffset(page)])
  {
    hide CellHeld, HeaderHeld, Encodable, Fits, CellAt, Overlaid, Headed, PageHeld, Writes;
    var off := HeaderOffset(page);
    ghost var front := buf[..off];
    if Fits(page, n) {
      FitsWrites(page, n);
      ImageHeld(front, page, n);
      ImageFront(front, page, n);
    }
    if !Writes(page, n) {
      return false;
    }
    for j := off to PAGE_SIZE
      invariant forall k :: off <= k < j ==> buf[k] == 0
      invariant forall k :: 0 <= k < off ==> buf[k] == old(buf[k])
    {
      buf[j] := 0;
    }
    WriteHeader(page, n, buf);
    assert buf[..off] == front;
    HeadedIs(buf[..], front, page, n);
    LayCells(page, n, buf);
    return true;
  }

  /** A node that fits leaves what is in front of it alone. */
  lemma ImageFront(front: seq<byte>, page: PageId, n: Node)
    requires |front| == HeaderOffset(page) && Encodable(n) && Writes(page, n) && Fits(page, n)
    ensures Image(front, page, n)[..HeaderOffset(page)] == front
  {
    hide HeaderHeld, Encodable, Fits, CellAt, Overlaid, Headed;
    HeadedHeld(front, page, n);
    OverlaidHeld(Headed(front, page, n), page, n, Count(n));
  }

  /** What parsing a page gives after a node was written to it over zeros. */
  function ReadBack(page: PageId, n: Node): Parsed<Node> {
    if Fits(page, n) && Shaped(n) then Done(n)
    else if Encodable(n) && Writes(page, n) then Parse(page, Image(seq(HeaderOffset(page), _ => 0), page, n))
    else Panic
  }

  lemma ReadBackIs(page: PageId, n: Node)
    requires Encodable(n) && Writes(page, n)
    ensures ReadBack(page, n) == Parse(page, Image(seq(HeaderOffset(page), _ => 0), page, n))
  {
    hide Parse, Image, Encodable, Shaped, Writes, Fits, PageHeld;
    if Fits(page, n) && Shaped(n) {
      ImageHeld(seq(HeaderOffset(page), _ => 0), page, n);
      ParseBack(Image(seq(HeaderOffset(page), _ => 0), page, n), page, n);
    }
  }

  /** Reads a page's node, cell by cell through the pointer array. */
  method ParsePage(page: PageId, buf: array<byte>) returns (r: Parsed<Node>)
    requires buf.Length == PAGE_SIZE
    ensures r == Parse(page, buf[..])
  {
    hide ParseLeafCell, ParseInteriorCell, Get16;
    var off := HeaderOffset(page);
    ghost var s := buf[..];
    var count := Get16(buf[..], off + 3);
    if buf[off] == TABLE_LEAF {
      var cells: seq<LeafCell> := [];
      for i := 0 to count
        invariant ParseLeafCells(s, off + 8, i) == Done(cells)
        invariant buf[..] == s
      {
        StopsLeaf(s, off + 8, i + 1, count);
        if off + 8 + 2 * i + 2 > buf.Length { return Panic; }
        var c := ParseLeafCell(buf[..], Get16(buf[..], off + 8 + 2 * i));
        match c {
          case Corrupt => return Corrupt;
          case Panic => return Panic;
          case Done(cell) => cells := cells + [cell];
        }
      }
      return Done(Leaf(cells));
    } else if buf[off] == TABLE_INTERIOR {
      var cells: seq<InteriorCell> := [];
      for i := 0 to count
        invariant ParseInteriorCells(s, off + 12, i) == Done(cells)
        invariant buf[..] == s
      {
        StopsInterior(s, off + 12, i + 1, count);
        if off + 12 + 2 * i + 2 > buf.Length { return Panic; }
        var c := ParseInteriorCell(buf[..], Get16(buf[..], off + 12 + 2 * i));
        match c {
          case Corrupt => return Corrupt;
          case Panic => return Panic;
          case Done(cell) => cells := cells + [cell];
        }
      }
      return Done(Interior(cells, Get32(buf[..], off + 8)));
    } else {
      return Corrupt;
    }
  }

  /** The first cell that does not parse decides the result. */
  lemma {:induction false} StopsLeaf(s: seq<byte>, arr: nat, i: nat, n: nat)
    requires i <= n
    ensures !ParseLeafCells(s, arr, i).Done? ==> ParseLeafCells(s, arr, n) == ParseLeafCells(s, arr, i)
  {
    hide ParseLeafCell, Get16;
    if i < n {
      StopsLeaf(s, arr, i, n - 1);
    }
  }

  lemma {:induction false} StopsInterior(s: seq<byte>, arr: nat, i: nat, n: nat)
    requires i <= n
    ensures !ParseInteriorCells(s, arr, i).Done? ==> ParseInteriorCells(s, arr, n) == ParseInteriorCells(s, arr, i)
  {
    hide ParseInteriorCell, Get16;
    if i < n {
      StopsInterior(s, arr, i, n - 1);
    }
  }

  /** Writing a node that fits into any page, then reading the page, gives the node. */
  method WriteThenRead(page: PageId, n: Node, buf: array<byte>) returns (r: Parsed<Node>)
    requires buf.Length == PAGE_SIZE && Encodable(n) && Shaped(n) && Fits(page, n)
    modifies buf
    ensures r == Done(n)
    ensures buf[..HeaderOffset(page)] == old(buf[..HeaderOffset(page)])
  {
    hide PageHeld, Parse, Encodable, Shaped, Fits, Image;
    var _ := SerializeInto(page, n, buf);
    ParseBack(buf[..], page, n);
    r := ParsePage(page, buf);
  }

  // ---- the bytes in numbers ----

  /** Two bytes read as a number, and four. */
  function Two(a: int, b: int): int {
    256 * a + b
  }

  function Four(a: int, b: int, c: int, d: int): int {
    0x100_0000 * a + 0x1_0000 * b + 0x100 * c + d
  }

  /** Fields of two and four bytes, the most significant first. */
  lemma FieldNumbers(s: seq<byte>, at: nat)
    ensures at + 2 <= |s| ==> Get16(s, at) == Two(s[at], s[at + 1])
    ensures at + 4 <= |s| ==> Get32(s, at) == Four(s[at], s[at + 1], s[at + 2], s[at + 3])
  {
  }

  /** What a page holds in front of its pointers: its type, 13 for a leaf and 5 for an interior node, no freeblock, the
      number of cells, where they begin, no fragments, the right child. */
  lemma HeldNumbers(s: seq<byte>, page: PageId, n: Node)
    requires Encodable(n) && PageHeld(s, page, n)
    ensures |s| == 4096
    ensures var off, k := if page == 1 then 100 else 0, match n case Leaf(cs) => |cs| case Interior(cs, _) => |cs|;
            && s[off] == (if n.Leaf? then 13 else 5) && s[off + 1] == s[off + 2] == s[off + 7] == 0
            && Two(s[off + 3], s[off + 4]) == k && Two(s[off + 5], s[off + 6]) == CellAt(n, 0)
            && (n.Interior? ==>
                  Four(s[off + 8], s[off + 9], s[off + 10], s[off + 11]) == n.rightChild)
  {
    hide CellAt, CellHeld, Encodable, SumTo;
  }

  /** The bytes of the first i cells, one cell after the other. */
  function CellsBytes(n: Node, i: nat): seq<byte>
    requires Encodable(n) && i <= Count(n)
  {
    if i == 0 then [] else CellsBytes(n, i - 1) + CellBytes(n, i - 1)
  }

  lemma {:induction false} CellsBytesSize(n: Node, i: nat)
    requires Encodable(n) && i <= Count(n)
    ensures |CellsBytes(n, i)| == SumTo(n, i)
  {
    hide CellBytes, SumTo;
    SumEnds(n);
    if i > 0 {
      CellsBytesSize(n, i - 1);
      SumStep(n, i - 1);
    }
  }

  /** A node fits its page if the database header, its own header, its pointers and the bytes of its cells come to no
      more than 4096; it is written without a panic if its pointers end, and its cells begin, within the page. */
  lemma FitsNumbers(page: PageId, n: Node)
    requires Encodable(n)
    ensures var k := match n case Leaf(cs) => |cs| case Interior(cs, _) => |cs|;
            var front, cells := (if page == 1 then 100 else 0) + (if n.Leaf? then 8 else 12) + 2 * k, |CellsBytes(n, k)|;
            && (Fits(page, n) <==> front + cells <= 4096) && (Writes(page, n) <==> front <= 4096 && cells <= 4096)
  {
    hide CellsBytes, LeafSum, InteriorSum;
    CellsBytesSize(n, Count(n));
    SumEnds(n);
  }

  /** Where pointer i leads, and the cell there; the cells lie one after the other up to the end of the page. */
  lemma CellNumbers(s: seq<byte>, page: PageId, n: Node, i: nat)
    requires Encodable(n) && PageHeld(s, page, n)
    requires i < match n case Leaf(cs) => |cs| case Interior(cs, _) => |cs|
    ensures var arr := (if page == 1 then 100 else 0) + (if n.Leaf? then 8 else 12);
            arr + 2 * i + 2 <= 4096 && Two(s[arr + 2 * i], s[arr + 2 * i + 1]) == CellAt(n, i)
    ensures 0 <= CellAt(n, i) && CellAt(n, i + 1) == CellAt(n, i) + |CellBytes(n, i)| <= 4096
    ensures s[CellAt(n, i)..CellAt(n, i + 1)] == CellBytes(n, i)
    ensures CellAt(n, match n case Leaf(cs) => |cs| case Interior(cs, _) => |cs|) == 4096
  {
    hide CellAt, CellBytes, Encodable, SumTo, HeaderHeld;
    CellEnds(n);
    CellNext(n, i);
    assert CellHeld(s, page, n, i);
  }

  lemma CellEnds(n: Node)
    ensures CellAt(n, Count(n)) == PAGE_SIZE
  {
    SumEnds(n);
  }

  lemma CellNext(n: Node, i: nat)
    requires Encodable(n) && i < Count(n)
    ensures CellAt(n, i + 1) == CellAt(n, i) + |CellBytes(n, i)|
  {
    hide CellBytes, SumTo;
    SumStep(n, i);
  }

  /** The bytes of a leaf's cell: the length of the record, its rowid as a 64-bit pattern, what is kept inline, and the
      first overflow page if there is one. */
  lemma LeafCellNumbers(c: LeafCell)
    requires c.overflow < U32
    ensures var s, k := LeafBytes(c), if c.key >= 0 then c.key else c.key + 0x1_0000_0000_0000_0000;
            var tail := Len(c.payloadLen) + Len(k) + |c.inline|;
            && s[..Len(c.payloadLen)] == Encode(c.payloadLen)
            && s[Len(c.payloadLen)..Len(c.payloadLen) + Len(k)] == Encode(k)
            && s[Len(c.payloadLen) + Len(k)..tail] == c.inline && |s| == tail + (if c.overflow == 0 then 0 else 4)
            && (c.overflow != 0 ==> Get32(s, tail) == c.overflow)
  {
    hide Encode, Len, Get32, Be32;
    var s := LeafBytes(c);
    FourPieces(Encode(c.payloadLen), Encode(Unsigned(c.key)), c.inline, if c.overflow != 0 then Be32(c.overflow) else []);
    if c.overflow != 0 {
      var tail := Len(c.payloadLen) + Len(Unsigned(c.key)) + |c.inline|;
      assert s[tail..tail + 4] == s[tail..];
      Get32Be32(s, tail, c.overflow);
    }
  }

  lemma FourPieces(a: seq<byte>, b: seq<byte>, c: seq<byte>, d: seq<byte>)
    ensures var s := a + b + c + d;
            && s[..|a|] == a && s[|a|..|a| + |b|] == b && s[|a| + |b|..|a| + |b| + |c|] == c && s[|a| + |b| + |c|..] == d
  {
  }

  /** The bytes of an interior node's cell: the child, then the separator. */
  lemma InteriorCellNumbers(c: InteriorCell)
    requires c.child < U32
    ensures var s, k := InteriorBytes(c), if c.key >= 0 then c.key else c.key + 0x1_0000_0000_0000_0000;
            && |s| == 4 + Len(k) && Get32(s, 0) == c.child && s[4..] == Encode(k)
  {
    hide Encode, Len, Get32, Be32;
    var s := InteriorBytes(c);
    assert s[0..4] == Be32(c.child);
    Get32Be32(s, 0, c.child);
  }

  /** What parses: a leaf from type 13, an interior node from type 5, nothing from any other; as many cells as the
      header says, each found through its pointer, and the right child. */
  lemma ParseNumbers(page: PageId, s: seq<byte>)
    requires |s| == PAGE_SIZE
    ensures var off := if page == 1 then 100 else 0;
            var r, k := Parse(page, s), Two(s[off + 3], s[off + 4]);
            && (s[off] != 13 && s[off] != 5 ==> r == Corrupt)
            && (r.Done? && r.value.Leaf? ==>
                  && s[off] == 13 && |r.value.cells| == k
                  && forall i :: 0 <= i < k ==> off + 8 + 2 * i + 2 <= |s|
                                                && ParseLeafCell(s, Get16(s, off + 8 + 2 * i)) == Done(r.value.cells[i]))
            && (r.Done? && r.value.Interior? ==>
                  && s[off] == 5 && |r.value.icells| == k && r.value.rightChild == Get32(s, off + 8)
                  && forall i :: 0 <= i < k ==> off + 12 + 2 * i + 2 <= |s|
                                                && ParseInteriorCell(s, Get16(s, off + 12 + 2 * i)) == Done(r.value.icells[i]))
  {
    hide ParseLeafCells, ParseInteriorCells, ParseLeafCell, ParseInteriorCell;
    var off := HeaderOffset(page);
    LeavesAt(s, off + 8, Get16(s, off + 3));
    InteriorsAt(s, off + 12, Get16(s, off + 3));
  }

  lemma {:induction false} LeavesAt(s: seq<byte>, arr: nat, n: nat)
    ensures var r := ParseLeafCells(s, arr, n);
            r.Done? ==> |r.value| == n && forall i :: 0 <= i < n ==> arr + 2 * i + 2 <= |s|
                                                                     && ParseLeafCell(s, Get16(s, arr + 2 * i)) == Done(r.value[i])
  {
    hide ParseLeafCell, Get16;
    if n > 0 {
      LeavesAt(s, arr, n - 1);
    }
  }

  lemma {:induction false} InteriorsAt(s: seq<byte>, arr: nat, n: nat)
    ensures var r := ParseInteriorCells(s, arr, n);
            r.Done? ==> |r.value| == n && forall i :: 0 <= i < n ==> arr + 2 * i + 2 <= |s|
                                                                     && ParseInteriorCell(s, Get16(s, arr + 2 * i)) == Done(r.value[i])
  {
    hide ParseInteriorCell, Get16;
    if n > 0 {
      InteriorsAt(s, arr, n - 1);
    }
  }

  // ---- one image per node ----

  /** The cell that covers byte j of the content area. */
  lemma {:induction false} CellCovering(n: Node, j: nat, m: nat) returns (i: nat)
    requires Encodable(n) && m <= Count(n) && CellAt(n, 0) <= j < CellAt(n, m)
    ensures i < m && CellAt(n, i) <= j < CellAt(n, i) + |CellBytes(n, i)|
    decreases m
  {
    hide CellBytes, Encodable, SumTo;
    SumStep(n, m - 1);
    if j < CellAt(n, m - 1) {
      i := CellCovering(n, j, m - 1);
    } else {
      i := m - 1;
    }
  }

  lemma Get16Bytes(s: seq<byte>, s': seq<byte>, at: nat)
    requires at + 2 <= |s| == |s'| && Get16(s, at) == Get16(s', at)
    ensures s[at] == s'[at] && s[at + 1] == s'[at + 1]
  {
  }

  lemma HeaderDetermined(s: seq<byte>, s': seq<byte>, page: PageId, n: Node, j: nat)
    requires |s| == |s'| == PAGE_SIZE && HeaderHeld(s, page, n) && HeaderHeld(s', page, n)
    requires HeaderOffset(page) <= j < ArrayAt(page, n)
    ensures s[j] == s'[j]
  {
    hide CellAt, Count, Get16;
    var off := HeaderOffset(page);
    Get16Bytes(s, s', off + 1);
    Get16Bytes(s, s', off + 3);
    Get16Bytes(s, s', off + 5);
    if n.Interior? {
      Get16Bytes(s, s', off + 8);
      Get16Bytes(s, s', off + 10);
    }
  }

  lemma CellDetermined(s: seq<byte>, s': seq<byte>, page: PageId, n: Node, i: nat, j: nat)
    requires |s| == |s'| == PAGE_SIZE && Encodable(n) && i < Count(n)
    requires CellHeld(s, page, n, i) && CellHeld(s', page, n, i)
    requires j < PAGE_SIZE && CellAt(n, i) <= j < CellAt(n, i) + |CellBytes(n, i)|
    ensures s[j] == s'[j]
  {
    hide CellAt, CellBytes, Encodable, Get16, Count;
    var a, b := CellAt(n, i), CellAt(n, i) + |CellBytes(n, i)|;
    assert s[j] == s[a..b][j - a] && s'[j] == s'[a..b][j - a];
  }

  /** Any two images of a node on the same page that agree before the header agree everywhere. */
  lemma ImageUnique(s: seq<byte>, s': seq<byte>, page: PageId, n: Node)
    requires Encodable(n) && Fits(page, n) && PageHeld(s, page, n) && PageHeld(s', page, n)
    requires s[..HeaderOffset(page)] == s'[..HeaderOffset(page)]
    ensures s == s'
  {
    hide CellAt, CellBytes, Encodable, Get16, HeaderHeld, CellHeld, Count, Fits;
    CellsTile(page, n);
    forall j | 0 <= j < PAGE_SIZE
      ensures s[j] == s'[j]
    {
      if j < HeaderOffset(page) {
        assert s[..HeaderOffset(page)][j] == s'[..HeaderOffset(page)][j];
      } else if j < ArrayAt(page, n) {
        HeaderDetermined(s, s', page, n, j);
      } else if j < ArrayAt(page, n) + 2 * Count(n) {
        PointerDetermined(s, s', page, n, (j - ArrayAt(page, n)) / 2);
      } else if j >= CellAt(n, 0) {
        var i := CellCovering(n, j, Count(n));
        CellDetermined(s, s', page, n, i, j);
      }
    }
  }

  lemma PointerDetermined(s: seq<byte>, s': seq<byte>, page: PageId, n: Node, i: nat)
    requires Encodable(n) && i < Count(n) && PageHeld(s, page, n) && PageHeld(s', page, n)
    ensures var p := ArrayAt(page, n) + 2 * i; p + 2 <= PAGE_SIZE && s[p] == s'[p] && s[p + 1] == s'[p + 1]
  {
    hide CellAt, CellBytes, Encodable, Get16, HeaderHeld, Count;
    assert CellHeld(s, page, n, i) && CellHeld(s', page, n, i);
    Get16Bytes(s, s', ArrayAt(page, n) + 2 * i);
  }
}
