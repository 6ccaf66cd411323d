/** B-tree nodes, the page space they take, and how an overfull node is split. */
module Nodes {
  import opened Common
  import opened Varint

  const PAGE_SIZE: nat := 4096

  /** Payload bytes carried by each overflow page. */
  const OVERFLOW_CAP: nat := PAGE_SIZE - 4

  /** The longest record stored without overflow pages. */
  const MAX_INLINE: nat := PAGE_SIZE - 35

  /** The least payload an overflowing record keeps in its leaf. */
  const MIN_INLINE: nat := (PAGE_SIZE - 12) * 32 / 255 - 23

  const MIN_ROWID: int := -0x8000_0000_0000_0000
  const MAX_ROWID: int := 0x7fff_ffff_ffff_ffff

  type rowid = k: int | MIN_ROWID <= k <= MAX_ROWID

  type PageId = nat

  /** payloadLen counts the whole record; overflow is 0 when it is all inline. */
  datatype LeafCell = LeafCell(key: rowid, payloadLen: u64, overflow: PageId, inline: seq<byte>)

  /** A left child and the separator that bounds its keys from above. */
  datatype InteriorCell = InteriorCell(child: PageId, key: rowid)

  datatype Node =
    | Leaf(cells: seq<LeafCell>)
    | Interior(icells: seq<InteriorCell>, rightChild: PageId)

  /** The unsigned 64-bit pattern of a rowid. */
  function Unsigned(k: rowid): u64 {
    if k >= 0 then k else k + TWO_64
  }

  function HeaderOffset(page: PageId): nat {
    if page == 1 then 100 else 0
  }

  // ---- space ----

  function LeafCellLen(c: LeafCell): (n: nat)
    ensures n >= 2
  {
    Len(c.payloadLen) + Len(Unsigned(c.key)) + |c.inline| + if c.overflow != 0 then 4 else 0
  }

  function InteriorCellLen(c: InteriorCell): (n: nat)
    ensures 5 <= n <= 13
  {
    4 + Len(Unsigned(c.key))
  }

  function LeafSum(cs: seq<LeafCell>): nat {
    if cs == [] then 0 else LeafSum(cs[..|cs| - 1]) + LeafCellLen(cs[|cs| - 1])
  }

  function InteriorSum(cs: seq<InteriorCell>): nat {
    if cs == [] then 0 else InteriorSum(cs[..|cs| - 1]) + InteriorCellLen(cs[|cs| - 1])
  }

  /** Bytes of the page the node occupies: header, pointer array and cells. */
  function Used(page: PageId, n: Node): nat {
    HeaderOffset(page) + match n
    case Leaf(cs) => 8 + 2 * |cs| + LeafSum(cs)
    case Interior(cs, _) => 12 + 2 * |cs| + InteriorSum(cs)
  }

  predicate Fits(page: PageId, n: Node) {
    Used(page, n) <= PAGE_SIZE
  }

  /** Writing the node does not panic: its cells take no more than a page, and its pointers lie within it.
      In a node that is written and does not fit, cells lie over the pointers or the header. */
  predicate Writes(page: PageId, n: Node) {
    match n
    case Leaf(cs) => HeaderOffset(page) + 8 + 2 * |cs| <= PAGE_SIZE && LeafSum(cs) <= PAGE_SIZE
    case Interior(cs, _) => HeaderOffset(page) + 12 + 2 * |cs| <= PAGE_SIZE && InteriorSum(cs) <= PAGE_SIZE
  }

  lemma FitsWrites(page: PageId, n: Node)
    requires Fits(page, n)
    ensures Writes(page, n)
  {
  }

  /** Inline payload of a record of p bytes: all of it, else K if K is small enough, else M. */
  function InlineLen(p: nat): nat {
    if p <= MAX_INLINE then p
    else
      var k := MIN_INLINE + (p - MIN_INLINE) % OVERFLOW_CAP;
      if k <= MAX_INLINE then k else MIN_INLINE
  }

  /** The shape of every cell the tree makes: the inline share its length dictates. */
  predicate CellOk(c: LeafCell) {
    && |c.inline| == InlineLen(c.payloadLen)
    && (c.overflow == 0 <==> c.payloadLen <= MAX_INLINE)
  }

  /** Its leaf cells have the shape the tree gives them. */
  predicate Shaped(n: Node) {
    n.Leaf? ==> forall i :: 0 <= i < |n.cells| ==> CellOk(n.cells[i])
  }

  /** An overflowing record keeps between M and X bytes inline and always spills something;
      what it spills fills whole overflow pages unless only M bytes were kept. */
  lemma InlineBounds(p: nat)
    ensures p <= MAX_INLINE ==> InlineLen(p) == p
    ensures p > MAX_INLINE ==> MIN_INLINE <= InlineLen(p) <= MAX_INLINE && InlineLen(p) < p
    ensures p > MAX_INLINE && (p - InlineLen(p)) % OVERFLOW_CAP != 0 ==>
              InlineLen(p) == MIN_INLINE && MIN_INLINE + (p - MIN_INLINE) % OVERFLOW_CAP > MAX_INLINE
  {
    var r := (p - MIN_INLINE) % OVERFLOW_CAP;
    assert (p - MIN_INLINE) - r == OVERFLOW_CAP * ((p - MIN_INLINE) / OVERFLOW_CAP);
    assert p > MAX_INLINE && MIN_INLINE + r <= MAX_INLINE ==> (p - (MIN_INLINE + r)) % OVERFLOW_CAP == 0;
  }

  /** The bounds in numbers, for pages of 4096 bytes. */
  lemma InlineNumbers(p: nat)
    ensures p <= 4061 ==> InlineLen(p) == p
    ensures p > 4061 ==>
              InlineLen(p) == if 489 + (p - 489) % 4092 <= 4061 then 489 + (p - 489) % 4092 else 489
  {
  }

  /** No cell is longer than 4083 bytes, whatever the record. */
  lemma CellLenBound(c: LeafCell)
    requires CellOk(c)
    ensures LeafCellLen(c) <= 4083
  {
    InlineBounds(c.payloadLen);
  }

  // ---- sums ----

  lemma {:induction false} LeafSumConcat(a: seq<LeafCell>, b: seq<LeafCell>)
    ensures LeafSum(a + b) == LeafSum(a) + LeafSum(b)
    decreases |b|
  {
    if b == [] {
      assert a + b == a;
    } else {
      assert (a + b)[..|a + b| - 1] == a + b[..|b| - 1];
      LeafSumConcat(a, b[..|b| - 1]);
    }
  }

  lemma LeafSumSplit(cs: seq<LeafCell>, i: nat)
    requires i <= |cs|
    ensures LeafSum(cs) == LeafSum(cs[..i]) + LeafSum(cs[i..])
  {
    assert cs == cs[..i] + cs[i..];
    LeafSumConcat(cs[..i], cs[i..]);
  }

  lemma LeafSumOne(c: LeafCell)
    ensures LeafSum([c]) == LeafCellLen(c)
  {
    assert [c][..0] == [];
  }

  lemma {:induction false} InteriorSumConcat(a: seq<InteriorCell>, b: seq<InteriorCell>)
    ensures InteriorSum(a + b) == InteriorSum(a) + InteriorSum(b)
    decreases |b|
  {
    if b == [] {
      assert a + b == a;
    } else {
      assert (a + b)[..|a + b| - 1] == a + b[..|b| - 1];
      InteriorSumConcat(a, b[..|b| - 1]);
    }
  }

  lemma InteriorSumSplit(cs: seq<InteriorCell>, i: nat)
    requires i <= |cs|
    ensures InteriorSum(cs) == InteriorSum(cs[..i]) + InteriorSum(cs[i..])
  {
    assert cs == cs[..i] + cs[i..];
    InteriorSumConcat(cs[..i], cs[i..]);
  }

  lemma {:induction false} LeafSumMin(cs: seq<LeafCell>)
    ensures LeafSum(cs) >= 2 * |cs|
  {
    if cs != [] {
      LeafSumMin(cs[..|cs| - 1]);
    }
  }

  lemma {:induction false} InteriorSumBounds(cs: seq<InteriorCell>)
    ensures 5 * |cs| <= InteriorSum(cs) <= 13 * |cs|
  {
    if cs != [] {
      InteriorSumBounds(cs[..|cs| - 1]);
    }
  }

  // ---- leaf search ----

  predicate SortedCells(cs: seq<LeafCell>) {
    forall i, j :: 0 <= i < j < |cs| ==> cs[i].key < cs[j].key
  }

  /** Binary search of a leaf: the position of key, or where it would be inserted. */
  method Search(cs: seq<LeafCell>, key: int) returns (found: bool, pos: nat)
    requires SortedCells(cs)
    ensures pos <= |cs| && (found ==> pos < |cs| && cs[pos].key == key)
    ensures forall i :: 0 <= i < pos ==> cs[i].key < key
    ensures forall i :: pos <= i < |cs| ==> if found && i == pos then cs[i].key == key else key < cs[i].key
  {
    var lo, hi := 0, |cs|;
    while lo < hi
      invariant lo <= hi <= |cs|
      invariant forall i :: 0 <= i < lo ==> cs[i].key < key
      invariant forall i :: hi <= i < |cs| ==> key < cs[i].key
    {
      var mid := (lo + hi) / 2;
      if cs[mid].key == key {
        return true, mid;
      } else if cs[mid].key < key {
        lo := mid + 1;
      } else {
        hi := mid;
      }
    }
    return false, lo;
  }

  // ---- splitting ----

  /** Where a leaf is cut: just past the first cell at which the running size reaches half
      of the total, but always leaving a cell on each side. */
  function SplitPoint(cs: seq<LeafCell>, n: nat): nat
    requires n <= |cs|
    decreases |cs| - n
  {
    if n >= |cs| || 2 * LeafSum(cs[..n]) >= LeafSum(cs) then n else SplitPoint(cs, n + 1)
  }

  function SplitIndex(cs: seq<LeafCell>): (i: nat)
    requires |cs| >= 2
    ensures 1 <= i < |cs|
  {
    var i := SplitPoint(cs, 1);
    if i < 1 then 1 else if i > |cs| - 1 then |cs| - 1 else i
  }

  lemma {:induction false} SplitPointMeaning(cs: seq<LeafCell>, n: nat)
    requires n <= |cs|
    ensures n <= SplitPoint(cs, n) <= |cs|
    ensures SplitPoint(cs, n) < |cs| ==> 2 * LeafSum(cs[..SplitPoint(cs, n)]) >= LeafSum(cs)
    ensures forall j :: n <= j < SplitPoint(cs, n) ==> 2 * LeafSum(cs[..j]) < LeafSum(cs)
    decreases |cs| - n
  {
    if !(n >= |cs| || 2 * LeafSum(cs[..n]) >= LeafSum(cs)) {
      SplitPointMeaning(cs, n + 1);
    }
  }

  /** Cuts a leaf in two; sep is the largest key that stays on the left. */
  method SplitLeaf(cs: seq<LeafCell>) returns (left: seq<LeafCell>, right: seq<LeafCell>, sep: rowid)
    requires |cs| >= 2
    ensures left == cs[..SplitIndex(cs)] && right == cs[SplitIndex(cs)..]
    ensures left + right == cs && left != [] && right != [] && sep == left[|left| - 1].key
  {
    var total := LeafSum(cs);
    var acc, idx, i := 0, 0, 0;
    while i < |cs|
      invariant i <= |cs| && idx == 0 && acc == LeafSum(cs[..i])
      invariant i > 0 ==> SplitPoint(cs, 1) == SplitPoint(cs, i) && 2 * acc < total
      decreases |cs| - i
    {
      assert cs[..i + 1][..i] == cs[..i];
      acc := acc + LeafCellLen(cs[i]);
      if 2 * acc >= total {
        idx := i + 1;
        break;
      }
      i := i + 1;
    }
    assert cs[..|cs|] == cs;
    idx := if idx < 1 then 1 else if idx > |cs| - 1 then |cs| - 1 else idx;
    return cs[..idx], cs[idx..], cs[idx - 1].key;
  }

  /** Cuts an interior node: the middle key moves up, its child closes the left half. */
  function SplitInterior(cs: seq<InteriorCell>, right: PageId): (Node, Node, rowid)
    requires cs != []
  {
    var m := |cs| / 2;
    (Interior(cs[..m], cs[m].child), Interior(cs[m + 1..], right), cs[m].key)
  }

  /** Both halves of an interior node that outgrew its page by one cell fit. */
  lemma InteriorHalvesFit(page: PageId, newPage: PageId, cs: seq<InteriorCell>, right: PageId)
    requires newPage != 1
    requires !Fits(page, Interior(cs, right)) && Used(page, Interior(cs, right)) <= PAGE_SIZE + 15
    ensures cs != []
    ensures Fits(page, SplitInterior(cs, right).0) && Fits(newPage, SplitInterior(cs, right).1)
    ensures SplitInterior(cs, right).0.icells != [] && SplitInterior(cs, right).1.icells != []
  {
    hide InteriorSum;
    InteriorSumBounds(cs);
    var m := |cs| / 2;
    var l, r := cs[..m], cs[m + 1..];
    InteriorSumSplit(cs, m);
    InteriorSumSplit(cs[m..], 1);
    assert cs[m..][1..] == r;
    InteriorSumBounds(l);
    InteriorSumBounds(r);
    InteriorSumBounds(cs[m..][..1]);
  }

  // ---- when a leaf split fits ----

  /** A leaf can hold these cells on page: directly, or after one split. */
  predicate LeafRoom(page: PageId, cs: seq<LeafCell>) {
    || Fits(page, Leaf(cs))
    || (|cs| >= 2 && Fits(page, Leaf(cs[..SplitIndex(cs)])))
  }

  /** Writing these cells as a leaf does not panic: directly, or as two leaves. */
  predicate LeafWrites(page: PageId, cs: seq<LeafCell>) {
    || Fits(page, Leaf(cs))
    || (|cs| >= 2 && Writes(page, Leaf(cs[..SplitIndex(cs)])))
  }

  /** The cells of a leaf after an upsert: pos is replaced, or the new cell goes in before it. */
  function UpsertCells(cs: seq<LeafCell>, found: bool, pos: nat, c: LeafCell): seq<LeafCell>
    requires pos <= |cs| && (found ==> pos < |cs|)
  {
    cs[..pos] + [c] + cs[if found then pos + 1 else pos..]
  }

  lemma SplitIndexMeaning(cs: seq<LeafCell>)
    requires |cs| >= 2
    ensures var i := SplitIndex(cs);
            && (i > 1 ==> 2 * LeafSum(cs[..i - 1]) < LeafSum(cs))
            && (i < |cs| - 1 ==> 2 * LeafSum(cs[..i]) >= LeafSum(cs))
            && (2 * LeafSum(cs[..i]) >= LeafSum(cs) || i == |cs| - 1)
  {
    SplitPointMeaning(cs, 1);
  }

  /** Sizes before and after an upsert. */
  lemma UpsertSum(cs: seq<LeafCell>, found: bool, pos: nat, c: LeafCell)
    requires pos <= |cs| && (found ==> pos < |cs|)
    ensures LeafSum(UpsertCells(cs, found, pos, c))
         == LeafSum(cs[..pos]) + LeafCellLen(c) + LeafSum(cs[if found then pos + 1 else pos..])
    ensures LeafSum(cs[..pos]) + LeafSum(cs[if found then pos + 1 else pos..]) <= LeafSum(cs)
  {
    hide LeafSum, LeafCellLen;
    var tail := cs[if found then pos + 1 else pos..];
    LeafSumConcat(cs[..pos] + [c], tail);
    LeafSumConcat(cs[..pos], [c]);
    LeafSumOne(c);
    LeafSumSplit(cs, pos);
    if found {
      LeafSumSplit(cs[pos..], 1);
      assert cs[pos..][1..] == tail;
    }
  }

  /** The cut falls to the right of the new cell: the right half is old cells only. */
  lemma OldTailFits(page: PageId, newPage: PageId, cs: seq<LeafCell>, k: nat)
    requires newPage != 1 && Fits(page, Leaf(cs)) && k <= |cs|
    ensures Fits(newPage, Leaf(cs[k..]))
  {
    LeafSumSplit(cs, k);
  }

  /** The right half of a split always fits on a page other than page 1, when a leaf that fitted
      took one new cell of any size. */
  lemma RightHalfFits(page: PageId, newPage: PageId, cs: seq<LeafCell>, found: bool, pos: nat, c: LeafCell)
    requires newPage != 1 && Fits(page, Leaf(cs)) && pos <= |cs| && (found ==> pos < |cs|)
    requires CellOk(c) && forall i :: 0 <= i < |cs| ==> CellOk(cs[i])
    requires |UpsertCells(cs, found, pos, c)| >= 2
    ensures var cs' := UpsertCells(cs, found, pos, c); Fits(newPage, Leaf(cs'[SplitIndex(cs')..]))
  {
    hide LeafSum, LeafCellLen, SplitPoint;
    var cs' := UpsertCells(cs, found, pos, c);
    var i := SplitIndex(cs');
    if i == |cs'| - 1 {
      CellLenBound(cs'[i]);
      assert cs'[i..] == [cs'[i]];
      LeafSumOne(cs'[i]);
    } else if pos < i {
      var k := (if found then pos + 1 else pos) + (i - pos - 1);
      assert cs'[i..] == cs[k..];
      OldTailFits(page, newPage, cs, k);
    } else {
      NewRightFits(page, newPage, cs, found, pos, c);
    }
  }

  /** The cut falls to the left of the new cell: the left half, all old, outweighs the right. */
  lemma NewRightFits(page: PageId, newPage: PageId, cs: seq<LeafCell>, found: bool, pos: nat, c: LeafCell)
    requires newPage != 1 && Fits(page, Leaf(cs)) && pos <= |cs| && (found ==> pos < |cs|)
    requires |UpsertCells(cs, found, pos, c)| >= 2
    requires SplitIndex(UpsertCells(cs, found, pos, c)) <= pos
    requires SplitIndex(UpsertCells(cs, found, pos, c)) < |UpsertCells(cs, found, pos, c)| - 1
    ensures var cs' := UpsertCells(cs, found, pos, c); Fits(newPage, Leaf(cs'[SplitIndex(cs')..]))
  {
    hide LeafSum, LeafCellLen, SplitPoint;
    var cs' := UpsertCells(cs, found, pos, c);
    var i := SplitIndex(cs');
    SplitIndexMeaning(cs');
    LeafSumSplit(cs', i);
    assert cs'[..i] == cs[..i];
    LeafSumSplit(cs, i);
    UpsertSum(cs, found, pos, c);
    LeafSumSplit(cs[..pos], i);
    assert cs[..pos][..i] == cs[..i];
  }

  /** Cells no longer than this always leave a leaf splittable, on any page. */
  const SMALL_CELL: nat := 795

  lemma SmallCellsRoom(page: PageId, cs: seq<LeafCell>, found: bool, pos: nat, c: LeafCell)
    requires Fits(page, Leaf(cs)) && pos <= |cs| && (found ==> pos < |cs|)
    requires forall i :: 0 <= i < |UpsertCells(cs, found, pos, c)| ==>
               LeafCellLen(UpsertCells(cs, found, pos, c)[i]) <= SMALL_CELL
    ensures LeafRoom(page, UpsertCells(cs, found, pos, c))
  {
    hide LeafSum, LeafCellLen, SplitPoint;
    var cs' := UpsertCells(cs, found, pos, c);
    UpsertSum(cs, found, pos, c);
    assert cs'[pos] == c;
    if |cs'| == 1 {
      LeafSumMin(cs);
      assert cs' == [c];
      LeafSumOne(c);
    } else if !Fits(page, Leaf(cs')) {
      SmallLeft(cs');
      var i := SplitIndex(cs');
      SmallSplit(LeafSum(cs'), |cs'|, LeafSum(cs'[..i - 1]), i, LeafSum(cs'[..i]), HeaderOffset(page));
    }
  }

  /** The left half exceeds half of the total by at most its last cell. */
  lemma SmallLeft(cs: seq<LeafCell>)
    requires |cs| >= 2 && forall i :: 0 <= i < |cs| ==> LeafCellLen(cs[i]) <= SMALL_CELL
    ensures SplitIndex(cs) > 1 ==> 2 * LeafSum(cs[..SplitIndex(cs) - 1]) < LeafSum(cs)
    ensures SplitIndex(cs) == 1 ==> LeafSum(cs[..SplitIndex(cs) - 1]) == 0
    ensures 2 * (SplitIndex(cs) - 1) <= LeafSum(cs[..SplitIndex(cs) - 1])
    ensures LeafSum(cs[..SplitIndex(cs)]) <= LeafSum(cs[..SplitIndex(cs) - 1]) + SMALL_CELL
  {
    hide LeafCellLen, SplitPoint;
    var i := SplitIndex(cs);
    SplitIndexMeaning(cs);
    LeafSumMin(cs[..i - 1]);
    assert cs[..i][..i - 1] == cs[..i - 1];
  }

  lemma SmallSplit(total: nat, n: nat, before: nat, i: nat, left: nat, off: nat)
    requires off <= 100 && 1 <= i < n && before >= 2 * (i - 1)
    requires i > 1 ==> 2 * before < total
    requires left <= before + SMALL_CELL && (i == 1 ==> before == 0)
    requires off + 8 + 2 * n + total <= PAGE_SIZE + SMALL_CELL + 2
    ensures off + 8 + 2 * i + left <= PAGE_SIZE
  {
  }

  /** Without the bound the left half can outgrow the page: a 4000-byte record between two of
      2000 bytes leaves the first two together. */
  lemma BigCellNoRoom()
    ensures var c2 := key => LeafCell(key, 2000, 0, seq(2000, _ => 0));
            var cs := [c2(1), c2(3)];
            && Fits(2, Leaf(cs))
            && !LeafRoom(2, UpsertCells(cs, false, 1, LeafCell(2, 4000, 0, seq(4000, _ => 0))))
  {
    var a, b := LeafCell(1, 2000, 0, seq(2000, _ => 0)), LeafCell(3, 2000, 0, seq(2000, _ => 0));
    var c := LeafCell(2, 4000, 0, seq(4000, _ => 0));
    var cs' := UpsertCells([a, b], false, 1, c);
    assert cs' == [a, c, b];
    LeafSumOne(a);
    LeafSumConcat([a], [b]);
    LeafSumConcat([a], [c]);
    LeafSumConcat([a, c], [b]);
    LeafSumOne(b);
    LeafSumOne(c);
    assert [a] + [b] == [a, b] && [a] + [c] == [a, c] && [a, c] + [b] == [a, c, b];
    assert cs'[..1] == [a] && cs'[..2] == [a, c];
    assert SplitPoint(cs', 1) == SplitPoint(cs', 2) == 2;
  }

  /** On page 1 a single record can already be too long: the leaf cannot even be cut. */
  lemma PageOneNoRoom()
    ensures !LeafRoom(1, UpsertCells([], false, 0, LeafCell(1, 4000, 0, seq(4000, _ => 0))))
    ensures Fits(1, Leaf([]))
  {
    var c := LeafCell(1, 4000, 0, seq(4000, _ => 0));
    assert UpsertCells([], false, 0, c) == [c];
    LeafSumOne(c);
  }
}
