/** Editing a leaf: the effect on its records, its pages and its order. */
module LeafEdits {
  import opened Common
  import opened Varint
  import opened Nodes
  import opened Table
  import opened Trees

  /** The place of key among sorted cells. */
  function CellPos(cs: seq<LeafCell>, key: int): (p: nat)
    ensures p <= |cs| && (p < |cs| ==> key <= cs[p].key)
    ensures forall i :: 0 <= i < p ==> cs[i].key < key
  {
    if cs == [] || key <= cs[0].key then 0 else 1 + CellPos(cs[1..], key)
  }

  predicate HasKey(cs: seq<LeafCell>, key: int) {
    CellPos(cs, key) < |cs| && cs[CellPos(cs, key)].key == key
  }

  /** The cells of a leaf after c is inserted or replaces the cell of the same key. */
  function Upserted(cs: seq<LeafCell>, c: LeafCell): seq<LeafCell> {
    UpsertCells(cs, HasKey(cs, c.key), CellPos(cs, c.key), c)
  }

  /** What the binary search finds is the place of the key. */
  lemma SearchIsPos(cs: seq<LeafCell>, key: int, found: bool, pos: nat)
    requires SortedCells(cs) && pos <= |cs| && (found ==> pos < |cs| && cs[pos].key == key)
    requires forall i :: 0 <= i < pos ==> cs[i].key < key
    requires forall i :: pos <= i < |cs| ==> if found && i == pos then cs[i].key == key else key < cs[i].key
    ensures pos == CellPos(cs, key) && found == HasKey(cs, key)
  {
    var p := CellPos(cs, key);
    var _ := if p < |cs| then cs[p] else LeafCell(0, 0, 0, []);
    var _ := if pos < |cs| then cs[pos] else LeafCell(0, 0, 0, []);
  }

  function UpsertEntries(es: seq<Entry>, found: bool, pos: nat, e: Entry): seq<Entry>
    requires pos <= |es| && (found ==> pos < |es|)
  {
    es[..pos] + [e] + es[if found then pos + 1 else pos..]
  }

  /** The overflow pages the replaced cell leaves behind. */
  function Replaced(es: seq<Entry>, found: bool, pos: nat): seq<PageId>
    requires found ==> pos < |es|
  {
    if found then es[pos].chain else []
  }

  lemma UpsertCellsOf(es: seq<Entry>, found: bool, pos: nat, e: Entry)
    requires pos <= |es| && (found ==> pos < |es|)
    ensures Cells(UpsertEntries(es, found, pos, e)) == UpsertCells(Cells(es), found, pos, e.cell)
  {
  }

  /** The records gain the new one at its place. */
  lemma UpsertRecords(es: seq<Entry>, found: bool, pos: nat, e: Entry)
    requires pos <= |es| && (found ==> pos < |es| && es[pos].cell.key == e.cell.key)
    requires forall i :: 0 <= i < pos ==> es[i].cell.key < e.cell.key
    requires forall i :: (if found then pos + 1 else pos) <= i < |es| ==> e.cell.key < es[i].cell.key
    ensures Records(UpsertEntries(es, found, pos, e)) == Upsert(Records(es), e.cell.key, e.value)
  {
    hide Below, Above;
    Slices(Records(es), e.cell.key, pos, if found then 1 else 0);
  }

  function Without(es: seq<Entry>, pos: nat): seq<Entry>
    requires pos < |es|
  {
    es[..pos] + es[pos + 1..]
  }

  lemma RemoveRecords(es: seq<Entry>, pos: nat)
    requires pos < |es| && SortedCells(Cells(es))
    ensures Records(Without(es, pos)) == Remove(Records(es), es[pos].cell.key)
  {
    hide Below, Above;
    var cs := Cells(es);
    forall i | 0 <= i < |es|
      ensures i < pos ==> es[i].cell.key < es[pos].cell.key
      ensures i > pos ==> es[pos].cell.key < es[i].cell.key
    {
      assert i < pos ==> cs[i].key < cs[pos].key;
      assert i > pos ==> cs[pos].key < cs[i].key;
    }
    Slices(Records(es), es[pos].cell.key, pos, 1);
  }

  lemma {:induction false} LookupLeaf(es: seq<Entry>, key: int, pos: nat, found: bool)
    requires pos <= |es| && (found ==> pos < |es| && es[pos].cell.key == key)
    requires forall i :: 0 <= i < pos ==> es[i].cell.key < key
    requires forall i :: (if found then pos + 1 else pos) <= i < |es| ==> key < es[i].cell.key
    ensures Lookup(Records(es), key) == if found then Some(es[pos].value) else None
  {
    var s := Records(es);
    var n := pos + if found then 1 else 0;
    assert s == s[..pos] + s[pos..n] + s[n..];
    LocalLookup(s[..pos], s[pos..n], s[n..], key);
  }

  /** The chains of the edited leaf, with what was replaced, are the old chains with the new one. */
  lemma UpsertChains(es: seq<Entry>, found: bool, pos: nat, e: Entry)
    requires pos <= |es| && (found ==> pos < |es|)
    ensures ChainIds(UpsertEntries(es, found, pos, e)) + multiset(Replaced(es, found, pos))
         == ChainIds(es) + multiset(e.chain)
  {
    hide ChainIds;
    var es' := UpsertEntries(es, found, pos, e);
    ChainIdsAt(es', pos);
    assert es'[..pos] == es[..pos] && es'[pos + 1..] == es[if found then pos + 1 else pos..];
    if found {
      ChainIdsAt(es, pos);
    } else {
      assert es == es[..pos] + es[pos..];
      ChainIdsConcat(es[..pos], es[pos..]);
    }
  }

  lemma UpsertLeafOk(es: seq<Entry>, lo: int, hi: int, found: bool, pos: nat, e: Entry)
    requires LeafOk(es, lo, hi) && lo < e.cell.key <= hi && CellOk(e.cell)
    requires pos <= |es| && (found ==> pos < |es|)
    requires forall i :: 0 <= i < pos ==> es[i].cell.key < e.cell.key
    requires forall i :: (if found then pos + 1 else pos) <= i < |es| ==> e.cell.key < es[i].cell.key
    ensures LeafOk(UpsertEntries(es, found, pos, e), lo, hi)
  {
    var es', cs := UpsertEntries(es, found, pos, e), Cells(es);
    var d := if found then 0 else 1;
    forall i, j | 0 <= i < j < |es'|
      ensures es'[i].cell.key < es'[j].cell.key
    {
      if i != pos && j != pos {
        assert cs[if i < pos then i else i - d].key < cs[if j < pos then j else j - d].key;
      }
    }
  }

  /** A sorted leaf cut in two: the last key on the left separates the halves. */
  lemma CutLeafOk(es: seq<Entry>, lo: int, hi: int, m: nat)
    requires LeafOk(es, lo, hi) && 0 < m < |es|
    ensures LeafOk(es[..m], lo, es[m - 1].cell.key) && LeafOk(es[m..], es[m - 1].cell.key, hi)
    ensures lo < es[m - 1].cell.key < hi
  {
    var cs := Cells(es);
    forall i, j | 0 <= i < j < |es|
      ensures es[i].cell.key < es[j].cell.key
    {
      assert cs[i].key < cs[j].key;
    }
    assert es[m - 1].cell.key < es[m].cell.key <= hi;
  }

  lemma CutLeafCells(es: seq<Entry>, m: nat)
    requires m <= |es|
    ensures Cells(es[..m]) == Cells(es)[..m] && Cells(es[m..]) == Cells(es)[m..]
    ensures Records(es) == Records(es[..m]) + Records(es[m..])
  {
  }

  lemma CutLeafChains(es: seq<Entry>, m: nat)
    requires m <= |es|
    ensures ChainIds(es) == ChainIds(es[..m]) + ChainIds(es[m..])
  {
    assert es == es[..m] + es[m..];
    ChainIdsConcat(es[..m], es[m..]);
  }

  // ---- the room a leaf has depends on lengths only ----

  lemma {:induction false} SameLengths(a: seq<LeafCell>, b: seq<LeafCell>)
    requires |a| == |b| && forall i :: 0 <= i < |a| ==> LeafCellLen(a[i]) == LeafCellLen(b[i])
    ensures LeafSum(a) == LeafSum(b)
  {
    if a != [] {
      SameLengths(a[..|a| - 1], b[..|b| - 1]);
    }
  }

  lemma {:induction false} SameSplitPoint(a: seq<LeafCell>, b: seq<LeafCell>, n: nat)
    requires |a| == |b| && n <= |a| && forall i :: 0 <= i < |a| ==> LeafCellLen(a[i]) == LeafCellLen(b[i])
    ensures SplitPoint(a, n) == SplitPoint(b, n)
    decreases |a| - n
  {
    SameLengths(a, b);
    SameLengths(a[..n], b[..n]);
    if n < |a| {
      SameSplitPoint(a, b, n + 1);
    }
  }

  lemma SameRoom(page: PageId, a: seq<LeafCell>, b: seq<LeafCell>)
    requires |a| == |b| && forall i :: 0 <= i < |a| ==> LeafCellLen(a[i]) == LeafCellLen(b[i])
    ensures LeafRoom(page, a) == LeafRoom(page, b) && LeafWrites(page, a) == LeafWrites(page, b)
  {
    SameLengths(a, b);
    if |a| >= 2 {
      SameSplitPoint(a, b, 1);
      SameLengths(a[..SplitIndex(a)], b[..SplitIndex(a)]);
    }
  }
}
