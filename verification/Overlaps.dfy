/** A leaf that is written though it does not fit, and what is read back. */
module Overlaps {
  import opened Common
  import opened Varint
  import opened Nodes
  import opened PageFormat

  /** A record of 98 bytes and one of 3983: the left half of a leaf of three. */
  function Pair(r1: seq<byte>, r2: seq<byte>): Node
    requires |r1| == 98 && |r2| == 3983
  {
    Leaf([LeafCell(1, 98, 0, r1), LeafCell(2, 3983, 0, r2)])
  }

  /** The bytes of its second pointer lie where its first cell begins. */
  lemma PairLayout(page: PageId, r1: seq<byte>, r2: seq<byte>)
    requires page != 1 && |r1| == 98 && |r2| == 3983
    ensures var n := Pair(r1, r2);
            && Encodable(n) && Writes(page, n) && !Fits(page, n) && Count(n) == 2 && ArrayAt(page, n) == 8
            && CellAt(n, 0) == 10 && CellAt(n, 1) == 110 && |CellBytes(n, 0)| == 100 && |CellBytes(n, 1)| == 3986
  {
    var a, b := LeafCell(1, 98, 0, r1), LeafCell(2, 3983, 0, r2);
    LeafSumOne(a);
    LeafSumOne(b);
    LeafSumConcat([a], [b]);
    assert [a] + [b] == [a, b] && [a, b][..1] == [a] && [a, b][..0] == [] && [a, b][..2] == [a, b];
  }

  /** What the page holds: both pointers, over the first cell's beginning, and the second cell. */
  lemma PairBytes(page: PageId, r1: seq<byte>, r2: seq<byte>)
    requires page != 1 && |r1| == 98 && |r2| == 3983
    requires var n := Pair(r1, r2); Encodable(n) && Writes(page, n)
    ensures var n := Pair(r1, r2);
            var s := Image([], page, n);
            && s[0] == TABLE_LEAF && Get16(s, 3) == 2 && Get16(s, 8) == 10 && Get16(s, 10) == 110
            && s[10] == 0 && s[11] == 110 && s[110..4096] == CellBytes(n, 1)
  {
    hide Encodable, Writes, CellBytes, CellAt, Headed, Overlaid, Be16, Get16, Pair;
    var n := Pair(r1, r2);
    PairLayout(page, r1, r2);
    var h := Headed([], page, n);
    HeadedHeld([], page, n);
    OverlaidNone(h, page, n);
    OverlaidNext(h, page, n, 0);
    OverlaidNext(h, page, n, 1);
    var s := Overlaid(h, page, n, 2);
    var s1 := Over(h, 8, Be16(10));
    var s2 := Over(s1, 10, CellBytes(n, 0));
    var s3 := Over(s2, 10, Be16(110));
    assert s == Over(s3, 110, CellBytes(n, 1));
    Get16Be16(s1, 8, 10);
    Get16Same(s1, s, 8);
    Get16Be16(s3, 10, 110);
    Get16Same(s3, s, 10);
    Get16Same(h, s, 3);
    HighLow(s, 10, 110);
  }

  lemma HighLow(s: seq<byte>, at: nat, v: nat)
    requires at + 2 <= |s| && v < 256 && Get16(s, at) == v
    ensures s[at] == 0 && s[at + 1] == v
  {
  }

  lemma SmallVarint(v: u64)
    requires v < 128
    ensures Encode(v) == [v] && Len(v) == 1
  {
  }

  /** Written and read back, the first record is gone without an error: under its place in the page there is
      an empty one with key 110. */
  lemma PairReadBack(page: PageId, r1: seq<byte>, r2: seq<byte>)
    requires page != 1 && |r1| == 98 && |r2| == 3983
    ensures Writes(page, Pair(r1, r2)) && !Fits(page, Pair(r1, r2))
    ensures ReadBack(page, Pair(r1, r2)) == Done(Leaf([LeafCell(110, 0, 0, []), LeafCell(2, 3983, 0, r2)]))
  {
    hide Encodable, Writes, CellBytes, CellAt, Image, Get16, Fits, Encode, Decode, Len, DecodeAt;
    var n := Pair(r1, r2);
    PairLayout(page, r1, r2);
    PairBytes(page, r1, r2);
    ReadBackIs(page, n);
    assert seq(HeaderOffset(page), _ => 0) == [];
    var s := Image([], page, n);
    SmallVarint(0);
    SmallVarint(110);
    assert s[10..11] == [0] && s[11..12] == [110];
    DecodeAtEncode(s, 10, 0);
    DecodeAtEncode(s, 11, 110);
    assert s[12..12] == [];
    assert ParseLeafCell(s, 10) == Done(LeafCell(110, 0, 0, []));
    SecondBack(s, page, r1, r2);
    TwoParsed(page, s, LeafCell(110, 0, 0, []), LeafCell(2, 3983, 0, r2));
  }

  lemma NextParsed(s: seq<byte>, arr: nat, n: nat, c: LeafCell)
    requires arr + 2 * n + 2 <= |s| && ParseLeafCell(s, Get16(s, arr + 2 * n)) == Done(c)
    ensures var front := ParseLeafCells(s, arr, n);
            front.Done? ==> ParseLeafCells(s, arr, n + 1) == Done(front.value + [c])
    ensures ParseLeafCells(s, arr, 0) == Done([])
  {
    hide ParseLeafCell, Get16;
  }

  lemma TwoParsed(page: PageId, s: seq<byte>, a: LeafCell, b: LeafCell)
    requires |s| == PAGE_SIZE && page != 1 && s[0] == TABLE_LEAF && Get16(s, 3) == 2
    requires ParseLeafCell(s, Get16(s, 8)) == Done(a) && ParseLeafCell(s, Get16(s, 10)) == Done(b)
    ensures Parse(page, s) == Done(Leaf([a, b]))
  {
    hide ParseLeafCell, Get16, ParseLeafCells;
    NextParsed(s, 8, 0, a);
    NextParsed(s, 8, 1, b);
    assert [] + [a] + [b] == [a, b];
  }

  lemma SecondBack(s: seq<byte>, page: PageId, r1: seq<byte>, r2: seq<byte>)
    requires |s| == PAGE_SIZE && |r1| == 98 && |r2| == 3983 && Encodable(Pair(r1, r2))
    requires s[110..4096] == CellBytes(Pair(r1, r2), 1)
    ensures ParseLeafCell(s, 110) == Done(LeafCell(2, 3983, 0, r2))
  {
    hide LeafBytes;
    LeafCellBack(s, 110, LeafCell(2, 3983, 0, r2));
  }
}
