/** LIKE and GLOB: the recursive matchers accept exactly the texts that split into one piece per
    pattern item. */
module Patterns {

  import opened Common

  /** A range of characters; a single character is a range of one. */
  datatype Range = Range(lo: char, hi: char)

  datatype Item =
    | AnyRun
    | AnyOne
    | Exactly(c: char)
    | OneOf(negated: bool, ranges: seq<Range>)

  predicate InRanges(ranges: seq<Range>, ch: char) {
    exists i :: 0 <= i < |ranges| && ranges[i].lo <= ch <= ranges[i].hi
  }

  /** Whether a piece of text is one the item stands for. */
  predicate Fits(item: Item, piece: string) {
    match item
    case AnyRun => true
    case AnyOne => |piece| == 1
    case Exactly(c) => piece == [c]
    case OneOf(negated, ranges) => |piece| == 1 && InRanges(ranges, piece[0]) != negated
  }

  function Concat(pieces: seq<string>): string {
    if pieces == [] then [] else pieces[0] + Concat(pieces[1..])
  }

  ghost predicate Splits(items: seq<Item>, t: string, pieces: seq<string>) {
    |pieces| == |items| && Concat(pieces) == t && forall i :: 0 <= i < |items| ==> Fits(items[i], pieces[i])
  }

  /** The language of a list of items. */
  ghost predicate Accepts(items: seq<Item>, t: string) {
    exists pieces :: Splits(items, t, pieces)
  }

  // ---- the language, one item at a time ----

  lemma SplitsCons(item: Item, items: seq<Item>, piece: string, t: string, pieces: seq<string>)
    requires Fits(item, piece) && Splits(items, t, pieces)
    ensures Splits([item] + items, piece + t, [piece] + pieces)
  {
    assert ([piece] + pieces)[1..] == pieces;
  }

  lemma AcceptsCons(item: Item, items: seq<Item>, piece: string, t: string)
    requires Fits(item, piece) && Accepts(items, t)
    ensures Accepts([item] + items, piece + t)
  {
    hide Splits;
    var pieces :| Splits(items, t, pieces);
    SplitsCons(item, items, piece, t, pieces);
  }

  lemma AcceptsHead(items: seq<Item>, t: string) returns (n: nat)
    requires items != [] && Accepts(items, t)
    ensures n <= |t| && Fits(items[0], t[..n]) && Accepts(items[1..], t[n..])
  {
    hide Fits;
    var pieces :| Splits(items, t, pieces);
    n := |pieces[0]|;
    assert t[..n] == pieces[0] && t[n..] == Concat(pieces[1..]);
    assert Splits(items[1..], t[n..], pieces[1..]) by {
      assert forall i :: 0 <= i < |items[1..]| ==> items[1..][i] == items[i + 1] && pieces[1..][i] == pieces[i + 1];
    }
  }

  lemma AcceptsNone(t: string)
    ensures Accepts([], t) <==> t == []
  {
    if t == [] {
      assert Splits([], t, []);
    }
  }

  /** An item for one character takes one. */
  lemma AcceptsOne(items: seq<Item>, t: string)
    requires items != [] && items[0] != AnyRun
    ensures Accepts(items, t) <==> t != [] && Fits(items[0], t[..1]) && Accepts(items[1..], t[1..])
  {
    if Accepts(items, t) {
      var n := AcceptsHead(items, t);
      assert |t[..n]| == 1;
    }
    if t != [] && Fits(items[0], t[..1]) && Accepts(items[1..], t[1..]) {
      AcceptsCons(items[0], items[1..], t[..1], t[1..]);
      assert [items[0]] + items[1..] == items && t[..1] + t[1..] == t;
    }
  }

  /** A run takes nothing, or a character and the rest of a run. */
  lemma AcceptsRun(items: seq<Item>, t: string)
    requires items != [] && items[0] == AnyRun
    ensures Accepts(items, t) <==> Accepts(items[1..], t) || (t != [] && Accepts(items, t[1..]))
  {
    assert [items[0]] + items[1..] == items;
    if Accepts(items, t) {
      var n := AcceptsHead(items, t);
      if n == 0 {
        assert t[0..] == t;
      } else {
        AcceptsCons(AnyRun, items[1..], t[1..n], t[n..]);
        assert t[1..n] + t[n..] == t[1..];
      }
    }
    if Accepts(items[1..], t) {
      AcceptsCons(AnyRun, items[1..], [], t);
      assert [] + t == t;
    }
    if t != [] && Accepts(items, t[1..]) {
      var n := AcceptsHead(items, t[1..]);
      AcceptsCons(AnyRun, items[1..], t[..n + 1], t[n + 1..]);
      assert t[1..][n..] == t[n + 1..] && t[..n + 1] + t[n + 1..] == t;
    }
  }

  // ---- LIKE ----

  /** Matching of lower-cased texts; % is any run and _ any one character. */
  function LikeRec(p: string, t: string): bool
    decreases |p| + |t|
  {
    if p == [] then t == []
    else if p[0] == '%' then LikeRec(p[1..], t) || (t != [] && LikeRec(p, t[1..]))
    else if p[0] == '_' then t != [] && LikeRec(p[1..], t[1..])
    else t != [] && t[0] == p[0] && LikeRec(p[1..], t[1..])
  }

  function LikeItem(c: char): Item {
    if c == '%' then AnyRun else if c == '_' then AnyOne else Exactly(c)
  }

  function LikeItems(p: string): (items: seq<Item>)
    ensures |items| == |p| && forall i :: 0 <= i < |p| ==> items[i] == LikeItem(p[i])
  {
    seq(|p|, i requires 0 <= i < |p| => LikeItem(p[i]))
  }

  /** LIKE accepts exactly the texts its pattern stands for. */
  lemma {:induction false} LikeExact(p: string, t: string)
    ensures LikeRec(p, t) <==> Accepts(LikeItems(p), t)
    decreases |p| + |t|
  {
    hide Accepts;
    var items := LikeItems(p);
    if p == [] {
      AcceptsNone(t);
    } else {
      assert items[1..] == LikeItems(p[1..]);
      if p[0] == '%' {
        AcceptsRun(items, t);
        LikeExact(p[1..], t);
        if t != [] { LikeExact(p, t[1..]); }
      } else {
        AcceptsOne(items, t);
        if t != [] { LikeExact(p[1..], t[1..]); }
      }
    }
  }

  // ---- GLOB ----

  /** The ranges of a class from position i on, and the position past its closing bracket. A bracket
      at start is a member; a hyphen before the closing bracket is one too. */
  function ClassRanges(p: string, i: nat, start: nat): Option<(seq<Range>, nat)>
    requires i <= |p|
    decreases |p| - i
  {
    if i >= |p| then None
    else if p[i] == ']' && i > start then Some(([], i + 1))
    else if i + 2 < |p| && p[i + 1] == '-' && p[i + 2] != ']' then
      match ClassRanges(p, i + 3, start)
      case None => None
      case Some((rs, off)) => Some(([Range(p[i], p[i + 2])] + rs, off))
    else
      match ClassRanges(p, i + 1, start)
      case None => None
      case Some((rs, off)) => Some(([Range(p[i], p[i])] + rs, off))
  }

  lemma {:induction false} ClassEnds(p: string, i: nat, start: nat)
    requires i <= |p| && ClassRanges(p, i, start).Some?
    ensures i < ClassRanges(p, i, start).value.1 <= |p|
    decreases |p| - i
  {
    if p[i] == ']' && i > start {
    } else if i + 2 < |p| && p[i + 1] == '-' && p[i + 2] != ']' {
      ClassEnds(p, i + 3, start);
    } else {
      ClassEnds(p, i + 1, start);
    }
  }

  function ClassStart(p: string): nat {
    if p != [] && p[0] == '^' then 1 else 0
  }

  /** The class that begins p, just past its opening bracket. */
  function ClassItem(p: string): (r: Option<(Item, nat)>)
    ensures r.Some? ==> 0 < r.value.1 <= |p|
  {
    var start := ClassStart(p);
    match ClassRanges(p, start, start)
    case None => None
    case Some((rs, off)) =>
      ClassEnds(p, start, start);
      Some((OneOf(start == 1, rs), off))
  }

  lemma RangesCons(r: Range, rs: seq<Range>, ch: char)
    ensures InRanges([r] + rs, ch) <==> r.lo <= ch <= r.hi || InRanges(rs, ch)
  {
    assert ([r] + rs)[0] == r;
    if InRanges(rs, ch) {
      var i :| 0 <= i < |rs| && rs[i].lo <= ch <= rs[i].hi;
      assert ([r] + rs)[i + 1] == rs[i];
    }
  }

  lemma RangesStep(p: string, i: nat, start: nat, ch: char)
    requires i < |p| && !(p[i] == ']' && i > start)
    ensures var range := i + 2 < |p| && p[i + 1] == '-' && p[i + 2] != ']';
            var next := if range then i + 3 else i + 1;
            var here := if range then p[i] <= ch <= p[i + 2] else p[i] == ch;
            && (ClassRanges(p, i, start).None? <==> ClassRanges(p, next, start).None?)
            && (ClassRanges(p, i, start).Some? ==>
                  && ClassRanges(p, i, start).value.1 == ClassRanges(p, next, start).value.1
                  && (InRanges(ClassRanges(p, i, start).value.0, ch) <==>
                        here || InRanges(ClassRanges(p, next, start).value.0, ch)))
  {
    hide InRanges;
    var range := i + 2 < |p| && p[i + 1] == '-' && p[i + 2] != ']';
    var next := if range then i + 3 else i + 1;
    if ClassRanges(p, next, start).Some? {
      RangesCons(if range then Range(p[i], p[i + 2]) else Range(p[i], p[i]), ClassRanges(p, next, start).value.0, ch);
    }
  }

  /** Scans a class member by member: whether ch belongs to it, and where the pattern goes on. */
  method ClassMatch(p: string, ch: char) returns (r: Option<(bool, nat)>)
    ensures r.None? <==> ClassItem(p).None?
    ensures r.Some? ==> r.value.1 == ClassItem(p).value.1 <= |p| && (r.value.0 <==> Fits(ClassItem(p).value.0, [ch]))
  {
    hide ClassRanges, InRanges;
    var i: nat := 0;
    var negate := p != [] && p[0] == '^';
    if negate { i := i + 1; }
    var matched := false;
    var start := i;
    while i < |p|
      invariant start == ClassStart(p) <= i <= |p|
      invariant ClassRanges(p, start, start).None? <==> ClassRanges(p, i, start).None?
      invariant ClassRanges(p, start, start).Some? ==>
                  && ClassRanges(p, start, start).value.1 == ClassRanges(p, i, start).value.1
                  && (InRanges(ClassRanges(p, start, start).value.0, ch) <==>
                        matched || InRanges(ClassRanges(p, i, start).value.0, ch))
      decreases |p| - i
    {
      if p[i] == ']' && i > start {
        ClassCloses(p, i, start, ch);
        return Some((matched != negate, i + 1));
      }
      RangesStep(p, i, start, ch);
      if i + 2 < |p| && p[i + 1] == '-' && p[i + 2] != ']' {
        if p[i] <= ch && ch <= p[i + 2] { matched := true; }
        i := i + 3;
      } else {
        if p[i] == ch { matched := true; }
        i := i + 1;
      }
    }
    ClassUnclosed(p, start);
    return None;
  }

  lemma ClassCloses(p: string, i: nat, start: nat, ch: char)
    requires i < |p| && p[i] == ']' && i > start
    ensures ClassRanges(p, i, start) == Some(([], i + 1)) && !InRanges([], ch)
  {
  }

  lemma ClassUnclosed(p: string, start: nat)
    ensures ClassRanges(p, |p|, start).None?
  {
  }

  /** * is any run, ? any one character, [...] a class; an unclosed class matches nothing. */
  function GlobRec(p: string, t: string): bool
    decreases |p| + |t|
  {
    if p == [] then t == []
    else if p[0] == '*' then GlobRec(p[1..], t) || (t != [] && GlobRec(p, t[1..]))
    else if p[0] == '?' then t != [] && GlobRec(p[1..], t[1..])
    else if p[0] == '[' then
      t != [] &&
      match ClassItem(p[1..])
      case None => false
      case Some((item, off)) => Fits(item, [t[0]]) && GlobRec(p[1 + off..], t[1..])
    else t != [] && p[0] == t[0] && GlobRec(p[1..], t[1..])
  }

  /** The items of a GLOB pattern, if every class in it is closed. */
  function GlobItems(p: string): Option<seq<Item>>
    decreases |p|
  {
    if p == [] then Some([])
    else if p[0] == '[' then
      match ClassItem(p[1..])
      case None => None
      case Some((item, off)) =>
        match GlobItems(p[1 + off..])
        case None => None
        case Some(items) => Some([item] + items)
    else
      match GlobItems(p[1..])
      case None => None
      case Some(items) => Some([if p[0] == '*' then AnyRun else if p[0] == '?' then AnyOne else Exactly(p[0])] + items)
  }

  /** GLOB accepts exactly the texts its pattern stands for, and none when a class is left open. */
  lemma {:induction false} GlobExact(p: string, t: string)
    ensures GlobRec(p, t) <==> GlobItems(p).Some? && Accepts(GlobItems(p).value, t)
    decreases |p| + |t|
  {
    hide Accepts, ClassItem, Fits;
    if p == [] {
      AcceptsNone(t);
    } else if p[0] == '[' {
      if ClassItem(p[1..]).Some? {
        var (item, off) := ClassItem(p[1..]).value;
        ClassIsOne(p[1..]);
        if t != [] {
          GlobExact(p[1 + off..], t[1..]);
          assert t[..1] == [t[0]];
        }
        if GlobItems(p).Some? {
          assert GlobItems(p).value[1..] == GlobItems(p[1 + off..]).value;
          AcceptsOne(GlobItems(p).value, t);
        }
      }
    } else {
      GlobTail(p);
      if p[0] == '*' {
        GlobExact(p[1..], t);
        if t != [] { GlobExact(p, t[1..]); }
        if GlobItems(p).Some? { AcceptsRun(GlobItems(p).value, t); }
      } else {
        if t != [] {
          GlobExact(p[1..], t[1..]);
          FitsOne(p[0], t);
        }
        if GlobItems(p).Some? { AcceptsOne(GlobItems(p).value, t); }
      }
    }
  }

  lemma ClassIsOne(p: string)
    requires ClassItem(p).Some?
    ensures ClassItem(p).value.0 != AnyRun && 0 < ClassItem(p).value.1 <= |p|
  {
  }

  lemma GlobTail(p: string)
    requires p != [] && p[0] != '['
    ensures GlobItems(p).Some? <==> GlobItems(p[1..]).Some?
    ensures GlobItems(p).Some? ==> GlobItems(p).value != [] && GlobItems(p).value[1..] == GlobItems(p[1..]).value
    ensures GlobItems(p).Some? ==>
              GlobItems(p).value[0] == if p[0] == '*' then AnyRun else if p[0] == '?' then AnyOne else Exactly(p[0])
  {
  }

  lemma FitsOne(c: char, t: string)
    requires t != []
    ensures Fits(AnyOne, t[..1]) && (Fits(Exactly(c), t[..1]) <==> c == t[0])
  {
  }
}
