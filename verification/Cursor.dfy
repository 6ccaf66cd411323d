/** The forward cursor over a table, and the table scan that seeks again for every row. */
module Cursors {
  import opened Common
  import opened Varint
  import opened Nodes
  import opened Table
  import opened Trees
  import opened TreeEdits
  import opened LeafEdits
  import opened Overflow
  import opened LeafPages
  import opened InteriorPages
  import opened Insertion
  import opened Deletion
  import opened BTrees

  // ---- the records from a key on ----

  function AtLeast(s: seq<KV>, k: int): seq<KV> {
    if s == [] then [] else (if s[0].key >= k then [s[0]] else []) + AtLeast(s[1..], k)
  }

  lemma {:induction false} AtLeastConcat(a: seq<KV>, b: seq<KV>, k: int)
    ensures AtLeast(a + b, k) == AtLeast(a, k) + AtLeast(b, k)
  {
    hide AtLeast;
    if a == [] {
      assert a + b == b;
      AtLeastEmpty(k);
    } else {
      AtLeastConcat(a[1..], b, k);
      AtLeastCons(a[0], a[1..], k);
      AtLeastCons(a[0], a[1..] + b, k);
      assert [a[0]] + a[1..] == a && [a[0]] + (a[1..] + b) == a + b;
      AssociateTail(a[0], AtLeast(a[1..], k), AtLeast(b, k));
    }
  }

  lemma AtLeastEmpty(k: int)
    ensures AtLeast([], k) == []
  {
  }

  lemma AtLeastCons(x: KV, t: seq<KV>, k: int)
    ensures AtLeast([x] + t, k) == (if x.key >= k then [x] + AtLeast(t, k) else AtLeast(t, k))
  {
    assert ([x] + t)[1..] == t;
  }

  lemma AssociateTail(x: KV, s: seq<KV>, t: seq<KV>)
    ensures [x] + s + t == [x] + (s + t)
  {
  }

  lemma {:induction false} AtLeastNone(s: seq<KV>, k: int)
    requires AllBelow(s, k)
    ensures AtLeast(s, k) == []
  {
    if s != [] {
      AtLeastNone(s[1..], k);
    }
  }

  lemma {:induction false} AtLeastAll(s: seq<KV>, k: int)
    requires AllAbove(s, k - 1)
    ensures AtLeast(s, k) == s
  {
    if s != [] {
      AtLeastAll(s[1..], k);
    }
  }

  lemma AtLeastSplit(a: seq<KV>, b: seq<KV>, c: seq<KV>, k: int)
    requires AllBelow(a, k) && AllAbove(c, k - 1)
    ensures AtLeast(a + b + c, k) == AtLeast(b, k) + c
  {
    hide AtLeast;
    AtLeastConcat(a + b, c, k);
    AtLeastConcat(a, b, k);
    AtLeastNone(a, k);
    AtLeastAll(c, k);
  }

  /** In an ascending list the records from k on are a suffix. */
  lemma AtLeastSuffix(s: seq<KV>, k: int, p: nat)
    requires p <= |s| && AllBelow(s[..p], k) && AllAbove(s[p..], k - 1)
    ensures AtLeast(s, k) == s[p..]
  {
    AtLeastSplit(s[..p], [], s[p..], k);
    assert s == s[..p] + [] + s[p..];
  }

  /** Past the first record at or above k come exactly the records above its key. */
  lemma {:induction false} AtLeastNext(s: seq<KV>, k: int)
    requires Ascending(s) && AtLeast(s, k) != []
    ensures AtLeast(s, AtLeast(s, k)[0].key + 1) == AtLeast(s, k)[1..]
  {
    if s[0].key >= k {
      AtLeastAll(s[1..], k);
      AtLeastAll(s[1..], s[0].key + 1);
    } else {
      AtLeastNext(s[1..], k);
      AtLeastIn(s[1..], k);
    }
  }

  lemma {:induction false} AtLeastIn(s: seq<KV>, k: int)
    ensures forall i :: 0 <= i < |AtLeast(s, k)| ==> AtLeast(s, k)[i] in s && AtLeast(s, k)[i].key >= k
  {
    if s != [] {
      AtLeastIn(s[1..], k);
    }
  }

  // ---- the stack of a cursor ----

  /** An interior node on the way down, with the child that was taken. */
  datatype Frame = Frame(cells: seq<InteriorCell>, right: PageId, idx: nat)

  /** The subtrees that a frame points to. */
  datatype Level = Level(kids: seq<Tree>, keys: seq<rowid>, idx: nat)

  predicate LevelOk(f: Frame, l: Level, view: View) {
    && |l.kids| == |l.keys| + 1 && l.idx <= |l.keys|
    && f == Frame(Pointers(l.kids, l.keys), l.kids[|l.keys|].id, l.idx)
    && forall j :: 0 <= j < |l.kids| ==> Stored(l.kids[j], view) && FitsAll(l.kids[j])
  }

  predicate StackOk(stack: seq<Frame>, path: seq<Level>, view: View) {
    |stack| == |path| && forall j :: 0 <= j < |path| ==> LevelOk(stack[j], path[j], view)
  }

  /** The records right of the path: those the stack still has to visit. */
  function RestOf(path: seq<Level>): seq<KV> {
    if path == [] then []
    else
      var l := path[|path| - 1];
      (if l.idx < |l.kids| then FlatAll(l.kids[l.idx + 1..]) else []) + RestOf(path[..|path| - 1])
  }

  function Size(t: Tree): nat
    decreases t, 1
  {
    1 + if t.LeafT? then 0 else SizeAll(t.kids)
  }

  function SizeAll(kids: seq<Tree>): nat
    decreases kids, 0
  {
    if kids == [] then 0 else Size(kids[0]) + SizeAll(kids[1..])
  }

  /** Nodes the stack still has to visit: what makes the search for the next record end. */
  function Todo(path: seq<Level>): nat {
    if path == [] then 0
    else
      var l := path[|path| - 1];
      (if l.idx < |l.kids| then SizeAll(l.kids[l.idx + 1..]) else 0) + Todo(path[..|path| - 1])
  }

  lemma {:induction false} Pushed(path: seq<Level>, l: Level)
    requires l.idx < |l.kids|
    ensures RestOf(path + [l]) == FlatAll(l.kids[l.idx + 1..]) + RestOf(path)
    ensures Todo(path + [l]) == SizeAll(l.kids[l.idx + 1..]) + Todo(path)
  {
    assert (path + [l])[..|path|] == path;
  }

  lemma {:induction false} PushedOk(stack: seq<Frame>, path: seq<Level>, f: Frame, l: Level, view: View)
    requires StackOk(stack, path, view) && LevelOk(f, l, view)
    ensures StackOk(stack + [f], path + [l], view)
  {
    hide LevelOk;
  }

  lemma {:induction false} PoppedOk(stack: seq<Frame>, path: seq<Level>, view: View)
    requires StackOk(stack, path, view) && stack != []
    ensures StackOk(stack[..|stack| - 1], path[..|path| - 1], view)
    ensures path != [] && LevelOk(stack[|stack| - 1], path[|path| - 1], view)
  {
    hide LevelOk;
  }

  /** Stepping to the next child of the top frame, or dropping the frame when there is none. */
  lemma {:induction false} Stepped(path: seq<Level>, l: Level)
    requires l.idx < |l.kids|
    ensures l.idx + 1 < |l.kids| ==>
              RestOf(path + [l]) == Flat(l.kids[l.idx + 1]) + RestOf(path + [l.(idx := l.idx + 1)])
    ensures l.idx + 1 < |l.kids| ==>
              Todo(path + [l]) == Size(l.kids[l.idx + 1]) + Todo(path + [l.(idx := l.idx + 1)])
    ensures l.idx + 1 == |l.kids| ==> RestOf(path + [l]) == RestOf(path) && Todo(path + [l]) == Todo(path)
  {
    hide *;
    Pushed(path, l);
    if l.idx + 1 < |l.kids| {
      Pushed(path, l.(idx := l.idx + 1));
      assert l.kids[l.idx + 1..][1..] == l.kids[l.idx + 2..];
      FlatStep(l.kids[l.idx + 1..]);
    } else {
      assert l.kids[l.idx + 1..] == [];
      NoKids();
    }
  }

  lemma NoKids()
    ensures FlatAll([]) == [] && SizeAll([]) == 0
  {
  }

  lemma FlatStep(kids: seq<Tree>)
    requires kids != []
    ensures FlatAll(kids) == Flat(kids[0]) + FlatAll(kids[1..])
    ensures SizeAll(kids) == Size(kids[0]) + SizeAll(kids[1..])
  {
  }

  lemma {:induction false} StoredParts(t: Tree, view: View)
    requires Stored(t, view) && FitsAll(t)
    ensures Holds(view, t.id, NodeOf(t)) && Fits(t.id, NodeOf(t)) && Shaped(NodeOf(t))
    ensures t.LeafT? ==> NodeOf(t) == Leaf(Cells(t.entries)) && forall i :: 0 <= i < |t.entries| ==> EntryStored(view, t.entries[i])
    ensures t.InteriorT? ==> NodeOf(t) == Interior(Pointers(t.kids, t.keys), t.kids[|t.keys|].id)
    ensures t.InteriorT? ==> |t.kids| == |t.keys| + 1
    ensures t.InteriorT? ==> Flat(t) == Flat(t.kids[0]) + FlatAll(t.kids[1..])
    ensures t.InteriorT? ==> Size(t) == 1 + Size(t.kids[0]) + SizeAll(t.kids[1..])
    ensures t.LeafT? ==> Flat(t) == Records(t.entries) && Size(t) == 1
  {
  }

  lemma {:induction false} LevelOf(t: Tree, i: nat, view: View)
    requires Stored(t, view) && FitsAll(t) && t.InteriorT? && |t.kids| == |t.keys| + 1 && i <= |t.keys|
    ensures LevelOk(Frame(Pointers(t.kids, t.keys), t.kids[|t.keys|].id, i), Level(t.kids, t.keys, i), view)
    ensures Stored(t.kids[i], view) && FitsAll(t.kids[i]) && ChildAt(Pointers(t.kids, t.keys), t.kids[|t.keys|].id, i) == t.kids[i].id
  {
  }

  lemma {:induction false} LevelNext(f: Frame, l: Level, view: View)
    requires LevelOk(f, l, view)
    ensures l.idx < |l.kids| && |f.cells| == |l.keys| && |l.kids| == |l.keys| + 1 && f.idx == l.idx
    ensures l.idx + 1 < |l.kids| ==>
              && LevelOk(f.(idx := l.idx + 1), l.(idx := l.idx + 1), view)
              && Stored(l.kids[l.idx + 1], view) && FitsAll(l.kids[l.idx + 1])
              && ChildAt(f.cells, f.right, l.idx + 1) == l.kids[l.idx + 1].id
  {
  }

  /** Pops exhausted frames until one has a further child. */
  method NextChild(stack: seq<Frame>, ghost path: seq<Level>, ghost view: View)
    returns (stack': seq<Frame>, child: Option<PageId>, ghost path': seq<Level>, ghost sub: Tree)
    requires StackOk(stack, path, view)
    ensures StackOk(stack', path', view)
    ensures child.None? ==> stack' == [] && RestOf(path) == [] && RestOf(path') == []
    ensures child.Some? ==> Stored(sub, view) && FitsAll(sub) && sub.id == child.value
    ensures child.Some? ==> RestOf(path) == Flat(sub) + RestOf(path') && Size(sub) + Todo(path') <= Todo(path)
  {
    hide *;
    stack', path' := stack, path;
    sub := LeafT(0, []);
    while true
      invariant StackOk(stack', path', view) && RestOf(path') == RestOf(path) && Todo(path') == Todo(path)
      decreases |stack'|
    {
      SameHeight(stack', path', view);
      if stack' == [] {
        NoRest();
        return stack', None, path', sub;
      }
      var top := stack'[|stack'| - 1];
      ghost var l := path'[|path'| - 1];
      PoppedOk(stack', path', view);
      LevelNext(top, l, view);
      stack', path' := stack'[..|stack'| - 1], path'[..|path'| - 1];
      Stepped(path', l);
      top := top.(idx := top.idx + 1);
      if top.idx <= |top.cells| {
        PushedOk(stack', path', top, l.(idx := l.idx + 1), view);
        sub := l.kids[l.idx + 1];
        return stack' + [top], Some(ChildAt(top.cells, top.right, top.idx)), path' + [l.(idx := l.idx + 1)], sub;
      }
    }
  }

  lemma SameHeight(stack: seq<Frame>, path: seq<Level>, view: View)
    requires StackOk(stack, path, view)
    ensures |stack| == |path|
    ensures path != [] ==> path == path[..|path| - 1] + [path[|path| - 1]]
  {
  }

  lemma NoRest()
    ensures RestOf([]) == [] && Todo([]) == 0
  {
  }

  // ---- the cursor ----

  class BTreeCursor {
    const src: PageSink
    var stack: seq<Frame>
    var leaf: Option<(seq<LeafCell>, nat)>
    ghost var path: seq<Level>
    ghost var entries: seq<Entry>

    ghost predicate Valid()
      reads this, src
    {
      && StackOk(stack, path, src.Pages())
      && (leaf.None? ==> RestOf(path) == [] && stack == [])
      && (leaf.Some? ==> LeafAt(leaf.value.0, leaf.value.1, entries, src.Pages()))
    }

    /** The records the cursor has yet to deliver, in order. */
    ghost function Remaining(): seq<KV>
      requires Valid()
      reads this, src
    {
      (if leaf.Some? then Records(entries)[leaf.value.1..] else []) + RestOf(path)
    }

    /** Positions the cursor at the first record with key at least rowid. */
    constructor Seek(src: PageSink, root: PageId, key: rowid, ghost t: Tree, ghost others: multiset<PageId>)
      requires IsTable(src, root, t, others)
      ensures this.src == src && Valid() && Remaining() == AtLeast(Flat(t), key)
    {
      hide *;
      this.src := src;
      var st: seq<Frame>, lf: (seq<LeafCell>, nat);
      ghost var pt: seq<Level>, es: seq<Entry>;
      st, lf, pt, es := SeekFrom(src, root, key, t, others);
      stack, leaf, path, entries := st, Some(lf), pt, es;
      new;
      ValidIs();
    }

    lemma ValidIs()
      requires StackOk(stack, path, src.Pages())
      requires leaf.Some? && LeafAt(leaf.value.0, leaf.value.1, entries, src.Pages())
      ensures Valid() && Remaining() == Records(entries)[leaf.value.1..] + RestOf(path)
    {
    }

    lemma EndIs()
      requires stack == [] && leaf == None && RestOf(path) == [] && StackOk(stack, path, src.Pages())
      ensures Valid() && Remaining() == []
    {
    }

    lemma ValidParts()
      requires Valid()
      ensures StackOk(stack, path, src.Pages())
      ensures leaf.None? ==> RestOf(path) == [] && stack == [] && Remaining() == []
      ensures leaf.Some? ==> LeafAt(leaf.value.0, leaf.value.1, entries, src.Pages())
      ensures leaf.Some? ==> |leaf.value.0| == |entries| && leaf.value.1 <= |entries|
      ensures leaf.Some? ==> Remaining() == Records(entries)[leaf.value.1..] + RestOf(path)
    {
    }

    /** Delivers the next record, or None at the end; leaves emptied by deletions are passed over. */
    method Next() returns (r: Option<KV>)
      requires Valid()
      modifies this
      ensures Valid()
      ensures old(Remaining()) == [] ==> r == None && Remaining() == []
      ensures old(Remaining()) != [] ==> r == Some(old(Remaining())[0]) && Remaining() == old(Remaining())[1..]
    {
      hide *;
      ghost var all := Remaining();
      while true
        invariant Valid() && Remaining() == all
        decreases Todo(path), leaf.Some?
      {
        ValidParts();
        if leaf.Some? && leaf.value.1 < |leaf.value.0| {
          var (cells, i) := leaf.value;
          LeafEntry(cells, i, entries, src.Pages());
          var value := ReadValue(src, cells[i], entries[i]);
          leaf := Some((cells, i + 1));
          ValidIs();
          HeadOf(Records(entries), i, RestOf(path));
          return Some(KV(cells[i].key, value.value));
        }
        if leaf.Some? {
          SpentLeaf(Records(entries), leaf.value.1, RestOf(path));
        }
        var child: Option<PageId>, st: seq<Frame>;
        ghost var sub: Tree, pt: seq<Level>;
        st, child, pt, sub := NextChild(stack, path, src.Pages());
        stack, path, leaf := st, pt, None;
        if child.None? {
          EndIs();
          return None;
        }
        var lf: (seq<LeafCell>, nat);
        ghost var es: seq<Entry>;
        st, lf, pt, es := DescendLeftmost(src, stack, child.value, path, sub);
        stack, leaf, path, entries := st, Some(lf), pt, es;
        ValidIs();
      }
    }
  }

  predicate LeafAt(cells: seq<LeafCell>, i: nat, es: seq<Entry>, view: View) {
    cells == Cells(es) && i <= |es| && forall j :: 0 <= j < |es| ==> EntryStored(view, es[j])
  }

  lemma LeafEntry(cells: seq<LeafCell>, i: nat, es: seq<Entry>, view: View)
    requires LeafAt(cells, i, es, view) && i < |cells|
    ensures |es| == |cells| && EntryStored(view, es[i]) && cells[i] == es[i].cell && LeafAt(cells, i + 1, es, view)
    ensures Records(es)[i] == KV(cells[i].key, es[i].value)
  {
  }

  lemma HeadOf(s: seq<KV>, i: nat, rest: seq<KV>)
    requires i < |s|
    ensures s[i..] + rest != [] && (s[i..] + rest)[0] == s[i] && (s[i..] + rest)[1..] == s[i + 1..] + rest
  {
  }

  lemma SpentLeaf(s: seq<KV>, i: nat, rest: seq<KV>)
    requires i == |s|
    ensures s[i..] + rest == rest
  {
  }

  /** Follows first children down to a leaf. */
  method DescendLeftmost(src: PageSink, stack: seq<Frame>, cur: PageId, ghost path: seq<Level>, ghost t: Tree)
    returns (stack': seq<Frame>, leaf: (seq<LeafCell>, nat), ghost path': seq<Level>, ghost es: seq<Entry>)
    requires StackOk(stack, path, src.Pages()) && Stored(t, src.Pages()) && FitsAll(t) && t.id == cur
    ensures StackOk(stack', path', src.Pages()) && LeafAt(leaf.0, leaf.1, es, src.Pages())
    ensures |es| >= leaf.1 && Records(es)[leaf.1..] + RestOf(path') == Flat(t) + RestOf(path)
    ensures Todo(path') < Size(t) + Todo(path)
  {
    hide *;
    stack', path' := stack, path;
    var id := cur;
    ghost var sub := t;
    while true
      invariant StackOk(stack', path', src.Pages()) && Stored(sub, src.Pages()) && FitsAll(sub) && sub.id == id
      invariant Flat(sub) + RestOf(path') == Flat(t) + RestOf(path)
      invariant Size(sub) + Todo(path') <= Size(t) + Todo(path)
      decreases sub
    {
      StoredParts(sub, src.Pages());
      ReadHeld(src.Pages(), id, NodeOf(sub));
      var got := ReadNode(src, id);
      match got.value
      case Interior(cells, right) =>
        ghost var l := Level(sub.kids, sub.keys, 0);
        LevelOf(sub, 0, src.Pages());
        PushedOk(stack', path', Frame(cells, right, 0), l, src.Pages());
        Pushed(path', l);
        AssociateRest(Flat(sub.kids[0]), FlatAll(sub.kids[1..]), RestOf(path'));
        stack', path' := stack' + [Frame(cells, right, 0)], path' + [l];
        id := ChildAt(cells, right, 0);
        sub := sub.kids[0];
      case Leaf(cells) =>
        es := sub.entries;
        LeafStart(cells, es, src.Pages());
        return stack', (cells, 0), path', es;
    }
  }

  lemma AssociateRest(a: seq<KV>, b: seq<KV>, c: seq<KV>)
    ensures (a + b) + c == a + (b + c)
  {
  }

  lemma LeafStart(cells: seq<LeafCell>, es: seq<Entry>, view: View)
    requires cells == Cells(es) && forall j :: 0 <= j < |es| ==> EntryStored(view, es[j])
    ensures LeafAt(cells, 0, es, view) && Records(es)[0..] == Records(es)
  {
  }

  /** One step of seeking: what lies left of the chosen child is below the key, what lies right is not. */
  lemma {:induction false} SeekStep(t: Tree, page: PageId, lo: int, hi: int, view: View, key: rowid, i: nat, path: seq<Level>)
    requires Good(t, page, lo, hi, view) && t.InteriorT? && |t.kids| == |t.keys| + 1 && FitsAll(t)
    requires i <= |t.keys| && (i < |t.keys| ==> key <= Pointers(t.kids, t.keys)[i].key)
    requires forall j :: 0 <= j < i ==> Pointers(t.kids, t.keys)[j].key < key
    ensures Good(t.kids[i], t.kids[i].id, Lo(t.keys, i, lo), Hi(t.keys, i, hi), view) && FitsAll(t.kids[i])
    ensures AtLeast(Flat(t), key) + RestOf(path)
         == AtLeast(Flat(t.kids[i]), key) + RestOf(path + [Level(t.kids, t.keys, i)])
  {
    hide *;
    var kids, keys := t.kids, t.keys;
    GoodParts(t, page, lo, hi, view);
    FoundChild(kids, keys, key, i);
    KidGood(kids, keys, lo, hi, i, view);
    FlatIs(page, kids, keys);
    KidAt(kids, i);
    AroundChild(kids, keys, lo, hi, key);
    AboveLess(FlatAll(kids[i + 1..]), key);
    AtLeastSplit(FlatAll(kids[..i]), Flat(kids[i]), FlatAll(kids[i + 1..]), key);
    Pushed(path, Level(kids, keys, i));
    AssociateRest(AtLeast(Flat(kids[i]), key), FlatAll(kids[i + 1..]), RestOf(path));
  }

  lemma AboveLess(s: seq<KV>, k: int)
    requires AllAbove(s, k)
    ensures AllAbove(s, k - 1)
  {
  }

  lemma {:induction false} SeekLeaf(es: seq<Entry>, key: int, pos: nat, found: bool)
    requires pos <= |es| && (found ==> pos < |es| && es[pos].cell.key == key)
    requires forall i :: 0 <= i < pos ==> es[i].cell.key < key
    requires forall i :: (if found then pos + 1 else pos) <= i < |es| ==> key < es[i].cell.key
    ensures AtLeast(Records(es), key) == Records(es)[pos..]
  {
    hide AtLeast;
    AtLeastSuffix(Records(es), key, pos);
  }

  /** The descent of a seek. */
  method SeekFrom(src: PageSink, root: PageId, key: rowid, ghost t: Tree, ghost others: multiset<PageId>)
    returns (stack: seq<Frame>, leaf: (seq<LeafCell>, nat), ghost path: seq<Level>, ghost es: seq<Entry>)
    requires IsTable(src, root, t, others)
    ensures StackOk(stack, path, src.Pages()) && LeafAt(leaf.0, leaf.1, es, src.Pages())
    ensures |es| >= leaf.1 && Records(es)[leaf.1..] + RestOf(path) == AtLeast(Flat(t), key)
  {
    hide *;
    TableIs(src, root, t, others);
    stack, path := [], [];
    EmptyStack(src.Pages(), AtLeast(Flat(t), key));
    var cur := root;
    ghost var sub, lo, hi := t, MIN_ROWID - 1, MAX_ROWID;
    while true
      invariant StackOk(stack, path, src.Pages()) && Good(sub, cur, lo, hi, src.Pages()) && FitsAll(sub)
      invariant AtLeast(Flat(sub), key) + RestOf(path) == AtLeast(Flat(t), key)
      decreases sub
    {
      GoodIs(sub, cur, lo, hi, src.Pages());
      StoredParts(sub, src.Pages());
      ReadHeld(src.Pages(), cur, NodeOf(sub));
      var got := ReadNode(src, cur);
      match got.value
      case Interior(cells, right) =>
        var i := FindChild(cells, key);
        ChildAtIs(sub.kids, sub.keys, |sub.keys|);
        SeekStep(sub, cur, lo, hi, src.Pages(), key, i, path);
        LevelOf(sub, i, src.Pages());
        PushedOk(stack, path, Frame(cells, right, i), Level(sub.kids, sub.keys, i), src.Pages());
        stack, path := stack + [Frame(cells, right, i)], path + [Level(sub.kids, sub.keys, i)];
        cur := ChildAt(cells, right, i);
        sub, lo, hi := sub.kids[i], Lo(sub.keys, i, lo), Hi(sub.keys, i, hi);
      case Leaf(cells) =>
        es := sub.entries;
        LeafGoodParts(es, cur, lo, hi, src.Pages());
        LeafSorted(es, lo, hi);
        var found, pos := Search(cells, key);
        SearchRecords(es, key, pos, found);
        SeekLeaf(es, key, pos, found);
        LeafAtIs(cells, pos, es, src.Pages());
        return stack, (cells, pos), path, es;
    }
  }

  lemma EmptyStack(view: View, s: seq<KV>)
    ensures StackOk([], [], view) && s + RestOf([]) == s
  {
  }

  lemma LeafAtIs(cells: seq<LeafCell>, i: nat, es: seq<Entry>, view: View)
    requires cells == Cells(es) && i <= |es| && forall j :: 0 <= j < |es| ==> EntryStored(view, es[j])
    ensures LeafAt(cells, i, es, view)
  {
  }

  // ---- the table scan ----

  /** A full scan that keeps only the next key and seeks again for every row. */
  class TableScan {
    const src: PageSink
    const root: PageId
    var nextKey: rowid
    var done: bool
    ghost const tree: Tree
    ghost const others: multiset<PageId>

    constructor (src: PageSink, root: PageId, ghost t: Tree, ghost others: multiset<PageId>)
      requires IsTable(src, root, t, others)
      ensures this.src == src && this.root == root && this.tree == t && this.others == others
      ensures Pending() == Flat(t)
    {
      this.src, this.root, tree, this.others := src, root, t, others;
      nextKey, done := MIN_ROWID, false;
      new;
      AllRowids(Flat(t));
    }

    /** The rows the scan has yet to deliver. */
    ghost function Pending(): seq<KV>
      reads this
    {
      if done then [] else AtLeast(Flat(tree), nextKey)
    }

    method Next() returns (r: Option<KV>)
      requires IsTable(src, root, tree, others)
      modifies this
      ensures old(Pending()) == [] ==> r == None && Pending() == []
      ensures old(Pending()) != [] ==> r == Some(old(Pending())[0]) && Pending() == old(Pending())[1..]
    {
      hide IsTable, AtLeast, BTreeCursor.Valid, BTreeCursor.Remaining;
      if done {
        return None;
      }
      var cursor := new BTreeCursor.Seek(src, root, nextKey, tree, others);
      r := cursor.Next();
      if r.Some? {
        TreeAscending(src, root, tree, others);
        AtLeastNext(Flat(tree), nextKey);
        if r.value.key < MAX_ROWID {
          nextKey := r.value.key + 1;
        } else {
          AtLeastTop(Flat(tree));
          done := true;
        }
      } else {
        done := true;
      }
    }

    /** Calling Next until it answers None delivers the whole table once, in order. */
    method CollectAll() returns (rows: seq<KV>)
      requires IsTable(src, root, tree, others)
      modifies this
      ensures rows == old(Pending()) && Pending() == []
    {
      hide IsTable, Pending;
      rows := [];
      var row := Next();
      ghost var all := old(Pending());
      while row.Some?
        invariant IsTable(src, root, tree, others)
        invariant row.Some? ==> rows + [row.value] + Pending() == all
        invariant row.None? ==> rows == all && Pending() == []
        decreases row.Some?, |Pending()|
      {
        rows := rows + [row.value];
        ghost var rest := Pending();
        assert rows + rest == all;
        row := Next();
        assert row.Some? ==> rest == [row.value] + rest[1..];
      }
    }
  }

  lemma AllRowids(s: seq<KV>)
    ensures AtLeast(s, MIN_ROWID) == s
  {
    AtLeastAll(s, MIN_ROWID);
  }

  lemma AtLeastTop(s: seq<KV>)
    ensures AtLeast(s, MAX_ROWID + 1) == []
  {
    AtLeastNone(s, MAX_ROWID + 1);
  }

  lemma TreeAscending(src: PageSink, root: PageId, t: Tree, others: multiset<PageId>)
    requires IsTable(src, root, t, others)
    ensures Ascending(Flat(t))
  {
    hide *;
    TableIs(src, root, t, others);
    GoodIs(t, root, MIN_ROWID - 1, MAX_ROWID, src.Pages());
    FlatBounds(t, MIN_ROWID - 1, MAX_ROWID);
  }
}
