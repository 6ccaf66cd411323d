/** The cache of clean pages, evicting the least recently used. */
module PageCaches {
  import opened Common
  import opened Varint
  import opened WalFrames

  predicate NoDup(s: seq<nat>) {
    forall i, j :: 0 <= i < j < |s| ==> s[i] != s[j]
  }

  /** s without the first occurrence of id. */
  function Without(s: seq<nat>, id: nat): seq<nat> {
    if s == [] then []
    else if s[0] == id then s[1..]
    else [s[0]] + Without(s[1..], id)
  }

  /** id becomes the most recently used. */
  function Touched(s: seq<nat>, id: nat): seq<nat> {
    Without(s, id) + [id]
  }

  predicate IsSuffix(s: seq<nat>, t: seq<nat>) {
    |s| <= |t| && t[|t| - |s|..] == s
  }

  lemma NoDupTail(s: seq<nat>)
    requires s != [] && NoDup(s)
    ensures NoDup(s[1..]) && s[0] !in s[1..]
  {
  }

  lemma NoDupCons(a: nat, t: seq<nat>)
    requires NoDup(t) && a !in t
    ensures NoDup([a] + t)
  {
  }

  lemma {:induction false} WithoutHas(s: seq<nat>, id: nat, x: nat)
    requires NoDup(s)
    ensures x in Without(s, id) <==> x in s && x != id
  {
    hide NoDup;
    if s != [] {
      NoDupTail(s);
      assert s == [s[0]] + s[1..];
      if s[0] != id {
        WithoutHas(s[1..], id, x);
      }
    }
  }

  lemma {:induction false} WithoutNoDup(s: seq<nat>, id: nat)
    requires NoDup(s)
    ensures NoDup(Without(s, id))
    ensures |Without(s, id)| == if id in s then |s| - 1 else |s|
  {
    hide NoDup;
    if s != [] {
      NoDupTail(s);
      assert s == [s[0]] + s[1..];
      if s[0] != id {
        WithoutNoDup(s[1..], id);
        WithoutHas(s[1..], id, s[0]);
        NoDupCons(s[0], Without(s[1..], id));
      }
    }
  }

  lemma WithoutMeaning(s: seq<nat>, id: nat)
    requires NoDup(s)
    ensures NoDup(Without(s, id))
    ensures forall x :: x in Without(s, id) <==> x in s && x != id
    ensures |Without(s, id)| == if id in s then |s| - 1 else |s|
  {
    hide *;
    WithoutNoDup(s, id);
    forall x: nat
      ensures x in Without(s, id) <==> x in s && x != id
    {
      WithoutHas(s, id, x);
    }
  }

  lemma {:induction false} WithoutConcat(p: seq<nat>, s: seq<nat>, id: nat)
    ensures Without(p + s, id) == if id in p then Without(p, id) + s else p + Without(s, id)
    decreases |p|, 1
  {
    hide Without;
    if p == [] {
      assert p + s == s && [] + Without(s, id) == Without(s, id);
    } else {
      WithoutCons(p[0], p[1..], id);
      WithoutCons(p[0], p[1..] + s, id);
      assert p == [p[0]] + p[1..] && p + s == [p[0]] + (p[1..] + s);
      ConcatTail(p[0], p[1..], s, id);
    }
  }

  lemma WithoutCons(a: nat, t: seq<nat>, id: nat)
    ensures Without([a] + t, id) == if a == id then t else [a] + Without(t, id)
  {
    assert ([a] + t)[1..] == t;
  }

  lemma ConcatTail(a: nat, t: seq<nat>, s: seq<nat>, id: nat)
    ensures [a] + Without(t + s, id) == if id in t then ([a] + Without(t, id)) + s else ([a] + t) + Without(s, id)
    decreases |t|, 2
  {
    hide Without;
    WithoutConcat(t, s, id);
    assert [a] + (Without(t, id) + s) == ([a] + Without(t, id)) + s;
    assert [a] + (t + Without(s, id)) == ([a] + t) + Without(s, id);
  }

  /** Removing an id from a list and from a suffix of it that may hold it keeps the suffix. */
  lemma WithoutSuffix(s: seq<nat>, t: seq<nat>, id: nat)
    requires NoDup(t) && IsSuffix(s, t)
    ensures IsSuffix(Without(s, id), Without(t, id))
  {
    hide Without;
    var p := t[..|t| - |s|];
    assert t == p + s;
    WithoutConcat(p, s, id);
    if id in p {
      assert id !in s;
      WithoutAbsent(s, id);
    }
  }

  lemma {:induction false} WithoutAbsent(s: seq<nat>, id: nat)
    requires id !in s
    ensures Without(s, id) == s
  {
    if s != [] {
      WithoutAbsent(s[1..], id);
    }
  }

  /** The order lists each cached id once. */
  ghost predicate Matches(lru: seq<nat>, keys: set<nat>) {
    NoDup(lru) && forall id :: id in lru <==> id in keys
  }

  lemma DropFirst(lru: seq<nat>, keys: set<nat>)
    requires Matches(lru, keys) && lru != []
    ensures Matches(lru[1..], keys - {lru[0]}) && lru[0] in keys
  {
    NoDupTail(lru);
    assert lru == [lru[0]] + lru[1..];
  }

  lemma {:induction false} SameSize(lru: seq<nat>, keys: set<nat>)
    requires Matches(lru, keys)
    ensures |lru| == |keys|
  {
    hide NoDup;
    if lru == [] {
      assert keys == {};
    } else {
      DropFirst(lru, keys);
      SameSize(lru[1..], keys - {lru[0]});
    }
  }

  class PageCache {
    const capacity: nat
    var pages: map<nat, Data>
    /** Ids from the least to the most recently used. */
    var lru: seq<nat>

    /** Every id used and not invalidated since, from the least to the most recently used,
        whether still cached or evicted. */
    ghost var recent: seq<nat>

    /** The cached ids are the most recently used ones, no more than fit. */
    ghost predicate Valid()
      reads this
    {
      && capacity >= 1 && |pages| <= capacity && Matches(lru, pages.Keys)
      && NoDup(recent) && IsSuffix(lru, recent)
    }

    constructor (size: nat)
      ensures Valid() && capacity == (if size < 1 then 1 else size) && pages == map[]
    {
      capacity := if size < 1 then 1 else size;
      pages, lru, recent := map[], [], [];
    }

    /** Takes id out of the order, if it is there. */
    method Remove(id: nat)
      modifies this`lru
      ensures lru == Without(old(lru), id)
    {
      var pos := 0;
      while pos < |lru| && lru[pos] != id
        invariant pos <= |lru| && Without(lru, id) == lru[..pos] + Without(lru[pos..], id)
      {
        assert lru[pos..][1..] == lru[pos + 1..] && lru[..pos + 1] == lru[..pos] + [lru[pos]];
        pos := pos + 1;
      }
      if pos < |lru| {
        assert lru[pos..][1..] == lru[pos + 1..];
        lru := lru[..pos] + lru[pos + 1..];
      }
    }

    method Touch(id: nat)
      modifies this`lru
      ensures lru == Touched(old(lru), id)
    {
      Remove(id);
      lru := lru + [id];
    }

    /** Drops the least recently used page when there is one too many. */
    method EvictIfNeeded()
      requires Matches(lru, pages.Keys) && |pages| <= capacity + 1 && capacity >= 1
      modifies this`lru, this`pages
      ensures |old(pages)| <= capacity ==> lru == old(lru) && pages == old(pages)
      ensures |old(pages)| > capacity ==> old(lru) != [] && lru == old(lru)[1..] && pages == old(pages) - {old(lru)[0]}
      ensures Matches(lru, pages.Keys) && |pages| <= capacity
    {
      hide Matches;
      SameSize(lru, pages.Keys);
      while |pages| > capacity
        invariant old(lru) == [] ==> pages == old(pages) && lru == []
        invariant |old(pages)| <= capacity || |pages| > capacity ==> lru == old(lru) && pages == old(pages)
        invariant |old(pages)| > capacity && |pages| <= capacity ==>
                    old(lru) != [] && lru == old(lru)[1..] && pages == old(pages) - {old(lru)[0]}
        invariant Matches(lru, pages.Keys) && |lru| == |pages|
        decreases |pages|
      {
        if lru == [] { break; }
        var victim := lru[0];
        DropFirst(lru, pages.Keys);
        lru := lru[1..];
        pages := pages - {victim};
        assert pages.Keys == old(pages).Keys - {victim};
        SameSize(lru, pages.Keys);
      }
    }

    method Get(id: nat) returns (r: Option<Data>)
      requires Valid()
      modifies this`lru, this`recent
      ensures Valid() && pages == old(pages)
      ensures r == if id in pages then Some(pages[id]) else None
      ensures recent == if id in pages then Touched(old(recent), id) else old(recent)
    {
      hide Touched, IsSuffix, NoDup, Matches;
      if id !in pages { return None; }
      TouchCached(lru, recent, pages.Keys, id);
      Touch(id);
      recent := Touched(recent, id);
      return Some(pages[id]);
    }

    method Insert(id: nat, page: Data)
      requires Valid()
      modifies this
      ensures Valid() && id in pages && pages[id] == page
      ensures forall p :: p in pages && p != id ==> p in old(pages) && pages[p] == old(pages)[p]
      ensures |old(pages)| < capacity ==> forall p :: p in old(pages) ==> p in pages
      ensures |pages| == if id in old(pages) || |old(pages)| == capacity then |old(pages)| else |old(pages)| + 1
      ensures recent == Touched(old(recent), id)
    {
      hide Touched, IsSuffix, NoDup, Matches;
      TouchMeaning(lru, recent, pages.Keys, id);
      assert pages[id := page].Keys == pages.Keys + {id};
      pages := pages[id := page];
      Touch(id);
      recent := Touched(recent, id);
      LastStays(lru, pages.Keys, id);
      EvictSuffix(lru, recent);
      EvictIfNeeded();
    }

    /** Drops a page, as when it changed on disk. */
    method Invalidate(id: nat)
      requires Valid()
      modifies this
      ensures Valid() && pages == old(pages) - {id} && recent == Without(old(recent), id)
    {
      hide Without, IsSuffix, NoDup, Matches;
      RemoveMeaning(lru, recent, pages.Keys, id);
      assert (pages - {id}).Keys == pages.Keys - {id};
      pages := pages - {id};
      Remove(id);
      recent := Without(recent, id);
    }
  }

  lemma NoDupSnoc(s: seq<nat>, a: nat)
    requires NoDup(s) && a !in s
    ensures NoDup(s + [a])
  {
  }

  lemma TouchMeaning(lru: seq<nat>, recent: seq<nat>, keys: set<nat>, id: nat)
    requires Matches(lru, keys) && NoDup(recent) && IsSuffix(lru, recent)
    ensures Matches(Touched(lru, id), keys + {id})
    ensures NoDup(Touched(recent, id)) && IsSuffix(Touched(lru, id), Touched(recent, id))
    ensures Touched(lru, id) != [] && Touched(lru, id)[|Touched(lru, id)| - 1] == id
  {
    hide Without;
    WithoutMeaning(lru, id);
    WithoutMeaning(recent, id);
    WithoutSuffix(lru, recent, id);
    NoDupSnoc(Without(lru, id), id);
    NoDupSnoc(Without(recent, id), id);
    var a, b := Without(lru, id), Without(recent, id);
    assert (b + [id])[|b| - |a|..] == b[|b| - |a|..] + [id];
  }

  lemma TouchCached(lru: seq<nat>, recent: seq<nat>, keys: set<nat>, id: nat)
    requires Matches(lru, keys) && NoDup(recent) && IsSuffix(lru, recent) && id in keys
    ensures Matches(Touched(lru, id), keys)
    ensures NoDup(Touched(recent, id)) && IsSuffix(Touched(lru, id), Touched(recent, id))
  {
    hide *;
    TouchMeaning(lru, recent, keys, id);
    assert keys + {id} == keys;
  }

  lemma RemoveMeaning(lru: seq<nat>, recent: seq<nat>, keys: set<nat>, id: nat)
    requires Matches(lru, keys) && NoDup(recent) && IsSuffix(lru, recent)
    ensures Matches(Without(lru, id), keys - {id})
    ensures NoDup(Without(recent, id)) && IsSuffix(Without(lru, id), Without(recent, id))
  {
    hide Without, NoDup, IsSuffix;
    WithoutMeaning(lru, id);
    WithoutMeaning(recent, id);
    WithoutSuffix(lru, recent, id);
  }

  /** The page just used is not the one evicted. */
  lemma LastStays(s: seq<nat>, keys: set<nat>, id: nat)
    requires Matches(s, keys) && s != [] && s[|s| - 1] == id
    ensures |keys| > 1 ==> s[0] != id
  {
    SameSize(s, keys);
  }

  lemma EvictSuffix(a: seq<nat>, c: seq<nat>)
    requires IsSuffix(a, c)
    ensures a != [] ==> IsSuffix(a[1..], c)
  {
    if a != [] {
      assert c[|c| - |a|..][1..] == c[|c| - |a[1..]|..];
    }
  }
}
