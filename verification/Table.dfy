/** The meaning of a table b-tree: a list of records with strictly ascending rowids. */
module Table {
  import opened Common
  import opened Varint
  import opened Nodes

  datatype KV = KV(key: rowid, value: seq<byte>)

  predicate Ascending(s: seq<KV>) {
    forall i, j :: 0 <= i < j < |s| ==> s[i].key < s[j].key
  }

  predicate AllBelow(s: seq<KV>, k: int) {
    forall i :: 0 <= i < |s| ==> s[i].key < k
  }

  predicate AllAbove(s: seq<KV>, k: int) {
    forall i :: 0 <= i < |s| ==> k < s[i].key
  }

  /** The records of s with key less than k. */
  function Below(s: seq<KV>, k: int): seq<KV> {
    if s == [] then [] else (if s[0].key < k then [s[0]] else []) + Below(s[1..], k)
  }

  /** The records of s with key greater than k. */
  function Above(s: seq<KV>, k: int): seq<KV> {
    if s == [] then [] else (if s[0].key > k then [s[0]] else []) + Above(s[1..], k)
  }

  function Upsert(s: seq<KV>, k: rowid, v: seq<byte>): seq<KV> {
    Below(s, k) + [KV(k, v)] + Above(s, k)
  }

  function Remove(s: seq<KV>, k: rowid): seq<KV> {
    Below(s, k) + Above(s, k)
  }

  function Lookup(s: seq<KV>, k: int): Option<seq<byte>> {
    if s == [] then None else if s[0].key == k then Some(s[0].value) else Lookup(s[1..], k)
  }

  lemma {:induction false} BelowConcat(a: seq<KV>, b: seq<KV>, k: int)
    ensures Below(a + b, k) == Below(a, k) + Below(b, k)
  {
    if a == [] {
      assert a + b == b;
    } else {
      assert (a + b)[1..] == a[1..] + b;
      BelowConcat(a[1..], b, k);
    }
  }

  lemma {:induction false} AboveConcat(a: seq<KV>, b: seq<KV>, k: int)
    ensures Above(a + b, k) == Above(a, k) + Above(b, k)
  {
    if a == [] {
      assert a + b == b;
    } else {
      assert (a + b)[1..] == a[1..] + b;
      AboveConcat(a[1..], b, k);
    }
  }

  lemma {:induction false} BelowAll(s: seq<KV>, k: int)
    requires AllBelow(s, k)
    ensures Below(s, k) == s && Above(s, k) == []
  {
    if s != [] {
      BelowAll(s[1..], k);
    }
  }

  lemma {:induction false} AboveAll(s: seq<KV>, k: int)
    requires AllAbove(s, k)
    ensures Below(s, k) == [] && Above(s, k) == s
  {
    if s != [] {
      AboveAll(s[1..], k);
    }
  }

  /** Only the part b of the list that can hold k is searched or changed. */
  lemma Localize(a: seq<KV>, b: seq<KV>, c: seq<KV>, k: int)
    requires AllBelow(a, k) && AllAbove(c, k)
    ensures Below(a + b + c, k) == a + Below(b, k)
    ensures Above(a + b + c, k) == Above(b, k) + c
  {
    BelowConcat(a + b, c, k);
    BelowConcat(a, b, k);
    AboveConcat(a + b, c, k);
    AboveConcat(a, b, k);
    BelowAll(a, k);
    AboveAll(c, k);
  }

  lemma LocalUpsert(a: seq<KV>, b: seq<KV>, c: seq<KV>, k: rowid, v: seq<byte>)
    requires AllBelow(a, k) && AllAbove(c, k)
    ensures Upsert(a + b + c, k, v) == a + Upsert(b, k, v) + c
    ensures Remove(a + b + c, k) == a + Remove(b, k) + c
  {
    Localize(a, b, c, k);
  }

  lemma {:induction false} LookupSkip(a: seq<KV>, b: seq<KV>, k: int)
    requires AllBelow(a, k)
    ensures Lookup(a + b, k) == Lookup(b, k)
  {
    if a == [] {
      assert a + b == b;
    } else {
      assert (a + b)[1..] == a[1..] + b;
      LookupSkip(a[1..], b, k);
    }
  }

  lemma {:induction false} LookupStop(b: seq<KV>, c: seq<KV>, k: int)
    requires AllAbove(c, k)
    ensures Lookup(b + c, k) == Lookup(b, k)
  {
    if b == [] {
      assert b + c == c;
      if c != [] {
        assert AllAbove(c[1..], k);
        LookupStop([], c[1..], k);
        assert [] + c[1..] == c[1..];
      }
    } else {
      assert (b + c)[1..] == b[1..] + c;
      LookupStop(b[1..], c, k);
    }
  }

  lemma LocalLookup(a: seq<KV>, b: seq<KV>, c: seq<KV>, k: int)
    requires AllBelow(a, k) && AllAbove(c, k)
    ensures Lookup(a + b + c, k) == Lookup(b, k)
  {
    assert a + b + c == a + (b + c);
    LookupSkip(a, b + c, k);
    LookupStop(b, c, k);
  }

  // ---- the list as a finite map ----

  /** How many records come before k. */
  function Pos(s: seq<KV>, k: int): (p: nat)
    ensures p <= |s| && AllBelow(s[..p], k) && (p < |s| ==> s[p].key >= k)
  {
    if s == [] || s[0].key >= k then 0
    else
      var p := Pos(s[1..], k);
      assert s[..p + 1] == [s[0]] + s[1..][..p];
      p + 1
  }

  /** Below and above k are slices, when k's place p and the number n of records at k are known. */
  lemma Slices(s: seq<KV>, k: int, p: nat, n: nat)
    requires p + n <= |s| && n <= 1 && (n == 1 ==> s[p].key == k)
    requires AllBelow(s[..p], k) && AllAbove(s[p + n..], k)
    ensures Below(s, k) == s[..p] && Above(s, k) == s[p + n..]
  {
    assert s == s[..p] + s[p..p + n] + s[p + n..];
    Localize(s[..p], s[p..p + n], s[p + n..], k);
    if n == 1 {
      assert s[p..p + n][1..] == [];
    }
  }

  /** An ascending list is its part below k, the record at k if there is one, and its part above k. */
  lemma Decompose(s: seq<KV>, k: int) returns (p: nat, n: nat)
    requires Ascending(s)
    ensures p + n <= |s| && n <= 1 && (n == 1 ==> s[p].key == k)
    ensures AllBelow(s[..p], k) && AllAbove(s[p + n..], k)
    ensures Below(s, k) == s[..p] && Above(s, k) == s[p + n..]
  {
    p := Pos(s, k);
    n := if p < |s| && s[p].key == k then 1 else 0;
    Slices(s, k, p, n);
  }

  /** Upsert and remove keep the list ascending. */
  lemma StaysAscending(s: seq<KV>, k: rowid, v: seq<byte>)
    requires Ascending(s)
    ensures Ascending(Upsert(s, k, v)) && Ascending(Remove(s, k))
  {
    hide Below, Above;
    var _, _ := Decompose(s, k);
  }

  /** Upsert and remove are update and deletion of one key, seen through lookup. */
  lemma LookupAfter(s: seq<KV>, k: rowid, v: seq<byte>, q: rowid)
    requires Ascending(s)
    ensures Lookup(Upsert(s, k, v), q) == if q == k then Some(v) else Lookup(s, q)
    ensures Lookup(Remove(s, k), q) == if q == k then None else Lookup(s, q)
  {
    var p, n := Decompose(s, k);
    var mid := s[p..p + n];
    assert s == s[..p] + mid + s[p + n..];
    LookupParts(Below(s, k), [KV(k, v)], Above(s, k), k, q);
    LookupParts(Below(s, k), [], Above(s, k), k, q);
    LookupParts(Below(s, k), mid, Above(s, k), k, q);
    assert Below(s, k) + [] + Above(s, k) == Remove(s, k);
  }

  /** Lookup in a list with at most one record at k, for any key q. */
  lemma LookupParts(a: seq<KV>, mid: seq<KV>, c: seq<KV>, k: int, q: int)
    requires AllBelow(a, k) && AllAbove(c, k)
    requires mid == [] || (|mid| == 1 && mid[0].key == k)
    ensures Lookup(a + mid + c, q) ==
            if q < k then Lookup(a, q) else if q == k then Lookup(mid, q) else Lookup(c, q)
  {
    if q < k {
      LookupStop(a, mid + c, q);
      assert a + (mid + c) == a + mid + c;
    } else if q == k {
      LocalLookup(a, mid, c, q);
    } else {
      LookupSkip(a + mid, c, q);
    }
  }
}
