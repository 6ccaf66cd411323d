/** Editing the children of an interior node: what it does to order, records and pages. */
module TreeEdits {
  import opened Common
  import opened Varint
  import opened Nodes
  import opened Table
  import opened Trees

  // ---- descending ----

  lemma {:induction false} KidsShape(kids: seq<Tree>, keys: seq<rowid>, lo: int, hi: int)
    requires KidsOk(kids, keys, lo, hi)
    ensures |kids| == |keys| + 1 && keys != [] && KeysOk(keys, lo, hi)
  {
  }

  /** The records right of the first n children lie above the separator before them. */
  lemma {:induction false} SuffixBounds(kids: seq<Tree>, keys: seq<rowid>, lo: int, hi: int, n: nat)
    requires KidsOk(kids, keys, lo, hi) && 0 < n <= |keys|
    ensures AllAbove(FlatAll(kids[n..]), keys[n - 1])
    decreases |keys| - n
  {
    FlatBounds(kids[n], Lo(keys, n, lo), Hi(keys, n, hi));
    assert kids[n..][1..] == kids[n + 1..];
    if n < |keys| {
      SuffixBounds(kids, keys, lo, hi, n + 1);
    }
  }

  lemma KeysBelow(keys: seq<rowid>, key: int, lo: int, hi: int)
    ensures var i := ChildIndex(keys, key); i > 0 ==> Hi(keys, i - 1, hi) < key
  {
  }

  /** Records outside the chosen child are all below or all above the key. */
  lemma AroundChild(kids: seq<Tree>, keys: seq<rowid>, lo: int, hi: int, key: int)
    requires KidsOk(kids, keys, lo, hi)
    ensures AllBelow(FlatAll(kids[..ChildIndex(keys, key)]), key)
    ensures AllAbove(FlatAll(kids[ChildIndex(keys, key) + 1..]), key)
  {
    hide KidsOk, FlatAll;
    KidsShape(kids, keys, lo, hi);
    KeysBelow(keys, key, lo, hi);
    var i := ChildIndex(keys, key);
    FlatAllBounds(kids, keys, lo, hi, i);
    if i < |keys| {
      SuffixBounds(kids, keys, lo, hi, i + 1);
    } else {
      assert kids[i + 1..] == [];
      FlatNone();
    }
  }

  /** Looking a key up, or changing it, happens in the child the descent chooses. */
  lemma InChild(kids: seq<Tree>, keys: seq<rowid>, lo: int, hi: int, key: rowid, v: seq<byte>)
    requires KidsOk(kids, keys, lo, hi)
    ensures var i := ChildIndex(keys, key);
            var (a, b, c) := (FlatAll(kids[..i]), Flat(kids[i]), FlatAll(kids[i + 1..]));
            && Upsert(FlatAll(kids), key, v) == a + Upsert(b, key, v) + c
            && Remove(FlatAll(kids), key) == a + Remove(b, key) + c
            && Lookup(FlatAll(kids), key) == Lookup(b, key)
  {
    hide *;
    KidsShape(kids, keys, lo, hi);
    var i := ChildIndex(keys, key);
    KidAt(kids, i);
    AroundChild(kids, keys, lo, hi, key);
    LocalUpsert(FlatAll(kids[..i]), Flat(kids[i]), FlatAll(kids[i + 1..]), key, v);
    LocalLookup(FlatAll(kids[..i]), Flat(kids[i]), FlatAll(kids[i + 1..]), key);
  }

  // ---- one child replaced ----

  lemma ReplaceOk(kids: seq<Tree>, keys: seq<rowid>, lo: int, hi: int, i: nat, c: Tree)
    requires KidsOk(kids, keys, lo, hi) && i < |kids|
    requires TreeOk(c, Lo(keys, i, lo), Hi(keys, i, hi)) && Height(c) == Height(kids[i])
    ensures KidsOk(kids[i := c], keys, lo, hi)
  {
  }

  lemma ReplaceParts(kids: seq<Tree>, i: nat, c: Tree)
    requires i < |kids|
    ensures FlatAll(kids[i := c]) == FlatAll(kids[..i]) + Flat(c) + FlatAll(kids[i + 1..])
    ensures IdsAll(kids[i := c]) == IdsAll(kids[..i]) + Ids(c) + IdsAll(kids[i + 1..])
  {
    KidAt(kids[i := c], i);
    assert kids[i := c][..i] == kids[..i];
    assert kids[i := c][i + 1..] == kids[i + 1..];
  }

  // ---- one child split in two ----

  function SplitKids(kids: seq<Tree>, i: nat, c1: Tree, c2: Tree): seq<Tree>
    requires i < |kids|
  {
    kids[..i] + [c1, c2] + kids[i + 1..]
  }

  function SplitKeys(keys: seq<rowid>, i: nat, sep: rowid): seq<rowid>
    requires i <= |keys|
  {
    keys[..i] + [sep] + keys[i..]
  }

  lemma SplitKeysOk(keys: seq<rowid>, lo: int, hi: int, i: nat, sep: rowid)
    requires KeysOk(keys, lo, hi) && i <= |keys| && Lo(keys, i, lo) < sep < Hi(keys, i, hi)
    ensures KeysOk(SplitKeys(keys, i, sep), lo, hi)
  {
  }

  /** The bounds around the j-th child after a split are old ones or the new separator. */
  lemma {:induction false} SplitBounds(keys: seq<rowid>, i: nat, sep: rowid, lo: int, hi: int, j: nat)
    requires i <= |keys| && j <= |keys| + 1
    ensures var qs := SplitKeys(keys, i, sep);
            && Lo(qs, j, lo) == (if j <= i then Lo(keys, j, lo) else if j == i + 1 then sep else Lo(keys, j - 1, lo))
            && Hi(qs, j, hi) == (if j < i then Hi(keys, j, hi) else if j == i then sep else Hi(keys, j - 1, hi))
  {
  }

  lemma {:induction false} SplitKidAt(kids: seq<Tree>, i: nat, c1: Tree, c2: Tree, j: nat)
    requires i < |kids| && j <= |kids|
    ensures SplitKids(kids, i, c1, c2)[j]
         == if j < i then kids[j] else if j == i then c1 else if j == i + 1 then c2 else kids[j - 1]
  {
  }

  lemma {:induction false} KidOk(kids: seq<Tree>, keys: seq<rowid>, lo: int, hi: int, j: nat)
    requires KidsOk(kids, keys, lo, hi) && j < |kids|
    ensures TreeOk(kids[j], Lo(keys, j, lo), Hi(keys, j, hi)) && Height(kids[j]) == Height(kids[0])
  {
  }

  lemma {:induction false} SplitKidOk(kids: seq<Tree>, keys: seq<rowid>, lo: int, hi: int, i: nat, c1: Tree, sep: rowid,
                                      c2: Tree, j: nat)
    requires KidsOk(kids, keys, lo, hi) && i < |kids| && j <= |kids|
    requires TreeOk(c1, Lo(keys, i, lo), sep) && TreeOk(c2, sep, Hi(keys, i, hi))
    requires Height(c1) == Height(kids[i]) && Height(c2) == Height(kids[i])
    ensures TreeOk(SplitKids(kids, i, c1, c2)[j], Lo(SplitKeys(keys, i, sep), j, lo), Hi(SplitKeys(keys, i, sep), j, hi))
    ensures Height(SplitKids(kids, i, c1, c2)[j]) == Height(kids[0])
  {
    hide KidsOk, TreeOk, Lo, Hi, SplitKeys, SplitKids, Height;
    KidsShape(kids, keys, lo, hi);
    var k := if j < i then j else if j <= i + 1 then i else j - 1;
    KidOk(kids, keys, lo, hi, k);
    KidOk(kids, keys, lo, hi, i);
    SplitBounds(keys, i, sep, lo, hi, j);
    SplitKidAt(kids, i, c1, c2, j);
  }

  lemma SplitOk(kids: seq<Tree>, keys: seq<rowid>, lo: int, hi: int, i: nat, c1: Tree, sep: rowid, c2: Tree)
    requires KidsOk(kids, keys, lo, hi) && i < |kids| && Lo(keys, i, lo) < sep < Hi(keys, i, hi)
    requires TreeOk(c1, Lo(keys, i, lo), sep) && TreeOk(c2, sep, Hi(keys, i, hi))
    requires Height(c1) == Height(kids[i]) && Height(c2) == Height(kids[i])
    ensures KidsOk(SplitKids(kids, i, c1, c2), SplitKeys(keys, i, sep), lo, hi)
  {
    var ks, qs := SplitKids(kids, i, c1, c2), SplitKeys(keys, i, sep);
    SplitKeysOk(keys, lo, hi, i, sep);
    forall j | 0 <= j < |ks|
      ensures TreeOk(ks[j], Lo(qs, j, lo), Hi(qs, j, hi)) && Height(ks[j]) == Height(kids[0])
    {
      SplitKidOk(kids, keys, lo, hi, i, c1, sep, c2, j);
    }
    assert ks[0] == if i == 0 then c1 else kids[0];
  }

  lemma SplitParts(kids: seq<Tree>, i: nat, c1: Tree, c2: Tree)
    requires i < |kids|
    ensures FlatAll(SplitKids(kids, i, c1, c2)) == FlatAll(kids[..i]) + (Flat(c1) + Flat(c2)) + FlatAll(kids[i + 1..])
    ensures IdsAll(SplitKids(kids, i, c1, c2)) == IdsAll(kids[..i]) + Ids(c1) + Ids(c2) + IdsAll(kids[i + 1..])
  {
    PairParts(c1, c2);
    FlatConcat(kids[..i] + [c1, c2], kids[i + 1..]);
    FlatConcat(kids[..i], [c1, c2]);
    IdsConcat(kids[..i] + [c1, c2], kids[i + 1..]);
    IdsConcat(kids[..i], [c1, c2]);
  }

  lemma PairParts(c1: Tree, c2: Tree)
    ensures FlatAll([c1, c2]) == Flat(c1) + Flat(c2) && IdsAll([c1, c2]) == Ids(c1) + Ids(c2)
  {
    assert [c1, c2][1..] == [c2] && [c2][1..] == [];
    assert FlatAll([c2]) == Flat(c2) && IdsAll([c2]) == Ids(c2);
  }

  // ---- an interior node cut in two ----

  lemma HalvesOk(kids: seq<Tree>, keys: seq<rowid>, lo: int, hi: int, m: nat)
    requires KidsOk(kids, keys, lo, hi) && 0 < m < |keys| - 1
    ensures KidsOk(kids[..m + 1], keys[..m], lo, keys[m])
    ensures KidsOk(kids[m + 1..], keys[m + 1..], keys[m], hi)
  {
    var ks, qs := kids[m + 1..], keys[m + 1..];
    forall j | 0 <= j < |ks|
      ensures TreeOk(ks[j], Lo(qs, j, keys[m]), Hi(qs, j, hi)) && Height(ks[j]) == Height(kids[0])
    {
      assert ks[j] == kids[m + 1 + j];
    }
  }

  lemma HalvesParts(kids: seq<Tree>, m: nat)
    requires m < |kids|
    ensures FlatAll(kids) == FlatAll(kids[..m + 1]) + FlatAll(kids[m + 1..])
    ensures IdsAll(kids) == IdsAll(kids[..m + 1]) + IdsAll(kids[m + 1..])
  {
    assert kids == kids[..m + 1] + kids[m + 1..];
    FlatConcat(kids[..m + 1], kids[m + 1..]);
    IdsConcat(kids[..m + 1], kids[m + 1..]);
  }
}
