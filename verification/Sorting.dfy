/** Stable sorting: there is exactly one sorted list that keeps equal elements in their order. */
module Sorting {
  import opened Values
  import opened Orders

  /** x goes before the first element it does not exceed. */
  function Insert<T>(cmp: (T, T) -> Ordering, x: T, s: seq<T>): seq<T> {
    if s == [] then [x]
    else if cmp(x, s[0]) != Greater then [x] + s
    else [s[0]] + Insert(cmp, x, s[1..])
  }

  function Sort<T>(cmp: (T, T) -> Ordering, s: seq<T>): seq<T> {
    if s == [] then [] else Insert(cmp, s[0], Sort(cmp, s[1..]))
  }

  /** On good elements cmp is a total order up to equality. */
  ghost predicate Lawful<T(!new)>(cmp: (T, T) -> Ordering, good: T -> bool) {
    && (forall x, y :: good(x) && good(y) ==> cmp(y, x) == Flip(cmp(x, y)))
    && forall x, y, z {:trigger cmp(x, y), cmp(y, z)} ::
         good(x) && good(y) && good(z) && cmp(x, y) != Greater && cmp(y, z) != Greater ==>
           cmp(x, z) != Greater && (cmp(x, z) == Equal ==> cmp(x, y) == Equal && cmp(y, z) == Equal)
  }

  ghost predicate All<T>(good: T -> bool, s: seq<T>) {
    forall i :: 0 <= i < |s| ==> good(s[i])
  }

  ghost predicate Sorted<T>(cmp: (T, T) -> Ordering, s: seq<T>) {
    forall i, j :: 0 <= i < j < |s| ==> cmp(s[i], s[j]) != Greater
  }

  /** The elements equal to x, in the order of s. */
  function Class<T>(cmp: (T, T) -> Ordering, x: T, s: seq<T>): seq<T> {
    if s == [] then []
    else if cmp(x, s[0]) == Equal then [s[0]] + Class(cmp, x, s[1..])
    else Class(cmp, x, s[1..])
  }

  /** t is s sorted, equal elements keeping their order. */
  ghost predicate StablySorted<T(!new)>(cmp: (T, T) -> Ordering, good: T -> bool, s: seq<T>, t: seq<T>) {
    Sorted(cmp, t) && All(good, t) && forall x :: good(x) ==> Class(cmp, x, t) == Class(cmp, x, s)
  }

  lemma {:induction false} InsertHas<T>(cmp: (T, T) -> Ordering, x: T, s: seq<T>, y: T)
    ensures y in Insert(cmp, x, s) <==> y == x || y in s
    ensures |Insert(cmp, x, s)| == |s| + 1
  {
    if s != [] && cmp(x, s[0]) == Greater {
      InsertHas(cmp, x, s[1..], y);
      assert s == [s[0]] + s[1..];
    }
  }

  lemma {:induction false} SortHas<T>(cmp: (T, T) -> Ordering, s: seq<T>, y: T)
    ensures y in Sort(cmp, s) <==> y in s
    ensures |Sort(cmp, s)| == |s|
  {
    if s != [] {
      SortHas(cmp, s[1..], y);
      InsertHas(cmp, s[0], Sort(cmp, s[1..]), y);
      assert s == [s[0]] + s[1..];
    }
  }

  lemma AllHas<T>(good: T -> bool, s: seq<T>)
    ensures All(good, s) <==> forall y :: y in s ==> good(y)
  {
    if forall y :: y in s ==> good(y) {
      forall i | 0 <= i < |s|
        ensures good(s[i])
      {
        assert s[i] in s;
      }
    }
  }

  lemma SortedCons<T>(cmp: (T, T) -> Ordering, x: T, s: seq<T>)
    requires Sorted(cmp, s) && forall y :: y in s ==> cmp(x, y) != Greater
    ensures Sorted(cmp, [x] + s)
  {
  }

  lemma SortedTail<T>(cmp: (T, T) -> Ordering, s: seq<T>)
    requires s != [] && Sorted(cmp, s)
    ensures Sorted(cmp, s[1..]) && forall y :: y in s[1..] ==> cmp(s[0], y) != Greater
  {
    forall y | y in s[1..]
      ensures cmp(s[0], y) != Greater
    {
      var j :| 0 <= j < |s[1..]| && s[1..][j] == y;
      assert s[1..][j] == s[j + 1];
    }
    assert forall i, j :: 0 <= i < j < |s[1..]| ==> s[1..][i] == s[i + 1] && s[1..][j] == s[j + 1];
  }

  lemma LawAt<T(!new)>(cmp: (T, T) -> Ordering, good: T -> bool, x: T, y: T, z: T)
    requires Lawful(cmp, good) && good(x) && good(y) && good(z)
    ensures cmp(y, x) == Flip(cmp(x, y)) && cmp(x, x) == Equal
    ensures cmp(x, y) != Greater && cmp(y, z) != Greater ==>
              cmp(x, z) != Greater && (cmp(x, z) == Equal ==> cmp(x, y) == Equal && cmp(y, z) == Equal)
  {
  }

  lemma {:induction false} InsertSorted<T(!new)>(cmp: (T, T) -> Ordering, good: T -> bool, x: T, s: seq<T>)
    requires Lawful(cmp, good) && good(x) && All(good, s) && Sorted(cmp, s)
    ensures Sorted(cmp, Insert(cmp, x, s)) && All(good, Insert(cmp, x, s))
  {
    hide Lawful, Sorted, All;
    AllHas(good, s);
    AllHas(good, Insert(cmp, x, s));
    forall y
      ensures y in Insert(cmp, x, s) <==> y == x || y in s
    {
      InsertHas(cmp, x, s, y);
    }
    if s == [] {
      assert [x] == [x] + s;
      SortedCons(cmp, x, s);
    } else {
      assert s == [s[0]] + s[1..];
      SortedTail(cmp, s);
      if cmp(x, s[0]) != Greater {
        forall y | y in s
          ensures cmp(x, y) != Greater
        {
          if y != s[0] {
            LawAt(cmp, good, x, s[0], y);
          }
        }
        SortedCons(cmp, x, s);
      } else {
        AllHas(good, s[1..]);
        InsertSorted(cmp, good, x, s[1..]);
        forall y | y in Insert(cmp, x, s[1..])
          ensures cmp(s[0], y) != Greater
        {
          InsertHas(cmp, x, s[1..], y);
          LawAt(cmp, good, x, s[0], s[0]);
        }
        SortedCons(cmp, s[0], Insert(cmp, x, s[1..]));
      }
    }
  }

  lemma {:induction false} InsertClass<T(!new)>(cmp: (T, T) -> Ordering, good: T -> bool, x: T, s: seq<T>, y: T)
    requires Lawful(cmp, good) && good(x) && All(good, s) && good(y)
    ensures Class(cmp, y, Insert(cmp, x, s)) == Class(cmp, y, [x] + s)
  {
    hide Lawful;
    assert ([x] + s)[1..] == s;
    if s != [] && cmp(x, s[0]) == Greater {
      InsertClass(cmp, good, x, s[1..], y);
      var t := Insert(cmp, x, s[1..]);
      assert ([s[0]] + t)[1..] == t && ([x] + s[1..])[1..] == s[1..];
      LawAt(cmp, good, x, y, s[0]);
      LawAt(cmp, good, y, x, s[0]);
      LawAt(cmp, good, x, s[0], s[0]);
    }
  }

  /** Sorting yields a stably sorted list. */
  lemma {:induction false} SortStable<T(!new)>(cmp: (T, T) -> Ordering, good: T -> bool, s: seq<T>)
    requires Lawful(cmp, good) && All(good, s)
    ensures StablySorted(cmp, good, s, Sort(cmp, s))
  {
    hide Lawful, Sorted, All;
    if s == [] {
      NoneSorted(cmp, good);
    } else {
      assert s == [s[0]] + s[1..];
      AllTail(good, s);
      SortStable(cmp, good, s[1..]);
      var t := Sort(cmp, s[1..]);
      InsertSorted(cmp, good, s[0], t);
      forall x | good(x)
        ensures Class(cmp, x, Insert(cmp, s[0], t)) == Class(cmp, x, s)
      {
        InsertClass(cmp, good, s[0], t, x);
        assert ([s[0]] + t)[1..] == t;
      }
    }
  }

  lemma NoneSorted<T>(cmp: (T, T) -> Ordering, good: T -> bool)
    ensures Sorted(cmp, []) && All(good, [])
  {
  }

  lemma AllTail<T>(good: T -> bool, s: seq<T>)
    requires s != [] && All(good, s)
    ensures good(s[0]) && All(good, s[1..])
  {
  }

  lemma {:induction false} ClassHas<T>(cmp: (T, T) -> Ordering, x: T, s: seq<T>, y: T)
    ensures y in Class(cmp, x, s) <==> y in s && cmp(x, y) == Equal
  {
    if s != [] {
      ClassHas(cmp, x, s[1..], y);
      assert s == [s[0]] + s[1..];
    }
  }

  /** Two stably sorted versions of a list are the same list. */
  lemma {:induction false} StableUnique<T(!new)>(cmp: (T, T) -> Ordering, good: T -> bool, a: seq<T>, b: seq<T>)
    requires Lawful(cmp, good) && Sorted(cmp, a) && Sorted(cmp, b) && All(good, a) && All(good, b)
    requires forall x :: good(x) ==> Class(cmp, x, a) == Class(cmp, x, b)
    ensures a == b
    decreases |a| + |b|
  {
    hide Lawful, Sorted, All, Class;
    AllHas(good, a);
    AllHas(good, b);
    if a == [] && b == [] {
    } else if a == [] {
      Members(cmp, good, b, a, b[0]);
    } else {
      Members(cmp, good, a, b, a[0]);
      Members(cmp, good, b, a, b[0]);
      SameHead(cmp, good, a, b);
      assert a == [a[0]] + a[1..] && b == [b[0]] + b[1..];
      SortedTail(cmp, a);
      SortedTail(cmp, b);
      AllTail(good, a);
      AllTail(good, b);
      forall x | good(x)
        ensures Class(cmp, x, a[1..]) == Class(cmp, x, b[1..])
      {
        ClassTail(cmp, x, a);
        ClassTail(cmp, x, b);
        Cancel(a[0], Class(cmp, x, a[1..]), Class(cmp, x, b[1..]));
      }
      StableUnique(cmp, good, a[1..], b[1..]);
    }
  }

  lemma Members<T(!new)>(cmp: (T, T) -> Ordering, good: T -> bool, a: seq<T>, b: seq<T>, x: T)
    requires Lawful(cmp, good) && good(x) && x in a && Class(cmp, x, a) == Class(cmp, x, b)
    ensures x in b
  {
    LawAt(cmp, good, x, x, x);
    ClassHas(cmp, x, a, x);
    ClassHas(cmp, x, b, x);
  }

  lemma ClassTail<T>(cmp: (T, T) -> Ordering, x: T, s: seq<T>)
    requires s != []
    ensures Class(cmp, x, s) == if cmp(x, s[0]) == Equal then [s[0]] + Class(cmp, x, s[1..]) else Class(cmp, x, s[1..])
  {
  }

  lemma SameHead<T(!new)>(cmp: (T, T) -> Ordering, good: T -> bool, a: seq<T>, b: seq<T>)
    requires Lawful(cmp, good) && Sorted(cmp, a) && Sorted(cmp, b) && All(good, a) && All(good, b)
    requires a != [] && b != [] && a[0] in b && b[0] in a
    requires Class(cmp, a[0], a) == Class(cmp, a[0], b)
    ensures a[0] == b[0]
  {
    hide Lawful, Sorted, Class;
    SortedTail(cmp, a);
    SortedTail(cmp, b);
    assert a == [a[0]] + a[1..] && b == [b[0]] + b[1..];
    LawAt(cmp, good, a[0], b[0], b[0]);
    LawAt(cmp, good, a[0], a[0], a[0]);
    ClassTail(cmp, a[0], a);
    ClassTail(cmp, a[0], b);
    Heads(a[0], Class(cmp, a[0], a[1..]), b[0], Class(cmp, a[0], b[1..]));
  }

  lemma Heads<T>(x: T, s: seq<T>, y: T, t: seq<T>)
    ensures [x] + s == [y] + t ==> x == y
  {
    assert ([x] + s)[0] == x && ([y] + t)[0] == y;
  }

  lemma Cancel<T>(x: T, s: seq<T>, t: seq<T>)
    ensures [x] + s == [x] + t ==> s == t
  {
    assert ([x] + s)[1..] == s && ([x] + t)[1..] == t;
  }
}
