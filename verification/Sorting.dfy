/**
 The stable sort of a list by an integer key, as std::list::sort and std::sort with a
 comparator "key less than" perform it.
 */
module Sorting {

  ghost predicate Ordered<T>(s: seq<T>, key: T -> int) {
    forall i, j :: 0 <= i < j < |s| ==> key(s[i]) <= key(s[j])
  }

  /** Where x belongs in an ordered list: after every element whose key is not larger. */
  function Place<T>(s: seq<T>, x: T, key: T -> int): (k: nat)
    ensures k <= |s|
    ensures k > 0 ==> key(s[k - 1]) <= key(x)
    ensures forall j :: k <= j < |s| ==> key(s[j]) > key(x)
  {
    if s == [] || key(s[|s| - 1]) <= key(x) then |s| else Place(s[..|s| - 1], x, key)
  }

  function InsertAt<T>(s: seq<T>, k: nat, x: T): (r: seq<T>)
    requires k <= |s|
    ensures |r| == |s| + 1
    ensures forall i :: 0 <= i < |r| ==> r[i] == if i < k then s[i] else if i == k then x else s[i - 1]
  {
    s[..k] + [x] + s[k..]
  }

  lemma InsertAtContents<T>(s: seq<T>, k: nat, x: T)
    requires k <= |s|
    ensures multiset(InsertAt(s, k, x)) == multiset(s) + multiset{x}
  {
    assert s == s[..k] + s[k..];
  }

  function Sort<T>(s: seq<T>, key: T -> int): (r: seq<T>)
    ensures |r| == |s|
  {
    if s == [] then [] else
      var r := Sort(s[..|s| - 1], key);
      InsertAt(r, Place(r, s[|s| - 1], key), s[|s| - 1])
  }

  /** One round of a search for the place from the end of the list. */
  lemma PlaceStep<T>(s: seq<T>, k: nat, x: T, key: T -> int)
    requires 0 < k <= |s|
    ensures Place(s[..k], x, key) == if key(s[k - 1]) <= key(x) then k else Place(s[..k - 1], x, key)
  {
    assert s[..k][..k - 1] == s[..k - 1];
  }

  /** One round of the sort. */
  lemma SortStep<T>(s: seq<T>, n: nat, key: T -> int)
    requires n < |s|
    ensures Sort(s[..n + 1], key) == InsertAt(Sort(s[..n], key), Place(Sort(s[..n], key), s[n], key), s[n])
  {
    assert s[..n + 1][..n] == s[..n];
  }

  lemma DropLast<T>(s: seq<T>)
    requires s != []
    ensures multiset(s) == multiset(s[..|s| - 1]) + multiset{s[|s| - 1]}
  {
    assert s == s[..|s| - 1] + [s[|s| - 1]];
  }

  lemma {:induction false} SortContents<T>(s: seq<T>, key: T -> int)
    ensures multiset(Sort(s, key)) == multiset(s)
  {
    if s != [] {
      var r, x := Sort(s[..|s| - 1], key), s[|s| - 1];
      SortContents(s[..|s| - 1], key);
      InsertAtContents(r, Place(r, x, key), x);
      DropLast(s);
    }
  }

  lemma SortMembers<T>(s: seq<T>, key: T -> int)
    ensures forall x :: x in Sort(s, key) <==> x in s
  {
    SortContents(s, key);
    forall x ensures x in Sort(s, key) <==> x in s {
      assert x in multiset(Sort(s, key)) <==> x in multiset(s);
    }
  }

  lemma InsertOrders<T>(s: seq<T>, x: T, key: T -> int)
    requires Ordered(s, key)
    ensures Ordered(InsertAt(s, Place(s, x, key), x), key)
  {
    var k := Place(s, x, key);
    var r := InsertAt(s, k, x);
    forall i, j | 0 <= i < j < |r| ensures key(r[i]) <= key(r[j]) {
      if i < k {
        assert key(s[i]) <= key(s[k - 1]) <= key(x);
      }
      assert r[i] == if i < k then s[i] else if i == k then x else s[i - 1];
      assert r[j] == if j < k then s[j] else if j == k then x else s[j - 1];
    }
  }

  lemma {:induction false} SortOrders<T>(s: seq<T>, key: T -> int)
    ensures Ordered(Sort(s, key), key)
  {
    if s != [] {
      SortOrders(s[..|s| - 1], key);
      InsertOrders(Sort(s[..|s| - 1], key), s[|s| - 1], key);
    }
  }

  /** In an ordered list there is only one place that fits. */
  lemma PlaceIs<T>(s: seq<T>, x: T, key: T -> int, k: nat)
    requires Ordered(s, key) && k <= |s|
    requires k > 0 ==> key(s[k - 1]) <= key(x)
    requires k < |s| ==> key(s[k]) > key(x)
    ensures Place(s, x, key) == k
  {
  }

  /** Sorting an ordered list leaves it as it is. */
  lemma {:induction false} SortOfOrdered<T>(s: seq<T>, key: T -> int)
    requires Ordered(s, key)
    ensures Sort(s, key) == s
  {
    if s != [] {
      var n := |s| - 1;
      var r := s[..n];
      SortOfOrdered(r, key);
      assert n > 0 ==> key(s[n - 1]) <= key(s[n]);
      PlaceIs(r, s[n], key, n);
      assert s == InsertAt(r, n, s[n]);
    }
  }

  /** Adding an element in order. */
  lemma SortOneMore<T>(s: seq<T>, x: T, key: T -> int)
    ensures Sort(s + [x], key) == InsertAt(Sort(s, key), Place(Sort(s, key), x, key), x)
  {
    assert (s + [x])[..|s|] == s;
  }

  lemma OrderedPrefix<T>(s: seq<T>, key: T -> int, n: nat)
    requires Ordered(s, key) && n <= |s|
    ensures Ordered(s[..n], key)
  {
  }

  lemma PlaceBound<T>(s: seq<T>, x: T, key: T -> int, n: nat)
    requires Ordered(s, key) && 0 < n <= |s|
    ensures Place(s, x, key) < n <==> key(s[n - 1]) > key(x)
  {
    var p := Place(s, x, key);
    if n < p {
      assert key(s[n - 1]) <= key(s[p - 1]);
    }
  }

  /** An element that belongs among the first n has the same place in a list of just those. */
  lemma PlaceInFront<T>(s: seq<T>, x: T, key: T -> int, n: nat)
    requires Ordered(s, key) && 0 < n <= |s| && key(s[n - 1]) > key(x)
    ensures Place(s[..n - 1], x, key) == Place(s, x, key) < n
  {
    PlaceBound(s, x, key, n);
    OrderedPrefix(s, key, n - 1);
    PlaceIs(s[..n - 1], x, key, Place(s, x, key));
  }

  lemma TakeInserted<T>(s: seq<T>, p: nat, x: T, n: nat)
    requires 0 < n <= |s| && p <= |s|
    ensures InsertAt(s, p, x)[..n] == if p < n then InsertAt(s[..n - 1], p, x) else s[..n]
  {
    var r := InsertAt(s, p, x);
    if p < n {
      var q := InsertAt(s[..n - 1], p, x);
      forall i | 0 <= i < n ensures r[i] == q[i] {
        assert r[i] == if i < p then s[i] else if i == p then x else s[i - 1];
      }
      assert r[..n] == q;
    } else {
      assert r[..n] == s[..n];
    }
  }

  /** Sorting in one element more, when the others are in order. */
  lemma SortedInsert<T>(s: seq<T>, x: T, key: T -> int)
    requires Ordered(s, key)
    ensures Sort(s + [x], key) == InsertAt(s, Place(s, x, key), x)
    ensures (s == [] || key(s[|s| - 1]) <= key(x)) ==> InsertAt(s, Place(s, x, key), x) == s + [x]
  {
    SortOneMore(s, x, key);
    SortOfOrdered(s, key);
    if s == [] || key(s[|s| - 1]) <= key(x) {
      PlaceIs(s, x, key, |s|);
      InsertBehind(s, x);
    }
  }

  lemma InsertBehind<T>(s: seq<T>, x: T)
    ensures InsertAt(s, |s|, x) == s + [x]
  {
  }

  /** A relation that no two positions of a list satisfy. */
  ghost predicate Free<T(!new)>(s: seq<T>, rel: (T, T) -> bool) {
    forall i, j :: 0 <= i < j < |s| ==> !rel(s[i], s[j])
  }

  ghost predicate Symmetric<T(!new)>(rel: (T, T) -> bool) {
    forall x, y :: rel(x, y) == rel(y, x)
  }

  lemma InsertFree<T(!new)>(s: seq<T>, k: nat, x: T, rel: (T, T) -> bool)
    requires Free(s, rel) && k <= |s|
    requires forall i :: 0 <= i < |s| ==> !rel(s[i], x) && !rel(x, s[i])
    ensures Free(InsertAt(s, k, x), rel)
  {
  }

  /** Sorting cannot bring about a clash that the list did not have. */
  lemma {:induction false} SortFree<T(!new)>(s: seq<T>, key: T -> int, rel: (T, T) -> bool)
    requires Free(s, rel) && Symmetric(rel)
    ensures Free(Sort(s, key), rel)
  {
    if s != [] {
      var n := |s| - 1;
      var r := Sort(s[..n], key);
      SortFree(s[..n], key, rel);
      SortMembers(s[..n], key);
      forall i | 0 <= i < |r| ensures !rel(r[i], s[n]) && !rel(s[n], r[i]) {
        assert r[i] in r && r[i] in s[..n];
      }
      InsertFree(r, Place(r, s[n], key), s[n], rel);
    }
  }

  lemma DropSame<T>(s: seq<T>, r: seq<T>)
    requires multiset(s) == multiset(r) && |s| == |r| > 0 && s[|s| - 1] == r[|r| - 1]
    ensures multiset(s[..|s| - 1]) == multiset(r[..|r| - 1])
  {
    DropLast(s);
    DropLast(r);
    assert multiset(s[..|s| - 1]) == multiset(s) - multiset{s[|s| - 1]};
    assert multiset(r[..|r| - 1]) == multiset(r) - multiset{r[|r| - 1]};
  }

  /** The last elements of two ordered lists with the same contents have the same key. */
  lemma SameLast<T>(s: seq<T>, r: seq<T>, key: T -> int)
    requires multiset(s) == multiset(r) && |s| == |r| > 0
    requires Ordered(r, key) && forall i, j :: 0 <= i < j < |s| ==> key(s[i]) < key(s[j])
    ensures s[|s| - 1] == r[|r| - 1]
  {
    var n := |s| - 1;
    var x, y := s[n], r[n];
    assert y in multiset(s) && x in multiset(r);
    var i :| 0 <= i < |s| && s[i] == y;
    var j :| 0 <= j < |r| && r[j] == x;
    assert key(x) <= key(y);
    assert i == n;
  }

  /** A list whose order is strict by key is the only ordered arrangement of its contents. */
  lemma {:induction false} OrderedUnique<T>(s: seq<T>, r: seq<T>, key: T -> int)
    requires multiset(s) == multiset(r) && Ordered(r, key)
    requires forall i, j :: 0 <= i < j < |s| ==> key(s[i]) < key(s[j])
    ensures s == r
  {
    assert |s| == |multiset(s)| && |r| == |multiset(r)|;
    if s != [] {
      SameLast(s, r, key);
      DropSame(s, r);
      var n := |s| - 1;
      OrderedUnique(s[..n], r[..n], key);
      assert forall i :: 0 <= i < n ==> s[i] == s[..n][i] == r[..n][i] == r[i];
    }
  }

  lemma SortIsThe<T>(s: seq<T>, r: seq<T>, key: T -> int)
    requires multiset(s) == multiset(r)
    requires forall i, j :: 0 <= i < j < |s| ==> key(s[i]) < key(s[j])
    ensures Sort(r, key) == s
  {
    SortContents(r, key);
    SortOrders(r, key);
    OrderedUnique(s, Sort(r, key), key);
  }

  lemma TakeRest<T>(s: seq<T>, n: nat)
    requires n <= |s|
    ensures multiset(s[..n]) <= multiset(s) && multiset(s) - multiset(s[..n]) == multiset(s[n..])
  {
    assert s == s[..n] + s[n..];
  }

  lemma OrderedCut<T>(s: seq<T>, key: T -> int, n: nat, x: T, y: T)
    requires n <= |s| && Ordered(s, key) && x in s[..n] && y in s[n..]
    ensures key(x) <= key(y)
  {
    var i :| 0 <= i < n && s[i] == x;
    var j :| 0 <= j < |s| - n && s[n..][j] == y;
    assert s[n + j] == y;
  }

  /** The first n of a sorted list are no larger than what is left out. */
  lemma TakeSmallest<T>(s: seq<T>, key: T -> int, n: nat, x: T, y: T)
    requires n <= |s|
    ensures var kept := Sort(s, key)[..n];
      && multiset(kept) <= multiset(s)
      && (x in kept && y in multiset(s) - multiset(kept) ==> key(x) <= key(y))
  {
    var r := Sort(s, key);
    SortContents(s, key);
    SortOrders(s, key);
    TakeRest(r, n);
    if x in r[..n] && y in multiset(r[n..]) {
      OrderedCut(r, key, n, x, y);
    }
  }
}
