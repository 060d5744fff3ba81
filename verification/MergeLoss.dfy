/**
 What merging two sibling buckets can cost.  The test before a merge counts only
 effective entries; what is kept is decided by age.
 */
module MergeLoss {
  import opened Ids
  import opened Prefixes
  import opened Sorting
  import opened KBuckets
  import opened Tables
  import opened Merging
  import opened Samples

  // ------------------------------------------------------------ what a merge keeps

  function Min8(n: nat): nat {
    if n < MAX_ENTRIES_PER_BUCKET then n else MAX_ENTRIES_PER_BUCKET
  }

  /** The eight oldest, oldest first. */
  function Oldest(es: seq<Entry>): seq<Entry> {
    Sort(es, CREATED)[..Min8(|es|)]
  }

  ghost predicate NoneBad(es: seq<Entry>, now: Time) {
    forall x :: x in es ==> !x.NeedsReplacement(now)
  }

  /** Inserting into an ordered list with room. */
  lemma InsertInOrder(es: seq<Entry>, e: Entry)
    requires Ordered(es, CREATED) && |es| < MAX_ENTRIES_PER_BUCKET
    ensures Insert(es, e) == InsertAt(es, Place(es, e, CREATED), e)
  {
    SortedInsert(es, e, CREATED);
  }

  lemma NoneBadFirst(es: seq<Entry>, now: Time)
    ensures NoneBad(es, now) <==> FirstBad(es, now) == |es|
  {
    assert FirstBad(es, now) < |es| ==> es[FirstBad(es, now)] in es;
  }

  /** A newcomer to a bucket of good entries that has room. */
  lemma PutWithRoom(es: seq<Entry>, e: Entry, now: Time)
    requires Ordered(es, CREATED) && |es| < MAX_ENTRIES_PER_BUCKET && e.reachable && Unrelated(es, e)
    ensures Put(es, e, now) == InsertAt(es, Place(es, e, CREATED), e)
  {
    NoMatchIsUnrelated(es, e);
    InsertInOrder(es, e);
  }

  /** A newcomer to a full bucket of good entries: the youngest of them and it has to go. */
  lemma PutWhenFull(es: seq<Entry>, e: Entry, now: Time)
    requires Ordered(es, CREATED) && |es| == MAX_ENTRIES_PER_BUCKET
    requires NoneBad(es, now) && e.reachable && Unrelated(es, e)
    ensures var n := |es| - 1;
      Put(es, e, now) == if es[n].created > e.created then InsertAt(es[..n], Place(es[..n], e, CREATED), e) else es
  {
    var n := |es| - 1;
    NoMatchIsUnrelated(es, e);
    NoneBadFirst(es, now);
    assert RemoveAt(es, n) == es[..n];
    OrderedPrefix(es, CREATED, n);
    InsertInOrder(es[..n], e);
  }

  /** A newcomer to a full list c, seen from the longer list s that c was cut from. */
  lemma CutStep(s: seq<Entry>, c: seq<Entry>, e: Entry, r: seq<Entry>)
    requires Ordered(s, CREATED) && |s| >= MAX_ENTRIES_PER_BUCKET && c == s[..MAX_ENTRIES_PER_BUCKET]
    requires var n := MAX_ENTRIES_PER_BUCKET - 1;
      r == if c[n].created > e.created then InsertAt(c[..n], Place(c[..n], e, CREATED), e) else c
    ensures r == InsertAt(s, Place(s, e, CREATED), e)[..MAX_ENTRIES_PER_BUCKET]
  {
    var n := MAX_ENTRIES_PER_BUCKET;
    assert c[..n - 1] == s[..n - 1];
    PlaceBound(s, e, CREATED, n);
    TakeInserted(s, Place(s, e, CREATED), e, n);
    if s[n - 1].created > e.created {
      PlaceInFront(s, e, CREATED, n);
    }
  }

  lemma PutIntoCut(s: seq<Entry>, e: Entry, now: Time)
    requires Ordered(s, CREATED) && NoneBad(s, now) && e.reachable && Unrelated(s, e)
    ensures Put(s[..Min8(|s|)], e, now) == InsertAt(s, Place(s, e, CREATED), e)[..Min8(|s| + 1)]
  {
    if |s| < MAX_ENTRIES_PER_BUCKET {
      WholePrefix(s);
      PutWithRoom(s, e, now);
      WholePrefix(InsertAt(s, Place(s, e, CREATED), e));
    } else {
      PutIntoFullCut(s, s[..MAX_ENTRIES_PER_BUCKET], e, now);
    }
  }

  lemma PutIntoFullCut(s: seq<Entry>, c: seq<Entry>, e: Entry, now: Time)
    requires Ordered(s, CREATED) && |s| >= MAX_ENTRIES_PER_BUCKET && c == s[..MAX_ENTRIES_PER_BUCKET]
    requires NoneBad(s, now) && e.reachable && Unrelated(s, e)
    ensures Put(c, e, now) == InsertAt(s, Place(s, e, CREATED), e)[..MAX_ENTRIES_PER_BUCKET]
  {
    var n := MAX_ENTRIES_PER_BUCKET;
    OrderedPrefix(s, CREATED, n);
    PutWhenFull(c, e, now);
    CutStep(s, c, e, Put(c, e, now));
  }

  lemma WholePrefix<T>(s: seq<T>)
    ensures s[..|s|] == s
  {
  }

  /** One more good entry: the bucket holds the eight oldest of those put so far. */
  lemma OldestStep(es: seq<Entry>, e: Entry, now: Time)
    requires NoneBad(es, now) && e.reachable && Unrelated(es, e)
    ensures Put(Oldest(es), e, now) == Oldest(es + [e])
  {
    SortOrders(es, CREATED);
    SortMembers(es, CREATED);
    SortOneMore(es, e, CREATED);
    PutIntoCut(Sort(es, CREATED), e, now);
  }

  lemma {:induction false} PutAllKeepsOldest(es: seq<Entry>, now: Time)
    requires Pairwise(es) && NoneBad(es, now) && forall x :: x in es ==> x.reachable
    ensures PutAll([], es, now) == Oldest(es)
  {
    if es != [] {
      var n := |es| - 1;
      assert es == es[..n] + [es[n]];
      PairwiseFront(es[..n], es[n], es);
      PutAllKeepsOldest(es[..n], now);
      LastUnrelated(es);
      OldestStep(es[..n], es[n], now);
    }
  }

  lemma LastUnrelated(es: seq<Entry>)
    requires es != [] && Pairwise(es)
    ensures Unrelated(es[..|es| - 1], es[|es| - 1])
  {
    var n := |es| - 1;
    forall x | x in es[..n] ensures !x.Matches(es[n]) {
      var i :| 0 <= i < n && es[i] == x;
    }
  }

  lemma {:induction false} PutAllJoin(base: seq<Entry>, a: seq<Entry>, b: seq<Entry>, now: Time)
    ensures PutAll(PutAll(base, a, now), b, now) == PutAll(base, a + b, now)
  {
    if b == [] {
      assert a + b == a;
    } else {
      var n := |b| - 1;
      PutAllJoin(base, a, b[..n], now);
      PutAllStep(PutAll(base, a, now), b[..n], b[n], now);
      PutAllStep(base, a + b[..n], b[n], now);
      assert b == b[..n] + [b[n]] && a + b == a + b[..n] + [b[n]];
    }
  }

  ghost predicate Calm(b1: Bucket, b2: Bucket, now: Time) {
    !AddressClash(b1, b2) && NoneBad(b1.entries + b2.entries, now)
  }

  lemma BothPairwise(t: Table, i: nat)
    requires Inv(t) && 1 <= i < |t| && !AddressClash(t[i - 1], t[i])
    ensures Pairwise(t[i - 1].entries + t[i].entries)
    ensures forall x :: x in t[i - 1].entries + t[i].entries ==> x.reachable
  {
    var b1, b2 := t[i - 1], t[i];
    assert BucketOk(b1) && BucketOk(b2);
    forall x, y | x in b1.entries && y in b2.entries ensures !x.Matches(y) {
      DisjointIds(t, i - 1, i, x, y);
    }
    JoinPairwise(b1.entries, b2.entries);
  }

  /** Without bad entries and shared addresses a merge keeps exactly the eight oldest entries. */
  lemma MergedIsOldest(t: Table, i: nat, now: Time)
    requires Inv(t) && 1 <= i < |t| && Calm(t[i - 1], t[i], now)
    ensures Merged(t[i - 1], t[i], now).entries == Oldest(t[i - 1].entries + t[i].entries)
  {
    BothPairwise(t, i);
    PutAllJoin([], t[i - 1].entries, t[i].entries, now);
    PutAllKeepsOldest(t[i - 1].entries + t[i].entries, now);
  }

  /** One more unrelated entry fills the bucket up, but not beyond eight. */
  lemma PutSize(es: seq<Entry>, e: Entry, now: Time)
    requires Sound(es) && e.reachable && Unrelated(es, e)
    ensures |Put(es, e, now)| == Min8(|es| + 1)
  {
    var r := Put(es, e, now);
    PutContents(es, e, now);
    assert |multiset(r)| == |r| && |multiset(es)| == |es|;
    if |es| == MAX_ENTRIES_PER_BUCKET && r != es {
      var x :| x in es && multiset(r) + multiset{x} == multiset(es) + multiset{e};
      assert |multiset(r) + multiset{x}| == |r| + 1 && |multiset(es) + multiset{e}| == |es| + 1;
    }
  }

  lemma {:induction false} PutAllSize(es: seq<Entry>, now: Time)
    requires Pairwise(es) && forall x :: x in es ==> x.reachable
    ensures |PutAll([], es, now)| == Min8(|es|) && Sound(PutAll([], es, now))
    ensures forall x :: x in PutAll([], es, now) ==> x in es
  {
    if es != [] {
      var n := |es| - 1;
      var prev := PutAll([], es[..n], now);
      assert es == es[..n] + [es[n]];
      PairwiseFront(es[..n], es[n], es);
      PutAllSize(es[..n], now);
      LastUnrelated(es);
      PutSize(prev, es[n], now);
      PutSound(prev, es[n], now);
      PutOrigin(prev, es[n], now);
    }
  }

  /** Bad entries or not: without shared addresses a merge loses only as many entries as do not fit. */
  lemma MergedSize(t: Table, i: nat, now: Time)
    requires Inv(t) && 1 <= i < |t| && !AddressClash(t[i - 1], t[i])
    ensures |Merged(t[i - 1], t[i], now).entries| == Min8(|t[i - 1].entries| + |t[i].entries|)
  {
    BothPairwise(t, i);
    PutAllJoin([], t[i - 1].entries, t[i].entries, now);
    PutAllSize(t[i - 1].entries + t[i].entries, now);
  }

  // ---------------------------------------------------------------- what it loses

  /** Some entry that counts for the size test is gone after the merge. */
  ghost predicate LosesEffective(t: Table, i: nat, now: Time)
    requires 1 <= i < |t|
  {
    exists x :: x in t[i - 1].entries + t[i].entries && !x.RemovableWithoutReplacement() && !Stored(MergeAt(t, i, now), x)
  }

  /** Of the two buckets' entries, the merged bucket's are those still stored. */
  lemma StillStored(t: Table, i: nat, now: Time, x: Entry)
    requires Inv(t) && 1 <= i < |t| && Sibling(t[i - 1].prefix, t[i].prefix)
    requires x in t[i - 1].entries + t[i].entries
    ensures Stored(MergeAt(t, i, now), x) <==> x in Merged(t[i - 1], t[i], now).entries
  {
    var r := MergeAt(t, i, now);
    assert r[i - 1] == Merged(t[i - 1], t[i], now);
    if Stored(r, x) {
      var k :| 0 <= k < |r| && x in r[k].entries;
      NotElsewhere(t, i, r, x, k);
    }
  }

  lemma NotElsewhere(t: Table, i: nat, r: Table, x: Entry, k: nat)
    requires Inv(t) && 1 <= i < |t| && |r| == |t| - 1 && x in t[i - 1].entries + t[i].entries
    requires forall m :: 0 <= m < |r| && m != i - 1 ==> r[m] == t[if m < i - 1 then m else m + 1]
    requires k < |r| && x in r[k].entries
    ensures k == i - 1
  {
    if k != i - 1 {
      SamePlace(t, if k < i - 1 then k else k + 1, if x in t[i].entries then i else i - 1, x);
    }
  }

  /** Who has to go when e comes: nobody, e itself, the first bad entry, or the youngest. */
  function Displaced(es: seq<Entry>, e: Entry, now: Time): seq<Entry> {
    if FirstMatch(es, e) < |es| || !e.reachable then [e]
    else if |es| < MAX_ENTRIES_PER_BUCKET then []
    else if FirstBad(es, now) < |es| then [es[FirstBad(es, now)]]
    else if es[|es| - 1].created > e.created then [es[|es| - 1]]
    else [e]
  }

  /** Everyone who has to go while a list of entries is put into an empty bucket. */
  function AllDisplaced(es: seq<Entry>, now: Time): seq<Entry> {
    if es == [] then []
    else
      var n := |es| - 1;
      AllDisplaced(es[..n], now) + Displaced(PutAll([], es[..n], now), es[n], now)
  }

  lemma PutConserves(es: seq<Entry>, e: Entry, now: Time)
    requires |es| <= MAX_ENTRIES_PER_BUCKET && forall x :: x in es ==> x.id != e.id
    ensures multiset(Put(es, e, now)) + multiset(Displaced(es, e, now)) == multiset(es) + multiset{e}
  {
    var k := FirstMatch(es, e);
    if k < |es| {
      assert es[k] in es;
    } else if e.reachable {
      PutNewConserves(es, e, now);
    }
  }

  lemma PutNewConserves(es: seq<Entry>, e: Entry, now: Time)
    requires |es| <= MAX_ENTRIES_PER_BUCKET && FirstMatch(es, e) == |es| && e.reachable
    ensures multiset(PutNew(es, e, now)) + multiset(Displaced(es, e, now)) == multiset(es) + multiset{e}
  {
    if |es| < MAX_ENTRIES_PER_BUCKET {
      InsertContents(es, e);
    } else if FirstBad(es, now) < |es| {
      Exchange(es, FirstBad(es, now), e);
    } else if es[|es| - 1].created > e.created {
      Exchange(es, |es| - 1, e);
    }
  }

  ghost predicate DistinctIds(es: seq<Entry>) {
    forall i, j :: 0 <= i < j < |es| ==> es[i].id != es[j].id
  }

  lemma {:induction false} PutAllConserves(es: seq<Entry>, now: Time)
    requires DistinctIds(es)
    ensures multiset(PutAll([], es, now)) + multiset(AllDisplaced(es, now)) == multiset(es)
  {
    if es != [] {
      var n := |es| - 1;
      PutAllConserves(es[..n], now);
      assert es == es[..n] + [es[n]];
      OneMoreConserves(es[..n], es[n], now);
    }
  }

  lemma OneMoreConserves(front: seq<Entry>, e: Entry, now: Time)
    requires DistinctIds(front + [e])
    requires multiset(PutAll([], front, now)) + multiset(AllDisplaced(front, now)) == multiset(front)
    ensures multiset(PutAll([], front + [e], now)) + multiset(AllDisplaced(front + [e], now)) == multiset(front + [e])
  {
    var prev, gone := PutAll([], front, now), AllDisplaced(front, now);
    PutAllSound([], front, now);
    NewId(prev, front, e, multiset(gone));
    PutAllStep([], front, e, now);
    DisplacedStep(front, e, now);
    ConserveStep(prev, gone, front, e, now);
  }

  lemma DisplacedStep(front: seq<Entry>, e: Entry, now: Time)
    ensures AllDisplaced(front + [e], now) == AllDisplaced(front, now) + Displaced(PutAll([], front, now), e, now)
  {
    assert (front + [e])[..|front|] == front;
  }

  lemma ConserveStep(prev: seq<Entry>, gone: seq<Entry>, front: seq<Entry>, e: Entry, now: Time)
    requires |prev| <= MAX_ENTRIES_PER_BUCKET && forall x :: x in prev ==> x.id != e.id
    requires multiset(prev) + multiset(gone) == multiset(front)
    ensures multiset(Put(prev, e, now)) + multiset(gone + Displaced(prev, e, now)) == multiset(front + [e])
  {
    PutConserves(prev, e, now);
    AddUp(Put(prev, e, now), Displaced(prev, e, now), prev, gone, front, e);
  }

  lemma AddUp(r: seq<Entry>, d: seq<Entry>, prev: seq<Entry>, gone: seq<Entry>, front: seq<Entry>, e: Entry)
    requires multiset(r) + multiset(d) == multiset(prev) + multiset{e}
    requires multiset(prev) + multiset(gone) == multiset(front)
    ensures multiset(r) + multiset(gone + d) == multiset(front + [e])
  {
    assert multiset(gone + d) == multiset(gone) + multiset(d);
    assert multiset(front + [e]) == multiset(front) + multiset{e};
    assert multiset(r) + multiset(gone + d) == (multiset(r) + multiset(d)) + multiset(gone);
    assert multiset(front) + multiset{e} == (multiset(prev) + multiset{e}) + multiset(gone);
  }

  lemma NewId(prev: seq<Entry>, front: seq<Entry>, e: Entry, gone: multiset<Entry>)
    requires DistinctIds(front + [e]) && multiset(prev) + gone == multiset(front)
    ensures forall x :: x in prev ==> x.id != e.id
  {
    forall x | x in prev ensures x.id != e.id {
      assert x in multiset(prev) + gone;
      var i :| 0 <= i < |front| && front[i] == x;
      assert (front + [e])[i] == x && (front + [e])[|front|] == e;
    }
  }

  lemma BothDistinctIds(t: Table, i: nat)
    requires Inv(t) && 1 <= i < |t|
    ensures DistinctIds(t[i - 1].entries + t[i].entries)
  {
    var a, b := t[i - 1].entries, t[i].entries;
    var all := a + b;
    assert BucketOk(t[i - 1]) && BucketOk(t[i]);
    forall k, m | 0 <= k < m < |all| ensures all[k].id != all[m].id {
      if k < |a| <= m {
        DisjointIds(t, i - 1, i, a[k], b[m - |a|]);
      } else if m < |a| {
        assert !a[k].Matches(a[m]);
      } else {
        assert !b[k - |a|].Matches(b[m - |a|]);
      }
    }
  }

  /** Every merge splits the entries of the two buckets into those kept and those displaced. */
  lemma MergeConserves(t: Table, i: nat, now: Time)
    requires Inv(t) && 1 <= i < |t|
    ensures var all := t[i - 1].entries + t[i].entries;
      multiset(Merged(t[i - 1], t[i], now).entries) + multiset(AllDisplaced(all, now)) == multiset(all)
  {
    BothDistinctIds(t, i);
    PutAllJoin([], t[i - 1].entries, t[i].entries, now);
    PutAllConserves(t[i - 1].entries + t[i].entries, now);
  }

  lemma {:induction false} DistinctOnce(es: seq<Entry>, x: Entry)
    requires DistinctIds(es)
    ensures multiset(es)[x] <= 1
  {
    if es != [] {
      var n := |es| - 1;
      DistinctOnce(es[..n], x);
      assert es == es[..n] + [es[n]];
      assert es[n] !in es[..n];
    }
  }

  /** Of every pair of siblings: a merge loses an effective entry exactly if one is displaced. */
  lemma LosesEffectiveIffDisplaced(t: Table, i: nat, now: Time)
    requires Inv(t) && 1 <= i < |t| && Sibling(t[i - 1].prefix, t[i].prefix)
    ensures LosesEffective(t, i, now) <==>
      exists x :: x in AllDisplaced(t[i - 1].entries + t[i].entries, now) && !x.RemovableWithoutReplacement()
  {
    var all := t[i - 1].entries + t[i].entries;
    var gone, kept := AllDisplaced(all, now), Merged(t[i - 1], t[i], now).entries;
    MergeConserves(t, i, now);
    BothDistinctIds(t, i);
    forall x ensures x in gone <==> x in all && !Stored(MergeAt(t, i, now), x) {
      DistinctOnce(all, x);
      KeptOrGone(kept, gone, all, x);
      if x in all {
        StillStored(t, i, now, x);
      }
    }
  }

  lemma KeptOrGone(kept: seq<Entry>, gone: seq<Entry>, all: seq<Entry>, x: Entry)
    requires multiset(kept) + multiset(gone) == multiset(all) && multiset(all)[x] <= 1
    ensures x in gone <==> x in all && x !in kept
  {
    assert multiset(all)[x] == multiset(kept)[x] + multiset(gone)[x];
  }

  /**
   Where no entry is bad and no address is shared, a merge loses no effective entry
   exactly if all entries beyond the eight oldest are removable.
   */
  lemma LosesEffectiveIff(t: Table, i: nat, now: Time)
    requires Inv(t) && 1 <= i < |t| && Sibling(t[i - 1].prefix, t[i].prefix) && Calm(t[i - 1], t[i], now)
    ensures var all := t[i - 1].entries + t[i].entries;
      !LosesEffective(t, i, now) <==>
      forall x :: x in Sort(all, CREATED)[Min8(|all|)..] ==> x.RemovableWithoutReplacement()
  {
    var all := t[i - 1].entries + t[i].entries;
    var s, n := Sort(all, CREATED), Min8(|all|);
    MergedIsOldest(t, i, now);
    SortMembers(all, CREATED);
    BothPairwise(t, i);
    SortPairwise(all);
    forall x | x in all
      ensures Stored(MergeAt(t, i, now), x) <==> x in s[..n]
      ensures x in s[n..] <==> x !in s[..n]
    {
      StillStored(t, i, now, x);
      CutApart(s, n, x);
    }
    assert forall x :: x in s[n..] ==> x in s;
  }

  lemma CutApart(s: seq<Entry>, n: nat, x: Entry)
    requires Pairwise(s) && n <= |s| && x in s
    ensures x in s[n..] <==> x !in s[..n]
  {
    assert s == s[..n] + s[n..];
    forall i, j | 0 <= i < n <= j < |s| ensures s[i] != s[j] {
      assert !s[i].Matches(s[j]);
    }
  }

  function Effective(es: seq<Entry>): (r: seq<Entry>)
    ensures |r| == EffectiveSize(es)
  {
    if es == [] then []
    else
      var rest := Effective(es[..|es| - 1]);
      if es[|es| - 1].RemovableWithoutReplacement() then rest else rest + [es[|es| - 1]]
  }

  lemma {:induction false} EffectiveMembers(es: seq<Entry>)
    ensures forall x :: x in Effective(es) <==> x in es && !x.RemovableWithoutReplacement()
    ensures multiset(Effective(es)) <= multiset(es)
  {
    if es != [] {
      var n := |es| - 1;
      EffectiveMembers(es[..n]);
      assert es == es[..n] + [es[n]];
    }
  }

  /** The size test is necessary: whatever fails it would lose an effective entry. */
  lemma SizeTestNecessary(t: Table, i: nat, now: Time)
    requires Inv(t) && 1 <= i < |t| && Sibling(t[i - 1].prefix, t[i].prefix)
    ensures !LosesEffective(t, i, now) ==> Mergeable(t, i)
  {
    if !LosesEffective(t, i, now) {
      var a, b, m := t[i - 1].entries, t[i].entries, Merged(t[i - 1], t[i], now).entries;
      EffectiveMembers(a);
      EffectiveMembers(b);
      MergedOk(t, i, now);
      forall x | x in Effective(a) + Effective(b) ensures x in m {
        StillStored(t, i, now, x);
      }
      EffectiveOnce(t, i);
      SizeOfPart(Effective(a) + Effective(b), m);
    }
  }

  lemma EffectiveOnce(t: Table, i: nat)
    requires Inv(t) && 1 <= i < |t|
    ensures var r := multiset(Effective(t[i - 1].entries) + Effective(t[i].entries)); forall x :: r[x] <= 1
  {
    var a, b := t[i - 1].entries, t[i].entries;
    assert BucketOk(t[i - 1]) && BucketOk(t[i]);
    EffectiveMembers(a);
    EffectiveMembers(b);
    forall x ensures multiset(Effective(a) + Effective(b))[x] <= 1 {
      PairwiseOnce(a, x);
      PairwiseOnce(b, x);
      if x in a && x in b {
        DisjointIds(t, i - 1, i, x, x);
      }
    }
  }

  lemma SizeOfPart(r: seq<Entry>, m: seq<Entry>)
    requires var n := multiset(r); forall x :: n[x] <= 1
    requires forall x :: x in r ==> x in m
    ensures |r| <= |m|
  {
    forall x ensures multiset(r)[x] <= multiset(m)[x] {
      if x in multiset(r) {
        assert x in r && x in multiset(m);
      }
    }
    assert multiset(m) == multiset(r) + (multiset(m) - multiset(r));
    assert |multiset(r)| == |r| && |multiset(m)| == |m|;
  }

  // ------------------------------------------------------------------- an example

  /** Two halves: eight stale entries, seen a moment ago, and eight younger effective ones; all addresses differ. */
  ghost function Crowded(whole: Prefix, ip: seq<Byte>, now: Time): Table
    requires whole.depth == -1
  {
    var l, h := SplitBranch(whole, false), SplitBranch(whole, true);
    [Bucket(l, Eight(l, ip, 0, 0, now, 6)), Bucket(h, Eight(h, ip, 8, 1, now, 0))]
  }

  lemma CrowdedOk(whole: Prefix, ip: seq<Byte>, now: Time)
    requires whole.depth == -1
    ensures var t := Crowded(whole, ip, now);
      Inv(t) && Sibling(t[0].prefix, t[1].prefix)
  {
    var l, h := SplitBranch(whole, false), SplitBranch(whole, true);
    BranchesHalve(whole);
    WholeEnds(whole);
    ParentUndoesSplit(whole, false);
    ParentUndoesSplit(whole, true);
    EightSound(l, ip, 0, 0, now, 6);
    EightSound(h, ip, 8, 1, now, 0);
  }

  lemma {:induction false} AllStale(es: seq<Entry>)
    requires forall x :: x in es ==> x.RemovableWithoutReplacement()
    ensures EffectiveSize(es) == 0
  {
    if es != [] {
      assert es[|es| - 1] in es;
      AllStale(es[..|es| - 1]);
    }
  }

  lemma OldestIsFront(a: seq<Entry>, b: seq<Entry>)
    requires |a| == 8 && Ordered(a + b, CREATED)
    ensures Oldest(a + b) == a
  {
    SortOfOrdered(a + b, CREATED);
  }

  /**
   The size test passes, no address is shared and no entry is bad, yet the merge loses
   every effective entry: the stale ones are older.
   */
  lemma StaleCrowdOutEffective(whole: Prefix, ip: seq<Byte>, now: Time)
    requires whole.depth == -1
    ensures var t := Crowded(whole, ip, now);
      && Inv(t) && Mergeable(t, 1) && Calm(t[0], t[1], now)
      && |t[1].entries| == 8
      && (forall x, y :: Stored(t, x) && Stored(t, y) && x.addr == y.addr ==> x == y)
      && (forall x :: x in t[1].entries ==> !x.RemovableWithoutReplacement() && !Stored(MergeAt(t, 1, now), x))
  {
    var t := Crowded(whole, ip, now);
    CrowdedOk(whole, ip, now);
    CrowdedPasses(whole, ip, now);
    CrowdedAddresses(whole, ip, now);
    CrowdedOldest(whole, ip, now);
    FrontRemains(t, now);
  }

  lemma CrowdedOldest(whole: Prefix, ip: seq<Byte>, now: Time)
    requires whole.depth == -1
    ensures var t := Crowded(whole, ip, now); Oldest(t[0].entries + t[1].entries) == t[0].entries
  {
    var t := Crowded(whole, ip, now);
    OldestIsFront(t[0].entries, t[1].entries);
  }

  lemma CrowdedPasses(whole: Prefix, ip: seq<Byte>, now: Time)
    requires whole.depth == -1
    ensures var t := Crowded(whole, ip, now);
      && EffectiveSize(t[0].entries) + EffectiveSize(t[1].entries) == 8 && Calm(t[0], t[1], now)
      && (forall x :: x in t[1].entries ==> !x.RemovableWithoutReplacement())
  {
    var t := Crowded(whole, ip, now);
    AllStale(t[0].entries);
    EffectiveSizeCounts(t[1].entries);
  }

  lemma TwoAddresses(t: Table, a: seq<Entry>, b: seq<Entry>)
    requires |t| == 2 && t[0].entries == a && t[1].entries == b && ByPort(a, 0) && ByPort(b, 8)
    ensures forall x, y :: Stored(t, x) && Stored(t, y) && x.addr == y.addr ==> x == y
  {
    forall x, y | Stored(t, x) && Stored(t, y) && x.addr == y.addr ensures x == y {
      AddressesDiffer(a, b, x, y);
    }
  }

  lemma CrowdedAddresses(whole: Prefix, ip: seq<Byte>, now: Time)
    requires whole.depth == -1
    ensures var t := Crowded(whole, ip, now);
      forall x, y :: Stored(t, x) && Stored(t, y) && x.addr == y.addr ==> x == y
  {
    var t := Crowded(whole, ip, now);
    var a, b := t[0].entries, t[1].entries;
    assert ByPort(a, 0) && ByPort(b, 8);
    TwoAddresses(t, a, b);
  }

  lemma FrontRemains(t: Table, now: Time)
    requires Inv(t) && |t| == 2 && Sibling(t[0].prefix, t[1].prefix) && Calm(t[0], t[1], now)
    requires Oldest(t[0].entries + t[1].entries) == t[0].entries
    ensures forall x :: x in t[1].entries ==> !Stored(MergeAt(t, 1, now), x)
  {
    MergedIsOldest(t, 1, now);
    forall x | x in t[1].entries ensures !Stored(MergeAt(t, 1, now), x) {
      StillStored(t, 1, now, x);
      ApartFrom(t, x);
    }
  }

  lemma ApartFrom(t: Table, x: Entry)
    requires Inv(t) && |t| == 2 && x in t[1].entries
    ensures x !in t[0].entries
  {
    if x in t[0].entries {
      DisjointIds(t, 0, 1, x, x);
    }
  }
}
