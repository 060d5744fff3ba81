/**
 What the collection of close entries computes: whole buckets around the target's are
 taken until there are enough entries, and the nearest of those are kept.  How near that
 is to the nearest entries of the whole table is settled at the end.
 */
module Nearness {
  import opened Bits
  import opened Ids
  import opened Prefixes
  import opened Sorting
  import opened KBuckets
  import opened Samples
  import Tables

  type Filter = Entry -> bool

  /** Eligible entries of a bucket, in order. */
  function Pick(es: seq<Entry>, filter: Filter): seq<Entry> {
    if es == [] then []
    else
      var rest := Pick(es[..|es| - 1], filter);
      if filter(es[|es| - 1]) then rest + [es[|es| - 1]] else rest
  }

  lemma {:induction false} PickMembers(es: seq<Entry>, filter: Filter)
    ensures |Pick(es, filter)| <= |es|
    ensures forall x :: x in Pick(es, filter) <==> x in es && filter(x)
  {
    if es != [] {
      var n := |es| - 1;
      PickMembers(es[..n], filter);
      assert es == es[..n] + [es[n]];
    }
  }

  /** All eligible entries of the buckets low..high, both included. */
  ghost function Eligible(t: Tables.Table, low: nat, high: nat, filter: Filter): multiset<Entry>
    requires low <= high < |t|
    decreases high - low
  {
    if low == high then multiset(Pick(t[low].entries, filter))
    else Eligible(t, low, high - 1, filter) + multiset(Pick(t[high].entries, filter))
  }

  lemma {:induction false} EligibleLow(t: Tables.Table, low: nat, high: nat, filter: Filter)
    requires 0 < low <= high < |t|
    ensures Eligible(t, low - 1, high, filter) == Eligible(t, low, high, filter) + multiset(Pick(t[low - 1].entries, filter))
    decreases high - low
  {
    if low < high {
      EligibleLow(t, low, high - 1, filter);
    }
  }

  lemma {:induction false} EligibleMembers(t: Tables.Table, low: nat, high: nat, filter: Filter, x: Entry)
    requires low <= high < |t|
    ensures x in Eligible(t, low, high, filter) <==>
            exists i :: low <= i <= high && x in t[i].entries && filter(x)
    decreases high - low
  {
    PickMembers(t[high].entries, filter);
    if low < high {
      EligibleMembers(t, low, high - 1, filter, x);
    }
  }

  /** The id just below the range is closer to the target than the one just above it. */
  ghost predicate LowerIsCloser(t: Tables.Table, target: Id, low: nat, high: nat)
    requires 0 < low <= high < |t| - 1
  {
    Val(Xor(ToBits(target), LastBits(t[low - 1].prefix))) < Dist(target, t[high + 1].prefix.bytes)
  }

  /** Whether a range of buckets is to be widened downwards; `low` and `high` are both included. */
  ghost function Downward(t: Tables.Table, target: Id): (int, int) -> bool {
    (low, high) => 0 < low <= high < |t| && (high == |t| - 1 || LowerIsCloser(t, target, low, high))
  }

  ghost function Enough(t: Tables.Table, max: nat, filter: Filter): (int, int) -> bool {
    (low, high) => 0 <= low <= high < |t| && |Eligible(t, low, high, filter)| >= max
  }

  /** The final range of n buckets: widened one bucket at a time, on the side that `down` says. */
  ghost function Widen(n: nat, down: (int, int) -> bool, enough: (int, int) -> bool, low: nat, high: nat): (nat, nat)
    requires low <= high < n
    decreases n - (high - low)
  {
    if enough(low, high) || (low == 0 && high == n - 1) then (low, high)
    else if low > 0 && (high == n - 1 || down(low, high)) then Widen(n, down, enough, low - 1, high)
    else Widen(n, down, enough, low, high + 1)
  }

  /** Widening only grows the range, and stops only when there is enough or nothing more. */
  lemma {:induction false} WidenStops(n: nat, down: (int, int) -> bool, enough: (int, int) -> bool, low: nat, high: nat)
    requires low <= high < n
    ensures var r := Widen(n, down, enough, low, high);
      r.0 <= low && high <= r.1 < n && (enough(r.0, r.1) || (r.0 == 0 && r.1 == n - 1))
    decreases n - (high - low)
  {
    if enough(low, high) || (low == 0 && high == n - 1) {
    } else if low > 0 && (high == n - 1 || down(low, high)) {
      WidenStops(n, down, enough, low - 1, high);
    } else {
      WidenStops(n, down, enough, low, high + 1);
    }
  }

  lemma WidenStep(n: nat, down: (int, int) -> bool, enough: (int, int) -> bool, low: nat, high: nat, lo: nat, hi: nat)
    requires low <= high < n && !enough(low, high) && (low > 0 || high < n - 1)
    requires (lo, hi) == if low > 0 && (high == n - 1 || down(low, high)) then (low - 1, high) else (low, high + 1)
    ensures Widen(n, down, enough, low, high) == Widen(n, down, enough, lo, hi)
  {
  }

  /** The run of buckets around the target's that is collected. */
  ghost function Run(t: Tables.Table, target: Id, max: nat, filter: Filter): (nat, nat)
    requires Tables.Tiled(t)
  {
    var k := Tables.IndexOf(t, target);
    Widen(|t|, Downward(t, target), Enough(t, max, filter), k, k)
  }

  /** The run contains the target's bucket and has enough entries or is the whole table. */
  lemma RunStops(t: Tables.Table, target: Id, max: nat, filter: Filter)
    requires Tables.Tiled(t)
    ensures var r := Run(t, target, max, filter);
      && r.0 <= Tables.IndexOf(t, target) <= r.1 < |t|
      && (|Eligible(t, r.0, r.1, filter)| >= max || (r.0 == 0 && r.1 == |t| - 1))
  {
    var k := Tables.IndexOf(t, target);
    WidenStops(|t|, Downward(t, target), Enough(t, max, filter), k, k);
  }

  // ------------------------------------------------------------------- distance

  /** Ids under a prefix of the target are strictly closer to it than all other ids. */
  lemma PrefixIsClosest(p: Prefix, target: Id, x: Id, y: Id)
    requires Covers(p, target) && Covers(p, x) && !Covers(p, y)
    ensures Dist(target, x) < Dist(target, y)
  {
    var k := |Pat(p)|;
    XorRefinesBits(target, x);
    XorRefinesBits(target, y);
    SharedPrefixDistance(ToBits(target), ToBits(x), k);
    SharedPrefixDistance(ToBits(target), ToBits(y), k);
    assert ToBits(target)[..k] == Pat(p) == ToBits(x)[..k];
  }

  /** Entries of the target's bucket are strictly closer to it than all entries elsewhere. */
  lemma HomeIsClosest(t: Tables.Table, target: Id, x: Entry, y: Entry)
    requires Tables.Inv(t)
    requires x in t[Tables.IndexOf(t, target)].entries
    requires Tables.Stored(t, y) && y !in t[Tables.IndexOf(t, target)].entries
    ensures Dist(target, x.id) < Dist(target, y.id)
  {
    var k := Tables.IndexOf(t, target);
    var j :| 0 <= j < |t| && y in t[j].entries;
    assert Tables.BucketOk(t[k]) && Tables.BucketOk(t[j]);
    if Covers(t[k].prefix, y.id) {
      Tables.CoverUnique(t, y.id, j, k);
    }
    PrefixIsClosest(t[k].prefix, target, x.id, y.id);
  }

  // ---------------------------------------------------------------------- shave

  /** A sorting key that is the distance to the target. */
  ghost predicate IsDistance(key: Entry -> int, target: Id) {
    forall e: Entry :: key(e) == Dist(target, e.id)
  }

  /** Nothing in `pool` that is missing from `kept` is closer than something in `kept`. */
  ghost predicate Nearest(kept: seq<Entry>, pool: multiset<Entry>, target: Id) {
    && multiset(kept) <= pool
    && forall x, y :: x in kept && y in pool - multiset(kept) ==> Dist(target, x.id) <= Dist(target, y.id)
  }

  lemma ShaveNearest(es: seq<Entry>, target: Id, max: nat, key: Entry -> int)
    requires |es| > max && IsDistance(key, target)
    ensures Nearest(Sort(es, key)[..max], multiset(es), target)
  {
    var kept := Sort(es, key)[..max];
    SortContents(es, key);
    TakeRest(Sort(es, key), max);
    forall x, y | x in kept && y in multiset(es) - multiset(kept)
      ensures Dist(target, x.id) <= Dist(target, y.id)
    {
      TakeSmallest(es, key, max, x, y);
      assert key(x) <= key(y);
    }
  }

  /** The edges below and above a range are different ids. */
  lemma EdgesDiffer(t: Tables.Table, target: Id, low: nat, high: nat, last: Id)
    requires 0 < low <= high < |t| - 1 && Tables.Tiled(t) && Num(last) == Hi(t[low - 1].prefix) - 1
    ensures LowerIsCloser(t, target, low, high) <==> Dist(target, last) < Dist(target, t[high + 1].prefix.bytes)
    ensures last != t[high + 1].prefix.bytes
  {
    LastBitsAre(t[low - 1].prefix, last);
    XorRefinesBits(target, last);
    Tables.ChainOrder(t, low - 1, high + 1);
  }

  lemma LastBitsAre(p: Prefix, last: Id)
    requires Num(last) == Hi(p) - 1
    ensures ToBits(last) == LastBits(p)
  {
    ValInjective(ToBits(last), LastBits(p));
  }

  /** With room for eight entries the cut never reaches the target's own bucket. */
  lemma HomeKept(t: Tables.Table, target: Id, filter: Filter, low: nat, high: nat, kept: seq<Entry>, pool: seq<Entry>)
    requires Tables.Inv(t) && low <= Tables.IndexOf(t, target) <= high < |t|
    requires multiset(pool) == Eligible(t, low, high, filter)
    requires Nearest(kept, multiset(pool), target)
    requires kept == pool || |kept| >= MAX_ENTRIES_PER_BUCKET
    ensures forall x :: x in t[Tables.IndexOf(t, target)].entries && filter(x) ==> x in kept
  {
    var k := Tables.IndexOf(t, target);
    var home := t[k].entries;
    assert Tables.BucketOk(t[k]);
    forall x | x in home && filter(x) ensures x in kept {
      EligibleMembers(t, low, high, filter, x);
      assert x in multiset(pool);
      if x !in kept {
        assert x in multiset(pool) - multiset(kept);
        assert |kept| >= MAX_ENTRIES_PER_BUCKET;
        KeptAreHome(t, target, filter, low, high, kept, pool, x);
        NoRoom(kept, home, x);
      }
    }
  }

  /** If x is missing although it lies in the target's bucket, only that bucket was kept. */
  lemma KeptAreHome(t: Tables.Table, target: Id, filter: Filter, low: nat, high: nat,
                    kept: seq<Entry>, pool: seq<Entry>, x: Entry)
    requires Tables.Inv(t) && low <= Tables.IndexOf(t, target) <= high < |t|
    requires multiset(pool) == Eligible(t, low, high, filter)
    requires Nearest(kept, multiset(pool), target)
    requires x in t[Tables.IndexOf(t, target)].entries && x in multiset(pool) - multiset(kept)
    ensures forall y :: y in kept ==> y in t[Tables.IndexOf(t, target)].entries
    ensures forall y :: multiset(kept)[y] <= 1
  {
    var home := t[Tables.IndexOf(t, target)].entries;
    forall y ensures multiset(kept)[y] <= 1 {
      EligibleOnce(t, low, high, filter, y);
    }
    forall y | y in kept ensures y in home {
      assert y in multiset(kept);
      EligibleMembers(t, low, high, filter, y);
      assert Tables.Stored(t, y);
      if y !in home {
        HomeIsClosest(t, target, x, y);
      }
    }
  }

  lemma {:induction false} PickOnce(es: seq<Entry>, filter: Filter, x: Entry)
    requires Pairwise(es)
    ensures multiset(Pick(es, filter))[x] <= 1
  {
    if es != [] {
      var n := |es| - 1;
      PickOnce(es[..n], filter, x);
      PickMembers(es[..n], filter);
      assert forall i :: 0 <= i < n ==> !es[i].Matches(es[n]);
      assert es[n] !in es[..n];
    }
  }

  lemma {:induction false} EligibleOnce(t: Tables.Table, low: nat, high: nat, filter: Filter, x: Entry)
    requires Tables.Inv(t) && low <= high < |t|
    ensures Eligible(t, low, high, filter)[x] <= 1
    decreases high - low
  {
    BucketOnce(t, high, filter, x);
    if low < high {
      EligibleOnce(t, low, high - 1, filter, x);
      EligibleApart(t, low, high - 1, high, filter, x);
    }
  }

  lemma BucketOnce(t: Tables.Table, i: nat, filter: Filter, x: Entry)
    requires Tables.Inv(t) && i < |t|
    ensures multiset(Pick(t[i].entries, filter))[x] <= 1
  {
    assert Tables.BucketOk(t[i]);
    PickOnce(t[i].entries, filter, x);
  }

  /** What one bucket yields, no run of other buckets does. */
  lemma EligibleApart(t: Tables.Table, low: nat, high: nat, j: nat, filter: Filter, x: Entry)
    requires Tables.Inv(t) && low <= high < |t| && j < |t| && !(low <= j <= high)
    ensures !(x in Eligible(t, low, high, filter) && x in multiset(Pick(t[j].entries, filter)))
  {
    PickMembers(t[j].entries, filter);
    EligibleMembers(t, low, high, filter, x);
    if x in Eligible(t, low, high, filter) && x in t[j].entries {
      var i :| low <= i <= high && x in t[i].entries && filter(x);
      Tables.SamePlace(t, i, j, x);
    }
  }

  /** Distinct entries of a bucket that spare one of them are fewer than the bucket's. */
  lemma NoRoom(kept: seq<Entry>, home: seq<Entry>, x: Entry)
    requires x in home && x !in kept
    requires forall y :: y in kept ==> y in home
    requires forall y :: multiset(kept)[y] <= 1
    ensures |kept| < |home|
  {
    assert |multiset(kept)| == |kept| && |multiset(home)| == |home|;
    forall y ensures multiset(kept)[y] <= (multiset(home) - multiset{x})[y] {
      if y in multiset(kept) {
        assert y in kept && y in multiset(home);
      }
    }
    assert multiset(kept) <= multiset(home) - multiset{x};
    SmallerMultiset(multiset(kept), multiset(home) - multiset{x});
  }

  lemma SmallerMultiset(a: multiset<Entry>, b: multiset<Entry>)
    requires a <= b
    ensures |a| <= |b|
  {
    assert b == a + (b - a);
  }

  // ------------------------------------------------- the nearest of the whole table

  /** Of two bit strings, the nearer one has the target's bit where they first differ. */
  lemma NearerBits(t: seq<bool>, x: seq<bool>, y: seq<bool>, k: nat)
    requires k < |t| == |x| == |y| && x[..k] == y[..k] && x[k] != y[k]
    ensures Val(Xor(t, x)) < Val(Xor(t, y)) <==> x[k] == t[k]
  {
    var b, c := Xor(t, x), Xor(t, y);
    assert b[..k] == c[..k] by {
      assert forall i :: 0 <= i < k ==> x[i] == x[..k][i] == y[..k][i] == y[i];
    }
    if b[k] {
      FirstDifferenceDecides(c, b, k);
    } else {
      FirstDifferenceDecides(b, c, k);
    }
  }

  /** Of two ids, the nearer one has the target's bit where they first differ. */
  lemma FirstDifferenceNearer(target: Id, x: Id, y: Id, k: nat)
    requires k < ID_BITS && ToBits(x)[..k] == ToBits(y)[..k] && ToBits(x)[k] != ToBits(y)[k]
    ensures Dist(target, x) < Dist(target, y) <==> ToBits(x)[k] == ToBits(target)[k]
  {
    XorRefinesBits(target, x);
    XorRefinesBits(target, y);
    NearerBits(ToBits(target), ToBits(x), ToBits(y), k);
  }

  ghost predicate Extends(p: Prefix, q: Prefix) {
    Pat(q) <= Pat(p)
  }

  lemma {:induction false} FirstDifference(a: seq<bool>, b: seq<bool>) returns (k: nat)
    requires !(a <= b) && !(b <= a)
    ensures k < |a| && k < |b| && a[..k] == b[..k] && a[k] != b[k]
  {
    k := 0;
    while k < |a| && k < |b| && a[k] == b[k]
      invariant k <= |a| && k <= |b| && a[..k] == b[..k]
    {
      k := k + 1;
    }
    assert a[..|a|] == a && b[..|b|] == b;
  }

  /** Ids under two prefixes, neither of which extends the other, are ordered as the prefixes are. */
  lemma BlocksOrdered(target: Id, p: Prefix, q: Prefix, x: Id, y: Id)
    requires !Extends(p, q) && !Extends(q, p) && Covers(p, x) && Covers(q, y)
    ensures Dist(target, x) < Dist(target, y) <==> Dist(target, p.bytes) < Dist(target, q.bytes)
  {
    var k := FirstDifference(Pat(p), Pat(q));
    BlockBits(p, x, k);
    BlockBits(p, p.bytes, k);
    BlockBits(q, y, k);
    BlockBits(q, q.bytes, k);
    FirstDifferenceNearer(target, x, y, k);
    FirstDifferenceNearer(target, p.bytes, q.bytes, k);
  }

  lemma BlockBits(p: Prefix, x: Id, k: nat)
    requires Covers(p, x) && k < |Pat(p)|
    ensures k < ID_BITS && ToBits(x)[..k] == Pat(p)[..k] && ToBits(x)[k] == Pat(p)[k]
  {
    assert ToBits(x)[..|Pat(p)|] == Pat(p);
    assert ToBits(x)[..|Pat(p)|][..k] == ToBits(x)[..k];
  }

  /** Entries of two buckets are ordered as the buckets' prefixes are. */
  lemma BucketsOrdered(t: Tables.Table, target: Id, i: nat, j: nat, x: Entry, y: Entry)
    requires Tables.Inv(t) && i < |t| && j < |t| && i != j && x in t[i].entries && y in t[j].entries
    ensures Dist(target, x.id) < Dist(target, y.id) <==> Dist(target, t[i].prefix.bytes) < Dist(target, t[j].prefix.bytes)
    ensures Dist(target, x.id) != Dist(target, y.id)
  {
    var p, q := t[i].prefix, t[j].prefix;
    assert Tables.BucketOk(t[i]) && Tables.BucketOk(t[j]);
    NoExtension(t, i, j);
    NoExtension(t, j, i);
    BlocksOrdered(target, p, q, x.id, y.id);
    if x.id == y.id {
      Tables.CoverUnique(t, x.id, i, j);
    }
    DistInjective(target, x.id, y.id);
  }

  lemma NoExtension(t: Tables.Table, i: nat, j: nat)
    requires Tables.Tiled(t) && i < |t| && j < |t| && i != j
    ensures !Extends(t[i].prefix, t[j].prefix)
  {
    var p, q := t[i].prefix, t[j].prefix;
    CoversFirst(p);
    if Extends(p, q) {
      assert Covers(q, p.bytes);
      Tables.CoverUnique(t, p.bytes, i, j);
    }
  }

  ghost predicate HasEligible(b: Tables.Bucket, filter: Filter) {
    exists y :: y in b.entries && filter(y)
  }

  /** Every bucket outside low..high with an eligible entry is farther than the bucket of each kept entry. */
  ghost predicate NothingNearerOutside(t: Tables.Table, target: Id, filter: Filter, low: nat, high: nat, kept: seq<Entry>) {
    forall i, j, x ::
      (0 <= i < |t| && 0 <= j < |t| && !(low <= j <= high) && x in kept && x in t[i].entries && HasEligible(t[j], filter)) ==>
        Dist(target, t[i].prefix.bytes) < Dist(target, t[j].prefix.bytes)
  }

  /** All eligible entries of the table. */
  ghost function AllEligible(t: Tables.Table, filter: Filter): multiset<Entry>
    requires |t| > 0
  {
    Eligible(t, 0, |t| - 1, filter)
  }

  lemma PoolGrows(t: Tables.Table, low: nat, high: nat, filter: Filter)
    requires Tables.Inv(t) && low <= high < |t|
    ensures Eligible(t, low, high, filter) <= AllEligible(t, filter)
  {
    forall x ensures Eligible(t, low, high, filter)[x] <= AllEligible(t, filter)[x] {
      EligibleOnce(t, low, high, filter, x);
      EligibleMembers(t, low, high, filter, x);
      EligibleMembers(t, 0, |t| - 1, filter, x);
    }
  }

  /** A kept entry lies in a bucket of the run. */
  lemma KeptPlace(t: Tables.Table, filter: Filter, low: nat, high: nat, kept: seq<Entry>, x: Entry) returns (i: nat)
    requires Tables.Inv(t) && low <= high < |t| && multiset(kept) <= Eligible(t, low, high, filter) && x in kept
    ensures low <= i <= high && x in t[i].entries
  {
    assert x in multiset(kept);
    EligibleMembers(t, low, high, filter, x);
    i :| low <= i <= high && x in t[i].entries && filter(x);
  }

  lemma InAll(t: Tables.Table, filter: Filter, j: nat, y: Entry)
    requires j < |t| && y in t[j].entries && filter(y)
    ensures y in AllEligible(t, filter)
  {
    EligibleMembers(t, 0, |t| - 1, filter, y);
  }

  lemma OutsideNotKept(t: Tables.Table, filter: Filter, low: nat, high: nat, kept: seq<Entry>, j: nat, y: Entry)
    requires Tables.Inv(t) && low <= high < |t| && multiset(kept) <= Eligible(t, low, high, filter)
    requires j < |t| && !(low <= j <= high) && y in t[j].entries && filter(y)
    ensures y in AllEligible(t, filter) - multiset(kept)
  {
    InAll(t, filter, j, y);
    NotKept(t, filter, low, high, kept, j, y);
    InDifference(AllEligible(t, filter), kept, y);
  }

  lemma InDifference(pool: multiset<Entry>, kept: seq<Entry>, y: Entry)
    ensures y in pool && y !in kept ==> y in pool - multiset(kept)
    ensures pool[y] <= 1 && y in pool - multiset(kept) ==> y in pool && y !in kept
  {
    assert y in kept <==> y in multiset(kept);
  }

  lemma NotKept(t: Tables.Table, filter: Filter, low: nat, high: nat, kept: seq<Entry>, j: nat, y: Entry)
    requires Tables.Inv(t) && low <= high < |t| && multiset(kept) <= Eligible(t, low, high, filter)
    requires j < |t| && !(low <= j <= high) && y in t[j].entries
    ensures y !in kept
  {
    if y in kept {
      var i := KeptPlace(t, filter, low, high, kept, y);
      Tables.SamePlace(t, i, j, y);
    }
  }

  /** What is not kept is in the pool of the run or in a bucket outside it. */
  lemma Missing(t: Tables.Table, filter: Filter, low: nat, high: nat, kept: seq<Entry>, y: Entry)
    requires Tables.Inv(t) && low <= high < |t| && multiset(kept) <= Eligible(t, low, high, filter)
    requires y in AllEligible(t, filter) - multiset(kept)
    ensures || y in Eligible(t, low, high, filter) - multiset(kept)
            || exists j :: 0 <= j < |t| && !(low <= j <= high) && y in t[j].entries && filter(y)
  {
    EligibleOnce(t, 0, |t| - 1, filter, y);
    InDifference(AllEligible(t, filter), kept, y);
    var i := Somewhere(t, filter, y);
    if low <= i <= high {
      EligibleMembers(t, low, high, filter, y);
      InDifference(Eligible(t, low, high, filter), kept, y);
    }
  }

  lemma Somewhere(t: Tables.Table, filter: Filter, y: Entry) returns (i: nat)
    requires |t| > 0 && y in AllEligible(t, filter)
    ensures i < |t| && y in t[i].entries && filter(y)
  {
    EligibleMembers(t, 0, |t| - 1, filter, y);
    i :| 0 <= i <= |t| - 1 && y in t[i].entries && filter(y);
  }

  /**
   What is nearest within a run of buckets is nearest within the whole table exactly if
   every bucket outside the run with something to offer is farther than the buckets of
   the entries kept.
   */
  lemma NearestOverallIff(t: Tables.Table, target: Id, filter: Filter, low: nat, high: nat, kept: seq<Entry>)
    requires Tables.Inv(t) && low <= high < |t|
    requires Nearest(kept, Eligible(t, low, high, filter), target)
    ensures Nearest(kept, AllEligible(t, filter), target) <==> NothingNearerOutside(t, target, filter, low, high, kept)
  {
    PoolGrows(t, low, high, filter);
    if NothingNearerOutside(t, target, filter, low, high, kept) {
      OverallFromBuckets(t, target, filter, low, high, kept);
    }
    if Nearest(kept, AllEligible(t, filter), target) {
      BucketsFromOverall(t, target, filter, low, high, kept);
    }
  }

  lemma OverallFromBuckets(t: Tables.Table, target: Id, filter: Filter, low: nat, high: nat, kept: seq<Entry>)
    requires Tables.Inv(t) && low <= high < |t|
    requires Nearest(kept, Eligible(t, low, high, filter), target)
    requires NothingNearerOutside(t, target, filter, low, high, kept)
    ensures forall x, y :: x in kept && y in AllEligible(t, filter) - multiset(kept) ==>
              Dist(target, x.id) <= Dist(target, y.id)
  {
    forall x, y | x in kept && y in AllEligible(t, filter) - multiset(kept)
      ensures Dist(target, x.id) <= Dist(target, y.id)
    {
      Missing(t, filter, low, high, kept, y);
      if y !in Eligible(t, low, high, filter) - multiset(kept) {
        var j :| 0 <= j < |t| && !(low <= j <= high) && y in t[j].entries && filter(y);
        var i := KeptPlace(t, filter, low, high, kept, x);
        BucketsOrdered(t, target, i, j, x, y);
      }
    }
  }

  lemma BucketsFromOverall(t: Tables.Table, target: Id, filter: Filter, low: nat, high: nat, kept: seq<Entry>)
    requires Tables.Inv(t) && low <= high < |t| && multiset(kept) <= Eligible(t, low, high, filter)
    requires Nearest(kept, AllEligible(t, filter), target)
    ensures NothingNearerOutside(t, target, filter, low, high, kept)
  {
    forall i, j, x | 0 <= i < |t| && 0 <= j < |t| && !(low <= j <= high) && x in kept && x in t[i].entries
      && HasEligible(t[j], filter)
      ensures Dist(target, t[i].prefix.bytes) < Dist(target, t[j].prefix.bytes)
    {
      var y :| y in t[j].entries && filter(y);
      OutsideNotKept(t, filter, low, high, kept, j, y);
      var k := KeptPlace(t, filter, low, high, kept, x);
      Tables.SamePlace(t, i, k, x);
      BucketsOrdered(t, target, i, j, x, y);
    }
  }

  /** The eligible entries that are nearer to the target than an id. */
  ghost function NearerThan(filter: Filter, target: Id, id: Id): Filter {
    (e: Entry) => filter(e) && Dist(target, e.id) < Dist(target, id)
  }

  /** For each bucket outside low..high with an eligible entry there are `max` eligible entries inside that are nearer. */
  ghost predicate EnoughNearer(t: Tables.Table, target: Id, max: nat, filter: Filter, low: nat, high: nat)
    requires low <= high < |t|
  {
    forall j :: 0 <= j < |t| && !(low <= j <= high) && HasEligible(t[j], filter) ==>
      |Eligible(t, low, high, NearerThan(filter, target, t[j].prefix.bytes))| >= max
  }

  /** A kept entry is nearer than another bucket exactly if its own bucket is. */
  lemma KeptNearerIff(t: Tables.Table, target: Id, i: nat, j: nat, x: Entry)
    requires Tables.Inv(t) && i < |t| && j < |t| && i != j && x in t[i].entries
    ensures Dist(target, x.id) < Dist(target, t[j].prefix.bytes) <==>
            Dist(target, t[i].prefix.bytes) < Dist(target, t[j].prefix.bytes)
  {
    assert Tables.BucketOk(t[i]);
    NoExtension(t, i, j);
    NoExtension(t, j, i);
    CoversFirst(t[j].prefix);
    BlocksOrdered(target, t[i].prefix, t[j].prefix, x.id, t[j].prefix.bytes);
  }

  /** If all kept entries are nearer than an id, as many eligible ones are. */
  lemma ManyNearer(t: Tables.Table, target: Id, filter: Filter, low: nat, high: nat, kept: seq<Entry>, id: Id)
    requires Tables.Inv(t) && low <= high < |t| && multiset(kept) <= Eligible(t, low, high, filter)
    requires forall x :: x in kept ==> Dist(target, x.id) < Dist(target, id)
    ensures |Eligible(t, low, high, NearerThan(filter, target, id))| >= |kept|
  {
    var nearer := Eligible(t, low, high, NearerThan(filter, target, id));
    forall x ensures multiset(kept)[x] <= nearer[x] {
      if x in multiset(kept) {
        EligibleOnce(t, low, high, filter, x);
        EligibleMembers(t, low, high, filter, x);
        EligibleMembers(t, low, high, NearerThan(filter, target, id), x);
      }
    }
    SmallerMultiset(multiset(kept), nearer);
    assert |multiset(kept)| == |kept|;
  }

  /** If a kept entry is not nearer than an id, fewer eligible ones than were kept are. */
  lemma FewNearer(t: Tables.Table, target: Id, filter: Filter, low: nat, high: nat, kept: seq<Entry>, id: Id, x: Entry)
    requires Tables.Inv(t) && low <= high < |t| && Nearest(kept, Eligible(t, low, high, filter), target)
    requires x in kept && Dist(target, x.id) >= Dist(target, id)
    ensures |Eligible(t, low, high, NearerThan(filter, target, id))| < |kept|
  {
    var nearer, rest := Eligible(t, low, high, NearerThan(filter, target, id)), multiset(kept) - multiset{x};
    forall y ensures nearer[y] <= rest[y] {
      if y in nearer {
        EligibleOnce(t, low, high, NearerThan(filter, target, id), y);
        EligibleMembers(t, low, high, filter, y);
        EligibleMembers(t, low, high, NearerThan(filter, target, id), y);
        NearerIsKept(t, target, filter, low, high, kept, x, y);
      }
    }
    SmallerMultiset(nearer, rest);
    assert |multiset(kept)| == |kept|;
  }

  lemma NearerIsKept(t: Tables.Table, target: Id, filter: Filter, low: nat, high: nat, kept: seq<Entry>, x: Entry, y: Entry)
    requires low <= high < |t| && Nearest(kept, Eligible(t, low, high, filter), target)
    requires x in kept && y in Eligible(t, low, high, filter) && Dist(target, y.id) < Dist(target, x.id)
    ensures y in multiset(kept)
  {
    var pool := Eligible(t, low, high, filter);
    assert y !in multiset(kept) ==> y in pool - multiset(kept);
  }

  /**
   Whether what was kept is nearest within the whole table can be told beforehand: exactly
   if each bucket outside the run with something to offer finds `max` nearer entries inside.
   */
  lemma ExactIff(t: Tables.Table, target: Id, max: nat, filter: Filter, low: nat, high: nat, kept: seq<Entry>)
    requires Tables.Inv(t) && low <= high < |t|
    requires Nearest(kept, Eligible(t, low, high, filter), target)
    requires |kept| == max || (low == 0 && high == |t| - 1)
    ensures Nearest(kept, AllEligible(t, filter), target) <==> EnoughNearer(t, target, max, filter, low, high)
  {
    NearestOverallIff(t, target, filter, low, high, kept);
    forall j | 0 <= j < |t| && !(low <= j <= high)
      ensures (forall i, x :: 0 <= i < |t| && x in kept && x in t[i].entries ==>
                 Dist(target, t[i].prefix.bytes) < Dist(target, t[j].prefix.bytes)) <==>
              |Eligible(t, low, high, NearerThan(filter, target, t[j].prefix.bytes))| >= max
    {
      OneBucketIff(t, target, filter, low, high, kept, j);
    }
  }

  lemma OneBucketIff(t: Tables.Table, target: Id, filter: Filter, low: nat, high: nat, kept: seq<Entry>, j: nat)
    requires Tables.Inv(t) && low <= high < |t| && j < |t| && !(low <= j <= high)
    requires Nearest(kept, Eligible(t, low, high, filter), target)
    ensures (forall i, x :: 0 <= i < |t| && x in kept && x in t[i].entries ==>
               Dist(target, t[i].prefix.bytes) < Dist(target, t[j].prefix.bytes)) <==>
            |Eligible(t, low, high, NearerThan(filter, target, t[j].prefix.bytes))| >= |kept|
  {
    var id := t[j].prefix.bytes;
    forall i, x | 0 <= i < |t| && x in kept && x in t[i].entries
      ensures Dist(target, x.id) < Dist(target, id) <==> Dist(target, t[i].prefix.bytes) < Dist(target, id)
    {
      var k := KeptPlace(t, filter, low, high, kept, x);
      Tables.SamePlace(t, i, k, x);
      KeptNearerIff(t, target, i, j, x);
    }
    if exists x :: x in kept && Dist(target, x.id) >= Dist(target, id) {
      var x :| x in kept && Dist(target, x.id) >= Dist(target, id);
      var k := KeptPlace(t, filter, low, high, kept, x);
      FewNearer(t, target, filter, low, high, kept, id, x);
    } else {
      ManyNearer(t, target, filter, low, high, kept, id);
    }
  }

  /**
   What filling leaves: the nearest part of the eligible entries of a run of neighbouring
   buckets around the target's.  The run ends only with enough entries or with the table,
   and with room for a bucket every eligible entry of the target's own is kept.  It is the
   nearest part of the whole table exactly if the run has `max` entries nearer than each
   bucket outside it that has something to offer.
   */
  ghost predicate Filled(t: Tables.Table, target: Id, max: nat, filter: Filter, low: nat, high: nat, kept: seq<Entry>)
    requires Tables.Tiled(t)
  {
    var k := Tables.IndexOf(t, target);
    && (low, high) == Run(t, target, max, filter)
    && low <= k <= high < |t|
    && Nearest(kept, Eligible(t, low, high, filter), target)
    && |kept| <= max
    && (|kept| == max || (low == 0 && high == |t| - 1 && multiset(kept) == Eligible(t, low, high, filter)))
    && (max >= MAX_ENTRIES_PER_BUCKET ==> forall x :: x in t[k].entries && filter(x) ==> x in kept)
    && (Nearest(kept, AllEligible(t, filter), target) <==> EnoughNearer(t, target, max, filter, low, high))
  }

  lemma FillFacts(t: Tables.Table, target: Id, max: nat, filter: Filter, low: nat, high: nat,
                  pool: seq<Entry>, kept: seq<Entry>)
    requires Tables.Inv(t) && (low, high) == Run(t, target, max, filter) && low <= high < |t|
    requires multiset(pool) == Eligible(t, low, high, filter)
    requires Nearest(kept, multiset(pool), target) && |kept| <= max
    requires if |pool| <= max then kept == pool else |kept| == max
    ensures Filled(t, target, max, filter, low, high, kept)
  {
    RunStops(t, target, max, filter);
    assert |multiset(pool)| == |pool|;
    if max >= MAX_ENTRIES_PER_BUCKET {
      HomeKept(t, target, filter, low, high, kept, pool);
    }
    ExactIff(t, target, max, filter, low, high, kept);
  }

  // ------------------------------------------------------ nearer entries left behind

  /** The filter of the node lists: reachable and fewer than three failures. */
  const FOR_NODES_LIST: Filter := (e: Entry) => e.EligibleForNodesList()

  /** Buckets 00, 01 and 1; the first two hold eight fresh entries each, all at different addresses. */
  ghost function Skewed(whole: Prefix, ip: seq<Byte>): Tables.Table
    requires whole.depth == -1
  {
    var zero := SplitBranch(whole, false);
    [Tables.Bucket(SplitBranch(zero, false), Eight(SplitBranch(zero, false), ip, 0, 0, 0, 0)),
     Tables.Bucket(SplitBranch(zero, true), Eight(SplitBranch(zero, true), ip, 8, 0, 0, 0)),
     Tables.Bucket(SplitBranch(whole, true), [])]
  }

  lemma SkewedTiled(whole: Prefix, ip: seq<Byte>)
    requires whole.depth == -1
    ensures Tables.Tiled(Skewed(whole, ip))
  {
    BranchesHalve(whole);
    BranchesHalve(SplitBranch(whole, false));
    WholeEnds(whole);
  }

  lemma SkewedOk(whole: Prefix, ip: seq<Byte>)
    requires whole.depth == -1
    ensures Tables.Inv(Skewed(whole, ip))
  {
    var zero := SplitBranch(whole, false);
    SkewedTiled(whole, ip);
    EightSound(SplitBranch(zero, false), ip, 0, 0, 0, 0);
    EightSound(SplitBranch(zero, true), ip, 8, 0, 0, 0);
  }

  lemma SkewedAddresses(whole: Prefix, ip: seq<Byte>)
    requires whole.depth == -1
    ensures var t := Skewed(whole, ip);
      forall x, y :: Tables.Stored(t, x) && Tables.Stored(t, y) && x.addr == y.addr ==> x == y
  {
    var t := Skewed(whole, ip);
    var a, b := t[0].entries, t[1].entries;
    assert ByPort(a, 0) && ByPort(b, 8);
    ThreeAddresses(t, a, b);
  }

  lemma ThreeAddresses(t: Tables.Table, a: seq<Entry>, b: seq<Entry>)
    requires |t| == 3 && t[0].entries == a && t[1].entries == b && t[2].entries == [] && ByPort(a, 0) && ByPort(b, 8)
    ensures forall x, y :: Tables.Stored(t, x) && Tables.Stored(t, y) && x.addr == y.addr ==> x == y
  {
    forall x, y | Tables.Stored(t, x) && Tables.Stored(t, y) && x.addr == y.addr ensures x == y {
      AddressesDiffer(a, b, x, y);
    }
  }

  lemma TwoBits(p: Prefix)
    requires p.depth == 1
    ensures Pat(p) == [ToBits(p.bytes)[0], ToBits(p.bytes)[1]]
  {
  }

  /** Seen from 10..., the bucket 00 is nearer than the bucket 01. */
  lemma SkewedDistances(whole: Prefix)
    requires whole.depth == -1
    ensures var zero, target := SplitBranch(whole, false), SplitBranch(whole, true).bytes;
      Dist(target, SplitBranch(zero, false).bytes) < Dist(target, SplitBranch(zero, true).bytes)
  {
    var zero, target := SplitBranch(whole, false), SplitBranch(whole, true).bytes;
    var e, f := SplitBranch(zero, false), SplitBranch(zero, true);
    assert Pat(e) == Pat(zero) + [false] && Pat(f) == Pat(zero) + [true];
    TwoBits(e);
    TwoBits(f);
    assert !ToBits(target)[1];
    FirstDifferenceNearer(target, e.bytes, f.bytes, 1);
  }

  lemma {:induction false} PickAll(es: seq<Entry>, filter: Filter)
    requires forall x :: x in es ==> filter(x)
    ensures Pick(es, filter) == es
  {
    if es != [] {
      var n := |es| - 1;
      PickAll(es[..n], filter);
      assert es == es[..n] + [es[n]];
    }
  }

  /** With the target in the last of three buckets, and that one empty, eight entries next door are enough. */
  lemma SkewedRun(t: Tables.Table, target: Id, filter: Filter)
    requires |t| == 3 && Tables.Tiled(t) && Tables.IndexOf(t, target) == 2
    requires |t[1].entries| == 8 && t[2].entries == [] && forall x :: x in t[1].entries ==> filter(x)
    ensures Run(t, target, 8, filter) == (1, 2) && Eligible(t, 1, 2, filter) == multiset(t[1].entries)
  {
    var es := t[1].entries;
    PickAll(es, filter);
    assert Eligible(t, 2, 2, filter) == multiset{};
    assert Eligible(t, 1, 2, filter) == multiset(es) && |multiset(es)| == 8;
    var down, enough := Downward(t, target), Enough(t, 8, filter);
    assert !enough(2, 2) && enough(1, 2);
    WidenStep(3, down, enough, 2, 2, 1, 2);
  }

  /**
   The eight entries collected for a target can all be farther than eight others that
   are just as eligible: widening stops at the numerically next bucket.
   */
  lemma NearerCanBeMissed(whole: Prefix, ip: seq<Byte>)
    requires whole.depth == -1
    ensures var t, target := Skewed(whole, ip), SplitBranch(whole, true).bytes;
      && Tables.Inv(t) && Run(t, target, 8, FOR_NODES_LIST) == (1, 2)
      && (forall x, y :: Tables.Stored(t, x) && Tables.Stored(t, y) && x.addr == y.addr ==> x == y)
      && Eligible(t, 1, 2, FOR_NODES_LIST) == multiset(t[1].entries) && |t[1].entries| == 8
      && |t[0].entries| == 8
      && (forall x, y :: x in t[0].entries && y in t[1].entries ==>
            FOR_NODES_LIST(x) && Dist(target, x.id) < Dist(target, y.id))
  {
    var t, target := Skewed(whole, ip), SplitBranch(whole, true).bytes;
    SkewedOk(whole, ip);
    SkewedAddresses(whole, ip);
    CoversFirst(SplitBranch(whole, true));
    Tables.CoverUnique(t, target, 2, Tables.IndexOf(t, target));
    SkewedEligible(whole, ip);
    SkewedRun(t, target, FOR_NODES_LIST);
    SkewedDistances(whole);
    NearerBucket(t, target, 0, 1);
  }

  lemma SkewedEligible(whole: Prefix, ip: seq<Byte>)
    requires whole.depth == -1
    ensures var t := Skewed(whole, ip);
      forall i, x :: 0 <= i < 3 && x in t[i].entries ==> FOR_NODES_LIST(x)
  {
  }

  lemma NearerBucket(t: Tables.Table, target: Id, i: nat, j: nat)
    requires Tables.Inv(t) && i < |t| && j < |t| && Dist(target, t[i].prefix.bytes) < Dist(target, t[j].prefix.bytes)
    ensures forall x, y :: x in t[i].entries && y in t[j].entries ==> Dist(target, x.id) < Dist(target, y.id)
  {
    forall x, y | x in t[i].entries && y in t[j].entries ensures Dist(target, x.id) < Dist(target, y.id) {
      BucketsOrdered(t, target, i, j, x, y);
    }
  }
}
