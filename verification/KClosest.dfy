/**
 Collecting the entries closest to a target: starting from the target's bucket, whole
 neighbouring buckets are added until there are enough entries; then the list is cut
 to size by XOR distance.
 */
module KClosest {
  import opened Ids
  import opened Prefixes
  import opened Sorting
  import opened KBuckets
  import opened Nearness
  import Tables
  import RT = RoutingTables

  class KClosestNodes {
    const target: Id
    const maxEntries: nat
    const filter: Filter
    var entries: seq<Entry>

    constructor (target: Id, maxEntries: nat, filter: Filter)
      ensures this.target == target && this.maxEntries == maxEntries && this.filter == filter && entries == []
    {
      this.target := target;
      this.maxEntries := maxEntries;
      this.filter := filter;
      entries := [];
    }

    method InsertEntries(bucket: KBucket)
      modifies this`entries
      ensures entries == old(entries) + Pick(bucket.entries, filter)
    {
      var es := bucket.entries;
      for n := 0 to |es|
        invariant entries == old(entries) + Pick(es[..n], filter)
      {
        assert es[..n + 1][..n] == es[..n];
        if filter(es[n]) {
          entries := entries + [es[n]];
        }
      }
      assert es[..|es|] == es;
    }

    /** Negative for the lower neighbour, positive for the upper one: the one whose edge is closer. */
    method Direction(bs: seq<KBucket>, low: nat, high: nat, ghost t: Tables.Table) returns (dir: int)
      requires low <= high < |bs| && (low > 0 || high < |bs| - 1) && Tables.Tiled(t) && RT.Shows(bs, t)
      ensures dir != 0
      ensures dir < 0 <==> low > 0 && (high == |t| - 1 || Downward(t, target)(low, high))
    {
      if low == 0 {
        return 1;
      }
      if high == |bs| - 1 {
        return -1;
      }
      var last := Last(bs[low - 1].prefix);
      dir := ThreeWayCompare(target, last, bs[high + 1].prefix.bytes);
      EdgesDiffer(t, target, low, high, last);
    }

    /** Adds one neighbouring bucket. */
    method Grow(bs: seq<KBucket>, low: nat, high: nat, dir: int, ghost t: Tables.Table) returns (lo: nat, hi: nat)
      requires low <= high < |bs| && (if dir < 0 then low > 0 else high < |bs| - 1) && RT.Shows(bs, t)
      requires multiset(entries) == Eligible(t, low, high, filter)
      modifies this`entries
      ensures (lo, hi) == if dir < 0 then (low - 1, high) else (low, high + 1)
      ensures lo <= hi < |t| && multiset(entries) == Eligible(t, lo, hi, filter)
    {
      lo, hi := low, high;
      if dir < 0 {
        EligibleLow(t, lo, hi, filter);
        lo := lo - 1;
        InsertEntries(bs[lo]);
      } else {
        hi := hi + 1;
        InsertEntries(bs[hi]);
      }
    }

    /** Collects the buckets around the target's until there are enough entries. */
    method Collect(bs: seq<KBucket>, ghost t: Tables.Table) returns (ghost low: nat, ghost high: nat)
      requires Tables.Tiled(t) && t == RT.ViewOf(bs) && entries == []
      modifies this`entries
      ensures (low, high) == Run(t, target, maxEntries, filter)
      ensures low <= high < |t| && multiset(entries) == Eligible(t, low, high, filter)
    {
      var idx := RT.IndexOf(bs, target);
      InsertEntries(bs[idx]);
      assert [] + Pick(bs[idx].entries, filter) == Pick(bs[idx].entries, filter);
      low, high := GrowWhileShort(bs, idx, t);
    }

    method GrowWhileShort(bs: seq<KBucket>, idx: nat, ghost t: Tables.Table) returns (lo: nat, hi: nat)
      requires Tables.Tiled(t) && RT.Shows(bs, t) && idx < |bs|
      requires multiset(entries) == Eligible(t, idx, idx, filter)
      modifies this`entries
      ensures (lo, hi) == Widen(|t|, Downward(t, target), Enough(t, maxEntries, filter), idx, idx)
      ensures lo <= hi < |t| && multiset(entries) == Eligible(t, lo, hi, filter)
    {
      ghost var down, enough := Downward(t, target), Enough(t, maxEntries, filter);
      lo, hi := idx, idx;
      while |entries| < maxEntries && !(lo == 0 && hi == |bs| - 1)
        invariant lo <= hi < |bs|
        invariant multiset(entries) == Eligible(t, lo, hi, filter)
        invariant Widen(|t|, down, enough, lo, hi) == Widen(|t|, down, enough, idx, idx)
        decreases |bs| - (hi - lo)
      {
        assert |entries| == |multiset(entries)|;
        var dir := Direction(bs, lo, hi, t);
        ghost var next := if dir < 0 then (lo - 1, hi) else (lo, hi + 1);
        WidenStep(|t|, down, enough, lo, hi, next.0, next.1);
        lo, hi := Grow(bs, lo, hi, dir, t);
      }
      assert |entries| == |multiset(entries)|;
    }

    /** Cuts the list to size, keeping the closest. */
    method Shave()
      modifies this`entries
      ensures |entries| <= maxEntries
      ensures |old(entries)| <= maxEntries ==> entries == old(entries)
      ensures Nearest(entries, multiset(old(entries)), target)
      ensures |old(entries)| > maxEntries ==> |entries| == maxEntries
    {
      var overshoot := |entries| - maxEntries;
      if overshoot <= 0 {
        return;
      }
      ghost var key := (e: Entry) => Dist(target, e.id);
      var sorted := SortByDistance(entries, key);
      ShaveNearest(entries, target, maxEntries, key);
      entries := sorted[..|sorted| - overshoot];
    }

    /** std::list::sort by threeWayCompare. */
    method SortByDistance(es: seq<Entry>, ghost key: Entry -> int) returns (r: seq<Entry>)
      requires IsDistance(key, target)
      ensures r == Sort(es, key) && |r| == |es|
    {
      r := [];
      for n := 0 to |es|
        invariant r == Sort(es[..n], key)
      {
        var k := PlaceByDistance(r, es[n], key);
        r := InsertAt(r, k, es[n]);
        SortStep(es, n, key);
      }
      assert es[..|es|] == es;
    }

    method PlaceByDistance(r: seq<Entry>, e: Entry, ghost key: Entry -> int) returns (k: nat)
      requires IsDistance(key, target)
      ensures k == Place(r, e, key)
    {
      k := |r|;
      assert r[..k] == r;
      while k > 0
        invariant 0 <= k <= |r|
        invariant Place(r, e, key) == Place(r[..k], e, key)
      {
        var cmp := ThreeWayCompare(target, r[k - 1].id, e.id);
        assert cmp <= 0 <==> key(r[k - 1]) <= key(e);
        PlaceStep(r, k, e, key);
        if cmp <= 0 {
          return;
        }
        k := k - 1;
      }
    }

    /** Collecting and cutting leave what `Filled` says. */
    method Fill(table: RT.RoutingTable) returns (ghost low: nat, ghost high: nat)
      requires table.Valid() && entries == []
      modifies this`entries
      ensures Filled(table.View(), target, maxEntries, filter, low, high, entries)
    {
      ghost var t := table.View();
      low, high := Collect(table.buckets, t);
      ghost var pool := entries;
      Shave();
      FillFacts(t, target, maxEntries, filter, low, high, pool, entries);
    }
  }
}
