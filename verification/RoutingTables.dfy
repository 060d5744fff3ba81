/**
 The routing table's code: a list of bucket objects that is searched, split, merged and
 replaced.  Every method is proved to compute the corresponding step of module Tables
 on the table's value `View`.
 */
module RoutingTables {
  import opened Wrappers
  import opened Bits
  import opened Ids
  import opened Prefixes
  import opened Sorting
  import opened KBuckets
  import Tables
  import Merging

  ghost function ViewOf(bs: seq<KBucket>): (t: Tables.Table)
    reads bs
    ensures |t| == |bs|
    ensures forall i :: 0 <= i < |bs| ==> t[i] == Tables.Bucket(bs[i].prefix, bs[i].entries)
  {
    seq(|bs|, i requires 0 <= i < |bs| reads bs => Tables.Bucket(bs[i].prefix, bs[i].entries))
  }

  /** The bucket objects hold exactly what the table says. */
  ghost predicate Shows(bs: seq<KBucket>, t: Tables.Table)
    reads bs
  {
    |bs| == |t| && forall i :: 0 <= i < |bs| ==> bs[i].prefix == t[i].prefix && bs[i].entries == t[i].entries
  }

  lemma ShowsView(bs: seq<KBucket>, t: Tables.Table)
    ensures Shows(bs, t) <==> ViewOf(bs) == t
  {
    if Shows(bs, t) {
      forall i | 0 <= i < |bs| ensures ViewOf(bs)[i] == t[i] {
      }
    }
  }

  ghost predicate Distinct<T>(s: seq<T>) {
    forall i, j :: 0 <= i < j < |s| ==> s[i] != s[j]
  }

  /** The search loop: stops at an exact match or between two neighbours. */
  method Search(bs: seq<KBucket>, id: Id) returns (r: int)
    requires |bs| > 0
    ensures -1 <= r < |bs|
    ensures r >= 0 ==> Lo(bs[r].prefix) <= Num(id)
    ensures (r >= 0 && Lo(bs[r].prefix) == Num(id)) || (r < |bs| - 1 ==> Num(id) < Lo(bs[r + 1].prefix))
  {
    var low, mid, cmp, high := 0, 0, 0, |bs| - 1;
    while low <= high
      invariant 0 <= low <= high + 1 <= |bs|
      invariant (low == 0 && high == |bs| - 1) || (cmp < 0 && high == mid - 1) || (cmp > 0 && low == mid + 1)
      invariant low > 0 ==> Lo(bs[low - 1].prefix) < Num(id)
      invariant high < |bs| - 1 ==> Num(id) < Lo(bs[high + 1].prefix)
    {
      mid := (low + high) / 2;
      cmp := CompareTo(id, bs[mid].prefix.bytes);
      if cmp > 0 {
        low := mid + 1;
      } else if cmp < 0 {
        high := mid - 1;
      } else {
        return mid;
      }
    }
    r := if cmp < 0 then mid - 1 else mid;
  }

  /**
   Binary search for the bucket of an id.  Only the low ends of the prefixes are
   compared; that the result covers the id follows from the tiling.
   */
  method IndexOf(bs: seq<KBucket>, id: Id) returns (r: int)
    requires Tables.Tiled(ViewOf(bs))
    ensures r == Tables.IndexOf(ViewOf(bs), id)
    ensures 0 <= r < |bs| && Covers(bs[r].prefix, id)
  {
    r := Search(bs, id);
    SearchEnds(ViewOf(bs), id, r);
  }

  /** The last bucket that starts at or before an id is the one that covers it. */
  lemma SearchEnds(t: Tables.Table, id: Id, r: int)
    requires Tables.Tiled(t) && -1 <= r < |t|
    requires r >= 0 ==> Lo(t[r].prefix) <= Num(id)
    requires (r >= 0 && Lo(t[r].prefix) == Num(id)) || (r < |t| - 1 ==> Num(id) < Lo(t[r + 1].prefix))
    ensures r == Tables.IndexOf(t, id)
  {
    NumBound(id);
    if r >= 0 {
      CoversIsInterval(t[r].prefix, id);
      LoBelowHi(t[r].prefix);
      assert r < |t| - 1 ==> Hi(t[r].prefix) == Lo(t[r + 1].prefix);
      Tables.CoverUnique(t, id, r, Tables.IndexOf(t, id));
    }
  }

  // -------------------------------------------------------------- list surgery

  /** Sorting key of buckets: the low end of their prefix. */
  ghost const LOW_END: KBucket -> int := (b: KBucket) => Lo(b.prefix)

  /** Where a bucket belongs in a list ordered by prefix. */
  method PlaceBucket(r: seq<KBucket>, b: KBucket) returns (k: nat)
    ensures k == Place(r, b, LOW_END)
  {
    k := |r|;
    assert r[..k] == r;
    while k > 0
      invariant 0 <= k <= |r|
      invariant Place(r, b, LOW_END) == Place(r[..k], b, LOW_END)
    {
      var cmp := CompareTo(r[k - 1].prefix.bytes, b.prefix.bytes);
      PlaceStep(r, k, b, LOW_END);
      if cmp <= 0 {
        return;
      }
      k := k - 1;
    }
  }

  /** std::list::sort by prefix. */
  method SortBuckets(bs: seq<KBucket>) returns (r: seq<KBucket>)
    ensures r == Sort(bs, LOW_END)
  {
    r := [];
    var n := 0;
    while n < |bs|
      invariant 0 <= n <= |bs|
      invariant r == Sort(bs[..n], LOW_END)
    {
      var k := PlaceBucket(r, bs[n]);
      r := InsertAt(r, k, bs[n]);
      SortStep(bs, n, LOW_END);
      n := n + 1;
    }
    assert bs[..n] == bs;
  }

  function RemoveFirst<T(==)>(s: seq<T>, x: T): seq<T> {
    if s == [] then [] else if s[0] == x then s[1..] else [s[0]] + RemoveFirst(s[1..], x)
  }

  /** std::find followed by erase removes the one occurrence. */
  lemma {:induction false} RemoveFirstAt<T>(s: seq<T>, k: nat)
    requires k < |s| && Distinct(s)
    ensures RemoveFirst(s, s[k]) == s[..k] + s[k + 1..]
    decreases k
  {
    if k > 0 {
      RemoveFirstAt(s[1..], k - 1);
    }
  }

  class RoutingTable {
    var buckets: seq<KBucket>

    ghost function View(): Tables.Table
      reads this, buckets
    {
      ViewOf(buckets)
    }

    ghost predicate Valid()
      reads this, buckets
    {
      Distinct(buckets) && Tables.Inv(View())
    }

    constructor ()
      ensures Valid() && Merging.Initial(View())
      ensures forall b :: b in buckets ==> fresh(b)
    {
      var all := All();
      var b := new KBucket(all);
      buckets := [b];
      new;
      Merging.InitialOk(View());
    }

    method GetEntry(id: Id) returns (r: Option<Entry>)
      requires Valid()
      ensures r == Tables.GetEntry(View(), id)
      ensures r.Some? <==> exists e :: Tables.Stored(View(), e) && e.id == id
    {
      var k := IndexOf(buckets, id);
      var f := buckets[k].Find(id);
      r := if f < |buckets[k].entries| then Some(buckets[k].entries[f]) else None;
      Tables.GetEntryIsScan(View(), id);
    }

    /** Replaces some buckets by others and restores the order of the list. */
    method Modify(toRemove: seq<KBucket>, toAdd: seq<KBucket>, ghost expected: seq<KBucket>)
      requires multiset(RemoveEach(buckets, toRemove)) + multiset(toAdd) == multiset(expected)
      requires StrictlyOrdered(expected)
      modifies this`buckets
      ensures buckets == expected
    {
      var newBuckets := buckets;
      var n := 0;
      while n < |toRemove|
        invariant 0 <= n <= |toRemove|
        invariant RemoveEach(newBuckets, toRemove[n..]) == RemoveEach(buckets, toRemove)
      {
        newBuckets := RemoveFirst(newBuckets, toRemove[n]);
        n := n + 1;
      }
      newBuckets := newBuckets + toAdd;
      SortIsThe(expected, newBuckets, LOW_END);
      newBuckets := SortBuckets(newBuckets);
      buckets := newBuckets;
    }

    static function RemoveEach(s: seq<KBucket>, xs: seq<KBucket>): seq<KBucket>
      decreases xs
    {
      if xs == [] then s else RemoveEach(RemoveFirst(s, xs[0]), xs[1..])
    }

    method NeedsSplit(b: KBucket, e: Entry, now: Time) returns (r: bool)
      ensures r <==> Tables.NeedsSplit(Tables.Bucket(b.prefix, b.entries), e, now)
    {
      if !Splittable(b.prefix) || !b.IsFull() || !e.reachable {
        return false;
      }
      var known := b.Get(e.id);
      if known.Some? {
        return false;
      }
      var bad := b.NeedsReplacement(now);
      if bad {
        return false;
      }
      r := IsPrefixOf(SplitBranch(b.prefix, true), e.id);
    }

    /** Puts the next entry of a list into the child that it belongs to. */
    method PutIntoBranch(l: KBucket, h: KBucket, es: seq<Entry>, n: nat, now: Time)
      requires n < |es| && l != h
      requires l.entries == PutAll([], Tables.Side(es[..n], l.prefix, true), now)
      requires h.entries == PutAll([], Tables.Side(es[..n], l.prefix, false), now)
      modifies l, h
      ensures l.entries == PutAll([], Tables.Side(es[..n + 1], l.prefix, true), now)
      ensures h.entries == PutAll([], Tables.Side(es[..n + 1], l.prefix, false), now)
    {
      var low := IsPrefixOf(l.prefix, es[n].id);
      Tables.SideStep(es, n, l.prefix, low);
      PutAllStep([], Tables.Side(es[..n], l.prefix, low), es[n], now);
      if low {
        l.PutEntry(es[n], now);
      } else {
        h.PutEntry(es[n], now);
      }
    }

    /** The two children of a bucket, each holding its share of the entries. */
    method Distribute(bucket: KBucket, now: Time) returns (l: KBucket, h: KBucket)
      requires Splittable(bucket.prefix)
      ensures fresh(l) && fresh(h) && l != h
      ensures l.prefix == SplitBranch(bucket.prefix, false) && h.prefix == SplitBranch(bucket.prefix, true)
      ensures l.entries == PutAll([], Tables.Side(bucket.entries, l.prefix, true), now)
      ensures h.entries == PutAll([], Tables.Side(bucket.entries, l.prefix, false), now)
    {
      l := new KBucket(SplitBranch(bucket.prefix, false));
      h := new KBucket(SplitBranch(bucket.prefix, true));
      var es := bucket.entries;
      var n := 0;
      while n < |es|
        invariant 0 <= n <= |es|
        invariant l.entries == PutAll([], Tables.Side(es[..n], l.prefix, true), now)
        invariant h.entries == PutAll([], Tables.Side(es[..n], l.prefix, false), now)
        modifies l, h
      {
        PutIntoBranch(l, h, es, n, now);
        n := n + 1;
      }
      assert es[..n] == es;
    }

    /** Replaces the buckets i..j by new ones and restores the order. */
    method Replace(i: nat, j: nat, mid: seq<KBucket>, ghost t: Tables.Table)
      requires i < j <= |buckets| && Distinct(buckets) && Distinct(mid) && forall b :: b in mid ==> b !in buckets
      requires Tables.Inv(t) && Shows(Spliced(buckets, i, j, mid), t)
      modifies this`buckets
      ensures Valid() && View() == t
      ensures forall b :: b in buckets ==> b in old(buckets) || b in mid
    {
      ghost var bs := Spliced(buckets, i, j, mid);
      SpliceContents(buckets, i, j, mid);
      SpliceDistinct(buckets, i, j, mid);
      StrictLowEnds(bs, t);
      Modify(buckets[i..j], mid, bs);
      assert Shows(buckets, t);
      ShowsView(buckets, t);
    }

    /** Replaces the bucket at k by its two children. */
    method Split(k: nat, now: Time)
      requires Valid() && k < |buckets| && Splittable(buckets[k].prefix)
      modifies this`buckets
      ensures Valid() && View() == Tables.SplitAt(old(View()), k, now)
      ensures forall b :: b in buckets ==> b in old(buckets) || fresh(b)
    {
      ghost var t := View();
      var l, h := Distribute(buckets[k], now);
      SplitShows(buckets, t, k, l, h, now);
      Replace(k, k + 1, [l, h], Tables.SplitAt(t, k, now));
    }

    /** A change of one bucket object changes that bucket of the value and no other. */
    twostate lemma OneChanged(k: nat)
      requires buckets == old(buckets) && k < |buckets| && Distinct(buckets)
      requires forall b :: b in buckets && b != buckets[k] ==> b.entries == old(b.entries)
      ensures View() == Tables.SetEntries(old(View()), k, buckets[k].entries)
    {
    }

    /** The final insertion of a put, into the bucket at k. */
    method PutAt(k: nat, entry: Entry, now: Time)
      requires k < |buckets| && Distinct(buckets)
      modifies buckets[k]
      ensures View() == Tables.SetEntries(old(View()), k, KBuckets.Put(old(buckets[k].entries), entry, now))
    {
      buckets[k].PutEntry(entry, now);
      OneChanged(k);
    }

    /** The bucket of a newcomer, and whether it has to be split first. */
    method Probe(entry: Entry, now: Time) returns (k: nat, split: bool)
      requires Valid()
      ensures k < |buckets| && k == Tables.IndexOf(View(), entry.id)
      ensures split == Tables.NeedsSplit(View()[k], entry, now)
    {
      k := IndexOf(buckets, entry.id);
      split := NeedsSplit(buckets[k], entry, now);
    }

    /** One round of the put loop: the newcomer's bucket is now the high child. */
    method SplitOnce(k: nat, entry: Entry, now: Time) returns (next: nat, again: bool)
      requires Valid() && k == Tables.IndexOf(View(), entry.id) && Tables.NeedsSplit(View()[k], entry, now)
      modifies this`buckets
      ensures Valid() && Tables.PutEntry(View(), entry, now) == Tables.PutEntry(old(View()), entry, now)
      ensures next == k + 1 < |buckets| && Tables.IndexOf(View(), entry.id) == next
      ensures again == Tables.NeedsSplit(View()[next], entry, now)
      ensures buckets[next].prefix.depth == old(buckets[k].prefix.depth) + 1
      ensures forall b :: b in buckets ==> b in old(buckets) || fresh(b)
    {
      Tables.SplitMovesDown(View(), entry, now);
      Split(k, now);
      next, again := Probe(entry, now);
    }

    /** Splits the bucket of the newcomer while that makes room. */
    method SplitFor(entry: Entry, now: Time) returns (k: nat)
      requires Valid()
      modifies this`buckets
      ensures Valid() && k < |buckets| && k == Tables.IndexOf(View(), entry.id)
      ensures !Tables.NeedsSplit(View()[k], entry, now)
      ensures Tables.PutEntry(View(), entry, now) == Tables.PutEntry(old(View()), entry, now)
      ensures forall b :: b in buckets ==> b in old(buckets) || fresh(b)
    {
      var split;
      k, split := Probe(entry, now);
      while split
        invariant Valid() && k < |buckets| && k == Tables.IndexOf(View(), entry.id)
        invariant split == Tables.NeedsSplit(View()[k], entry, now)
        invariant Tables.PutEntry(View(), entry, now) == Tables.PutEntry(old(View()), entry, now)
        invariant forall b :: b in buckets ==> b in old(buckets) || fresh(b)
        decreases ID_BITS - buckets[k].prefix.depth
      {
        k, split := SplitOnce(k, entry, now);
      }
    }

    /** Splits the bucket of the newcomer while that makes room, then inserts it. */
    method Put(entry: Entry, now: Time)
      requires Valid()
      modifies this`buckets, buckets
      ensures View() == Tables.PutEntry(old(View()), entry, now)
      ensures Valid()
      ensures forall b :: b in buckets ==> b in old(buckets) || fresh(b)
    {
      var k := SplitFor(entry, now);
      Tables.PutKeeps(View(), entry, now);
      assert buckets[k] in buckets;
      PutAt(k, entry, now);
    }

    method RemoveFrom(b: KBucket, id: Id)
      modifies b
      ensures b.entries == RemoveId(old(b.entries), id)
    {
      var k := b.Find(id);
      if k < |b.entries| {
        b.RemoveIfBad(k, true, 0);
      }
    }

    /** Drops the entry of a node. */
    method Remove(id: Id)
      requires Valid()
      modifies buckets
      ensures View() == Tables.RemoveNode(old(View()), id)
      ensures Valid()
    {
      Tables.RemoveKeeps(View(), id);
      var k := IndexOf(buckets, id);
      RemoveFrom(buckets[k], id);
      OneChanged(k);
    }

    method OnTimeout(id: Id, now: Time)
      requires Valid()
      modifies buckets
      ensures View() == Tables.TimeoutNode(old(View()), id, now)
      ensures Valid()
    {
      TimeoutInv(View(), id, now);
      var k := IndexOf(buckets, id);
      buckets[k].Timeout(id, now);
      OneChanged(k);
    }

    method OnSend(id: Id, now: Time)
      requires Valid()
      modifies buckets
      ensures View() == Tables.SendNode(old(View()), id, now)
      ensures Valid()
    {
      Tables.SendKeeps(View(), id, now);
      var k := IndexOf(buckets, id);
      buckets[k].Send(id, now);
      OneChanged(k);
    }

    method EffectiveSize(b: KBucket) returns (count: nat)
      ensures count == Merging.EffectiveSize(b.entries)
    {
      count := 0;
      var n := 0;
      while n < |b.entries|
        invariant 0 <= n <= |b.entries|
        invariant count == Merging.EffectiveSize(b.entries[..n])
      {
        assert b.entries[..n + 1][..n] == b.entries[..n];
        if !b.entries[n].RemovableWithoutReplacement() {
          count := count + 1;
        }
        n := n + 1;
      }
      assert b.entries[..n] == b.entries;
    }

    method IsMergeable(i: nat) returns (r: bool)
      requires 1 <= i < |buckets|
      ensures r <==> Merging.Mergeable(View(), i)
    {
      r := IsSiblingOf(buckets[i - 1].prefix, buckets[i].prefix);
      if r {
        var effectiveSize1 := EffectiveSize(buckets[i - 1]);
        var effectiveSize2 := EffectiveSize(buckets[i]);
        r := effectiveSize1 + effectiveSize2 <= MAX_ENTRIES_PER_BUCKET;
      }
    }

    /** Puts all entries of a list into a bucket. */
    method PutEach(b: KBucket, es: seq<Entry>, now: Time)
      modifies b
      ensures b.entries == PutAll(old(b.entries), es, now)
    {
      var n := 0;
      while n < |es|
        invariant 0 <= n <= |es|
        invariant b.entries == PutAll(old(b.entries), es[..n], now)
        modifies b
      {
        b.PutEntry(es[n], now);
        assert es[..n + 1] == es[..n] + [es[n]];
        PutAllStep(old(b.entries), es[..n], es[n], now);
        n := n + 1;
      }
      assert es[..n] == es;
    }

    /** A bucket for the parent prefix, filled with the entries of two children. */
    method Union(b1: KBucket, b2: KBucket, now: Time) returns (merged: KBucket)
      ensures fresh(merged) && merged.prefix == GetParent(b1.prefix)
      ensures merged.entries == PutAll(PutAll([], b1.entries, now), b2.entries, now)
    {
      merged := new KBucket(GetParent(b1.prefix));
      PutEach(merged, b1.entries, now);
      PutEach(merged, b2.entries, now);
    }

    /** Replaces the buckets i - 1 and i by one for their parent. */
    method MergePair(i: nat, now: Time)
      requires Valid() && 1 <= i < |buckets| && Merging.Mergeable(View(), i)
      modifies this`buckets
      ensures Valid() && View() == Merging.MergeAt(old(View()), i, now)
      ensures forall b :: b in buckets ==> b in old(buckets) || fresh(b)
    {
      ghost var t := View();
      var merged := Union(buckets[i - 1], buckets[i], now);
      MergeShows(buckets, t, i, merged, now);
      Replace(i - 1, i + 1, [merged], Merging.MergeAt(t, i, now));
    }

    /**
     Merges siblings that fit together.  After a merge the counter steps back so that
     the new bucket is compared with its left neighbour too.
     */
    method MergeBuckets(now: Time)
      requires Valid()
      modifies this`buckets
      ensures View() == Merging.MergeAll(old(View()), now)
      ensures Valid()
      ensures forall b :: b in buckets ==> b in old(buckets) || fresh(b)
    {
      var i := 0;
      while true
        invariant Valid() && -1 <= i
        invariant Merging.MergeFrom(View(), i, now) == Merging.MergeAll(old(View()), now)
        invariant forall b :: b in buckets ==> b in old(buckets) || fresh(b)
        decreases |buckets|, |buckets| - i
      {
        i := i + 1;
        if i < 1 {
          continue;
        }
        if i >= |buckets| {
          break;
        }
        i := MergeIfPossible(i, now);
      }
    }

    /** One round of the merge loop; returns the counter, stepped back after a merge. */
    method MergeIfPossible(i: nat, now: Time) returns (j: int)
      requires Valid() && 1 <= i < |buckets|
      modifies this`buckets
      ensures Valid() && -1 <= j
      ensures Merging.MergeFrom(View(), j, now) == Merging.MergeFrom(old(View()), i - 1, now)
      ensures (j == i - 2 && |buckets| == |old(buckets)| - 1) || (j == i && buckets == old(buckets))
      ensures forall b :: b in buckets ==> b in old(buckets) || fresh(b)
    {
      j := i;
      var mergeable := IsMergeable(i);
      if mergeable {
        MergePair(i, now);
        j := i - 2;
      }
    }

    /**
     One round of the removal loop of maintenance: what happens to entry n of the
     bucket's old list.  Every entry lies under its bucket's prefix, so the branch that
     would move a wrong entry is dead.
     */
    method ScrubEntry(b: KBucket, es: seq<Entry>, n: nat, localId: Id, bootstrapIds: seq<Id>, wasFull: bool)
      requires Pairwise(es) && n < |es| && Covers(b.prefix, es[n].id)
      requires b.entries == Merging.Wanted(es[..n], localId, bootstrapIds, wasFull) + es[n..]
      modifies b
      ensures b.entries == Merging.Wanted(es[..n + 1], localId, bootstrapIds, wasFull) + es[n + 1..]
    {
      var e := es[n];
      NextWanted(es, n, localId, bootstrapIds, wasFull);
      ghost var kept := Merging.Wanted(es[..n], localId, bootstrapIds, wasFull);
      Advance(es, n, kept);
      if Merging.Unwanted(e.id, localId, bootstrapIds, wasFull) {
        NextPlace(es, n, kept);
        var k := b.Find(e.id);
        b.RemoveIfBad(k, true, 0);
      } else {
        var placed := IsPrefixOf(b.prefix, e.id);
        if !placed {
          assert false;
        }
      }
    }

    method ScrubBucket(b: KBucket, localId: Id, bootstrapIds: seq<Id>)
      requires Tables.BucketOk(Tables.Bucket(b.prefix, b.entries))
      modifies b
      ensures b.entries == Merging.Scrub(old(b.entries), localId, bootstrapIds)
    {
      var es := b.entries;
      var wasFull := |es| >= MAX_ENTRIES_PER_BUCKET;
      var n := 0;
      while n < |es|
        invariant 0 <= n <= |es|
        invariant b.entries == Merging.Wanted(es[..n], localId, bootstrapIds, wasFull) + es[n..]
        modifies b
      {
        EntryOk(b.prefix, es, n);
        ScrubEntry(b, es, n, localId, bootstrapIds, wasFull);
        n := n + 1;
      }
      assert es[..n] == es;
    }

    method Maintenance(localId: Id, bootstrapIds: seq<Id>, now: Time)
      requires Valid()
      modifies this`buckets, buckets
      ensures View() == Merging.Maintain(old(View()), localId, bootstrapIds, now)
      ensures Valid()
      ensures forall b :: b in buckets ==> b in old(buckets) || fresh(b)
    {
      Merging.MaintainKeeps(View(), localId, bootstrapIds, now);
      MergeBuckets(now);
      ghost var t := View();
      assert forall i :: 0 <= i < |buckets| ==> buckets[i] in old(buckets) || fresh(buckets[i]);
      ScrubBuckets(localId, bootstrapIds, t);
      ShowsView(buckets, Merging.ScrubAll(t, localId, bootstrapIds));
    }

    method ScrubBuckets(localId: Id, bootstrapIds: seq<Id>, ghost t: Tables.Table)
      requires Distinct(buckets) && t == View() && Tables.AllOk(t)
      modifies buckets
      ensures Shows(buckets, Merging.ScrubAll(t, localId, bootstrapIds))
    {
      var bs := buckets;
      assert forall i :: 0 <= i < |bs| ==> bs[i] in bs;
      for n := 0 to |bs|
        invariant forall i :: 0 <= i < n ==> bs[i].entries == Merging.Scrub(t[i].entries, localId, bootstrapIds)
        invariant forall i :: n <= i < |bs| ==> bs[i].entries == t[i].entries
      {
        assert Tables.BucketOk(t[n]);
        ScrubBucket(bs[n], localId, bootstrapIds);
      }
    }
  }

  lemma EntryOk(p: Prefix, es: seq<Entry>, n: nat)
    requires Tables.BucketOk(Tables.Bucket(p, es)) && n < |es|
    ensures Pairwise(es) && Covers(p, es[n].id)
  {
    assert es[n] in es;
  }

  /** Of what is known about timeouts, only the invariant. */
  lemma TimeoutInv(t: Tables.Table, id: Id, now: Time)
    requires Tables.Inv(t)
    ensures Tables.Inv(Tables.TimeoutNode(t, id, now))
  {
    Tables.TimeoutKeeps(t, id, now);
  }

  lemma Advance<T>(s: seq<T>, n: nat, kept: seq<T>)
    requires n < |s|
    ensures (kept + s[n..])[..|kept|] + (kept + s[n..])[|kept| + 1..] == kept + s[n + 1..]
    ensures kept + s[n..] == (kept + [s[n]]) + s[n + 1..]
  {
    assert s[n..] == [s[n]] + s[n + 1..];
  }

  /** In a list of distinct ids the next entry stands right after those already kept. */
  lemma NextPlace(es: seq<Entry>, n: nat, kept: seq<Entry>)
    requires n < |es| && forall x :: x in kept ==> x.id != es[n].id
    ensures FirstWithId(kept + es[n..], es[n].id) == |kept|
  {
    var all := kept + es[n..];
    assert all[|kept|] == es[n];
    forall i | 0 <= i < |kept| ensures all[i].id != es[n].id {
      assert kept[i] in kept;
    }
  }

  lemma NextWanted(es: seq<Entry>, n: nat, localId: Id, bootstrapIds: seq<Id>, wasFull: bool)
    requires Pairwise(es) && n < |es|
    ensures var kept := Merging.Wanted(es[..n], localId, bootstrapIds, wasFull);
      && (forall x :: x in kept ==> x.id != es[n].id)
      && Merging.Wanted(es[..n + 1], localId, bootstrapIds, wasFull) ==
         if Merging.Unwanted(es[n].id, localId, bootstrapIds, wasFull) then kept else kept + [es[n]]
  {
    assert es[..n + 1][..n] == es[..n];
    Merging.WantedFacts(es[..n], localId, bootstrapIds, wasFull);
    forall x | x in es[..n] ensures x.id != es[n].id {
      var i :| 0 <= i < n && es[i] == x;
      assert !es[i].Matches(es[n]);
    }
  }

  lemma MergeShows(bs: seq<KBucket>, t: Tables.Table, i: nat, merged: KBucket, now: Time)
    requires Shows(bs, t) && Tables.Inv(t) && 1 <= i < |bs| && Sibling(t[i - 1].prefix, t[i].prefix)
    requires Tables.Bucket(merged.prefix, merged.entries) == Merging.Merged(t[i - 1], t[i], now)
    ensures Shows(Spliced(bs, i - 1, i + 1, [merged]), Merging.MergeAt(t, i, now))
    ensures Tables.Inv(Merging.MergeAt(t, i, now))
  {
    Merging.MergeKeeps(t, i, now);
    SpliceShows(bs, t, i - 1, i + 1, [merged], [Merging.Merged(t[i - 1], t[i], now)]);
  }

  ghost function Spliced<T>(s: seq<T>, i: nat, j: nat, mid: seq<T>): seq<T>
    requires i <= j <= |s|
  {
    s[..i] + mid + s[j..]
  }

  lemma SpliceDistinct<T>(s: seq<T>, i: nat, j: nat, mid: seq<T>)
    requires i <= j <= |s| && Distinct(s) && Distinct(mid)
    requires forall x :: x in mid ==> x !in s
    ensures Distinct(Spliced(s, i, j, mid))
    ensures forall x :: x in Spliced(s, i, j, mid) ==> x in s || x in mid
  {
    var r := Spliced(s, i, j, mid);
    var d := |mid| - (j - i);
    forall a, b | 0 <= a < b < |r| ensures r[a] != r[b] {
      assert r[a] == if a < i then s[a] else if a < i + |mid| then mid[a - i] else s[a - d];
      assert r[b] == if b < i then s[b] else if b < i + |mid| then mid[b - i] else s[b - d];
      if i <= a < i + |mid| <= b {
        assert mid[a - i] in mid && s[b - d] in s;
      } else if a < i <= b < i + |mid| {
        assert mid[b - i] in mid && s[a] in s;
      }
    }
  }

  lemma StillDistinct<T>(s: seq<T>, k: nat)
    requires k < |s| && Distinct(s)
    ensures Distinct(s[..k] + s[k + 1..])
  {
  }

  lemma SegmentWithoutFirst<T>(s: seq<T>, i: nat, j: nat)
    requires i < j <= |s|
    ensures var rest := s[..i] + s[i + 1..];
      && s[i..j] == [s[i]] + rest[i..j - 1]
      && rest[..i] + rest[j - 1..] == s[..i] + s[j..]
  {
    var rest := s[..i] + s[i + 1..];
    assert rest[..i] == s[..i] && rest[i..] == s[i + 1..];
    assert rest[i..j - 1] == s[i + 1..j] && rest[j - 1..] == s[j..];
  }

  lemma {:induction false} RemoveSegment(bs: seq<KBucket>, i: nat, j: nat)
    requires i <= j <= |bs| && Distinct(bs)
    ensures RoutingTable.RemoveEach(bs, bs[i..j]) == bs[..i] + bs[j..]
    decreases j - i
  {
    if i < j {
      var rest := bs[..i] + bs[i + 1..];
      RemoveFirstAt(bs, i);
      StillDistinct(bs, i);
      SegmentWithoutFirst(bs, i, j);
      RemoveSegment(rest, i, j - 1);
      RemoveOneThenRest(bs, bs[i], rest[i..j - 1]);
    } else {
      assert bs[..i] + bs[j..] == bs;
    }
  }

  lemma RemoveOneThenRest(s: seq<KBucket>, x: KBucket, xs: seq<KBucket>)
    ensures RoutingTable.RemoveEach(s, [x] + xs) == RoutingTable.RemoveEach(RemoveFirst(s, x), xs)
  {
    assert ([x] + xs)[1..] == xs;
  }

  lemma SpliceContents(bs: seq<KBucket>, i: nat, j: nat, mid: seq<KBucket>)
    requires i <= j <= |bs| && Distinct(bs)
    ensures multiset(RoutingTable.RemoveEach(bs, bs[i..j])) + multiset(mid) == multiset(Spliced(bs, i, j, mid))
  {
    RemoveSegment(bs, i, j);
  }

  /** The value of a spliced list of buckets is the spliced value. */
  lemma SpliceShows(bs: seq<KBucket>, t: Tables.Table, i: nat, j: nat, mid: seq<KBucket>, m: Tables.Table)
    requires i <= j <= |bs| && Shows(bs, t) && Shows(mid, m)
    ensures Shows(Spliced(bs, i, j, mid), Spliced(t, i, j, m))
  {
  }

  lemma SplitShows(bs: seq<KBucket>, t: Tables.Table, k: nat, l: KBucket, h: KBucket, now: Time)
    requires Shows(bs, t) && Tables.Inv(t) && k < |bs| && Splittable(t[k].prefix)
    requires Tables.Bucket(l.prefix, l.entries) == Tables.Branch(t[k], false, now)
    requires Tables.Bucket(h.prefix, h.entries) == Tables.Branch(t[k], true, now)
    ensures Shows(Spliced(bs, k, k + 1, [l, h]), Tables.SplitAt(t, k, now))
    ensures Tables.Inv(Tables.SplitAt(t, k, now))
  {
    Tables.SplitKeeps(t, k, now);
    SpliceShows(bs, t, k, k + 1, [l, h], [Tables.Branch(t[k], false, now), Tables.Branch(t[k], true, now)]);
  }

  ghost predicate StrictlyOrdered(bs: seq<KBucket>) {
    forall i, j :: 0 <= i < j < |bs| ==> Lo(bs[i].prefix) < Lo(bs[j].prefix)
  }

  lemma StrictLowEnds(bs: seq<KBucket>, t: Tables.Table)
    requires Tables.Tiled(t) && Shows(bs, t)
    ensures StrictlyOrdered(bs)
  {
    forall i, j | 0 <= i < j < |t| ensures Lo(t[i].prefix) < Lo(t[j].prefix) {
      Tables.ChainOrder(t, i, j);
      LoBelowHi(t[i].prefix);
    }
  }
}
