/**
 Which buckets the collection takes, and in which order: always the nearer of the two
 neighbours, and not one more than needed.
 */
module Widening {
  import opened Bits
  import opened Ids
  import opened Prefixes
  import opened KBuckets
  import opened Nearness
  import Tables

  /** Comparing the edges that face the range is comparing the buckets. */
  lemma EdgesAreBuckets(t: Tables.Table, target: Id, low: nat, high: nat)
    requires Tables.Tiled(t) && 0 < low <= high < |t| - 1
    ensures LowerIsCloser(t, target, low, high) <==>
            Dist(target, t[low - 1].prefix.bytes) < Dist(target, t[high + 1].prefix.bytes)
  {
    var p, q := t[low - 1].prefix, t[high + 1].prefix;
    NoExtension(t, low - 1, high + 1);
    NoExtension(t, high + 1, low - 1);
    var k := FirstDifference(Pat(p), Pat(q));
    CoversFirst(p);
    CoversFirst(q);
    BlockBits(p, p.bytes, k);
    BlockBits(q, q.bytes, k);
    LastIsUnder(p, k);
    XorRefinesBits(target, q.bytes);
    NearerBits(ToBits(target), LastBits(p), ToBits(q.bytes), k);
    FirstDifferenceNearer(target, p.bytes, q.bytes, k);
  }

  lemma LastIsUnder(p: Prefix, k: nat)
    requires k < |Pat(p)|
    ensures LastBits(p)[..k] == Pat(p)[..k] && LastBits(p)[k] == Pat(p)[k]
  {
  }

  /** The bucket just below a range is taken next: there is none above, or it is nearer than that one. */
  ghost predicate LowerNext(t: Tables.Table, target: Id, low: nat, high: nat)
    requires low <= high < |t|
  {
    low > 0 && (high == |t| - 1 || Dist(target, t[low - 1].prefix.bytes) < Dist(target, t[high + 1].prefix.bytes))
  }

  lemma DownwardIsNearer(t: Tables.Table, target: Id, low: nat, high: nat)
    requires Tables.Tiled(t) && low <= high < |t|
    ensures (low > 0 && (high == |t| - 1 || Downward(t, target)(low, high))) <==> LowerNext(t, target, low, high)
  {
    if 0 < low && high < |t| - 1 {
      EdgesAreBuckets(t, target, low, high);
    }
  }

  /** Of the two neighbours of a range the one is taken whose entries are all nearer than the other's. */
  lemma NearerNeighbour(t: Tables.Table, target: Id, low: nat, high: nat, x: Entry, y: Entry)
    requires Tables.Inv(t) && 0 < low <= high < |t| - 1 && x in t[low - 1].entries && y in t[high + 1].entries
    ensures LowerNext(t, target, low, high) <==> Dist(target, x.id) < Dist(target, y.id)
  {
    BucketsOrdered(t, target, low - 1, high + 1, x, y);
  }

  datatype Range = Range(low: nat, high: nat)

  /** The ranges a collection goes through: short of entries, it adds the nearer neighbour, and stops with enough. */
  ghost predicate Widens(t: Tables.Table, target: Id, max: nat, filter: Filter, path: seq<Range>) {
    && |path| > 0
    && (forall i :: 0 <= i < |path| ==> path[i].low <= path[i].high < |t|)
    && (forall i :: 0 <= i < |path| - 1 ==> StepsTo(t, target, max, filter, path[i], path[i + 1]))
    && var last := path[|path| - 1];
       |Eligible(t, last.low, last.high, filter)| >= max || (last.low == 0 && last.high == |t| - 1)
  }

  ghost predicate StepsTo(t: Tables.Table, target: Id, max: nat, filter: Filter, r: Range, next: Range)
    requires r.low <= r.high < |t|
  {
    && |Eligible(t, r.low, r.high, filter)| < max && !(r.low == 0 && r.high == |t| - 1)
    && next == if LowerNext(t, target, r.low, r.high) then Range(r.low - 1, r.high) else Range(r.low, r.high + 1)
  }

  lemma {:induction false} WidenPath(t: Tables.Table, target: Id, max: nat, filter: Filter, low: nat, high: nat)
    returns (path: seq<Range>)
    requires Tables.Tiled(t) && low <= high < |t|
    ensures Widens(t, target, max, filter, path) && path[0] == Range(low, high)
    ensures var r := Widen(|t|, Downward(t, target), Enough(t, max, filter), low, high);
      path[|path| - 1] == Range(r.0, r.1)
    decreases |t| - (high - low)
  {
    var down, enough := Downward(t, target), Enough(t, max, filter);
    assert enough(low, high) <==> |Eligible(t, low, high, filter)| >= max;
    if enough(low, high) || (low == 0 && high == |t| - 1) {
      path := [Range(low, high)];
    } else {
      DownwardIsNearer(t, target, low, high);
      var lo, hi := low, high;
      if LowerNext(t, target, low, high) {
        lo := low - 1;
      } else {
        hi := high + 1;
      }
      WidenStep(|t|, down, enough, low, high, lo, hi);
      var rest := WidenPath(t, target, max, filter, lo, hi);
      path := [Range(low, high)] + rest;
      PathGrows(t, target, max, filter, Range(low, high), rest);
    }
  }

  lemma PathGrows(t: Tables.Table, target: Id, max: nat, filter: Filter, r: Range, rest: seq<Range>)
    requires Widens(t, target, max, filter, rest) && r.low <= r.high < |t| && StepsTo(t, target, max, filter, r, rest[0])
    ensures Widens(t, target, max, filter, [r] + rest)
  {
    var path := [r] + rest;
    forall i | 0 <= i < |path| - 1 ensures StepsTo(t, target, max, filter, path[i], path[i + 1]) {
      if i > 0 {
        assert path[i] == rest[i - 1] && path[i + 1] == rest[i];
      }
    }
  }

  /** The run is reached from the target's bucket by adding the nearer neighbour as long as entries are missing. */
  lemma RunIsWidened(t: Tables.Table, target: Id, max: nat, filter: Filter) returns (path: seq<Range>)
    requires Tables.Tiled(t)
    ensures var r, k := Run(t, target, max, filter), Tables.IndexOf(t, target);
      Widens(t, target, max, filter, path) && path[0] == Range(k, k) && path[|path| - 1] == Range(r.0, r.1)
  {
    var k := Tables.IndexOf(t, target);
    path := WidenPath(t, target, max, filter, k, k);
  }
}
