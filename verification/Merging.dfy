/**
 Merging sibling buckets, the removal part of table maintenance, and whole runs.
 */
module Merging {
  import opened Wrappers
  import opened Bits
  import opened Ids
  import opened Prefixes
  import opened KBuckets
  import opened Tables

  /** Entries that count when deciding whether two buckets fit into one. */
  function EffectiveSize(es: seq<Entry>): nat {
    if es == [] then 0
    else EffectiveSize(es[..|es| - 1]) + (if es[|es| - 1].RemovableWithoutReplacement() then 0 else 1)
  }

  ghost predicate Mergeable(t: Table, i: nat)
    requires 1 <= i < |t|
  {
    && Sibling(t[i - 1].prefix, t[i].prefix)
    && EffectiveSize(t[i - 1].entries) + EffectiveSize(t[i].entries) <= MAX_ENTRIES_PER_BUCKET
  }

  ghost function Merged(b1: Bucket, b2: Bucket, now: Time): Bucket {
    Bucket(GetParent(b1.prefix), PutAll(PutAll([], b1.entries, now), b2.entries, now))
  }

  ghost function MergeAt(t: Table, i: nat, now: Time): Table
    requires 1 <= i < |t|
  {
    t[..i - 1] + [Merged(t[i - 1], t[i], now)] + t[i + 1..]
  }

  // --------------------------------------------------------- what a merge keeps

  lemma PairwiseOnce(es: seq<Entry>, x: Entry)
    requires Pairwise(es)
    ensures multiset(es)[x] <= 1
  {
    if es != [] {
      var n := |es| - 1;
      PairwiseOnce(es[..n], x);
      assert es == es[..n] + [es[n]];
      assert forall i :: 0 <= i < n ==> !es[i].Matches(es[n]);
      assert es[n] !in es[..n];
    }
  }

  /** Entries of two different buckets never share an id. */
  lemma DisjointIds(t: Table, i: nat, j: nat, x: Entry, y: Entry)
    requires Inv(t) && i < j < |t| && x in t[i].entries && y in t[j].entries
    ensures x.id != y.id
  {
    assert BucketOk(t[i]) && BucketOk(t[j]);
    if x.id == y.id {
      CoverUnique(t, x.id, i, j);
    }
  }

  /** Refilling an empty bucket with a sound one's entries keeps exactly those. */
  lemma RefillKeeps(es: seq<Entry>, now: Time)
    requires Sound(es)
    ensures Sound(PutAll([], es, now)) && multiset(PutAll([], es, now)) == multiset(es)
    ensures |PutAll([], es, now)| == |es|
    ensures forall x :: x in PutAll([], es, now) <==> x in es
  {
    assert [] + es == es;
    PutAllKeepsAll([], es, now);
    forall x ensures x in PutAll([], es, now) <==> x in es {
      assert x in multiset(PutAll([], es, now)) <==> x in multiset(es);
    }
  }

  /** The merged bucket is sound and only holds entries of the two it replaces. */
  lemma MergedOk(t: Table, i: nat, now: Time)
    requires Inv(t) && 1 <= i < |t| && Sibling(t[i - 1].prefix, t[i].prefix)
    ensures BucketOk(Merged(t[i - 1], t[i], now))
    ensures forall x :: x in Merged(t[i - 1], t[i], now).entries ==> x in t[i - 1].entries || x in t[i].entries
  {
    var b1, b2 := t[i - 1], t[i];
    assert BucketOk(b1) && BucketOk(b2);
    var r := Merged(b1, b2, now);
    var base := PutAll([], b1.entries, now);
    RefillKeeps(b1.entries, now);
    PutAllSound(base, b2.entries, now);
    forall x, y | x in base && y in b2.entries ensures x.id != y.id {
      DisjointIds(t, i - 1, i, x, y);
    }
    PutAllInventsNothing(base, b2.entries, now);
    ChainOrder(t, i - 1, i);
    LoBelowHi(b1.prefix);
    SiblingsUnite(b1.prefix, b2.prefix);
    BranchesHalve(r.prefix);
  }

  lemma MergeTiled(t: Table, i: nat, now: Time)
    requires Tiled(t) && 1 <= i < |t| && Sibling(t[i - 1].prefix, t[i].prefix)
    ensures Tiled(MergeAt(t, i, now))
  {
    ChainOrder(t, i - 1, i);
    LoBelowHi(t[i - 1].prefix);
    SiblingsUnite(t[i - 1].prefix, t[i].prefix);
    SpliceTiled(t, i - 1, i + 1, [Merged(t[i - 1], t[i], now)]);
  }

  lemma SubsetOnce(r: seq<Entry>, es: seq<Entry>)
    requires Pairwise(r) && forall x :: x in r ==> x in es
    ensures multiset(r) <= multiset(es)
  {
    forall x ensures multiset(r)[x] <= multiset(es)[x] {
      PairwiseOnce(r, x);
      if x in multiset(r) {
        assert x in r && x in multiset(es);
      }
    }
  }

  /** A merge keeps the invariant and never invents an entry. */
  lemma MergeKeeps(t: Table, i: nat, now: Time)
    requires Inv(t) && 1 <= i < |t| && Sibling(t[i - 1].prefix, t[i].prefix)
    ensures Inv(MergeAt(t, i, now))
    ensures Contents(MergeAt(t, i, now)) <= Contents(t)
  {
    var m := Merged(t[i - 1], t[i], now);
    MergeTiled(t, i, now);
    MergedOk(t, i, now);
    SpliceOk(t, i - 1, i + 1, [m]);
    SubsetOnce(m.entries, t[i - 1].entries + t[i].entries);
    MergeContents(t, i, m);
    AroundInjective(t, i, multiset(m.entries), multiset(t[i - 1].entries) + multiset(t[i].entries));
  }

  /** The entries outside the pair i - 1, i, together with x. */
  ghost function Around(t: Table, i: nat, x: multiset<Entry>): multiset<Entry>
    requires 1 <= i < |t|
  {
    Contents(t[..i - 1]) + x + Contents(t[i + 1..])
  }

  lemma PairContents(t: Table, i: nat)
    requires 1 <= i < |t|
    ensures Contents(t[i - 1..i + 1]) == multiset(t[i - 1].entries) + multiset(t[i].entries)
  {
    assert t[i - 1..i + 1] == [t[i - 1], t[i]];
    ContentsTwo(t[i - 1], t[i]);
  }

  lemma MergeContents(t: Table, i: nat, m: Bucket)
    requires 1 <= i < |t|
    ensures Contents(t) == Around(t, i, multiset(t[i - 1].entries) + multiset(t[i].entries))
    ensures Contents(t[..i - 1] + [m] + t[i + 1..]) == Around(t, i, multiset(m.entries))
  {
    ContentsSplice(t, i - 1, i + 1, [m]);
    PairContents(t, i);
    ContentsOne(m);
  }

  lemma AroundInjective(t: Table, i: nat, x: multiset<Entry>, y: multiset<Entry>)
    requires 1 <= i < |t|
    ensures Around(t, i, x) == Around(t, i, y) <==> x == y
    ensures x <= y ==> Around(t, i, x) <= Around(t, i, y)
  {
    if Around(t, i, x) == Around(t, i, y) {
      forall e ensures x[e] == y[e] {
        assert Around(t, i, x)[e] == Around(t, i, y)[e];
      }
    }
  }

  ghost predicate AddressClash(b1: Bucket, b2: Bucket) {
    exists x, y :: x in b1.entries && y in b2.entries && x.addr == y.addr
  }

  /**
   A merge loses nothing exactly when the two buckets together hold at most eight
   entries and no entry of one has the address of an entry of the other.
   */
  lemma MergeLosesNothingIff(t: Table, i: nat, now: Time)
    requires Inv(t) && 1 <= i < |t| && Sibling(t[i - 1].prefix, t[i].prefix)
    ensures Contents(MergeAt(t, i, now)) == Contents(t) <==>
      |t[i - 1].entries| + |t[i].entries| <= MAX_ENTRIES_PER_BUCKET && !AddressClash(t[i - 1], t[i])
  {
    var b1, b2 := t[i - 1], t[i];
    assert BucketOk(b1) && BucketOk(b2);
    var m := Merged(b1, b2, now);
    var both := multiset(b1.entries) + multiset(b2.entries);
    MergeContents(t, i, m);
    AroundInjective(t, i, multiset(m.entries), both);
    if |b1.entries| + |b2.entries| <= MAX_ENTRIES_PER_BUCKET && !AddressClash(b1, b2) {
      MergedKeepsBoth(t, i, now);
    }
    if multiset(m.entries) == both {
      MergedOk(t, i, now);
      SameContentsNoClash(m.entries, b1, b2);
    }
  }

  lemma MergedKeepsBoth(t: Table, i: nat, now: Time)
    requires Inv(t) && 1 <= i < |t|
    requires |t[i - 1].entries| + |t[i].entries| <= MAX_ENTRIES_PER_BUCKET && !AddressClash(t[i - 1], t[i])
    ensures multiset(Merged(t[i - 1], t[i], now).entries) == multiset(t[i - 1].entries) + multiset(t[i].entries)
  {
    var b1, b2 := t[i - 1], t[i];
    assert BucketOk(b1) && BucketOk(b2);
    var base := PutAll([], b1.entries, now);
    RefillKeeps(b1.entries, now);
    forall x, y | x in base && y in b2.entries ensures !x.Matches(y) {
      DisjointIds(t, i - 1, i, x, y);
    }
    JoinPairwise(base, b2.entries);
    PutAllKeepsAll(base, b2.entries, now);
  }

  lemma JoinPairwise(a: seq<Entry>, b: seq<Entry>)
    requires Pairwise(a) && Pairwise(b)
    requires forall x, y :: x in a && y in b ==> !x.Matches(y)
    ensures Pairwise(a + b)
  {
    forall i, j | 0 <= i < j < |a + b| ensures !(a + b)[i].Matches((a + b)[j]) {
      if i < |a| <= j {
        assert a[i] in a && b[j - |a|] in b;
      }
    }
  }

  lemma SameContentsNoClash(r: seq<Entry>, b1: Bucket, b2: Bucket)
    requires Sound(r) && Pairwise(b1.entries) && multiset(r) == multiset(b1.entries) + multiset(b2.entries)
    ensures |b1.entries| + |b2.entries| <= MAX_ENTRIES_PER_BUCKET && !AddressClash(b1, b2)
  {
    assert |r| == |multiset(r)| && |b1.entries| == |multiset(b1.entries)| && |b2.entries| == |multiset(b2.entries)|;
    forall x, y | x in b1.entries && y in b2.entries ensures x.addr != y.addr {
      assert x in multiset(r) && y in multiset(r);
      PairwiseOnce(r, x);
      assert multiset(r)[x] == multiset(b1.entries)[x] + multiset(b2.entries)[x];
      assert x != y;
      var k :| 0 <= k < |r| && r[k] == x;
      var m :| 0 <= m < |r| && r[m] == y;
      assert if k < m then !r[k].Matches(r[m]) else !r[m].Matches(r[k]);
    }
  }

  // ------------------------------------------------------------- the merge loop

  /** All entries count exactly when none is removable. */
  lemma {:induction false} EffectiveSizeCounts(es: seq<Entry>)
    ensures EffectiveSize(es) <= |es|
    ensures EffectiveSize(es) == |es| <==> forall x :: x in es ==> !x.RemovableWithoutReplacement()
  {
    if es != [] {
      var n := |es| - 1;
      EffectiveSizeCounts(es[..n]);
      assert es == es[..n] + [es[n]];
    }
  }

  /** Where no entry is removable, what the size test lets through loses nothing but address clashes. */
  lemma MergeOfEffective(t: Table, i: nat, now: Time)
    requires Inv(t) && 1 <= i < |t| && Mergeable(t, i)
    requires forall x :: x in t[i - 1].entries + t[i].entries ==> !x.RemovableWithoutReplacement()
    ensures Contents(MergeAt(t, i, now)) == Contents(t) <==> !AddressClash(t[i - 1], t[i])
  {
    EffectiveSizeCounts(t[i - 1].entries);
    EffectiveSizeCounts(t[i].entries);
    MergeLosesNothingIff(t, i, now);
  }

  /** The merge loop: i is the loop counter before its increment. */
  ghost function MergeFrom(t: Table, i: int, now: Time): Table
    requires Inv(t) && -1 <= i
    decreases |t|, |t| - i
  {
    var j := i + 1;
    if j < 1 then MergeFrom(t, j, now)
    else if j >= |t| then t
    else if Mergeable(t, j) then
      MergeKeeps(t, j, now);
      MergeFrom(MergeAt(t, j, now), j - 2, now)
    else MergeFrom(t, j, now)
  }

  ghost predicate SettledUpTo(t: Table, n: int) {
    forall j :: 1 <= j <= n && j < |t| ==> !Mergeable(t, j)
  }

  lemma MergeKeepsSettled(t: Table, j: nat, now: Time)
    requires Inv(t) && 1 <= j < |t| && SettledUpTo(t, j - 1)
    ensures SettledUpTo(MergeAt(t, j, now), j - 2)
  {
    var r := MergeAt(t, j, now);
    forall k | 1 <= k <= j - 2 && k < |r| ensures !Mergeable(r, k) {
      assert r[k] == t[k] && r[k - 1] == t[k - 1];
      assert !Mergeable(t, k);
    }
  }

  lemma MergeRound(t: Table, j: nat, now: Time)
    requires Inv(t) && 1 <= j < |t| && SettledUpTo(t, j - 1) && Mergeable(t, j)
    ensures var r := MergeAt(t, j, now);
      Inv(r) && Contents(r) <= Contents(t) && |r| == |t| - 1 && SettledUpTo(r, j - 2)
  {
    MergeKeeps(t, j, now);
    MergeKeepsSettled(t, j, now);
  }

  /**
   The loop keeps the invariant, invents no entry, and, because it steps back over the
   pair that a merge may have made mergeable, ends with no mergeable pair left.
   */
  lemma {:induction false} MergeLoop(t: Table, i: int, now: Time)
    requires Inv(t) && -1 <= i && SettledUpTo(t, i)
    ensures var r := MergeFrom(t, i, now);
      Inv(r) && Contents(r) <= Contents(t) && |r| <= |t| && SettledUpTo(r, |r|)
    decreases |t|, |t| - i
  {
    var j := i + 1;
    if j < 1 {
      MergeLoop(t, j, now);
    } else if j < |t| {
      if Mergeable(t, j) {
        MergeRound(t, j, now);
        MergeLoop(MergeAt(t, j, now), j - 2, now);
      } else {
        MergeLoop(t, j, now);
      }
    }
  }

  ghost function MergeAll(t: Table, now: Time): Table
    requires Inv(t)
  {
    MergeFrom(t, 0, now)
  }

  /** No entry is removable and no address occurs twice. */
  ghost predicate Clean(t: Table) {
    && (forall x :: Stored(t, x) ==> !x.RemovableWithoutReplacement())
    && (forall x, y :: Stored(t, x) && Stored(t, y) && x.addr == y.addr ==> x == y)
  }

  lemma MergeOfClean(t: Table, j: nat, now: Time)
    requires Inv(t) && 1 <= j < |t| && Mergeable(t, j) && Clean(t)
    ensures Contents(MergeAt(t, j, now)) == Contents(t) && Clean(MergeAt(t, j, now))
  {
    NoClash(t, j);
    forall x | x in t[j - 1].entries + t[j].entries ensures Stored(t, x) {
      assert x in t[j - 1].entries || x in t[j].entries;
    }
    MergeOfEffective(t, j, now);
    ContentsAreStored(t);
    ContentsAreStored(MergeAt(t, j, now));
  }

  lemma NoClash(t: Table, j: nat)
    requires Inv(t) && 1 <= j < |t| && Clean(t)
    ensures !AddressClash(t[j - 1], t[j])
  {
    forall x, y | x in t[j - 1].entries && y in t[j].entries ensures x.addr != y.addr {
      assert Stored(t, x) && Stored(t, y);
      DisjointIds(t, j - 1, j, x, y);
    }
  }

  /** From a table without removable entries and shared addresses, merging loses nothing at all. */
  lemma {:induction false} MergingKeepsClean(t: Table, i: int, now: Time)
    requires Inv(t) && -1 <= i && Clean(t)
    ensures Contents(MergeFrom(t, i, now)) == Contents(t)
    decreases |t|, |t| - i
  {
    var j := i + 1;
    if j < 1 {
      MergingKeepsClean(t, j, now);
    } else if j < |t| {
      if Mergeable(t, j) {
        MergeKeeps(t, j, now);
        MergeOfClean(t, j, now);
        MergingKeepsClean(MergeAt(t, j, now), j - 2, now);
      } else {
        MergingKeepsClean(t, j, now);
      }
    }
  }

  // ----------------------------------------------------- removals in maintenance

  predicate Unwanted(id: Id, localId: Id, bootstrapIds: seq<Id>, wasFull: bool) {
    id == localId || (wasFull && id in bootstrapIds)
  }

  function Wanted(es: seq<Entry>, localId: Id, bootstrapIds: seq<Id>, wasFull: bool): seq<Entry> {
    if es == [] then []
    else
      var rest := Wanted(es[..|es| - 1], localId, bootstrapIds, wasFull);
      if Unwanted(es[|es| - 1].id, localId, bootstrapIds, wasFull) then rest else rest + [es[|es| - 1]]
  }

  function Scrub(es: seq<Entry>, localId: Id, bootstrapIds: seq<Id>): seq<Entry> {
    Wanted(es, localId, bootstrapIds, |es| >= MAX_ENTRIES_PER_BUCKET)
  }

  lemma {:induction false} WantedFacts(es: seq<Entry>, localId: Id, bootstrapIds: seq<Id>, wasFull: bool)
    requires Pairwise(es)
    ensures var r := Wanted(es, localId, bootstrapIds, wasFull);
      && |r| <= |es| && Pairwise(r)
      && forall x :: x in r <==> x in es && !Unwanted(x.id, localId, bootstrapIds, wasFull)
  {
    if es != [] {
      var n := |es| - 1;
      WantedFacts(es[..n], localId, bootstrapIds, wasFull);
      var rest := Wanted(es[..n], localId, bootstrapIds, wasFull);
      forall i | 0 <= i < |rest| ensures !rest[i].Matches(es[n]) {
        assert rest[i] in rest && rest[i] in es[..n];
      }
      assert es == es[..n] + [es[n]];
    }
  }

  ghost function ScrubAll(t: Table, localId: Id, bootstrapIds: seq<Id>): Table {
    seq(|t|, i requires 0 <= i < |t| => Bucket(t[i].prefix, Scrub(t[i].entries, localId, bootstrapIds)))
  }

  /** Gone are exactly our own entry and, from a full bucket, those of bootstrap nodes. */
  ghost predicate ScrubbedRight(before: Bucket, after: Bucket, localId: Id, bootstrapIds: seq<Id>) {
    forall x :: x in after.entries <==>
      x in before.entries && x.id != localId && !(|before.entries| >= 8 && x.id in bootstrapIds)
  }

  lemma ScrubKeeps(t: Table, localId: Id, bootstrapIds: seq<Id>)
    requires Inv(t)
    ensures Inv(ScrubAll(t, localId, bootstrapIds))
    ensures forall x :: Stored(ScrubAll(t, localId, bootstrapIds), x) ==> Stored(t, x) && x.id != localId
    ensures forall i :: 0 <= i < |t| ==> ScrubbedRight(t[i], ScrubAll(t, localId, bootstrapIds)[i], localId, bootstrapIds)
  {
    var r := ScrubAll(t, localId, bootstrapIds);
    forall i | 0 <= i < |t| ensures BucketOk(r[i]) && ScrubbedRight(t[i], r[i], localId, bootstrapIds) {
      assert BucketOk(t[i]);
      WantedFacts(t[i].entries, localId, bootstrapIds, |t[i].entries| >= MAX_ENTRIES_PER_BUCKET);
    }
    forall x | Stored(r, x) ensures Stored(t, x) && x.id != localId {
      var i :| 0 <= i < |r| && x in r[i].entries;
    }
  }

  /** Maintenance: merge what can be merged, then drop ourselves and bootstrap nodes in full buckets. */
  ghost function Maintain(t: Table, localId: Id, bootstrapIds: seq<Id>, now: Time): Table
    requires Inv(t)
  {
    ScrubAll(MergeAll(t, now), localId, bootstrapIds)
  }

  lemma MaintainKeeps(t: Table, localId: Id, bootstrapIds: seq<Id>, now: Time)
    requires Inv(t)
    ensures Inv(Maintain(t, localId, bootstrapIds, now))
    ensures forall x :: Stored(Maintain(t, localId, bootstrapIds, now), x) ==> Stored(t, x)
  {
    MergeLoop(t, 0, now);
    var m := MergeAll(t, now);
    ScrubKeeps(m, localId, bootstrapIds);
    ContentsAreStored(t);
    ContentsAreStored(m);
  }

  /**
   What maintenance does: it ends a series of merges that leaves no mergeable pair and
   invents nothing, by removing exactly our own entry and, from full buckets, those of
   bootstrap nodes.  Of a table without removable entries and shared addresses, the
   merges lose nothing.
   */
  lemma MaintainEffect(t: Table, localId: Id, bootstrapIds: seq<Id>, now: Time) returns (m: Table)
    requires Inv(t)
    ensures var r := Maintain(t, localId, bootstrapIds, now);
      && Inv(m) && Contents(m) <= Contents(t) && SettledUpTo(m, |m|) && |m| == |r|
      && (forall i :: 0 <= i < |m| ==> ScrubbedRight(m[i], r[i], localId, bootstrapIds) && r[i].prefix == m[i].prefix)
      && (Clean(t) ==> Contents(m) == Contents(t))
  {
    m := MergeAll(t, now);
    MergeLoop(t, 0, now);
    ScrubKeeps(m, localId, bootstrapIds);
    if Clean(t) {
      MergingKeepsClean(t, 0, now);
    }
  }

  // ---------------------------------------------------------------------- runs

  datatype Step =
    | PutStep(entry: Entry)
    | RemoveStep(id: Id)
    | TimeoutStep(id: Id)
    | SendStep(id: Id)
    | MaintainStep(localId: Id, bootstrapIds: seq<Id>)

  /** A step of the table together with the clock reading it sees. */
  datatype TimedStep = At(step: Step, now: Time)

  /** A new table: one empty bucket that covers everything. */
  ghost predicate Initial(t: Table) {
    |t| == 1 && t[0].prefix.depth == -1 && t[0].entries == []
  }

  ghost function Apply(t: Table, s: TimedStep): Table
    requires Inv(t)
  {
    match s.step
    case PutStep(e) => PutEntry(t, e, s.now)
    case RemoveStep(id) => RemoveNode(t, id)
    case TimeoutStep(id) => TimeoutNode(t, id, s.now)
    case SendStep(id) => SendNode(t, id, s.now)
    case MaintainStep(localId, bootstrapIds) => Maintain(t, localId, bootstrapIds, s.now)
  }

  lemma ApplyKeeps(t: Table, s: TimedStep)
    requires Inv(t)
    ensures Inv(Apply(t, s))
  {
    match s.step
    case PutStep(e) => PutKeeps(t, e, s.now);
    case RemoveStep(id) => RemoveKeeps(t, id);
    case TimeoutStep(id) => TimeoutKeeps(t, id, s.now);
    case SendStep(id) => SendKeeps(t, id, s.now);
    case MaintainStep(localId, bootstrapIds) => MaintainKeeps(t, localId, bootstrapIds, s.now);
  }

  lemma InitialOk(t: Table)
    requires Initial(t)
    ensures Inv(t)
  {
    WholeEnds(t[0].prefix);
  }

  /** The table after a run from a new one. */
  ghost function Run(start: Table, steps: seq<TimedStep>): (t: Table)
    requires Initial(start)
    ensures Inv(t)
  {
    if steps == [] then
      InitialOk(start);
      start
    else
      var t := Run(start, steps[..|steps| - 1]);
      ApplyKeeps(t, steps[|steps| - 1]);
      Apply(t, steps[|steps| - 1])
  }

  /**
   What every reachable table guarantees: the bucket intervals are non-empty, start at
   zero, follow each other without gap or overlap and end at all ones; every id has one
   and only one bucket; every entry lies in the bucket of its id, so that looking an id
   up in its bucket finds the one entry with that id if the table holds any.
   */
  lemma EveryRunTilesTheKeyspace(start: Table, steps: seq<TimedStep>, id: Id)
    requires Initial(start)
    ensures var t := Run(start, steps);
      && |t| > 0 && Lo(t[0].prefix) == 0 && Hi(t[|t| - 1].prefix) == Pow2(ID_BITS)
      && (forall i :: 0 <= i < |t| ==> Lo(t[i].prefix) < Hi(t[i].prefix))
      && (forall i :: 0 <= i < |t| - 1 ==> Hi(t[i].prefix) == Lo(t[i + 1].prefix))
      && (exists i :: 0 <= i < |t| && Covers(t[i].prefix, id)
                      && forall j :: 0 <= j < |t| && Covers(t[j].prefix, id) ==> j == i)
      && (forall i, x :: 0 <= i < |t| && x in t[i].entries ==> Covers(t[i].prefix, x.id))
      && (forall x :: Stored(t, x) && x.id == id ==> GetEntry(t, id) == Some(x))
      && (GetEntry(t, id).Some? ==> Stored(t, GetEntry(t, id).value) && GetEntry(t, id).value.id == id)
  {
    var t := Run(start, steps);
    forall i | 0 <= i < |t| ensures Lo(t[i].prefix) < Hi(t[i].prefix) {
      LoBelowHi(t[i].prefix);
    }
    var k := IndexOf(t, id);
    forall j | 0 <= j < |t| && Covers(t[j].prefix, id) ensures j == k {
      CoverUnique(t, id, j, k);
    }
    forall i, x | 0 <= i < |t| && x in t[i].entries ensures Covers(t[i].prefix, x.id) {
      assert BucketOk(t[i]);
    }
    GetEntryIsScan(t, id);
  }

  /** Every bucket of a reachable table holds at most eight entries, all reachable, all distinct. */
  lemma EveryRunKeepsBucketsSound(start: Table, steps: seq<TimedStep>)
    requires Initial(start)
    ensures forall b :: b in Run(start, steps) ==>
      && |b.entries| <= 8
      && (forall k :: 0 <= k < |b.entries| ==> b.entries[k].reachable)
      && (forall k, m :: 0 <= k < m < |b.entries| ==>
            b.entries[k].id != b.entries[m].id && b.entries[k].addr != b.entries[m].addr)
  {
    forall b | b in Run(start, steps)
      ensures |b.entries| <= 8 && forall k :: 0 <= k < |b.entries| ==> b.entries[k].reachable
      ensures forall k, m :: 0 <= k < m < |b.entries| ==>
        b.entries[k].id != b.entries[m].id && b.entries[k].addr != b.entries[m].addr
    {
      assert BucketOk(b);
      SoundSpelledOut(b.entries);
    }
  }

  lemma SoundSpelledOut(es: seq<Entry>)
    requires Sound(es)
    ensures |es| <= 8 && forall k :: 0 <= k < |es| ==> es[k].reachable
    ensures forall k, m :: 0 <= k < m < |es| ==> es[k].id != es[m].id && es[k].addr != es[m].addr
  {
    forall k, m | 0 <= k < m < |es| ensures es[k].id != es[m].id && es[k].addr != es[m].addr {
      assert !es[k].Matches(es[m]);
    }
  }
}
