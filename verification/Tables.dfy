/**
 The routing table as a value: a list of buckets whose prefixes tile the keyspace.

 These ghost functions say what each step of the table computes; the lemmas prove the
 invariant that all of them keep, and with it what every run of the table guarantees.
 */
module Tables {
  import opened Wrappers
  import opened Bits
  import opened Ids
  import opened Prefixes
  import opened KBuckets

  datatype Bucket = Bucket(prefix: Prefix, entries: seq<Entry>)

  type Table = seq<Bucket>

  // ----------------------------------------------------------------- invariant

  /** Consecutive buckets cover consecutive intervals. */
  ghost predicate Chained(t: Table) {
    forall i :: 0 <= i < |t| - 1 ==> Hi(t[i].prefix) == Lo(t[i + 1].prefix)
  }

  /** The prefixes tile the 256-bit keyspace from zero to all ones. */
  ghost predicate Tiled(t: Table) {
    && |t| > 0
    && Lo(t[0].prefix) == 0
    && Chained(t)
    && Hi(t[|t| - 1].prefix) == Pow2(ID_BITS)
  }

  ghost predicate BucketOk(b: Bucket) {
    Sound(b.entries) && forall x :: x in b.entries ==> Covers(b.prefix, x.id)
  }

  ghost predicate AllOk(t: Table) {
    forall i :: 0 <= i < |t| ==> BucketOk(t[i])
  }

  ghost predicate Inv(t: Table) {
    Tiled(t) && AllOk(t)
  }

  lemma {:induction false} ChainOrder(t: Table, i: nat, j: nat)
    requires Chained(t) && i < j < |t|
    ensures Hi(t[i].prefix) <= Lo(t[j].prefix)
    decreases j
  {
    if i < j - 1 {
      ChainOrder(t, i, j - 1);
      LoBelowHi(t[j - 1].prefix);
    }
  }

  // -------------------------------------------------------------------- lookup

  lemma {:induction false} LocateFrom(t: Table, id: Id, n: nat) returns (k: nat)
    requires Tiled(t) && n < |t| && Num(id) < Hi(t[n].prefix)
    ensures k < |t| && Covers(t[k].prefix, id)
  {
    CoversIsInterval(t[n].prefix, id);
    if Lo(t[n].prefix) <= Num(id) {
      k := n;
    } else {
      k := LocateFrom(t, id, n - 1);
    }
  }

  lemma Locate(t: Table, id: Id) returns (k: nat)
    requires Tiled(t)
    ensures k < |t| && Covers(t[k].prefix, id)
  {
    NumBound(id);
    k := LocateFrom(t, id, |t| - 1);
  }

  /** No id is covered by two buckets. */
  lemma CoverUnique(t: Table, id: Id, i: nat, j: nat)
    requires Chained(t) && i < |t| && j < |t|
    requires Covers(t[i].prefix, id) && Covers(t[j].prefix, id)
    ensures i == j
  {
    CoversIsInterval(t[i].prefix, id);
    CoversIsInterval(t[j].prefix, id);
    if i < j {
      ChainOrder(t, i, j);
    } else if j < i {
      ChainOrder(t, j, i);
    }
  }

  /** The position of the one bucket that covers id. */
  ghost function IndexOf(t: Table, id: Id): (k: nat)
    requires Tiled(t)
    ensures k < |t| && Covers(t[k].prefix, id)
  {
    assert exists k :: 0 <= k < |t| && Covers(t[k].prefix, id) by {
      var k := Locate(t, id);
    }
    var k :| 0 <= k < |t| && Covers(t[k].prefix, id);
    k
  }

  ghost function GetEntry(t: Table, id: Id): Option<Entry>
    requires Tiled(t)
  {
    var es := t[IndexOf(t, id)].entries;
    var k := FirstWithId(es, id);
    if k < |es| then Some(es[k]) else None
  }

  ghost predicate Stored(t: Table, e: Entry) {
    exists i :: 0 <= i < |t| && e in t[i].entries
  }

  /**
   Looking only into the bucket that covers an id agrees with scanning all buckets,
   and no id is stored twice.
   */
  lemma GetEntryIsScan(t: Table, id: Id)
    requires Inv(t)
    ensures GetEntry(t, id).Some? ==> GetEntry(t, id).value.id == id && Stored(t, GetEntry(t, id).value)
    ensures forall e :: Stored(t, e) && e.id == id ==> GetEntry(t, id) == Some(e)
  {
    var k := IndexOf(t, id);
    forall e | Stored(t, e) && e.id == id ensures GetEntry(t, id) == Some(e) {
      var i :| 0 <= i < |t| && e in t[i].entries;
      assert BucketOk(t[i]);
      CoverUnique(t, id, i, k);
      var j :| 0 <= j < |t[k].entries| && t[k].entries[j] == e;
      var f := FirstWithId(t[k].entries, id);
      assert f < |t[k].entries| && t[k].entries[f].Matches(e);
      assert BucketOk(t[k]);
    }
  }

  // -------------------------------------------------------------- list surgery

  /** An entry lies in one bucket only. */
  lemma SamePlace(t: Table, i: nat, j: nat, x: Entry)
    requires Inv(t) && i < |t| && j < |t| && x in t[i].entries && x in t[j].entries
    ensures i == j
  {
    assert BucketOk(t[i]) && BucketOk(t[j]);
    CoverUnique(t, x.id, i, j);
  }

  /** Replaces the buckets i..j by others that cover the same interval. */
  lemma SpliceTiled(t: Table, i: nat, j: nat, mid: Table)
    requires Tiled(t) && i < j <= |t|
    requires |mid| > 0 && Chained(mid)
    requires Lo(mid[0].prefix) == Lo(t[i].prefix) && Hi(mid[|mid| - 1].prefix) == Hi(t[j - 1].prefix)
    ensures Tiled(t[..i] + mid + t[j..])
  {
    var r := t[..i] + mid + t[j..];
    forall k | 0 <= k < |r| - 1 ensures Hi(r[k].prefix) == Lo(r[k + 1].prefix) {
      if k < i {
        assert r[k] == t[k] && Hi(t[k].prefix) == Lo(t[k + 1].prefix);
      } else if k < i + |mid| - 1 {
        assert r[k] == mid[k - i] && r[k + 1] == mid[k - i + 1];
      } else {
        var m := k - i - |mid| + j;
        assert r[k + 1] == t[m + 1] && Hi(t[m].prefix) == Lo(t[m + 1].prefix);
        assert k >= i + |mid| ==> r[k] == t[m];
      }
    }
    assert r[0] == if i > 0 then t[0] else mid[0];
    assert r[|r| - 1] == if j < |t| then t[|t| - 1] else mid[|mid| - 1];
  }

  lemma SpliceOk(t: Table, i: nat, j: nat, mid: Table)
    requires AllOk(t) && AllOk(mid) && i <= j <= |t|
    ensures AllOk(t[..i] + mid + t[j..])
  {
    var r := t[..i] + mid + t[j..];
    forall k | 0 <= k < |r| ensures BucketOk(r[k]) {
      if k < i {
        assert r[k] == t[k];
      } else if k < i + |mid| {
        assert r[k] == mid[k - i];
      } else {
        assert r[k] == t[k - i - |mid| + j];
      }
    }
  }

  /** All entries of the table, with multiplicity. */
  ghost function Contents(t: Table): multiset<Entry> {
    if t == [] then multiset{} else Contents(t[..|t| - 1]) + multiset(t[|t| - 1].entries)
  }

  lemma {:induction false} ContentsConcat(a: Table, b: Table)
    ensures Contents(a + b) == Contents(a) + Contents(b)
  {
    if b == [] {
      assert a + b == a;
    } else {
      assert (a + b)[..|a + b| - 1] == a + b[..|b| - 1];
      ContentsConcat(a, b[..|b| - 1]);
    }
  }

  lemma ContentsSplice(t: Table, i: nat, j: nat, mid: Table)
    requires i <= j <= |t|
    ensures Contents(t) == Contents(t[..i]) + Contents(t[i..j]) + Contents(t[j..])
    ensures Contents(t[..i] + mid + t[j..]) == Contents(t[..i]) + Contents(mid) + Contents(t[j..])
  {
    assert t == t[..i] + t[i..j] + t[j..];
    ContentsConcat(t[..i] + t[i..j], t[j..]);
    ContentsConcat(t[..i], t[i..j]);
    ContentsConcat(t[..i] + mid, t[j..]);
    ContentsConcat(t[..i], mid);
  }

  lemma {:induction false} ContentsAreStored(t: Table)
    ensures forall e :: e in Contents(t) <==> Stored(t, e)
  {
    if t != [] {
      var n := |t| - 1;
      ContentsAreStored(t[..n]);
      forall e ensures e in Contents(t) <==> Stored(t, e) {
        if Stored(t[..n], e) {
          var i :| 0 <= i < n && e in t[..n][i].entries;
          assert e in t[i].entries;
        }
        if Stored(t, e) {
          var i :| 0 <= i < |t| && e in t[i].entries;
          assert i < n ==> e in t[..n][i].entries;
        }
      }
    }
  }

  lemma ContentsOne(a: Bucket)
    ensures Contents([a]) == multiset(a.entries)
  {
    assert [a][..0] == [];
  }

  lemma ContentsTwo(a: Bucket, b: Bucket)
    ensures Contents([a, b]) == multiset(a.entries) + multiset(b.entries)
  {
    assert [a, b][..1] == [a];
    ContentsOne(a);
  }

  // --------------------------------------------------------------------- split

  /** The entries that do, or do not, fall under the low branch, in their order. */
  ghost function Side(es: seq<Entry>, low: Prefix, inside: bool): seq<Entry> {
    if es == [] then []
    else
      var rest := Side(es[..|es| - 1], low, inside);
      if Covers(low, es[|es| - 1].id) == inside then rest + [es[|es| - 1]] else rest
  }

  lemma SideStep(es: seq<Entry>, n: nat, low: Prefix, inside: bool)
    requires n < |es| && Covers(low, es[n].id) == inside
    ensures Side(es[..n + 1], low, inside) == Side(es[..n], low, inside) + [es[n]]
    ensures Side(es[..n + 1], low, !inside) == Side(es[..n], low, !inside)
  {
    assert es[..n + 1][..n] == es[..n];
  }

  lemma {:induction false} SideFacts(es: seq<Entry>, low: Prefix, inside: bool)
    requires Pairwise(es)
    ensures |Side(es, low, inside)| <= |es|
    ensures forall x :: x in Side(es, low, inside) ==> x in es && Covers(low, x.id) == inside
    ensures Pairwise(Side(es, low, inside))
  {
    if es != [] {
      var n := |es| - 1;
      SideFacts(es[..n], low, inside);
      var rest := Side(es[..n], low, inside);
      forall i | 0 <= i < |rest| ensures !rest[i].Matches(es[n]) {
        assert rest[i] in rest && rest[i] in es[..n];
      }
      assert forall x :: x in es[..n] ==> x in es;
    }
  }

  lemma {:induction false} SidesMakeWhole(es: seq<Entry>, low: Prefix)
    ensures multiset(Side(es, low, true)) + multiset(Side(es, low, false)) == multiset(es)
  {
    if es != [] {
      var n := |es| - 1;
      SidesMakeWhole(es[..n], low);
      assert es == es[..n] + [es[n]];
    }
  }

  ghost function Branch(b: Bucket, high: bool, now: Time): Bucket
    requires Splittable(b.prefix)
  {
    Bucket(SplitBranch(b.prefix, high), PutAll([], Side(b.entries, SplitBranch(b.prefix, false), !high), now))
  }

  ghost function SplitAt(t: Table, i: nat, now: Time): Table
    requires i < |t| && Splittable(t[i].prefix)
  {
    t[..i] + [Branch(t[i], false, now), Branch(t[i], true, now)] + t[i + 1..]
  }

  lemma BranchOk(b: Bucket, high: bool, now: Time)
    requires BucketOk(b) && Splittable(b.prefix)
    ensures BucketOk(Branch(b, high, now))
    ensures multiset(Branch(b, high, now).entries) == multiset(Side(b.entries, SplitBranch(b.prefix, false), !high))
  {
    var low := SplitBranch(b.prefix, false);
    var es := Side(b.entries, low, !high);
    SideFacts(b.entries, low, !high);
    assert [] + es == es;
    PutAllKeepsAll([], es, now);
    BranchesHalve(b.prefix);
    var r := Branch(b, high, now);
    forall x | x in r.entries ensures Covers(r.prefix, x.id) {
      assert x in multiset(r.entries);
      assert x in es && x in b.entries;
    }
  }

  lemma SegmentOne(t: Table, i: nat)
    requires i < |t|
    ensures Contents(t[i..i + 1]) == multiset(t[i].entries)
  {
    assert t[i..i + 1] == [t[i]];
    ContentsOne(t[i]);
  }

  lemma SegmentContents(t: Table, i: nat, l: Bucket, h: Bucket)
    requires i < |t| && multiset(l.entries) + multiset(h.entries) == multiset(t[i].entries)
    ensures Contents([l, h]) == Contents(t[i..i + 1])
  {
    ContentsTwo(l, h);
    SegmentOne(t, i);
  }

  lemma SplitContents(t: Table, i: nat, l: Bucket, h: Bucket)
    requires i < |t| && multiset(l.entries) + multiset(h.entries) == multiset(t[i].entries)
    ensures Contents(t[..i] + [l, h] + t[i + 1..]) == Contents(t)
  {
    SegmentContents(t, i, l, h);
    ContentsSplice(t, i, i + 1, [l, h]);
  }

  lemma BranchesMakeWhole(b: Bucket, now: Time)
    requires BucketOk(b) && Splittable(b.prefix)
    ensures multiset(Branch(b, false, now).entries) + multiset(Branch(b, true, now).entries) == multiset(b.entries)
  {
    BranchOk(b, false, now);
    BranchOk(b, true, now);
    SidesMakeWhole(b.entries, SplitBranch(b.prefix, false));
  }

  lemma SplitOk(t: Table, i: nat, now: Time)
    requires AllOk(t) && i < |t| && Splittable(t[i].prefix)
    ensures AllOk(SplitAt(t, i, now))
  {
    assert BucketOk(t[i]);
    BranchOk(t[i], false, now);
    BranchOk(t[i], true, now);
    var mid := [Branch(t[i], false, now), Branch(t[i], true, now)];
    SpliceOk(t, i, i + 1, mid);
  }

  /** A split keeps the invariant, and moves every entry to exactly one child. */
  lemma SplitKeeps(t: Table, i: nat, now: Time)
    requires Inv(t) && i < |t| && Splittable(t[i].prefix)
    ensures Inv(SplitAt(t, i, now))
    ensures Contents(SplitAt(t, i, now)) == Contents(t)
  {
    SplitTiled(t, i, now);
    SplitOk(t, i, now);
    assert BucketOk(t[i]);
    BranchesMakeWhole(t[i], now);
    SplitContents(t, i, Branch(t[i], false, now), Branch(t[i], true, now));
  }

  lemma SplitTiled(t: Table, i: nat, now: Time)
    requires Tiled(t) && i < |t| && Splittable(t[i].prefix)
    ensures Tiled(SplitAt(t, i, now))
  {
    BranchesHalve(t[i].prefix);
    SpliceTiled(t, i, i + 1, [Branch(t[i], false, now), Branch(t[i], true, now)]);
  }

  // ----------------------------------------------------------------------- put

  ghost predicate NeedsSplit(b: Bucket, e: Entry, now: Time) {
    && Splittable(b.prefix)
    && |b.entries| >= MAX_ENTRIES_PER_BUCKET
    && e.reachable
    && (forall x :: x in b.entries ==> x.id != e.id)
    && (forall x :: x in b.entries ==> !x.NeedsReplacement(now))
    && Covers(SplitBranch(b.prefix, true), e.id)
  }

  /** After a split the newcomer's bucket is the high child, one bit deeper. */
  lemma SplitMovesDown(t: Table, e: Entry, now: Time)
    requires Inv(t) && NeedsSplit(t[IndexOf(t, e.id)], e, now)
    ensures var i := IndexOf(t, e.id);
      Inv(SplitAt(t, i, now)) && IndexOf(SplitAt(t, i, now), e.id) == i + 1
      && SplitAt(t, i, now)[i + 1].prefix.depth == t[i].prefix.depth + 1
  {
    var i := IndexOf(t, e.id);
    SplitKeeps(t, i, now);
    var r := SplitAt(t, i, now);
    assert r[i + 1] == Branch(t[i], true, now);
    CoverUnique(r, e.id, i + 1, IndexOf(r, e.id));
  }

  ghost function SetEntries(t: Table, i: nat, es: seq<Entry>): Table
    requires i < |t|
  {
    t[i := Bucket(t[i].prefix, es)]
  }

  /** Changing the entries of one bucket leaves the tiling alone. */
  lemma SetEntriesKeeps(t: Table, i: nat, es: seq<Entry>)
    requires Inv(t) && i < |t| && Sound(es)
    requires forall x :: x in es ==> Covers(t[i].prefix, x.id)
    ensures Inv(SetEntries(t, i, es))
    ensures forall e :: Stored(SetEntries(t, i, es), e) ==> e in es || Stored(t, e)
  {
    var r := SetEntries(t, i, es);
    forall e | Stored(r, e) ensures e in es || Stored(t, e) {
      var k :| 0 <= k < |r| && e in r[k].entries;
      assert k != i ==> e in t[k].entries;
    }
  }

  /** Splits the newcomer's bucket while that makes room, then puts the entry. */
  ghost function PutEntry(t: Table, e: Entry, now: Time): (r: Table)
    requires Inv(t)
    decreases ID_BITS - t[IndexOf(t, e.id)].prefix.depth
  {
    var i := IndexOf(t, e.id);
    if NeedsSplit(t[i], e, now) then
      SplitMovesDown(t, e, now);
      PutEntry(SplitAt(t, i, now), e, now)
    else
      SetEntries(t, i, Put(t[i].entries, e, now))
  }

  /**
   Putting an entry keeps the invariant, and every node stored afterwards was stored
   before or is the newcomer.
   */
  lemma {:induction false} PutKeeps(t: Table, e: Entry, now: Time)
    requires Inv(t)
    ensures Inv(PutEntry(t, e, now))
    ensures forall x :: Stored(PutEntry(t, e, now), x) ==> Stored(t, x) || x.Equals(e)
    decreases ID_BITS - t[IndexOf(t, e.id)].prefix.depth
  {
    var i := IndexOf(t, e.id);
    if NeedsSplit(t[i], e, now) {
      SplitMovesDown(t, e, now);
      var s := SplitAt(t, i, now);
      PutKeeps(s, e, now);
      SplitKeeps(t, i, now);
      ContentsAreStored(t);
      ContentsAreStored(s);
    } else {
      assert BucketOk(t[i]);
      PutSound(t[i].entries, e, now);
      PutOrigin(t[i].entries, e, now);
      SetEntriesKeeps(t, i, Put(t[i].entries, e, now));
    }
  }

  lemma SetEntriesContents(t: Table, i: nat, es: seq<Entry>)
    requires i < |t|
    ensures Contents(t) == Contents(t[..i]) + multiset(t[i].entries) + Contents(t[i + 1..])
    ensures Contents(SetEntries(t, i, es)) == Contents(t[..i]) + multiset(es) + Contents(t[i + 1..])
  {
    var r := SetEntries(t, i, es);
    SegmentOne(t, i);
    ContentsSplice(t, i, i + 1, []);
    SegmentOne(r, i);
    ContentsSplice(r, i, i + 1, []);
    assert r[..i] == t[..i] && r[i + 1..] == t[i + 1..];
  }

  /** What a put may take from the table: at most one entry, and not just any. */
  ghost predicate FairLoss(lost: multiset<Entry>, e: Entry, now: Time) {
    || lost == multiset{}
    || exists x :: lost == multiset{x} && (x.Equals(e) || x.NeedsReplacement(now) || x.created > e.created)
  }

  lemma UpdateLoss(es: seq<Entry>, k: nat, e: Entry)
    requires k < |es|
    ensures var lost := multiset(es) - multiset(es[k := e]); lost == multiset{} || lost == multiset{es[k]}
  {
    assert multiset(es[k := e]) == multiset(es) - multiset{es[k]} + multiset{e};
    assert es[k] in multiset(es);
  }

  lemma SwapLoss(b: multiset<Entry>, a: multiset<Entry>, x: Entry, e: Entry)
    requires a + multiset{x} == b + multiset{e} && x in b && x != e
    ensures b - a == multiset{x}
  {
    forall y ensures (b - a)[y] == multiset{x}[y] {
      assert (a + multiset{x})[y] == (b + multiset{e})[y];
    }
  }

  lemma BucketLoss(es: seq<Entry>, e: Entry, now: Time)
    requires Sound(es)
    ensures FairLoss(multiset(es) - multiset(Put(es, e, now)), e, now)
  {
    var k := FirstMatch(es, e);
    var r := Put(es, e, now);
    NoMatchIsUnrelated(es, e);
    if k < |es| {
      if es[k].Equals(e) {
        UpdateLoss(es, k, es[k].Merge(e));
      }
    } else if e.reachable {
      PutContents(es, e, now);
      if |es| == MAX_ENTRIES_PER_BUCKET && r != es {
        assert e !in es;
        var x :| x in es && (x.NeedsReplacement(now) || x.created > e.created)
                 && multiset(r) + multiset{x} == multiset(es) + multiset{e};
        SwapLoss(multiset(es), multiset(r), x, e);
      }
    }
  }

  lemma OutsideCancels(a: multiset<Entry>, b: multiset<Entry>, c: multiset<Entry>, d: multiset<Entry>)
    ensures (a + b + d) - (a + c + d) == b - c
  {
  }

  /**
   A put, splits included, loses at most one entry: one that it merged with the
   newcomer, one that needed replacement, or one created after the newcomer.
   */
  lemma {:induction false} PutLoss(t: Table, e: Entry, now: Time)
    requires Inv(t)
    ensures FairLoss(Contents(t) - Contents(PutEntry(t, e, now)), e, now)
    decreases ID_BITS - t[IndexOf(t, e.id)].prefix.depth
  {
    var i := IndexOf(t, e.id);
    if NeedsSplit(t[i], e, now) {
      SplitMovesDown(t, e, now);
      SplitKeeps(t, i, now);
      PutLoss(SplitAt(t, i, now), e, now);
    } else {
      var es := Put(t[i].entries, e, now);
      assert BucketOk(t[i]);
      BucketLoss(t[i].entries, e, now);
      SetEntriesContents(t, i, es);
      OutsideCancels(Contents(t[..i]), multiset(t[i].entries), multiset(es), Contents(t[i + 1..]));
    }
  }

  /**
   The newcomer is stored; or its bucket is full of good entries, has not even a free high
   half to offer, and nothing has changed hands.
   */
  ghost predicate StoredOrRefused(r: Table, t: Table, e: Entry, now: Time) {
    && Inv(r)
    && (|| Stored(r, e)
        || (var b := r[IndexOf(r, e.id)];
            && |b.entries| == MAX_ENTRIES_PER_BUCKET
            && (forall x :: x in b.entries ==> !x.NeedsReplacement(now))
            && (b.prefix.depth == 255 || !ToBits(e.id)[b.prefix.depth + 1])
            && Contents(r) == Contents(t)))
  }

  /** A reachable newcomer is refused only by a full bucket without bad entries that cannot be split for it. */
  lemma {:induction false} PutStores(t: Table, e: Entry, now: Time)
    requires Inv(t) && e.reachable && forall x :: Stored(t, x) ==> !x.Matches(e)
    ensures StoredOrRefused(PutEntry(t, e, now), t, e, now)
    decreases ID_BITS - t[IndexOf(t, e.id)].prefix.depth
  {
    var i := IndexOf(t, e.id);
    if NeedsSplit(t[i], e, now) {
      var s := SplitAt(t, i, now);
      SplitMovesDown(t, e, now);
      SplitStrangers(t, i, e, now);
      PutStores(s, e, now);
      SameRefusal(PutEntry(s, e, now), s, t, e, now);
    } else {
      PutKeeps(t, e, now);
      PutHereStores(t, i, e, now);
    }
  }

  lemma SameRefusal(r: Table, s: Table, t: Table, e: Entry, now: Time)
    requires StoredOrRefused(r, s, e, now) && Contents(s) == Contents(t)
    ensures StoredOrRefused(r, t, e, now)
  {
  }

  lemma SplitStrangers(t: Table, i: nat, e: Entry, now: Time)
    requires Inv(t) && i < |t| && Splittable(t[i].prefix) && forall x :: Stored(t, x) ==> !x.Matches(e)
    ensures Contents(SplitAt(t, i, now)) == Contents(t)
    ensures forall x :: Stored(SplitAt(t, i, now), x) ==> !x.Matches(e)
  {
    SplitKeeps(t, i, now);
    ContentsAreStored(t);
    ContentsAreStored(SplitAt(t, i, now));
  }

  lemma PutHereStores(t: Table, i: nat, e: Entry, now: Time)
    requires Inv(t) && i < |t| && Covers(t[i].prefix, e.id)
    requires e.reachable && forall x :: Stored(t, x) ==> !x.Matches(e)
    requires Inv(SetEntries(t, i, Put(t[i].entries, e, now))) && !NeedsSplit(t[i], e, now)
    ensures StoredOrRefused(SetEntries(t, i, Put(t[i].entries, e, now)), t, e, now)
  {
    var es := Put(t[i].entries, e, now);
    var r := SetEntries(t, i, es);
    assert BucketOk(t[i]);
    forall x | x in t[i].entries ensures !x.Matches(e) {
      assert Stored(t, x);
    }
    BucketStores(t[i].entries, e, now);
    if e in es {
      assert e in r[i].entries;
    } else {
      assert r == t;
      CoverUnique(t, e.id, i, IndexOf(t, e.id));
      NoHighHalf(t[i], e, now);
    }
  }

  lemma NoHighHalf(b: Bucket, e: Entry, now: Time)
    requires !NeedsSplit(b, e, now) && Covers(b.prefix, e.id) && |b.entries| >= MAX_ENTRIES_PER_BUCKET && e.reachable
    requires forall x :: x in b.entries ==> x.id != e.id && !x.NeedsReplacement(now)
    ensures b.prefix.depth == 255 || !ToBits(e.id)[b.prefix.depth + 1]
  {
    if Splittable(b.prefix) {
      HighHalfBit(b.prefix, e.id);
    }
  }

  lemma BucketStores(es: seq<Entry>, e: Entry, now: Time)
    requires Sound(es) && e.reachable && Unrelated(es, e)
    ensures || e in Put(es, e, now)
            || (Put(es, e, now) == es && |es| == MAX_ENTRIES_PER_BUCKET && forall x :: x in es ==> !x.NeedsReplacement(now))
  {
    PutContents(es, e, now);
    var r := Put(es, e, now);
    if |es| < MAX_ENTRIES_PER_BUCKET {
      assert e in multiset(r);
    } else if !(r == es && forall x :: x in es ==> !x.NeedsReplacement(now)) {
      var x :| x in es && multiset(r) + multiset{x} == multiset(es) + multiset{e};
      assert !x.Matches(e);
      ExchangeBrings(multiset(r), multiset(es), x, e);
    }
  }

  lemma ExchangeBrings(r: multiset<Entry>, es: multiset<Entry>, x: Entry, e: Entry)
    requires r + multiset{x} == es + multiset{e} && x != e
    ensures e in r
  {
    assert e in es + multiset{e};
  }

  // --------------------------------------------------- remove, timeout and send

  ghost function RemoveNode(t: Table, id: Id): Table
    requires Tiled(t)
  {
    var i := IndexOf(t, id);
    SetEntries(t, i, RemoveId(t[i].entries, id))
  }

  lemma RemoveKeeps(t: Table, id: Id)
    requires Inv(t)
    ensures Inv(RemoveNode(t, id))
    ensures forall x :: Stored(RemoveNode(t, id), x) <==> Stored(t, x) && x.id != id
  {
    var i := IndexOf(t, id);
    var es := t[i].entries;
    assert BucketOk(t[i]);
    RemoveIdSound(es, id);
    SetEntriesKeeps(t, i, RemoveId(es, id));
    var r := RemoveNode(t, id);
    forall x ensures Stored(r, x) <==> Stored(t, x) && x.id != id {
      if Stored(r, x) {
        var k :| 0 <= k < |r| && x in r[k].entries;
        if k == i {
          assert x in t[i].entries;
        } else {
          assert BucketOk(t[k]) && x in t[k].entries;
          if x.id == id {
            CoverUnique(t, id, k, i);
          }
        }
      }
      if Stored(t, x) && x.id != id {
        var k :| 0 <= k < |t| && x in t[k].entries;
        assert x in r[k].entries;
      }
    }
  }

  ghost function TimeoutNode(t: Table, id: Id, now: Time): Table
    requires Tiled(t)
  {
    var i := IndexOf(t, id);
    SetEntries(t, i, OnTimeout(t[i].entries, id, now))
  }

  ghost predicate SameNodes(r: Table, t: Table) {
    forall x :: Stored(r, x) ==> exists y :: Stored(t, y) && x.Equals(y)
  }

  lemma TimeoutKeeps(t: Table, id: Id, now: Time)
    requires Inv(t)
    ensures Inv(TimeoutNode(t, id, now))
    ensures SameNodes(TimeoutNode(t, id, now), t)
    ensures forall x :: Stored(t, x) && x.id != id ==> Stored(TimeoutNode(t, id, now), x)
    ensures forall x :: Stored(t, x) && x.id == id ==>
      ((forall y :: Stored(TimeoutNode(t, id, now), y) ==> y.id != id) <==>
       x.SignalRequestTimeout().failed > 5 && Elapsed(now, x.lastSeen) > 15 * 60 * 1000)
  {
    var i := IndexOf(t, id);
    var es := t[i].entries;
    var fs := OnTimeout(es, id, now);
    var r := TimeoutNode(t, id, now);
    assert BucketOk(t[i]);
    TimeoutEffect(es, id, now);
    TimeoutSameNodes(es, id, now);
    SetEntriesKeeps(t, i, fs);
    forall x | Stored(r, x) ensures exists y :: Stored(t, y) && x.Equals(y) {
      if x in fs {
        var y :| y in es && x.Equals(y);
        assert Stored(t, y);
      } else {
        assert Stored(t, x) && x.Equals(x);
      }
    }
    forall x | Stored(t, x) && x.id != id ensures Stored(r, x) {
      var k :| 0 <= k < |t| && x in t[k].entries;
      assert x in r[k].entries;
    }
    forall x | Stored(t, x) && x.id == id
      ensures (forall y :: Stored(r, y) ==> y.id != id) <==>
              x.SignalRequestTimeout().failed > 5 && Elapsed(now, x.lastSeen) > 15 * 60 * 1000
    {
      GetEntryIsScan(t, id);
      assert x in es;
      EvictedFromBucket(t, r, i, id);
    }
  }

  lemma TimeoutSameNodes(es: seq<Entry>, id: Id, now: Time)
    ensures forall x :: x in OnTimeout(es, id, now) ==> exists y :: y in es && x.Equals(y)
  {
    forall x | x in OnTimeout(es, id, now) ensures exists y :: y in es && x.Equals(y) {
      var k := FirstWithId(es, id);
      if x !in es {
        assert es[k] in es && x.Equals(es[k]);
      } else {
        assert x.Equals(x);
      }
    }
  }

  /** When only bucket i may hold an id, the table is free of it exactly when that bucket is. */
  lemma EvictedFromBucket(t: Table, r: Table, i: nat, id: Id)
    requires Inv(r) && i < |r| && Covers(r[i].prefix, id)
    ensures (forall y :: Stored(r, y) ==> y.id != id) <==> (forall y :: y in r[i].entries ==> y.id != id)
  {
    forall y | y in r[i].entries ensures Stored(r, y) {
    }
    if forall y :: y in r[i].entries ==> y.id != id {
      forall y | Stored(r, y) ensures y.id != id {
        var k :| 0 <= k < |r| && y in r[k].entries;
        assert BucketOk(r[k]);
        if y.id == id {
          CoverUnique(r, id, k, i);
        }
      }
    }
  }

  ghost function SendNode(t: Table, id: Id, now: Time): Table
    requires Tiled(t)
  {
    var i := IndexOf(t, id);
    SetEntries(t, i, OnSend(t[i].entries, id, now))
  }

  lemma SendKeeps(t: Table, id: Id, now: Time)
    requires Inv(t)
    ensures Inv(SendNode(t, id, now)) && SameNodes(SendNode(t, id, now), t)
  {
    var i := IndexOf(t, id);
    var es := t[i].entries;
    var fs := OnSend(es, id, now);
    assert BucketOk(t[i]);
    OnSendSound(es, id, now);
    SetEntriesKeeps(t, i, fs);
    forall x | Stored(SendNode(t, id, now), x) ensures exists y :: Stored(t, y) && x.Equals(y) {
      if x in fs {
        var y :| y in es && x.Equals(y);
        assert Stored(t, y);
      } else {
        assert Stored(t, x) && x.Equals(x);
      }
    }
  }
}
