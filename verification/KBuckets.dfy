/**
 k-bucket entries and k-buckets.

 An entry is a value: the bucket's list position plays the part of the entry object,
 and a change to an entry is an update at its position.  The pure functions on
 `seq<Entry>` state what each bucket operation computes; class KBucket carries the
 code and is proved against them.  `now` is the clock reading of the operation.
 */
module KBuckets {
  import opened Wrappers
  import opened Ids
  import opened Prefixes
  import opened Sorting

  const MAX_ENTRIES_PER_BUCKET := 8
  const KBUCKET_MAX_TIMEOUTS := 5
  const KBUCKET_OLD_AND_STALE_TIMEOUTS := 2
  const KBUCKET_OLD_AND_STALE_TIME := 15 * 60 * 1000

  const TWO_64 := 0x1_0000_0000_0000_0000

  /** Milliseconds as an unsigned 64-bit integer. */
  type Time = t: nat | t < TWO_64

  /** Unsigned 64-bit subtraction. */
  function Elapsed(now: Time, since: Time): Time {
    (now - since) % TWO_64
  }

  datatype SocketAddress = SocketAddress(ip: seq<Byte>, port: nat)

  // ------------------------------------------------------------------- entries

  datatype Entry = Entry(
    id: Id,
    addr: SocketAddress,
    created: Time,
    lastSeen: Time,
    lastSend: Time,
    reachable: bool,
    failed: int)
  {
    predicate Equals(other: Entry) {
      id == other.id && addr == other.addr
    }

    predicate Matches(other: Entry) {
      id == other.id || addr == other.addr
    }

    predicate OldAndStale(now: Time) {
      failed > KBUCKET_OLD_AND_STALE_TIMEOUTS && Elapsed(now, lastSeen) > KBUCKET_OLD_AND_STALE_TIME
    }

    predicate NeedsReplacement(now: Time) {
      (failed > 1 && !reachable) || (failed > KBUCKET_MAX_TIMEOUTS && OldAndStale(now))
    }

    predicate RemovableWithoutReplacement() {
      failed > KBUCKET_MAX_TIMEOUTS && !(lastSeen > lastSend)
    }

    predicate EligibleForNodesList() {
      reachable && failed < 3
    }

    function SignalRequestTimeout(): Entry {
      this.(failed := if failed <= 0 then 1 else failed + 1)
    }

    function SignalRequest(now: Time): Entry {
      this.(lastSend := now)
    }

    function SignalResponse(now: Time): Entry {
      this.(lastSeen := now, failed := 0, reachable := true)
    }

    function MergeRequestTime(requestSent: Time): Entry {
      this.(lastSend := Max(lastSend, requestSent))
    }

    function Merge(other: Entry): Entry {
      if !Equals(other) then this
      else this.(
        created := Min(created, other.created),
        lastSeen := Max(lastSeen, other.lastSeen),
        lastSend := Max(lastSend, other.lastSend),
        reachable := reachable || other.reachable,
        failed := if other.failed > 0 && other.failed < failed then other.failed else failed)
    }
  }

  function Min(a: Time, b: Time): Time {
    if a < b then a else b
  }

  function Max(a: Time, b: Time): Time {
    if a < b then b else a
  }

  // -------------------------------------------------------- bucket content, pure

  function RemoveAt(es: seq<Entry>, k: nat): seq<Entry>
    requires k < |es|
  {
    es[..k] + es[k + 1..]
  }

  /** Position of the first entry with the given id, or |es|. */
  function FirstWithId(es: seq<Entry>, id: Id): (k: nat)
    ensures k <= |es|
    ensures forall j :: 0 <= j < k ==> es[j].id != id
    ensures k < |es| ==> es[k].id == id
  {
    if es == [] || es[0].id == id then 0 else 1 + FirstWithId(es[1..], id)
  }

  /** Position of the first entry that shares its id or its address with e, or |es|. */
  function FirstMatch(es: seq<Entry>, e: Entry): (k: nat)
    ensures k <= |es|
    ensures forall j :: 0 <= j < k ==> !es[j].Matches(e)
    ensures k < |es| ==> es[k].Matches(e)
  {
    if es == [] || es[0].Matches(e) then 0 else 1 + FirstMatch(es[1..], e)
  }

  /** Position of the first entry that needs replacement, or |es|. */
  function FirstBad(es: seq<Entry>, now: Time): (k: nat)
    ensures k <= |es|
    ensures forall j :: 0 <= j < k ==> !es[j].NeedsReplacement(now)
    ensures k < |es| ==> es[k].NeedsReplacement(now)
  {
    if es == [] || es[0].NeedsReplacement(now) then 0 else 1 + FirstBad(es[1..], now)
  }

  const CREATED: Entry -> int := (e: Entry) => e.created

  /** Appends e; re-sorts when e is older than the last entry. */
  function Insert(es: seq<Entry>, e: Entry): seq<Entry> {
    if es != [] && e.created < es[|es| - 1].created then Sort(es + [e], CREATED)
    else if |es| < MAX_ENTRIES_PER_BUCKET then es + [e]
    else es
  }

  function Put(es: seq<Entry>, e: Entry, now: Time): seq<Entry> {
    var k := FirstMatch(es, e);
    if k < |es| then
      if es[k].Equals(e) then es[k := es[k].Merge(e)] else es
    else if e.reachable then PutNew(es, e, now)
    else es
  }

  /** Adds an entry that clashes with nobody; a full bucket must give one up for it. */
  function PutNew(es: seq<Entry>, e: Entry, now: Time): seq<Entry> {
    if |es| < MAX_ENTRIES_PER_BUCKET then Insert(es, e)
    else
      var b := FirstBad(es, now);
      if b < |es| then Insert(RemoveAt(es, b), e) else PutYounger(es, e)
  }

  /** Puts an entry in the place of the last one if that is younger. */
  function PutYounger(es: seq<Entry>, e: Entry): seq<Entry>
    requires es != []
  {
    var n := |es| - 1;
    if es[n].created > e.created then Insert(RemoveAt(es, n), e) else es
  }

  /** Puts the entries of a list one after another. */
  function PutAll(base: seq<Entry>, es: seq<Entry>, now: Time): seq<Entry> {
    if es == [] then base else Put(PutAll(base, es[..|es| - 1], now), es[|es| - 1], now)
  }

  lemma PutAllStep(base: seq<Entry>, es: seq<Entry>, e: Entry, now: Time)
    ensures PutAll(base, es + [e], now) == Put(PutAll(base, es, now), e, now)
  {
    assert (es + [e])[..|es|] == es;
  }

  function RemoveId(es: seq<Entry>, id: Id): seq<Entry> {
    var k := FirstWithId(es, id);
    if k < |es| then RemoveAt(es, k) else es
  }

  function OnTimeout(es: seq<Entry>, id: Id, now: Time): seq<Entry> {
    var k := FirstWithId(es, id);
    if k == |es| then es
    else
      var e := es[k].SignalRequestTimeout();
      if e.NeedsReplacement(now) then RemoveAt(es, k) else es[k := e]
  }

  function OnSend(es: seq<Entry>, id: Id, now: Time): seq<Entry> {
    var k := FirstWithId(es, id);
    if k == |es| then es else es[k := es[k].SignalRequest(now)]
  }

  /**
   Merging two records of a node joins what they know: the earlier creation, the later
   contacts, reachability if either has it, and never more failures.  Merging a record
   with itself, or twice with the same one, changes nothing.
   */
  lemma MergeJoins(a: Entry, b: Entry)
    requires a.Equals(b)
    ensures var m := a.Merge(b);
      && m.Equals(a)
      && m.created <= a.created && m.created <= b.created && (m.created == a.created || m.created == b.created)
      && m.lastSeen >= a.lastSeen && m.lastSeen >= b.lastSeen && (m.lastSeen == a.lastSeen || m.lastSeen == b.lastSeen)
      && m.lastSend >= a.lastSend && m.lastSend >= b.lastSend && (m.lastSend == a.lastSend || m.lastSend == b.lastSend)
      && (m.reachable <==> a.reachable || b.reachable)
      && m.failed <= a.failed && (b.failed > 0 ==> m.failed <= b.failed) && (m.failed == a.failed || m.failed == b.failed)
      && (b.failed <= 0 ==> m.failed == a.failed)
      && m.Merge(b) == m && a.Merge(a) == a
  {
  }

  // ------------------------------------------------------------ bucket invariant

  ghost predicate Unrelated(es: seq<Entry>, e: Entry) {
    forall x :: x in es ==> !x.Matches(e)
  }

  ghost predicate Pairwise(es: seq<Entry>) {
    forall i, j :: 0 <= i < j < |es| ==> !es[i].Matches(es[j])
  }

  /** At most eight entries, all reachable, no two sharing an id or an address. */
  ghost predicate Sound(es: seq<Entry>) {
    && |es| <= MAX_ENTRIES_PER_BUCKET
    && (forall x :: x in es ==> x.reachable)
    && Pairwise(es)
  }

  lemma NoMatchIsUnrelated(es: seq<Entry>, e: Entry)
    ensures FirstMatch(es, e) == |es| <==> Unrelated(es, e)
  {
    assert FirstMatch(es, e) < |es| ==> es[FirstMatch(es, e)] in es;
  }

  lemma SortPairwise(es: seq<Entry>)
    requires Pairwise(es)
    ensures Pairwise(Sort(es, CREATED))
  {
    var rel := (x: Entry, y: Entry) => x.Matches(y);
    assert Symmetric(rel);
    SortFree(es, CREATED, rel);
    var r := Sort(es, CREATED);
    forall i, j | 0 <= i < j < |r| ensures !r[i].Matches(r[j]) {
      assert !rel(r[i], r[j]);
    }
  }

  lemma InsertContents(es: seq<Entry>, e: Entry)
    requires |es| < MAX_ENTRIES_PER_BUCKET
    ensures multiset(Insert(es, e)) == multiset(es) + multiset{e}
    ensures |Insert(es, e)| == |es| + 1
  {
    SortContents(es + [e], CREATED);
  }

  lemma InsertSound(es: seq<Entry>, e: Entry)
    requires Sound(es) && |es| < MAX_ENTRIES_PER_BUCKET && Unrelated(es, e) && e.reachable
    ensures Sound(Insert(es, e))
  {
    InsertContents(es, e);
    SortPairwise(es + [e]);
    forall x | x in Insert(es, e) ensures x.reachable {
      assert x in multiset(Insert(es, e));
      assert x in multiset(es) + multiset{e};
    }
  }

  lemma RemoveAtContents(es: seq<Entry>, k: nat)
    requires k < |es|
    ensures multiset(es) == multiset(RemoveAt(es, k)) + multiset{es[k]}
  {
    assert es == es[..k] + [es[k]] + es[k + 1..];
  }

  lemma RemoveAtSound(es: seq<Entry>, k: nat)
    requires Sound(es) && k < |es|
    ensures Sound(RemoveAt(es, k))
    ensures forall x :: x in RemoveAt(es, k) ==> x in es
  {
  }

  lemma InsertMembers(es: seq<Entry>, e: Entry)
    ensures forall x :: x in Insert(es, e) ==> x in es || x == e
  {
    SortMembers(es + [e], CREATED);
  }

  /** Every entry after a put is an old one or the newcomer's node. */
  lemma PutOrigin(es: seq<Entry>, e: Entry, now: Time)
    ensures forall x :: x in Put(es, e, now) ==> x in es || x.Equals(e)
    ensures (forall x :: x in es ==> x.id != e.id) ==> forall x :: x in Put(es, e, now) ==> x in es || x == e
  {
    var k, b := FirstMatch(es, e), FirstBad(es, now);
    if k < |es| {
      assert es[k] in es;
    } else if |es| < MAX_ENTRIES_PER_BUCKET {
      InsertMembers(es, e);
    } else if b < |es| {
      InsertMembers(RemoveAt(es, b), e);
    } else {
      InsertMembers(RemoveAt(es, |es| - 1), e);
    }
  }

  /** Replacing an entry by one of the same node keeps a sound bucket sound. */
  lemma UpdateSound(es: seq<Entry>, k: nat, e: Entry)
    requires Sound(es) && k < |es| && e.Equals(es[k]) && e.reachable
    ensures Sound(es[k := e])
  {
  }

  lemma PutSound(es: seq<Entry>, e: Entry, now: Time)
    requires Sound(es)
    ensures Sound(Put(es, e, now))
  {
    var k := FirstMatch(es, e);
    NoMatchIsUnrelated(es, e);
    if k < |es| {
      if es[k].Equals(e) {
        UpdateSound(es, k, es[k].Merge(e));
      }
    } else if e.reachable {
      PutNewSound(es, e, now);
    }
  }

  lemma PutNewSound(es: seq<Entry>, e: Entry, now: Time)
    requires Sound(es) && Unrelated(es, e) && e.reachable
    ensures Sound(PutNew(es, e, now))
  {
    var b := FirstBad(es, now);
    if |es| < MAX_ENTRIES_PER_BUCKET {
      InsertSound(es, e);
    } else if b < |es| {
      RemoveAtSound(es, b);
      InsertSound(RemoveAt(es, b), e);
    } else {
      RemoveAtSound(es, |es| - 1);
      InsertSound(RemoveAt(es, |es| - 1), e);
    }
  }

  /**
   What a put does to the contents of a sound bucket: a reachable newcomer that
   clashes with nobody is added; for that a full bucket gives up one entry, and only
   one that needs replacement or was created after the newcomer; nothing else is lost.
   */
  lemma PutContents(es: seq<Entry>, e: Entry, now: Time)
    requires Sound(es) && e.reachable && Unrelated(es, e)
    ensures |es| < MAX_ENTRIES_PER_BUCKET ==> multiset(Put(es, e, now)) == multiset(es) + multiset{e}
    ensures |es| == MAX_ENTRIES_PER_BUCKET ==>
      || (Put(es, e, now) == es && forall x :: x in es ==> !x.NeedsReplacement(now))
      || exists x :: x in es && (x.NeedsReplacement(now) || x.created > e.created)
                     && multiset(Put(es, e, now)) + multiset{x} == multiset(es) + multiset{e}
  {
    NoMatchIsUnrelated(es, e);
    if |es| < MAX_ENTRIES_PER_BUCKET {
      InsertContents(es, e);
    } else {
      PutNewFull(es, e, now);
    }
  }

  lemma PutNewFull(es: seq<Entry>, e: Entry, now: Time)
    requires Sound(es) && |es| == MAX_ENTRIES_PER_BUCKET
    ensures
      || (PutNew(es, e, now) == es && forall x :: x in es ==> !x.NeedsReplacement(now))
      || exists x :: x in es && (x.NeedsReplacement(now) || x.created > e.created)
                     && multiset(PutNew(es, e, now)) + multiset{x} == multiset(es) + multiset{e}
  {
    var b, n := FirstBad(es, now), |es| - 1;
    if b < |es| {
      Exchange(es, b, e);
    } else if es[n].created > e.created {
      Exchange(es, n, e);
    }
  }

  lemma Exchange(es: seq<Entry>, k: nat, e: Entry)
    requires |es| <= MAX_ENTRIES_PER_BUCKET && k < |es|
    ensures es[k] in es && multiset(Insert(RemoveAt(es, k), e)) + multiset{es[k]} == multiset(es) + multiset{e}
  {
    RemoveAtContents(es, k);
    InsertContents(RemoveAt(es, k), e);
  }

  lemma Strangers(es: seq<Entry>, from: seq<Entry>, e: Entry)
    requires multiset(es) == multiset(from) && Pairwise(from + [e])
    ensures Unrelated(es, e)
  {
    forall x | x in es ensures !x.Matches(e) {
      assert x in multiset(from);
      var i :| 0 <= i < |from| && from[i] == x;
      assert (from + [e])[i] == x && (from + [e])[|from|] == e;
    }
  }

  lemma PairwiseFront(front: seq<Entry>, e: Entry, all: seq<Entry>)
    requires Pairwise(all) && all == front + [e]
    ensures Pairwise(front)
  {
    forall i, j | 0 <= i < j < |front| ensures !front[i].Matches(front[j]) {
      assert all[i] == front[i] && all[j] == front[j];
    }
  }

  lemma PutOneMore(from: seq<Entry>, es: seq<Entry>, e: Entry, now: Time)
    requires Sound(es) && |es| < MAX_ENTRIES_PER_BUCKET && e.reachable
    requires multiset(es) == multiset(from) && Pairwise(from + [e])
    ensures Sound(Put(es, e, now))
    ensures multiset(Put(es, e, now)) == multiset(from) + multiset{e}
    ensures |Put(es, e, now)| == |es| + 1
  {
    Strangers(es, from, e);
    PutAdds(es, e, now);
  }

  lemma PutAdds(es: seq<Entry>, e: Entry, now: Time)
    requires Sound(es) && |es| < MAX_ENTRIES_PER_BUCKET && e.reachable
    requires Unrelated(es, e)
    ensures Sound(Put(es, e, now))
    ensures multiset(Put(es, e, now)) == multiset(es) + multiset{e}
    ensures |Put(es, e, now)| == |es| + 1
  {
    NoMatchIsUnrelated(es, e);
    PutContents(es, e, now);
    PutSound(es, e, now);
    InsertContents(es, e);
  }

  /** Putting a short list of unrelated reachable entries into an empty bucket keeps them all. */
  lemma {:induction false} PutAllKeepsAll(base: seq<Entry>, es: seq<Entry>, now: Time)
    requires Sound(base) && |base| + |es| <= MAX_ENTRIES_PER_BUCKET
    requires Pairwise(base + es) && forall x :: x in es ==> x.reachable
    ensures Sound(PutAll(base, es, now))
    ensures multiset(PutAll(base, es, now)) == multiset(base) + multiset(es)
    ensures |PutAll(base, es, now)| == |base| + |es|
  {
    if es != [] {
      var n := |es| - 1;
      assert es == es[..n] + [es[n]];
      PairwiseFront(base + es[..n], es[n], base + es);
      PutAllKeepsAll(base, es[..n], now);
      PutOneMore(base + es[..n], PutAll(base, es[..n], now), es[n], now);
    }
  }

  lemma {:induction false} PutAllSound(base: seq<Entry>, es: seq<Entry>, now: Time)
    requires Sound(base)
    ensures Sound(PutAll(base, es, now))
  {
    if es != [] {
      PutAllSound(base, es[..|es| - 1], now);
      PutSound(PutAll(base, es[..|es| - 1], now), es[|es| - 1], now);
    }
  }

  /** With no two of them alike, a batch of puts copies entries unchanged: nothing is merged. */
  lemma {:induction false} PutAllInventsNothing(base: seq<Entry>, es: seq<Entry>, now: Time)
    requires forall x, y :: x in base && y in es ==> x.id != y.id
    requires forall i, j :: 0 <= i < j < |es| ==> es[i].id != es[j].id
    ensures forall x :: x in PutAll(base, es, now) ==> x in base || x in es
  {
    if es != [] {
      var n := |es| - 1;
      PutAllInventsNothing(base, es[..n], now);
      var prev := PutAll(base, es[..n], now);
      forall x | x in prev ensures x.id != es[n].id {
        assert x in base || x in es[..n];
      }
      PutOrigin(prev, es[n], now);
    }
  }

  lemma RemoveIdSound(es: seq<Entry>, id: Id)
    requires Sound(es)
    ensures Sound(RemoveId(es, id))
    ensures forall x :: x in RemoveId(es, id) <==> x in es && x.id != id
  {
    var k := FirstWithId(es, id);
    if k < |es| {
      RemoveAtSound(es, k);
      var r := RemoveAt(es, k);
      forall x | x in es && x.id != id ensures x in r {
        var i :| 0 <= i < |es| && es[i] == x;
        assert if i < k then r[i] == x else r[i - 1] == x;
      }
    }
  }

  /**
   A timeout touches only the entry of the node that timed out.  In a sound bucket it
   is evicted exactly when it now has more than five failures and was last seen more
   than fifteen minutes ago; otherwise only its failure count changes.
   */
  lemma TimeoutEffect(es: seq<Entry>, id: Id, now: Time)
    requires Sound(es)
    ensures Sound(OnTimeout(es, id, now))
    ensures forall x :: x in es && x.id != id ==> x in OnTimeout(es, id, now)
    ensures forall x :: x in OnTimeout(es, id, now) && x.id != id ==> x in es
    ensures forall x :: x in es && x.id == id ==>
      if x.SignalRequestTimeout().failed > 5 && Elapsed(now, x.lastSeen) > 15 * 60 * 1000
      then forall y :: y in OnTimeout(es, id, now) ==> y.id != id
      else x.SignalRequestTimeout() in OnTimeout(es, id, now)
  {
    var k := FirstWithId(es, id);
    var r := OnTimeout(es, id, now);
    if k < |es| {
      var e := es[k].SignalRequestTimeout();
      assert es[k] in es;
      forall x | x in es && x.id == id ensures x == es[k] {
      }
      if e.NeedsReplacement(now) {
        RemoveIdSound(es, id);
      } else {
        UpdateSound(es, k, e);
        assert r[k] == e;
        forall x | x in es && x.id != id ensures x in r {
          var i :| 0 <= i < |es| && es[i] == x;
          assert r[i] == x;
        }
      }
    }
  }

  lemma OnSendSound(es: seq<Entry>, id: Id, now: Time)
    requires Sound(es)
    ensures Sound(OnSend(es, id, now))
    ensures forall x :: x in OnSend(es, id, now) ==> exists y :: y in es && x.Equals(y)
  {
    var k := FirstWithId(es, id);
    if k < |es| {
      var e := es[k].SignalRequest(now);
      UpdateSound(es, k, e);
      forall x | x in OnSend(es, id, now) ensures exists y :: y in es && x.Equals(y) {
        if x == e {
          assert es[k] in es && e.Equals(es[k]);
        } else {
          assert x in es && x.Equals(x);
        }
      }
    }
  }

  // ------------------------------------------------------------- the bucket class

  function Without(es: seq<Entry>, toRemove: Option<nat>): seq<Entry>
    requires toRemove.Some? ==> toRemove.value < |es|
  {
    if toRemove.Some? then RemoveAt(es, toRemove.value) else es
  }

  /** What Update leaves: nothing happens if the entry to insert clashes. */
  function Updated(es: seq<Entry>, toRemove: Option<nat>, toInsert: Option<Entry>): seq<Entry>
    requires toRemove.Some? ==> toRemove.value < |es|
  {
    if toInsert.None? then Without(es, toRemove)
    else if FirstMatch(es, toInsert.value) < |es| then es
    else Insert(Without(es, toRemove), toInsert.value)
  }

  class KBucket {
    const prefix: Prefix
    var entries: seq<Entry>

    constructor (prefix: Prefix)
      ensures this.prefix == prefix && entries == []
    {
      this.prefix := prefix;
      entries := [];
    }

    /** Position of the entry with the given id, if there is one. */
    method Find(id: Id) returns (k: nat)
      ensures k == FirstWithId(entries, id)
    {
      k := 0;
      while k < |entries| && entries[k].id != id
        invariant 0 <= k <= |entries|
        invariant FirstWithId(entries, id) == k + FirstWithId(entries[k..], id)
      {
        k := k + 1;
      }
    }

    method Get(id: Id) returns (r: Option<Entry>)
      ensures r.Some? ==> r.value in entries && r.value.id == id
      ensures r.None? ==> forall x :: x in entries ==> x.id != id
    {
      var k := Find(id);
      r := if k < |entries| then Some(entries[k]) else None;
    }

    predicate IsFull()
      reads this
    {
      |entries| >= MAX_ENTRIES_PER_BUCKET
    }

    method NeedsReplacement(now: Time) returns (r: bool)
      ensures r <==> exists x :: x in entries && x.NeedsReplacement(now)
    {
      var k := 0;
      while k < |entries|
        invariant 0 <= k <= |entries|
        invariant forall j :: 0 <= j < k ==> !entries[j].NeedsReplacement(now)
      {
        if entries[k].NeedsReplacement(now) {
          assert entries[k] in entries;
          return true;
        }
        k := k + 1;
      }
      return false;
    }

    /** Appends an entry if there is room; one that is older than the last is sorted in. */
    static method AddOrdered(es: seq<Entry>, e: Entry) returns (added: bool, newEntries: seq<Entry>)
      ensures newEntries == Insert(es, e)
      ensures !added ==> newEntries == es
    {
      newEntries := es;
      var oldSize := |newEntries|;
      var wasFull := oldSize >= MAX_ENTRIES_PER_BUCKET;
      var unorderedInsert := oldSize > 0 && e.created < newEntries[oldSize - 1].created;
      added := !wasFull || unorderedInsert;
      if added {
        newEntries := newEntries + [e];
      }
      if unorderedInsert {
        newEntries := Sort(newEntries, CREATED);
      }
    }

    /** Removes the entry at a position and inserts another, unless the latter clashes. */
    method Update(toRemove: Option<nat>, toInsert: Option<Entry>)
      requires toRemove.Some? ==> toRemove.value < |entries|
      modifies this`entries
      ensures entries == Updated(old(entries), toRemove, toInsert)
    {
      if toInsert.Some? && FirstMatch(entries, toInsert.value) < |entries| {
        return;
      }
      var removed, added := toRemove.Some?, false;
      // what is left after a removal is still in order
      var newEntries := Without(entries, toRemove);
      if toInsert.Some? {
        added, newEntries := AddOrdered(newEntries, toInsert.value);
      }
      if added || removed {
        entries := newEntries;
      }
    }

    method ReplaceBadEntry(newEntry: Entry, now: Time) returns (done: bool)
      requires FirstMatch(entries, newEntry) == |entries|
      modifies this`entries
      ensures done <==> FirstBad(old(entries), now) < |old(entries)|
      ensures entries ==
        if done then Insert(RemoveAt(old(entries), FirstBad(old(entries), now)), newEntry) else old(entries)
    {
      var k := 0;
      while k < |entries|
        invariant 0 <= k <= |entries|
        invariant FirstBad(entries, now) == k + FirstBad(entries[k..], now)
        invariant entries == old(entries)
      {
        if entries[k].NeedsReplacement(now) {
          Update(Some(k), Some(newEntry));
          return true;
        }
        k := k + 1;
      }
      return false;
    }

    method PutEntry(newEntry: Entry, now: Time)
      modifies this`entries
      ensures entries == Put(old(entries), newEntry, now)
    {
      var k := 0;
      while k < |entries|
        invariant 0 <= k <= |entries|
        invariant FirstMatch(entries, newEntry) == k + FirstMatch(entries[k..], newEntry)
        invariant entries == old(entries)
      {
        if entries[k].Equals(newEntry) {
          entries := entries[k := entries[k].Merge(newEntry)];
          return;
        }
        if entries[k].Matches(newEntry) {
          return;
        }
        k := k + 1;
      }
      if newEntry.reachable {
        AddEntry(newEntry, now);
      }
    }

    /** The part of a put that comes after the search for a clash. */
    method AddEntry(newEntry: Entry, now: Time)
      requires FirstMatch(entries, newEntry) == |entries|
      modifies this`entries
      ensures entries == PutNew(old(entries), newEntry, now)
    {
      if |entries| < MAX_ENTRIES_PER_BUCKET {
        Update(None, Some(newEntry));
        return;
      }
      var replaced := ReplaceBadEntry(newEntry, now);
      if !replaced {
        ReplaceYoungest(newEntry);
      }
    }

    /** Older entries displace younger ones. */
    method ReplaceYoungest(newEntry: Entry)
      requires FirstMatch(entries, newEntry) == |entries| > 0
      modifies this`entries
      ensures entries == PutYounger(old(entries), newEntry)
    {
      var youngest := |entries| - 1;
      if entries[youngest].created > newEntry.created {
        Update(Some(youngest), Some(newEntry));
      }
    }

    /** Removes the entry at position k if it is bad or removal is forced. */
    method RemoveIfBad(k: nat, force: bool, now: Time)
      requires k < |entries|
      modifies this`entries
      ensures entries ==
        if force || old(entries)[k].NeedsReplacement(now) then RemoveAt(old(entries), k) else old(entries)
    {
      if force || entries[k].NeedsReplacement(now) {
        Update(Some(k), None);
      }
    }

    method Timeout(id: Id, now: Time)
      modifies this`entries
      ensures entries == OnTimeout(old(entries), id, now)
    {
      var k := Find(id);
      if k < |entries| {
        var e := entries[k].SignalRequestTimeout();
        entries := entries[k := e];
        RemoveIfBad(k, false, now);
        assert RemoveAt(old(entries)[k := e], k) == RemoveAt(old(entries), k);
      }
    }

    method Send(id: Id, now: Time)
      modifies this`entries
      ensures entries == OnSend(old(entries), id, now)
    {
      var k := Find(id);
      if k < |entries| {
        entries := entries[k := entries[k].SignalRequest(now)];
      }
    }
  }
}
