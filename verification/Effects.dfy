/**
 What the operations of a bucket and of the table do to the stored entries, entry by
 entry: what is exchanged for what, and when the table grows.
 */
module Effects {
  import opened Wrappers
  import opened Bits
  import opened Ids
  import opened Prefixes
  import opened KBuckets
  import opened Tables

  // ------------------------------------------------------------------- one entry

  lemma ElapsedForward(now: Time, since: Time)
    ensures since <= now ==> Elapsed(now, since) == now - since
    ensures since > now ==> Elapsed(now, since) == now + TWO_64 - since
  {
  }

  /** The judgements about an entry, with the limits written out. */
  lemma Judgements(e: Entry, now: Time)
    ensures e.NeedsReplacement(now) <==>
      (!e.reachable && e.failed >= 2) || (e.failed >= 6 && Elapsed(now, e.lastSeen) > 15 * 60 * 1000)
    ensures e.RemovableWithoutReplacement() <==> e.failed >= 6 && e.lastSeen <= e.lastSend
    ensures e.EligibleForNodesList() <==> e.reachable && e.failed <= 2
  {
  }

  function Timeouts(e: Entry, n: nat): Entry {
    if n == 0 then e else Timeouts(e, n - 1).SignalRequestTimeout()
  }

  /**
   Failures are counted from the last answer on: after an answer and n timeouts there are
   n of them, and nothing else has changed.  So six timeouts in a row and fifteen minutes
   of silence make an entry bad, and nothing less does.
   */
  lemma {:induction false} FailuresInARow(e: Entry, seen: Time, n: nat, now: Time)
    ensures var r := Timeouts(e.SignalResponse(seen), n);
      && r == e.(lastSeen := seen, reachable := true, failed := n)
      && (r.NeedsReplacement(now) <==> n >= 6 && Elapsed(now, seen) > 15 * 60 * 1000)
  {
    if n > 0 {
      FailuresInARow(e, seen, n - 1, now);
    }
  }

  // ------------------------------------------------------------------- one bucket

  lemma UpdateContents(es: seq<Entry>, k: nat, y: Entry)
    requires k < |es|
    ensures multiset(es[k := y]) + multiset{es[k]} == multiset(es) + multiset{y}
  {
    assert es == es[..k] + [es[k]] + es[k + 1..];
    assert es[k := y] == es[..k] + [y] + es[k + 1..];
  }

  /** The position of an entry among others with different ids. */
  lemma IdPlace(es: seq<Entry>, x: Entry)
    requires Sound(es) && x in es
    ensures FirstWithId(es, x.id) < |es| && es[FirstWithId(es, x.id)] == x
  {
    var k := FirstWithId(es, x.id);
    var i :| 0 <= i < |es| && es[i] == x;
    assert k <= i;
  }

  /** Putting a node that is there already merges the two records, and touches no other entry. */
  lemma PutKnown(es: seq<Entry>, e: Entry, now: Time, x: Entry)
    requires Sound(es) && x in es && x.Equals(e)
    ensures multiset(Put(es, e, now)) + multiset{x} == multiset(es) + multiset{x.Merge(e)}
  {
    var k := FirstMatch(es, e);
    var i :| 0 <= i < |es| && es[i] == x;
    assert k <= i;
    assert k < i ==> !es[k].Matches(es[i]);
    UpdateContents(es, k, x.Merge(e));
  }

  /** A node that clashes with others, or was never reached, changes nothing unless it is there already. */
  lemma PutRefused(es: seq<Entry>, e: Entry, now: Time)
    requires forall x :: x in es ==> !x.Equals(e)
    requires !e.reachable || !Unrelated(es, e)
    ensures Put(es, e, now) == es
  {
    var k := FirstMatch(es, e);
    NoMatchIsUnrelated(es, e);
    assert k < |es| ==> es[k] in es;
  }

  lemma SendContents(es: seq<Entry>, id: Id, now: Time, x: Entry)
    requires Sound(es) && x in es && x.id == id
    ensures multiset(OnSend(es, id, now)) + multiset{x} == multiset(es) + multiset{x.(lastSend := now)}
  {
    IdPlace(es, x);
    UpdateContents(es, FirstWithId(es, id), x.SignalRequest(now));
  }

  /** One more failure than before, counting from zero. */
  function OneMoreFailure(x: Entry): Entry {
    x.(failed := if x.failed > 0 then x.failed + 1 else 1)
  }

  lemma TimeoutContents(es: seq<Entry>, id: Id, now: Time, x: Entry)
    requires Sound(es) && x in es && x.id == id
    ensures if x.failed >= 5 && Elapsed(now, x.lastSeen) > 15 * 60 * 1000
            then multiset(OnTimeout(es, id, now)) + multiset{x} == multiset(es)
            else multiset(OnTimeout(es, id, now)) + multiset{x} == multiset(es) + multiset{OneMoreFailure(x)}
  {
    var k := FirstWithId(es, id);
    IdPlace(es, x);
    Judgements(x.SignalRequestTimeout(), now);
    RemoveAtContents(es, k);
    UpdateContents(es, k, x.SignalRequestTimeout());
  }

  // -------------------------------------------------------------------- the table

  lemma OneReplaced(t: Table, i: nat, es: seq<Entry>, gone: multiset<Entry>, come: multiset<Entry>)
    requires i < |t| && multiset(es) + gone == multiset(t[i].entries) + come
    ensures Contents(SetEntries(t, i, es)) + gone == Contents(t) + come
  {
    SetEntriesContents(t, i, es);
    AroundBoth(Contents(t[..i]), Contents(t[i + 1..]), multiset(es), multiset(t[i].entries), gone, come);
  }

  lemma AroundBoth(a: multiset<Entry>, b: multiset<Entry>, r: multiset<Entry>, s: multiset<Entry>,
                   gone: multiset<Entry>, come: multiset<Entry>)
    requires r + gone == s + come
    ensures a + r + b + gone == a + s + b + come
  {
    assert a + r + b + gone == (r + gone) + a + b;
    assert a + s + b + come == (s + come) + a + b;
  }

  /** A stored entry lies in the bucket that its id leads to. */
  lemma AtHome(t: Table, x: Entry)
    requires Inv(t) && Stored(t, x)
    ensures x in t[IndexOf(t, x.id)].entries && Sound(t[IndexOf(t, x.id)].entries)
  {
    var k :| 0 <= k < |t| && x in t[k].entries;
    assert BucketOk(t[k]) && BucketOk(t[IndexOf(t, x.id)]);
    CoverUnique(t, x.id, k, IndexOf(t, x.id));
  }

  /** Putting a node that is stored merges the two records in place; no bucket is split and no other entry touched. */
  lemma PutMerges(t: Table, e: Entry, now: Time, x: Entry)
    requires Inv(t) && Stored(t, x) && x.Equals(e)
    ensures Contents(PutEntry(t, e, now)) + multiset{x} == Contents(t) + multiset{x.Merge(e)}
    ensures |PutEntry(t, e, now)| == |t|
  {
    var i := IndexOf(t, e.id);
    AtHome(t, x);
    PutKnown(t[i].entries, e, now, x);
    OneReplaced(t, i, Put(t[i].entries, e, now), multiset{x}, multiset{x.Merge(e)});
  }

  /** A request to a stored node notes its time there and changes nothing else. */
  lemma SendNotes(t: Table, id: Id, now: Time, x: Entry)
    requires Inv(t) && Stored(t, x) && x.id == id
    ensures Contents(SendNode(t, id, now)) + multiset{x} == Contents(t) + multiset{x.(lastSend := now)}
  {
    var i := IndexOf(t, id);
    AtHome(t, x);
    SendContents(t[i].entries, id, now, x);
    OneReplaced(t, i, OnSend(t[i].entries, id, now), multiset{x}, multiset{x.(lastSend := now)});
  }

  /** A timeout counts against the stored node or, with the sixth in a row after fifteen minutes, evicts it. */
  lemma TimeoutCounts(t: Table, id: Id, now: Time, x: Entry)
    requires Inv(t) && Stored(t, x) && x.id == id
    ensures if x.failed >= 5 && Elapsed(now, x.lastSeen) > 15 * 60 * 1000
            then Contents(TimeoutNode(t, id, now)) + multiset{x} == Contents(t)
            else Contents(TimeoutNode(t, id, now)) + multiset{x} == Contents(t) + multiset{OneMoreFailure(x)}
  {
    var i := IndexOf(t, id);
    AtHome(t, x);
    TimeoutContents(t[i].entries, id, now, x);
    var come := if x.failed >= 5 && Elapsed(now, x.lastSeen) > 15 * 60 * 1000 then multiset{} else multiset{OneMoreFailure(x)};
    OneReplaced(t, i, OnTimeout(t[i].entries, id, now), multiset{x}, come);
  }

  /** What is sent to, or times out for, a node that is not stored leaves the table alone. */
  lemma UnknownChangesNothing(t: Table, id: Id, now: Time)
    requires Inv(t) && forall x :: Stored(t, x) ==> x.id != id
    ensures SendNode(t, id, now) == t && TimeoutNode(t, id, now) == t && RemoveNode(t, id) == t
  {
    var i := IndexOf(t, id);
    var k := FirstWithId(t[i].entries, id);
    assert k < |t[i].entries| ==> Stored(t, t[i].entries[k]);
    assert SetEntries(t, i, t[i].entries) == t;
  }

  // ------------------------------------------------------------- when buckets split

  /** The newcomer would find room in the high half of its full bucket, and nowhere else. */
  ghost predicate Crowded(b: Bucket, e: Entry, now: Time)
    requires b.prefix.depth < 255
  {
    && |b.entries| >= 8 && e.reachable && ToBits(e.id)[b.prefix.depth + 1]
    && forall x :: x in b.entries ==> x.id != e.id && !x.NeedsReplacement(now)
  }

  lemma {:induction false} PutGrows(t: Table, e: Entry, now: Time)
    requires Inv(t)
    ensures |PutEntry(t, e, now)| >= |t|
    decreases ID_BITS - t[IndexOf(t, e.id)].prefix.depth
  {
    var i := IndexOf(t, e.id);
    if NeedsSplit(t[i], e, now) {
      SplitMovesDown(t, e, now);
      PutGrows(SplitAt(t, i, now), e, now);
    }
  }

  /**
   A put splits exactly if the newcomer's bucket is not at the last bit, is full, holds
   neither the newcomer nor a bad entry, and the newcomer is reachable and in its high
   half; otherwise no prefix of the table changes.
   */
  lemma PutSplitsIff(t: Table, e: Entry, now: Time)
    requires Inv(t)
    ensures var b, r := t[IndexOf(t, e.id)], PutEntry(t, e, now);
      if b.prefix.depth < 255 && Crowded(b, e, now) then |r| > |t|
      else |r| == |t| && forall i :: 0 <= i < |t| ==> r[i].prefix == t[i].prefix
  {
    var i := IndexOf(t, e.id);
    if Splittable(t[i].prefix) {
      HighHalfBit(t[i].prefix, e.id);
    }
    if NeedsSplit(t[i], e, now) {
      SplitMovesDown(t, e, now);
      PutGrows(SplitAt(t, i, now), e, now);
    }
  }
}
