/**
 The iterative node lookup as a step system.

 A pass sends requests to the best eligible candidates while fewer than ten calls are
 under way; every answer, error and timeout updates the candidate list and is followed
 by another pass.  The closest set is left abstract: whether it is good enough to stop
 is an input of each pass.  `log` and `admitted` record history for the statements.
 */
module Lookups {
  import opened Wrappers
  import opened Ids
  import opened Sorting
  import opened KBuckets
  import opened Candidates

  const MAX_CONCURRENT_TASK_REQUESTS := 10
  const CAPACITY := MAX_ENTRIES_PER_BUCKET * 3

  /** calls maps a call to the id it was sent to. */
  datatype Lookup = Lookup(
    cands: Cands,
    calls: map<nat, Id>,
    nextCall: nat,
    finished: bool,
    log: seq<Id>,
    admitted: seq<Id>)

  function IdList(cs: seq<Candidate>): seq<Id> {
    seq(|cs|, i requires 0 <= i < |cs| => cs[i].id)
  }

  ghost function AddCandidates(target: Id, s: Lookup, nodes: seq<NodeInfo>): Lookup {
    s.(cands := AddNodes(target, CAPACITY, s.cands, nodes),
       admitted := s.admitted + IdList(Admit(nodes, s.cands.ids, s.cands.ips).newcomers))
  }

  /** The nodes of a batch that pass the filters. */
  function Usable(nodes: seq<NodeInfo>, usable: NodeInfo -> bool): seq<NodeInfo> {
    if nodes == [] then []
    else
      var rest := Usable(nodes[..|nodes| - 1], usable);
      if usable(nodes[|nodes| - 1]) then rest + [nodes[|nodes| - 1]] else rest
  }

  /** An empty batch changes nothing, and is not even trimmed for. */
  ghost function Learn(target: Id, s: Lookup, batch: seq<NodeInfo>): Lookup {
    if batch == [] then s else AddCandidates(target, s, batch)
  }

  function CanDoRequest(s: Lookup): bool {
    |s.calls| < MAX_CONCURRENT_TASK_REQUESTS
  }

  /** Marks the candidate as sent and puts a call in flight. */
  function SendTo(s: Lookup, c: Candidate, now: nat): Lookup {
    var k := Position(s.cands.closest, c.id);
    s.(cands := if k < |s.cands.closest|
                then s.cands.(closest := s.cands.closest[k := s.cands.closest[k].SetSent(now)])
                else s.cands,
       calls := s.calls[s.nextCall := c.id],
       nextCall := s.nextCall + 1,
       log := s.log + [c.id])
  }

  function RemoveCandidate(s: Lookup, id: Id): Lookup {
    s.(cands := s.cands.(closest := Drop(s.cands.closest, {id})))
  }

  function EndCall(s: Lookup, call: nat): Lookup {
    s.(calls := s.calls - {call})
  }

  /** A reply: the candidate leaves the list, the nodes it names join. */
  ghost function Responded(target: Id, s: Lookup, call: nat, nodes: seq<NodeInfo>): Lookup
    requires call in s.calls
  {
    var e := EndCall(s, call);
    if s.finished then e
    else
      Learn(target, RemoveCandidate(e, s.calls[call]), nodes)
  }

  function Failed(s: Lookup, call: nat): Lookup
    requires call in s.calls
  {
    var e := EndCall(s, call);
    if s.finished then e else RemoveCandidate(e, s.calls[call])
  }

  /** A timeout: a third one removes the candidate, otherwise it may be asked again. */
  function TimedOut(s: Lookup, call: nat): Lookup
    requires call in s.calls
  {
    var e := EndCall(s, call);
    var k := Position(s.cands.closest, s.calls[call]);
    if s.finished || k == |s.cands.closest| then e
    else if s.cands.closest[k].IsUnreachable() then RemoveCandidate(e, s.calls[call])
    else e.(cands := s.cands.(closest := s.cands.closest[k := s.cands.closest[k].ClearSent()]))
  }

  // ------------------------------------------------------------------- invariant

  ghost predicate HistoryOk(s: Lookup) {
    && (forall id :: multiset(s.log)[id] <= 3 && multiset(s.admitted)[id] <= 1)
    && (forall id :: id in s.log ==> id in s.cands.ids)
    && (forall id :: id in s.admitted ==> id in s.cands.ids)
  }

  /** A candidate that is not waiting for an answer may still be asked. */
  ghost predicate CandidateOk(s: Lookup, c: Candidate) {
    && c.id in s.cands.ids
    && c.pinged == multiset(s.log)[c.id]
    && c.pinged <= 3
    && (c.lastSent == 0 ==> c.pinged < 3)
  }

  ghost predicate ListOk(target: Id, s: Lookup) {
    && SortedByDistance(s.cands.closest, target)
    && (forall c :: c in s.cands.closest ==> CandidateOk(s, c))
    && |s.cands.closest| <= CAPACITY + MAX_CONCURRENT_TASK_REQUESTS
  }

  /** Calls in flight and waiting candidates correspond one to one. */
  ghost predicate CallsOk(s: Lookup) {
    && |s.calls| <= MAX_CONCURRENT_TASK_REQUESTS
    && (forall k :: k in s.calls ==> k < s.nextCall)
    && Injective(s.calls)
    && (forall c :: c in s.cands.closest ==> (c.IsInFlight() <==> c.id in s.calls.Values))
    && (forall k :: k in s.calls ==> s.calls[k] in IdsOf(s.cands.closest))
  }

  ghost predicate Inv(target: Id, s: Lookup) {
    && HistoryOk(s)
    && ListOk(target, s)
    && |s.calls| <= MAX_CONCURRENT_TASK_REQUESTS
    && (!s.finished ==> CallsOk(s))
  }

  /** A lookup with candidates but no call in flight always finds one to ask. */
  lemma NeverStuck(target: Id, s: Lookup)
    requires Inv(target, s) && !s.finished && s.calls == map[] && s.cands.closest != []
    ensures Next(target, s.cands.closest).Some?
  {
    var c := s.cands.closest[0];
    assert CandidateOk(s, c);
    assert c.id !in s.calls.Values;
    NextIsBest(target, s.cands.closest);
  }

  /** Requests are bounded by three times the ids ever seen. */
  lemma RequestsBounded(target: Id, s: Lookup)
    requires Inv(target, s)
    ensures |s.log| <= 3 * |s.cands.ids|
  {
    assert |s.log| == |multiset(s.log)|;
    BoundedMultiset(multiset(s.log), s.cands.ids, 3);
  }

  lemma {:induction false} BoundedMultiset(m: multiset<Id>, ids: set<Id>, n: nat)
    requires forall id :: m[id] <= n && (id in m ==> id in ids)
    ensures |m| <= n * |ids|
    decreases |ids|
  {
    if ids == {} {
      assert m == multiset{};
    } else {
      var x :| x in ids;
      var rest := m[x := 0];
      BoundedMultiset(rest, ids - {x}, n);
      assert m == rest[x := m[x]];
      assert |m| == |rest| + m[x];
      assert |ids| == |ids - {x}| + 1;
      assert n * |ids| == n * |ids - {x}| + n;
    }
  }

  // ---------------------------------------------------------------- steps keep it

  lemma UpdateSorted(cs: seq<Candidate>, target: Id, k: nat, c: Candidate)
    requires SortedByDistance(cs, target) && k < |cs| && c.id == cs[k].id
    ensures SortedByDistance(cs[k := c], target)
    ensures forall x :: x in cs[k := c] <==> x == c || (x in cs && x.id != c.id)
    ensures IdsOf(cs[k := c]) == IdsOf(cs)
  {
    SortedDistinct(cs, target);
    var r := cs[k := c];
    assert r[k] == c;
    forall x | x in cs && x.id != c.id ensures x in r {
      var i :| 0 <= i < |cs| && cs[i] == x;
      assert r[i] == x;
    }
    forall x | x in r ensures x == c || (x in cs && x.id != c.id) {
      var i :| 0 <= i < |r| && r[i] == x;
      assert i != k ==> cs[i].id != cs[k].id;
    }
    forall id | id in IdsOf(cs) ensures id in IdsOf(r) {
      var x :| x in cs && x.id == id;
      assert x.id == c.id || x in r;
    }
    assert cs[k] in cs;
  }

  lemma PositionOf(cs: seq<Candidate>, c: Candidate, target: Id)
    requires SortedByDistance(cs, target) && c in cs
    ensures Position(cs, c.id) < |cs| && cs[Position(cs, c.id)] == c
  {
    SortedDistinct(cs, target);
    PositionFinds(cs, c);
  }

  lemma PositionFinds(cs: seq<Candidate>, c: Candidate)
    requires DistinctIds(cs) && c in cs
    ensures Position(cs, c.id) < |cs| && cs[Position(cs, c.id)] == c
  {
    var i :| 0 <= i < |cs| && cs[i] == c;
    assert Position(cs, c.id) <= i;
  }

  lemma LogOne(log: seq<Id>, id: Id)
    ensures multiset(log + [id]) == multiset(log) + multiset{id}
  {
  }

  ghost predicate Injective(m: map<nat, Id>) {
    forall j, k :: j in m && k in m && m[j] == m[k] ==> j == k
  }

  lemma AddKey(m: map<nat, Id>, k: nat, id: Id)
    requires k !in m
    ensures m[k := id].Values == m.Values + {id} && |m[k := id]| == |m| + 1
    ensures Injective(m) && id !in m.Values ==> Injective(m[k := id])
  {
    var r := m[k := id];
    assert r[k] == id;
    forall x | x in m.Values ensures x in r.Values {
      var j :| j in m && m[j] == x;
      assert r[j] == x;
    }
    assert r.Keys == m.Keys + {k};
  }

  lemma RemoveKey(m: map<nat, Id>, k: nat)
    requires k in m && Injective(m)
    ensures (m - {k}).Values == m.Values - {m[k]} && |m - {k}| == |m| - 1
    ensures Injective(m - {k})
  {
    var r := m - {k};
    assert r.Keys == m.Keys - {k};
    forall x | x in m.Values && x != m[k] ensures x in r.Values {
      var j :| j in m && m[j] == x;
      assert r[j] == x;
    }
    forall x | x in r.Values ensures x in m.Values && x != m[k] {
      var j :| j in r && r[j] == x;
      assert m[j] == x;
    }
  }

  /** Sending to an eligible candidate: its place in the list. */
  lemma SendList(target: Id, s: Lookup, c: Candidate, now: nat)
    requires HistoryOk(s) && ListOk(target, s) && c in s.cands.closest && c.IsEligible() && now > 0
    ensures HistoryOk(SendTo(s, c, now)) && ListOk(target, SendTo(s, c, now))
    ensures forall x :: x in SendTo(s, c, now).cands.closest <==>
                        x == c.SetSent(now) || (x in s.cands.closest && x.id != c.id)
    ensures IdsOf(SendTo(s, c, now).cands.closest) == IdsOf(s.cands.closest)
  {
    var cs, r := s.cands.closest, SendTo(s, c, now);
    PositionOf(cs, c, target);
    UpdateSorted(cs, target, Position(cs, c.id), c.SetSent(now));
    LogOne(s.log, c.id);
    assert CandidateOk(s, c);
    forall x | x in r.cands.closest ensures CandidateOk(r, x) {
      if x.id != c.id {
        assert CandidateOk(s, x);
      }
    }
  }

  /** Sending to an eligible candidate. */
  lemma SendKeeps(target: Id, s: Lookup, c: Candidate, now: nat)
    requires Inv(target, s) && !s.finished && CanDoRequest(s)
    requires c in s.cands.closest && c.IsEligible() && now > 0
    ensures Inv(target, SendTo(s, c, now)) && |SendTo(s, c, now).calls| == |s.calls| + 1
  {
    SendList(target, s, c, now);
    assert c.id !in s.calls.Values;
    AddKey(s.calls, s.nextCall, c.id);
    SendCalls(s, c, now, SendTo(s, c, now));
  }

  /** Sending to an eligible candidate: the call. */
  lemma SendCalls(s: Lookup, c: Candidate, now: nat, r: Lookup)
    requires CallsOk(s) && CanDoRequest(s) && c in s.cands.closest && !c.IsInFlight() && now > 0
    requires r.calls.Values == s.calls.Values + {c.id} && |r.calls| == |s.calls| + 1
    requires Injective(r.calls) && r.nextCall == s.nextCall + 1
    requires forall k :: k in r.calls ==> k == s.nextCall || k in s.calls
    requires forall x :: x in r.cands.closest <==>
                         x == c.SetSent(now) || (x in s.cands.closest && x.id != c.id)
    requires IdsOf(r.cands.closest) == IdsOf(s.cands.closest)
    ensures CallsOk(r) && |r.calls| == |s.calls| + 1
  {
    assert c.id !in s.calls.Values;
    forall x | x in r.cands.closest ensures x.IsInFlight() <==> x.id in r.calls.Values {
      if x != c.SetSent(now) {
        assert x in s.cands.closest;
      }
    }
    assert c.id in IdsOf(s.cands.closest);
    forall k | k in r.calls ensures r.calls[k] in IdsOf(r.cands.closest) {
      assert r.calls[k] in r.calls.Values;
      if r.calls[k] != c.id {
        WaitedFor(s, r.calls[k]);
      }
    }
  }

  /** Ending a call whose candidate stops waiting keeps calls and candidates in step. */
  lemma EndCallsOk(s: Lookup, r: Lookup, call: nat)
    requires CallsOk(s) && call in s.calls && r.calls == s.calls - {call} && r.nextCall == s.nextCall
    requires forall c :: c in r.cands.closest ==>
      (c.IsInFlight() <==> c.id in s.calls.Values && c.id != s.calls[call])
    requires forall id :: id in s.calls.Values && id != s.calls[call] ==> id in IdsOf(r.cands.closest)
    ensures CallsOk(r)
  {
    RemoveKey(s.calls, call);
    forall k | k in r.calls ensures r.calls[k] in IdsOf(r.cands.closest) {
      assert r.calls[k] in r.calls.Values;
    }
  }

  lemma WaitedFor(s: Lookup, id: Id)
    requires CallsOk(s) && id in s.calls.Values
    ensures id in IdsOf(s.cands.closest)
  {
    var k :| k in s.calls && s.calls[k] == id;
  }

  lemma DropOne(cs: seq<Candidate>, id: Id, target: Id)
    requires SortedByDistance(cs, target)
    ensures SortedByDistance(Drop(cs, {id}), target) && |Drop(cs, {id})| <= |cs|
    ensures forall c :: c in Drop(cs, {id}) <==> c in cs && c.id != id
    ensures IdsOf(Drop(cs, {id})) == IdsOf(cs) - {id}
  {
    DropFacts(cs, {id}, target);
    forall x | x in IdsOf(cs) - {id} ensures x in IdsOf(Drop(cs, {id})) {
      var c :| c in cs && c.id == x;
      assert c in Drop(cs, {id});
    }
  }

  /** Ending a call and removing its candidate. */
  lemma RemoveKeeps(target: Id, s: Lookup, call: nat)
    requires Inv(target, s) && !s.finished && call in s.calls
    ensures Inv(target, RemoveCandidate(EndCall(s, call), s.calls[call]))
  {
    var r := RemoveCandidate(EndCall(s, call), s.calls[call]);
    DropOne(s.cands.closest, s.calls[call], target);
    forall c | c in r.cands.closest ensures CandidateOk(r, c) {
      assert CandidateOk(s, c);
    }
    forall id | id in s.calls.Values && id != s.calls[call] ensures id in IdsOf(r.cands.closest) {
      WaitedFor(s, id);
    }
    EndCallsOk(s, r, call);
  }

  lemma FinishedKeeps(target: Id, s: Lookup, call: nat)
    requires Inv(target, s) && s.finished && call in s.calls
    ensures Inv(target, EndCall(s, call))
  {
    var r := EndCall(s, call);
    assert r.calls.Keys == s.calls.Keys - {call};
    forall c | c in r.cands.closest ensures CandidateOk(r, c) {
      assert CandidateOk(s, c);
    }
  }

  lemma TimeoutKeeps(target: Id, s: Lookup, call: nat)
    requires Inv(target, s) && call in s.calls
    ensures Inv(target, TimedOut(s, call))
  {
    if s.finished {
      FinishedKeeps(target, s, call);
    } else {
      WaitingPlace(target, s, call);
      var k := Position(s.cands.closest, s.calls[call]);
      if s.cands.closest[k].IsUnreachable() {
        RemoveKeeps(target, s, call);
      } else {
        ClearKeeps(target, s, call, k);
      }
    }
  }

  /** The candidate a call waits for is in the list. */
  lemma WaitingPlace(target: Id, s: Lookup, call: nat)
    requires ListOk(target, s) && CallsOk(s) && call in s.calls
    ensures Position(s.cands.closest, s.calls[call]) < |s.cands.closest|
  {
    var c :| c in s.cands.closest && c.id == s.calls[call];
    PositionOf(s.cands.closest, c, target);
  }

  /** A candidate may be asked again: its place in the list. */
  lemma ClearList(target: Id, s: Lookup, k: nat)
    requires ListOk(target, s) && k < |s.cands.closest| && !s.cands.closest[k].IsUnreachable()
    ensures var r := s.(cands := s.cands.(closest := s.cands.closest[k := s.cands.closest[k].ClearSent()]));
      && ListOk(target, r)
      && (forall x :: x in r.cands.closest <==>
          x == s.cands.closest[k].ClearSent() || (x in s.cands.closest && x.id != s.cands.closest[k].id))
      && IdsOf(r.cands.closest) == IdsOf(s.cands.closest)
  {
    var cs := s.cands.closest;
    var c := cs[k];
    var r := s.(cands := s.cands.(closest := cs[k := c.ClearSent()]));
    UpdateSorted(cs, target, k, c.ClearSent());
    assert c in cs && CandidateOk(s, c);
    forall x | x in r.cands.closest ensures CandidateOk(r, x) {
      if x.id != c.id {
        assert CandidateOk(s, x);
      }
    }
  }

  lemma ClearKeeps(target: Id, s: Lookup, call: nat, k: nat)
    requires Inv(target, s) && !s.finished && call in s.calls
    requires k < |s.cands.closest| && s.cands.closest[k].id == s.calls[call] && !s.cands.closest[k].IsUnreachable()
    ensures Inv(target, EndCall(s, call).(cands := s.cands.(closest :=
      s.cands.closest[k := s.cands.closest[k].ClearSent()])))
  {
    var e := s.(cands := s.cands.(closest := s.cands.closest[k := s.cands.closest[k].ClearSent()]));
    var r := EndCall(e, call);
    ClearList(target, s, k);
    forall c | c in r.cands.closest ensures CandidateOk(r, c) {
      assert CandidateOk(e, c);
    }
    forall id | id in s.calls.Values ensures id in IdsOf(r.cands.closest) {
      WaitedFor(s, id);
    }
    EndCallsOk(s, r, call);
  }

  // ------------------------------------------------------------- adding candidates

  lemma {:induction false} InFlightBound(cs: seq<Candidate>, waited: set<Id>)
    requires DistinctIds(cs) && forall c :: c in cs && c.IsInFlight() ==> c.id in waited
    ensures InFlightCount(cs) <= |waited|
  {
    if cs != [] {
      var n := |cs| - 1;
      var last := cs[n];
      assert last in cs;
      if last.IsInFlight() {
        forall c | c in cs[..n] && c.IsInFlight() ensures c.id in waited - {last.id} {
          assert c in cs;
        }
        InFlightBound(cs[..n], waited - {last.id});
      } else {
        forall c | c in cs[..n] && c.IsInFlight() ensures c.id in waited {
          assert c in cs;
        }
        InFlightBound(cs[..n], waited);
      }
    }
  }

  lemma {:induction false} ValuesSize(m: map<nat, Id>)
    requires Injective(m)
    ensures |m.Values| <= |m|
    decreases |m|
  {
    if m == map[] {
      assert m.Values == {};
    } else {
      var k :| k in m;
      RemoveKey(m, k);
      ValuesSize(m - {k});
      assert m[k] in m.Values;
    }
  }

  /** Old candidates and newcomers have different ids. */
  lemma JoinDistinct(target: Id, s: Lookup, nodes: seq<NodeInfo>)
    requires ListOk(target, s)
    ensures DistinctIds(s.cands.closest + Admit(nodes, s.cands.ids, s.cands.ips).newcomers)
  {
    var cs, a := s.cands.closest, Admit(nodes, s.cands.ids, s.cands.ips);
    AdmitFacts(nodes, s.cands.ids, s.cands.ips);
    SortedDistinct(cs, target);
    var all := cs + a.newcomers;
    forall i, j | 0 <= i < j < |all| ensures all[i].id != all[j].id {
      if i < |cs| <= j {
        assert cs[i] in cs && CandidateOk(s, cs[i]);
        assert a.newcomers[j - |cs|] in a.newcomers;
      }
    }
  }

  /** The list after admission and trimming: sorted, no bigger than allowed, nobody in flight lost. */
  lemma AddList(target: Id, s: Lookup, nodes: seq<NodeInfo>)
    requires ListOk(target, s) && CallsOk(s)
    ensures var a, r := Admit(nodes, s.cands.ids, s.cands.ips), AddNodes(target, CAPACITY, s.cands, nodes).closest;
      && SortedByDistance(r, target)
      && |r| <= CAPACITY + MAX_CONCURRENT_TASK_REQUESTS
      && (forall c :: c in r ==> c in s.cands.closest || c in a.newcomers)
      && (forall c :: c in s.cands.closest && c.IsInFlight() ==> c in r)
  {
    var m := Sort(s.cands.closest + Admit(nodes, s.cands.ids, s.cands.ips).newcomers, DistKey(target));
    JoinFacts(target, s, nodes);
    TrimKeepsInFlight(m, target, CAPACITY, OrderKey(target));
    TrimSize(m, target, CAPACITY, OrderKey(target));
    FewInFlight(target, s, m);
  }

  /** The list before trimming. */
  lemma JoinFacts(target: Id, s: Lookup, nodes: seq<NodeInfo>)
    requires ListOk(target, s)
    ensures var a := Admit(nodes, s.cands.ids, s.cands.ips);
      var m := Sort(s.cands.closest + a.newcomers, DistKey(target));
      && SortedByDistance(m, target)
      && (forall c :: c in m <==> c in s.cands.closest || c in a.newcomers)
      && (forall c :: c in m && c.IsInFlight() ==> c in s.cands.closest)
  {
    var all := s.cands.closest + Admit(nodes, s.cands.ids, s.cands.ips).newcomers;
    JoinDistinct(target, s, nodes);
    SortStrict(all, target, DistKey(target));
    SortMembers(all, DistKey(target));
    AdmitFacts(nodes, s.cands.ids, s.cands.ips);
  }

  lemma FewInFlight(target: Id, s: Lookup, m: seq<Candidate>)
    requires CallsOk(s) && SortedByDistance(m, target)
    requires forall c :: c in m && c.IsInFlight() ==> c in s.cands.closest
    ensures InFlightCount(m) <= MAX_CONCURRENT_TASK_REQUESTS
  {
    SortedDistinct(m, target);
    InFlightBound(m, s.calls.Values);
    ValuesSize(s.calls);
  }

  lemma {:induction false} IdListOnce(cs: seq<Candidate>, id: Id)
    requires DistinctIds(cs)
    ensures multiset(IdList(cs))[id] <= 1
    ensures id in IdList(cs) ==> exists c :: c in cs && c.id == id
  {
    if cs != [] {
      var n := |cs| - 1;
      IdListOnce(cs[..n], id);
      assert IdList(cs) == IdList(cs[..n]) + [cs[n].id];
      forall c | c in cs[..n] ensures c.id != cs[n].id {
        var i :| 0 <= i < n && cs[i] == c;
      }
      assert cs[n] in cs;
    }
  }

  /** An id that was seen before is never admitted again. */
  lemma AddHistory(target: Id, s: Lookup, nodes: seq<NodeInfo>)
    requires HistoryOk(s)
    ensures HistoryOk(AddCandidates(target, s, nodes))
  {
    var a, r := Admit(nodes, s.cands.ids, s.cands.ips), AddCandidates(target, s, nodes);
    AdmitFacts(nodes, s.cands.ids, s.cands.ips);
    var joined := IdList(a.newcomers);
    forall id ensures multiset(r.admitted)[id] <= 1 && (id in r.admitted ==> id in r.cands.ids) {
      IdListOnce(a.newcomers, id);
      assert multiset(r.admitted) == multiset(s.admitted) + multiset(joined);
      assert id in joined ==> id in a.ids && id !in s.cands.ids;
      assert multiset(s.admitted)[id] <= 1;
    }
  }

  lemma AddKeeps(target: Id, s: Lookup, nodes: seq<NodeInfo>)
    requires Inv(target, s) && !s.finished
    ensures Inv(target, AddCandidates(target, s, nodes))
  {
    var a, r := Admit(nodes, s.cands.ids, s.cands.ips), AddCandidates(target, s, nodes);
    AddHistory(target, s, nodes);
    AddList(target, s, nodes);
    AdmitFacts(nodes, s.cands.ids, s.cands.ips);
    forall c | c in r.cands.closest
      ensures CandidateOk(r, c) && (c.IsInFlight() <==> c.id in r.calls.Values)
    {
      if c in s.cands.closest {
        assert CandidateOk(s, c);
      } else {
        NewcomerOk(target, s, c);
      }
    }
    forall k | k in r.calls ensures r.calls[k] in IdsOf(r.cands.closest) {
      var c :| c in s.cands.closest && c.id == s.calls[k];
      assert c.id in s.calls.Values;
    }
  }

  /** A node never seen before was never asked and is not waited for. */
  lemma NewcomerOk(target: Id, s: Lookup, c: Candidate)
    requires HistoryOk(s) && ListOk(target, s) && CallsOk(s) && c.id !in s.cands.ids
    ensures multiset(s.log)[c.id] == 0 && c.id !in s.calls.Values
  {
    assert c.id !in s.log;
    if c.id in s.calls.Values {
      WaitedForIsSeen(target, s, c.id);
    }
  }

  lemma WaitedForIsSeen(target: Id, s: Lookup, id: Id)
    requires ListOk(target, s) && CallsOk(s) && id in s.calls.Values
    ensures id in s.cands.ids
  {
    WaitedFor(s, id);
    var d :| d in s.cands.closest && d.id == id;
    assert CandidateOk(s, d);
  }

  // ----------------------------------------------------------------------- passes

  /** The update loop: ask the best candidates while the limit on calls allows. */
  ghost function UpdateLoop(target: Id, s: Lookup, now: nat): Lookup
    requires Inv(target, s) && !s.finished && now > 0
    decreases MAX_CONCURRENT_TASK_REQUESTS - |s.calls|
  {
    if !CanDoRequest(s) then s
    else
      var next := Next(target, s.cands.closest);
      if next.None? then s
      else
        NextIsBest(target, s.cands.closest);
        SendKeeps(target, s, next.value, now);
        UpdateLoop(target, SendTo(s, next.value, now), now)
  }

  lemma {:induction false} UpdateKeeps(target: Id, s: Lookup, now: nat)
    requires Inv(target, s) && !s.finished && now > 0
    ensures var r := UpdateLoop(target, s, now);
      && Inv(target, r) && !r.finished
      && (r.calls == map[] ==> r.cands.closest == [])
    decreases MAX_CONCURRENT_TASK_REQUESTS - |s.calls|
  {
    if CanDoRequest(s) {
      var next := Next(target, s.cands.closest);
      if next.Some? {
        NextIsBest(target, s.cands.closest);
        SendKeeps(target, s, next.value, now);
        UpdateKeeps(target, SendTo(s, next.value, now), now);
      } else if s.calls == map[] && s.cands.closest != [] {
        NeverStuck(target, s);
      }
    }
  }

  /** Done when nothing is in flight and no candidate is left or the result is good enough. */
  predicate IsDone(s: Lookup, enough: bool) {
    (s.calls == map[] || s.finished) && (s.cands.closest == [] || enough)
  }

  function FinishIf(s: Lookup, done: bool): Lookup {
    if done then s.(finished := true) else s
  }

  /** One pass of the task's update; enough1 and enough2 are the two readings of the closest set. */
  ghost function Pass(target: Id, s: Lookup, now: nat, enough1: bool, enough2: bool): Lookup
    requires Inv(target, s) && now > 0
  {
    var s1 := FinishIf(s, IsDone(s, enough1));
    if CanDoRequest(s1) && !s1.finished then
      var s2 := UpdateLoop(target, s1, now);
      FinishIf(s2, IsDone(s2, enough2))
    else s1
  }

  lemma FinishKeeps(target: Id, s: Lookup, done: bool)
    requires Inv(target, s)
    ensures Inv(target, FinishIf(s, done))
  {
    var r := FinishIf(s, done);
    forall c | c in r.cands.closest ensures CandidateOk(r, c) {
      assert CandidateOk(s, c);
    }
  }

  /** A pass keeps the invariant and leaves the lookup finished or with a call in flight. */
  lemma PassKeeps(target: Id, s: Lookup, now: nat, enough1: bool, enough2: bool)
    requires Inv(target, s) && now > 0
    ensures var r := Pass(target, s, now, enough1, enough2); Inv(target, r) && (r.finished || r.calls != map[])
  {
    var s1 := FinishIf(s, IsDone(s, enough1));
    FinishKeeps(target, s, IsDone(s, enough1));
    if CanDoRequest(s1) && !s1.finished {
      UpdateKeeps(target, s1, now);
      var s2 := UpdateLoop(target, s1, now);
      FinishKeeps(target, s2, IsDone(s2, enough2));
    }
  }

  // ------------------------------------------------------------------------- runs

  /** What happens to a call, or to the task; nodes are those that pass the address filters. */
  datatype Event =
    | Reply(call: nat, nodes: seq<NodeInfo>)
    | Error(call: nat)
    | Timeout(call: nat)
    | Stalled
    | Cancel

  datatype Timed = At(event: Event, now: nat, enough1: bool, enough2: bool)

  ghost function Handle(target: Id, s: Lookup, e: Event): Lookup {
    match e
    case Reply(call, nodes) => if call in s.calls then Responded(target, s, call, nodes) else s
    case Error(call) => if call in s.calls then Failed(s, call) else s
    case Timeout(call) => if call in s.calls then TimedOut(s, call) else s
    case Stalled => s
    case Cancel => s.(finished := true)
  }

  lemma HandleKeeps(target: Id, s: Lookup, e: Event)
    requires Inv(target, s)
    ensures Inv(target, Handle(target, s, e))
  {
    match e
    case Reply(call, nodes) =>
      if call in s.calls {
        if s.finished {
          FinishedKeeps(target, s, call);
        } else {
          RemoveKeeps(target, s, call);
          var r := RemoveCandidate(EndCall(s, call), s.calls[call]);
          AddKeeps(target, r, nodes);
        }
      }
    case Error(call) =>
      if call in s.calls {
        if s.finished {
          FinishedKeeps(target, s, call);
        } else {
          RemoveKeeps(target, s, call);
        }
      }
    case Timeout(call) =>
      if call in s.calls {
        TimeoutKeeps(target, s, call);
      }
    case Stalled =>
    case Cancel =>
      FinishKeeps(target, s, true);
  }

  ghost function Step(target: Id, s: Lookup, t: Timed): Lookup
    requires Inv(target, s)
  {
    HandleKeeps(target, s, t.event);
    Pass(target, Handle(target, s, t.event), t.now + 1, t.enough1, t.enough2)
  }

  ghost function Empty(): Lookup {
    Lookup(Cands({}, {}, []), map[], 0, false, [], [])
  }

  lemma EmptyOk(target: Id)
    ensures Inv(target, Empty())
  {
  }

  /** A lookup started with the nodes found in the routing table, after a list of events. */
  ghost function Run(target: Id, nodes: seq<NodeInfo>, first: Timed, events: seq<Timed>): (s: Lookup)
    ensures Inv(target, s) && (s.finished || s.calls != map[])
  {
    if events == [] then
      EmptyOk(target);
      AddKeeps(target, Empty(), nodes);
      PassKeeps(target, AddCandidates(target, Empty(), nodes), first.now + 1, first.enough1, first.enough2);
      Pass(target, AddCandidates(target, Empty(), nodes), first.now + 1, first.enough1, first.enough2)
    else
      var s := Run(target, nodes, first, events[..|events| - 1]);
      var t := events[|events| - 1];
      HandleKeeps(target, s, t.event);
      PassKeeps(target, Handle(target, s, t.event), t.now + 1, t.enough1, t.enough2);
      Step(target, s, t)
  }

  /**
   Every run of a node lookup: each id is admitted at most once and gets at most three
   requests, all requests together are at most three times the ids seen; the list stays
   sorted with its head nearest to the target and never exceeds capacity plus ten; and a
   lookup that has not finished has a call under way.
   */
  lemma EveryLookup(target: Id, nodes: seq<NodeInfo>, first: Timed, events: seq<Timed>, id: Id)
    ensures var s := Run(target, nodes, first, events);
      && multiset(s.admitted)[id] <= 1
      && multiset(s.log)[id] <= 3
      && |s.log| <= 3 * |s.cands.ids|
      && |s.cands.closest| <= 24 + 10
      && |s.calls| <= 10
      && SortedByDistance(s.cands.closest, target)
      && (forall c :: c in s.cands.closest ==> Dist(target, s.cands.closest[0].id) <= Dist(target, c.id))
      && (s.finished || s.calls != map[])
  {
    var s := Run(target, nodes, first, events);
    RequestsBounded(target, s);
    forall c | c in s.cands.closest
      ensures Dist(target, s.cands.closest[0].id) <= Dist(target, c.id)
    {
      HeadIsNearest(target, s.cands.closest, c);
    }
  }

  // -------------------------------------------------------------------- termination

  /** The event ends a call that is under way. */
  predicate Ends(s: Lookup, e: Event) {
    match e
    case Reply(call, _) => call in s.calls
    case Error(call) => call in s.calls
    case Timeout(call) => call in s.calls
    case Stalled => false
    case Cancel => false
  }

  /** Whatever an event does, it sends nothing and ends at most its own call. */
  lemma HandleBalance(target: Id, s: Lookup, e: Event)
    ensures var r := Handle(target, s, e);
      r.log == s.log && |r.calls| == |s.calls| - if Ends(s, e) then 1 else 0
  {
    match e
    case Reply(call, nodes) => RespondedBalance(target, s, call, nodes);
    case Error(call) => FailedBalance(s, call);
    case Timeout(call) => TimedOutBalance(s, call);
    case Stalled =>
    case Cancel =>
  }

  lemma RespondedBalance(target: Id, s: Lookup, call: nat, nodes: seq<NodeInfo>)
    ensures call in s.calls ==>
      var r := Responded(target, s, call, nodes); r.log == s.log && |r.calls| == |s.calls| - 1
  {
    OneCallLess(s, call);
  }

  lemma FailedBalance(s: Lookup, call: nat)
    ensures call in s.calls ==> var r := Failed(s, call); r.log == s.log && |r.calls| == |s.calls| - 1
  {
    OneCallLess(s, call);
  }

  lemma TimedOutBalance(s: Lookup, call: nat)
    ensures call in s.calls ==> var r := TimedOut(s, call); r.log == s.log && |r.calls| == |s.calls| - 1
  {
    OneCallLess(s, call);
  }

  lemma OneCallLess(s: Lookup, call: nat)
    ensures call in s.calls ==> |s.calls - {call}| == |s.calls| - 1
  {
    if call in s.calls {
      var rest := s.calls - {call};
      assert s.calls == rest[call := s.calls[call]];
    }
  }

  /** A pass that sends n requests puts n calls in flight. */
  lemma {:induction false} UpdateBalance(target: Id, s: Lookup, now: nat)
    requires Inv(target, s) && !s.finished && now > 0
    ensures var r := UpdateLoop(target, s, now); |r.log| - |r.calls| == |s.log| - |s.calls|
    decreases MAX_CONCURRENT_TASK_REQUESTS - |s.calls|
  {
    if CanDoRequest(s) {
      var next := Next(target, s.cands.closest);
      if next.Some? {
        NextIsBest(target, s.cands.closest);
        SendKeeps(target, s, next.value, now);
        UpdateBalance(target, SendTo(s, next.value, now), now);
      }
    }
  }

  lemma PassBalance(target: Id, s: Lookup, now: nat, enough1: bool, enough2: bool)
    requires Inv(target, s) && now > 0
    ensures var r := Pass(target, s, now, enough1, enough2); |r.log| - |r.calls| == |s.log| - |s.calls|
  {
    var s1 := FinishIf(s, IsDone(s, enough1));
    FinishBalance(s, IsDone(s, enough1));
    FinishKeeps(target, s, IsDone(s, enough1));
    if CanDoRequest(s1) && !s1.finished {
      UpdateBalance(target, s1, now);
      var s2 := UpdateLoop(target, s1, now);
      FinishBalance(s2, IsDone(s2, enough2));
    }
  }

  lemma FinishBalance(s: Lookup, done: bool)
    ensures FinishIf(s, done).log == s.log && FinishIf(s, done).calls == s.calls
  {
  }

  /** How many events of a run ended a call. */
  ghost function Endings(target: Id, nodes: seq<NodeInfo>, first: Timed, events: seq<Timed>): nat {
    if events == [] then 0
    else
      var n := |events| - 1;
      Endings(target, nodes, first, events[..n]) +
      if Ends(Run(target, nodes, first, events[..n]), events[n].event) then 1 else 0
  }

  /** Every request ever sent has been ended by an event or is still under way. */
  lemma {:induction false} EndingsBalance(target: Id, nodes: seq<NodeInfo>, first: Timed, events: seq<Timed>)
    ensures var s := Run(target, nodes, first, events);
      Endings(target, nodes, first, events) + |s.calls| == |s.log|
  {
    if events == [] {
      EmptyOk(target);
      AddKeeps(target, Empty(), nodes);
      PassBalance(target, AddCandidates(target, Empty(), nodes), first.now + 1, first.enough1, first.enough2);
    } else {
      var n := |events| - 1;
      var s, t := Run(target, nodes, first, events[..n]), events[n];
      EndingsBalance(target, nodes, first, events[..n]);
      HandleBalance(target, s, t.event);
      HandleKeeps(target, s, t.event);
      PassBalance(target, Handle(target, s, t.event), t.now + 1, t.enough1, t.enough2);
    }
  }

  /**
   A lookup ends: while it has not finished, fewer than three calls per id seen have ended.
   So a lookup that meets only the ids of a finite set has finished once that many calls
   have, and every call does end.
   */
  lemma LookupEnds(target: Id, nodes: seq<NodeInfo>, first: Timed, events: seq<Timed>, ids: set<Id>)
    requires Run(target, nodes, first, events).cands.ids <= ids
    ensures Endings(target, nodes, first, events) <= 3 * |ids|
    ensures Endings(target, nodes, first, events) == 3 * |ids| ==> Run(target, nodes, first, events).finished
  {
    var s := Run(target, nodes, first, events);
    EndingsBalance(target, nodes, first, events);
    RequestsBounded(target, s);
    Smaller(s.cands.ids, ids);
    assert s.calls != map[] ==> |s.calls| > 0;
  }

  lemma Smaller(a: set<Id>, b: set<Id>)
    requires a <= b
    ensures |a| <= |b|
  {
    assert b == a + (b - a);
  }
}
