/**
 What the steps of a node lookup achieve: when it finishes, whom it asks, what it learns
 from an answer and whom it gives up.
 */
module LookupEffects {
  import opened Wrappers
  import opened Ids
  import opened Sorting
  import opened KBuckets
  import opened Candidates
  import opened Lookups

  // ----------------------------------------------------------------- whom it asks

  lemma {:induction false} UpdateGrows(target: Id, s: Lookup, now: nat)
    requires Inv(target, s) && !s.finished && now > 0
    ensures var r := UpdateLoop(target, s, now);
      && |r.calls| >= |s.calls| && |r.cands.closest| == |s.cands.closest|
      && r.cands.ids == s.cands.ids && r.admitted == s.admitted
    decreases MAX_CONCURRENT_TASK_REQUESTS - |s.calls|
  {
    if CanDoRequest(s) {
      var next := Next(target, s.cands.closest);
      if next.Some? {
        NextIsBest(target, s.cands.closest);
        SendKeeps(target, s, next.value, now);
        UpdateGrows(target, SendTo(s, next.value, now), now);
      }
    }
  }

  /** An update leaves ten calls under way or nobody to ask. */
  lemma {:induction false} UpdateSaturates(target: Id, s: Lookup, now: nat)
    requires Inv(target, s) && !s.finished && now > 0
    ensures var r := UpdateLoop(target, s, now);
      |r.calls| == 10 || forall c :: c in r.cands.closest ==> c.lastSent != 0 || c.pinged >= 3
    decreases MAX_CONCURRENT_TASK_REQUESTS - |s.calls|
  {
    NextIsBest(target, s.cands.closest);
    if CanDoRequest(s) {
      var next := Next(target, s.cands.closest);
      if next.Some? {
        SendKeeps(target, s, next.value, now);
        UpdateSaturates(target, SendTo(s, next.value, now), now);
      }
    }
  }

  /** Nobody who is left out would have been a better choice: fewer requests first, then nearer. */
  lemma {:induction false} UpdateAsksBest(target: Id, s: Lookup, now: nat, x: Candidate, y: Candidate)
    requires Inv(target, s) && !s.finished && now > 0
    requires x in s.cands.closest && x !in UpdateLoop(target, s, now).cands.closest
    requires y in s.cands.closest && y in UpdateLoop(target, s, now).cands.closest && y.IsEligible()
    ensures Order(target, x) <= Order(target, y)
    decreases MAX_CONCURRENT_TASK_REQUESTS - |s.calls|
  {
    var next := Next(target, s.cands.closest);
    NextIsBest(target, s.cands.closest);
    if CanDoRequest(s) && next.Some? {
      var c := next.value;
      var r := SendTo(s, c, now);
      SendKeeps(target, s, c, now);
      SendList(target, s, c, now);
      if x != c {
        DifferentIds(target, s.cands.closest, x, c);
        StillThere(target, s, now, c, y);
        UpdateAsksBest(target, r, now, x, y);
      }
    }
  }

  lemma DifferentIds(target: Id, cs: seq<Candidate>, x: Candidate, y: Candidate)
    requires SortedByDistance(cs, target) && x in cs && y in cs && x != y
    ensures x.id != y.id
  {
    SortedDistinct(cs, target);
  }

  /** A candidate that is eligible at the end of an update was not the one asked first. */
  lemma StillThere(target: Id, s: Lookup, now: nat, c: Candidate, y: Candidate)
    requires Inv(target, s) && !s.finished && now > 0 && CanDoRequest(s) && Next(target, s.cands.closest) == Some(c)
    requires y in s.cands.closest && y in UpdateLoop(target, s, now).cands.closest && y.IsEligible()
    ensures y in SendTo(s, c, now).cands.closest
  {
    NextIsBest(target, s.cands.closest);
    SendKeeps(target, s, c, now);
    SendList(target, s, c, now);
    if y == c {
      WaitingStays(target, SendTo(s, c, now), now, c.SetSent(now));
      UpdateKeeps(target, SendTo(s, c, now), now);
    } else {
      DifferentIds(target, s.cands.closest, y, c);
    }
  }

  /** An update does not touch a candidate that is waited for. */
  lemma {:induction false} WaitingStays(target: Id, s: Lookup, now: nat, x: Candidate)
    requires Inv(target, s) && !s.finished && now > 0 && x in s.cands.closest && x.IsInFlight()
    ensures x in UpdateLoop(target, s, now).cands.closest
    decreases MAX_CONCURRENT_TASK_REQUESTS - |s.calls|
  {
    var next := Next(target, s.cands.closest);
    NextIsBest(target, s.cands.closest);
    if CanDoRequest(s) && next.Some? {
      SendKeeps(target, s, next.value, now);
      SendList(target, s, next.value, now);
      DifferentIds(target, s.cands.closest, x, next.value);
      WaitingStays(target, SendTo(s, next.value, now), now, x);
    }
  }

  // ---------------------------------------------------------------- when it finishes

  /**
   A pass finishes the lookup exactly if no call is under way and either no candidate is
   left or the closest set is good enough; otherwise a call is under way afterwards, and
   if there was none before, somebody has been asked.
   */
  lemma PassFinishesIff(target: Id, s: Lookup, now: nat, enough1: bool, enough2: bool)
    requires Inv(target, s) && now > 0
    ensures var r := Pass(target, s, now, enough1, enough2);
      if s.finished || (s.calls == map[] && (s.cands.closest == [] || enough1)) then r == s.(finished := true)
      else !r.finished && r.calls != map[] && (s.calls == map[] ==> |r.log| > |s.log|)
  {
    PassBalance(target, s, now, enough1, enough2);
    if !s.finished && !(s.calls == map[] && (s.cands.closest == [] || enough1)) && CanDoRequest(s) {
      UpdateGrows(target, s, now);
      UpdateKeeps(target, s, now);
    }
  }

  /** The state a lookup starts with. */
  ghost function Started(target: Id, nodes: seq<NodeInfo>): Lookup {
    AddCandidates(target, Empty(), nodes)
  }

  lemma HandleFinished(target: Id, s: Lookup, e: Event)
    ensures Handle(target, s, e).finished <==> s.finished || e.Cancel?
  {
  }

  /** With the call gone or never there, an event other than a cancellation changes nothing. */
  lemma NothingUnderWay(target: Id, s: Lookup, e: Event)
    requires s.calls == map[] && !e.Cancel?
    ensures Handle(target, s, e) == s
  {
  }

  /** There is a reason to finish after an event. */
  ghost predicate Reason(target: Id, s: Lookup, t: Timed) {
    var h := Handle(target, s, t.event);
    t.event.Cancel? || (h.calls == map[] && (h.cands.closest == [] || t.enough1))
  }

  lemma StepFinishesIff(target: Id, s: Lookup, t: Timed)
    requires Inv(target, s)
    ensures Step(target, s, t).finished <==> s.finished || Reason(target, s, t)
    ensures Step(target, s, t).finished ==> Step(target, s, t) == Handle(target, s, t.event).(finished := true)
  {
    HandleKeeps(target, s, t.event);
    HandleFinished(target, s, t.event);
    PassFinishesIff(target, Handle(target, s, t.event), t.now + 1, t.enough1, t.enough2);
  }

  lemma RunLast(target: Id, nodes: seq<NodeInfo>, first: Timed, events: seq<Timed>)
    requires events != []
    ensures Run(target, nodes, first, events) ==
            Step(target, Run(target, nodes, first, events[..|events| - 1]), events[|events| - 1])
  {
  }

  /** There is a reason to finish from the start. */
  ghost predicate FirstReason(target: Id, nodes: seq<NodeInfo>, first: Timed) {
    Started(target, nodes).cands.closest == [] || first.enough1
  }

  lemma FirstStep(target: Id, nodes: seq<NodeInfo>, first: Timed)
    ensures Run(target, nodes, first, []).finished <==> FirstReason(target, nodes, first)
    ensures !Run(target, nodes, first, []).finished ==> Run(target, nodes, first, []).log != []
  {
    EmptyOk(target);
    AddKeeps(target, Empty(), nodes);
    PassFinishesIff(target, Started(target, nodes), first.now + 1, first.enough1, first.enough2);
  }

  /** At the start and after each event of a run: was there a reason to finish? */
  ghost function Reasons(target: Id, nodes: seq<NodeInfo>, first: Timed, events: seq<Timed>): (r: seq<bool>)
    ensures |r| == |events| + 1
  {
    if events == [] then [FirstReason(target, nodes, first)]
    else
      var n := |events| - 1;
      Reasons(target, nodes, first, events[..n]) + [Reason(target, Run(target, nodes, first, events[..n]), events[n])]
  }

  /** A lookup has finished exactly if at some step there was a reason to. */
  lemma {:induction false} FinishedIff(target: Id, nodes: seq<NodeInfo>, first: Timed, events: seq<Timed>)
    ensures Run(target, nodes, first, events).finished <==> true in Reasons(target, nodes, first, events)
  {
    if events == [] {
      FirstStep(target, nodes, first);
    } else {
      var n := |events| - 1;
      FinishedIff(target, nodes, first, events[..n]);
      RunLast(target, nodes, first, events);
      StepFinishesIff(target, Run(target, nodes, first, events[..n]), events[n]);
    }
  }

  ghost predicate Undisturbed(first: Timed, events: seq<Timed>) {
    !first.enough1 && forall i :: 0 <= i < |events| ==> !events[i].event.Cancel? && !events[i].enough1
  }

  /** Not cancelled and never good enough, a lookup finishes only with every candidate dealt with. */
  lemma {:induction false} FinishesExhausted(target: Id, nodes: seq<NodeInfo>, first: Timed, events: seq<Timed>)
    requires Undisturbed(first, events)
    ensures var s := Run(target, nodes, first, events);
      s.finished ==> s.calls == map[] && s.cands.closest == []
  {
    if events == [] {
      EmptyOk(target);
      AddKeeps(target, Empty(), nodes);
      PassFinishesIff(target, Started(target, nodes), first.now + 1, first.enough1, first.enough2);
    } else {
      var n := |events| - 1;
      FinishesExhausted(target, nodes, first, events[..n]);
      RunLast(target, nodes, first, events);
      StepExhausts(target, Run(target, nodes, first, events[..n]), events[n]);
    }
  }

  lemma StepExhausts(target: Id, s: Lookup, t: Timed)
    requires Inv(target, s) && !t.event.Cancel? && !t.enough1
    requires s.finished ==> s.calls == map[] && s.cands.closest == []
    ensures var r := Step(target, s, t); r.finished ==> r.calls == map[] && r.cands.closest == []
  {
    StepFinishesIff(target, s, t);
    if s.finished {
      NothingUnderWay(target, s, t.event);
    }
  }

  /** As soon as a node is admitted, the first pass asks somebody, unless the result is good enough from the start. */
  lemma FirstPassAsks(target: Id, nodes: seq<NodeInfo>, first: Timed)
    requires !first.enough1 && Admit(nodes, {}, {}).newcomers != []
    ensures var s := Run(target, nodes, first, []); !s.finished && s.log != []
  {
    EmptyOk(target);
    AdmittedRemain(target, Empty(), nodes);
    FirstStep(target, nodes, first);
  }

  // --------------------------------------------------------------------- what it learns

  /** After admission: nobody is dropped who fits, and nobody idle who is better than one kept. */
  lemma AdmittedRemain(target: Id, s: Lookup, nodes: seq<NodeInfo>)
    requires ListOk(target, s)
    ensures var a, r := Admit(nodes, s.cands.ids, s.cands.ips), AddNodes(target, CAPACITY, s.cands, nodes).closest;
      && (|s.cands.closest| + |a.newcomers| <= 24 ==>
            forall c :: c in s.cands.closest || c in a.newcomers ==> c in r)
      && (s.cands.closest + a.newcomers != [] ==> r != [])
      && (forall x, y :: x in r && !x.IsInFlight() && (y in s.cands.closest || y in a.newcomers) && y !in r ==>
            Order(target, x) <= Order(target, y))
      && (forall y :: (y in s.cands.closest || y in a.newcomers) && y !in r ==> !y.IsInFlight() && |r| >= 24)
  {
    var a := Admit(nodes, s.cands.ids, s.cands.ips);
    var all := s.cands.closest + a.newcomers;
    var m := Sort(all, DistKey(target));
    JoinFacts(target, s, nodes);
    SortContents(all, DistKey(target));
    TrimKeepsInFlight(m, target, CAPACITY, OrderKey(target));
    TrimSize(m, target, CAPACITY, OrderKey(target));
    TrimKeepsBest(m, target, CAPACITY, OrderKey(target));
    NothingToTrim(m, target);
  }

  lemma NothingToTrim(m: seq<Candidate>, target: Id)
    requires SortedByDistance(m, target)
    ensures |Idle(m)| <= CAPACITY ==> forall c :: c in m ==> c in Trim(m, CAPACITY, OrderKey(target))
  {
    var s := Surplus(m, CAPACITY, OrderKey(target));
    assert s == [] ==> IdsOf(s) == {};
    DropMembers(m, IdsOf(s));
  }

  /** An answer ends the wait for its sender, who leaves the list, and every id it names has now been seen. */
  lemma AnswerTeaches(target: Id, s: Lookup, call: nat, nodes: seq<NodeInfo>)
    requires Inv(target, s) && !s.finished && call in s.calls
    ensures var r := Handle(target, s, Reply(call, nodes));
      && call !in r.calls
      && r.cands.ids == s.cands.ids + (set n | n in nodes :: n.id)
      && (forall c :: c in r.cands.closest ==> c.id != s.calls[call])
  {
    var id := s.calls[call];
    var q := RemoveCandidate(EndCall(s, call), id);
    RemoveKeeps(target, s, call);
    DropOne(s.cands.closest, id, target);
    WaitedForIsSeen(target, s, id);
    if nodes != [] {
      AdmitIds(nodes, q.cands.ids, q.cands.ips);
      AdmitFacts(nodes, q.cands.ids, q.cands.ips);
      AddList(target, q, nodes);
    }
  }

  /** An error gives the node up for good and touches no other candidate. */
  lemma ErrorGivesUp(target: Id, s: Lookup, call: nat)
    requires Inv(target, s) && !s.finished && call in s.calls
    ensures var r := Handle(target, s, Error(call));
      forall c :: c in r.cands.closest <==> c in s.cands.closest && c.id != s.calls[call]
  {
    DropOne(s.cands.closest, s.calls[call], target);
  }

  /** A timeout gives the node up exactly after the third request; before that it may be asked again. */
  lemma TimeoutGivesUpIff(target: Id, s: Lookup, call: nat, c: Candidate)
    requires Inv(target, s) && !s.finished && call in s.calls && c in s.cands.closest
    ensures var r := Handle(target, s, Timeout(call)).cands.closest;
      if c.id != s.calls[call] then c in r
      else if multiset(s.log)[c.id] == 3 then forall x :: x in r ==> x.id != c.id
      else c.(lastSent := 0) in r && c.(lastSent := 0).IsEligible()
  {
    TimedOutEffect(target, s, call, c);
  }

  lemma TimedOutEffect(target: Id, s: Lookup, call: nat, c: Candidate)
    requires ListOk(target, s) && CallsOk(s) && !s.finished && call in s.calls && c in s.cands.closest
    ensures var r := TimedOut(s, call).cands.closest;
      if c.id != s.calls[call] then c in r
      else if multiset(s.log)[c.id] == 3 then forall x :: x in r ==> x.id != c.id
      else c.(lastSent := 0) in r && c.(lastSent := 0).IsEligible()
  {
    var cs, id := s.cands.closest, s.calls[call];
    WaitingPlace(target, s, call);
    if c.id == id {
      assert CandidateOk(s, c);
      PositionOf(cs, c, target);
      WaiterTimedOut(target, s, call, c);
    } else {
      OtherStays(target, s, call, c);
    }
  }

  lemma OtherStays(target: Id, s: Lookup, call: nat, c: Candidate)
    requires SortedByDistance(s.cands.closest, target) && call in s.calls
    requires c in s.cands.closest && c.id != s.calls[call]
    ensures c in TimedOut(s, call).cands.closest
  {
    var cs, id := s.cands.closest, s.calls[call];
    var k := Position(cs, id);
    DropOne(cs, id, target);
    if k < |cs| {
      UpdateSorted(cs, target, k, cs[k].ClearSent());
    }
  }

  lemma WaiterTimedOut(target: Id, s: Lookup, call: nat, c: Candidate)
    requires SortedByDistance(s.cands.closest, target) && call in s.calls && !s.finished
    requires var k := Position(s.cands.closest, s.calls[call]); k < |s.cands.closest| && s.cands.closest[k] == c
    ensures var r := TimedOut(s, call).cands.closest;
      if c.pinged >= 3 then forall x :: x in r ==> x.id != c.id else c.(lastSent := 0) in r
  {
    var cs, id := s.cands.closest, s.calls[call];
    DropOne(cs, id, target);
    UpdateSorted(cs, target, Position(cs, id), c.ClearSent());
  }
}
