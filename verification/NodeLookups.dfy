/**
 The node lookup's code: handlers of call results and the update loop, proved to be the
 steps of module Lookups.
 */
module NodeLookups {
  import opened Wrappers
  import opened Ids
  import opened KBuckets
  import opened Candidates
  import opened Lookups

  class NodeLookup {
    const target: Id
    const candidates: ClosestCandidates
    var inFlight: map<nat, Id>
    var nextCall: nat
    var finished: bool
    ghost var log: seq<Id>
    ghost var admitted: seq<Id>

    constructor (target: Id)
      ensures this.target == target && fresh(candidates) && Wired() && View() == Empty()
    {
      this.target := target;
      candidates := new ClosestCandidates(target, CAPACITY);
      inFlight, nextCall, finished, log, admitted := map[], 0, false, [], [];
    }

    ghost predicate Wired() {
      candidates.target == target && candidates.capacity == CAPACITY
    }

    ghost function View(): Lookup
      reads this, candidates
    {
      Lookup(candidates.View(), inFlight, nextCall, finished, log, admitted)
    }

    /** Adds the nodes that are neither bogus, nor ourselves, nor in the closest set already. */
    method AddCandidates(nodes: seq<NodeInfo>, usable: NodeInfo -> bool)
      requires Wired()
      modifies this`admitted, candidates
      ensures View() == Learn(target, old(View()), Usable(nodes, usable))
    {
      var batch := [];
      for i := 0 to |nodes|
        invariant batch == Usable(nodes[..i], usable)
      {
        assert nodes[..i + 1][..i] == nodes[..i];
        if usable(nodes[i]) {
          batch := batch + [nodes[i]];
        }
      }
      assert nodes[..|nodes|] == nodes;
      if batch != [] {
        admitted := admitted + IdList(Admit(batch, candidates.dedupIds, candidates.dedupAddrs).newcomers);
        candidates.Add(batch);
      }
    }

    /** Where a candidate stands in the list. */
    method Locate(id: Id) returns (k: nat)
      ensures k == Position(candidates.closest, id)
    {
      var cs := candidates.closest;
      k := 0;
      while k < |cs| && cs[k].id != id
        invariant 0 <= k <= |cs|
        invariant Position(cs, id) == k + Position(cs[k..], id)
      {
        assert cs[k..][1..] == cs[k + 1..];
        k := k + 1;
      }
    }

    /** sendCall for a candidate that next() returned. */
    method Send(c: Candidate, now: nat)
      modifies this`inFlight, this`nextCall, this`log, candidates`closest
      ensures View() == SendTo(old(View()), c, now)
    {
      var cs := candidates.closest;
      var k := Locate(c.id);
      if k < |cs| {
        candidates.closest := cs[k := cs[k].(lastSent := now, pinged := cs[k].pinged + 1)];
      }
      inFlight := inFlight[nextCall := c.id];
      nextCall := nextCall + 1;
      log := log + [c.id];
    }

    method Update(now: nat)
      requires Wired() && Inv(target, View()) && !finished && now > 0
      modifies this`inFlight, this`nextCall, this`log, candidates`closest
      ensures View() == UpdateLoop(target, old(View()), now)
    {
      while |inFlight| < MAX_CONCURRENT_TASK_REQUESTS
        invariant Inv(target, View()) && !finished
        invariant UpdateLoop(target, View(), now) == UpdateLoop(target, old(View()), now)
        decreases MAX_CONCURRENT_TASK_REQUESTS - |inFlight|
      {
        var candidate := candidates.GetNext();
        if candidate.None? {
          return;
        }
        NextIsBest(target, candidates.closest);
        SendKeeps(target, View(), candidate.value, now);
        Send(candidate.value, now);
      }
    }

    /** RESPONDED: the nodes count only if the answer's id and method match. */
    method CallResponsed(call: nat, nodes: seq<NodeInfo>, matches: bool, usable: NodeInfo -> bool)
      requires Wired() && call in inFlight
      modifies this`inFlight, this`admitted, candidates
      ensures View() == Responded(target, old(View()), call, if matches then Usable(nodes, usable) else [])
    {
      var id := inFlight[call];
      inFlight := inFlight - {call};
      if finished {
        return;
      }
      var found := candidates.Remove(id);
      if !matches {
        return;
      }
      AddCandidates(nodes, usable);
    }

    method CallError(call: nat)
      requires call in inFlight
      modifies this`inFlight, candidates
      ensures View() == Failed(old(View()), call)
    {
      var id := inFlight[call];
      inFlight := inFlight - {call};
      if !finished {
        var found := candidates.Remove(id);
      }
    }

    method CallTimeout(call: nat)
      requires call in inFlight
      modifies this`inFlight, candidates
      ensures View() == TimedOut(old(View()), call)
    {
      var id := inFlight[call];
      inFlight := inFlight - {call};
      var cs := candidates.closest;
      var k := Locate(id);
      if finished || k == |cs| {
        return;
      }
      if cs[k].pinged >= 3 {
        var found := candidates.Remove(id);
        return;
      }
      candidates.closest := cs[k := cs[k].(lastSent := 0)];
    }

    /** The body of one round of serializedUpdate. */
    method UpdatePass(now: nat, enough1: bool, enough2: bool)
      requires Wired() && Inv(target, View()) && now > 0
      modifies this, candidates
      ensures View() == Pass(target, old(View()), now, enough1, enough2)
    {
      FinishKeeps(target, View(), IsDone(View(), enough1));
      if (inFlight == map[] || finished) && (candidates.closest == [] || enough1) {
        finished := true;
      }
      if |inFlight| < MAX_CONCURRENT_TASK_REQUESTS && !finished {
        Update(now);
        if (inFlight == map[] || finished) && (candidates.closest == [] || enough2) {
          finished := true;
        }
      }
    }
  }
}
