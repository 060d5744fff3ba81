/**
 Remote calls: the table of pending calls and the life of each call.

 Calls live in `store`, addressed by handle; the pending table maps transaction ids to
 handles.  Replies arrive with a transaction id and a source address, timers fire at or
 after their deadline, and time never runs backwards.
 */
module Rpc {
  import opened Wrappers

  const RPC_CALL_TIMEOUT_MAX := 10_000
  const FIRST_CHECK := 2_000

  datatype CallState = UNSENT | SENT | STALLED | TIMEOUT | ERR | RESPONDED

  predicate Pending(s: CallState) {
    s == SENT || s == STALLED
  }

  predicate Ended(s: CallState) {
    s == TIMEOUT || s == ERR || s == RESPONDED
  }

  /** timer is the deadline of the armed timer; firings and ends count what happened. */
  datatype Call = Call(
    txid: int,
    dest: nat,
    state: CallState,
    sentTime: nat,
    endTime: nat,
    timer: Option<nat>,
    firings: nat,
    ends: nat)
  {
    function Enter(s: CallState, now: nat): Call {
      if Ended(s) then this.(state := s, endTime := now, ends := ends + 1) else this.(state := s)
    }

    /** A matching reply. */
    function Responsed(isError: bool, now: nat): Call {
      this.(timer := None).Enter(if isError then ERR else RESPONDED, now)
    }

    /** A reply from the wrong address. */
    function Stall(now: nat): Call {
      if state == SENT then Enter(STALLED, now) else this
    }

    /** The timer callback. */
    function CheckTimeout(now: nat): Call {
      var c := this.(timer := None, firings := firings + 1);
      if !Pending(state) then c
      else
        var remaining := RPC_CALL_TIMEOUT_MAX - (now - sentTime);
        if remaining > 0 then c.Enter(STALLED, now).(timer := Some(now + remaining))
        else c.Enter(TIMEOUT, now)
    }
  }

  datatype Server = Server(pending: map<int, nat>, store: seq<Call>, nextTxid: int, clock: nat)

  /** 32-bit increment. */
  function Next(txid: int): int {
    if txid == 0x7FFF_FFFF then -0x8000_0000 else txid + 1
  }

  /** Zero is no transaction id. */
  function Skip(txid: int): int {
    if txid == 0 then Next(txid) else txid
  }

  // ---------------------------------------------------------------------- steps

  datatype Event =
    | Send(dest: nat)
    | Reply(txid: int, from: nat, isError: bool)
    | TimerFires(handle: nat)

  /** A timer fires at or after its deadline, a cancelled one not at all. */
  predicate Enabled(s: Server, e: Event, now: nat) {
    && s.clock <= now
    && (e.TimerFires? ==>
          e.handle < |s.store| && s.store[e.handle].timer.Some? && s.store[e.handle].timer.value <= now)
  }

  /** Sending under a transaction id that is still in use fails and sends nothing. */
  function SendCall(s: Server, dest: nat, now: nat): Server {
    var txid := Skip(s.nextTxid);
    var t := s.(nextTxid := Next(txid), clock := now);
    if txid in s.pending then t
    else t.(pending := s.pending[txid := |s.store|],
            store := s.store + [Call(txid, dest, SENT, now, 0, Some(now + FIRST_CHECK), 0, 0)])
  }

  function HandleReply(s: Server, txid: int, from: nat, isError: bool, now: nat): Server {
    var t := s.(clock := now);
    if txid !in s.pending || s.pending[txid] >= |s.store| then t
    else
      var h := s.pending[txid];
      if s.store[h].dest == from then
        t.(pending := s.pending - {txid}, store := s.store[h := s.store[h].Responsed(isError, now)])
      else t.(store := s.store[h := s.store[h].Stall(now)])
  }

  function FireTimer(s: Server, h: nat, now: nat): Server
    requires h < |s.store|
  {
    var c := s.store[h].CheckTimeout(now);
    var t := s.(clock := now, store := s.store[h := c]);
    if c.state == TIMEOUT && Pending(s.store[h].state) then t.(pending := s.pending - {c.txid}) else t
  }

  function Step(s: Server, e: Event, now: nat): Server
    requires Enabled(s, e, now)
  {
    match e
    case Send(dest) => SendCall(s, dest, now)
    case Reply(txid, from, isError) => HandleReply(s, txid, from, isError, now)
    case TimerFires(h) => FireTimer(s, h, now)
  }

  // ------------------------------------------------------------------- invariant

  ghost predicate CallOk(c: Call, clock: nat) {
    && c.sentTime <= clock
    && (Pending(c.state) || Ended(c.state))
    && c.ends == (if Ended(c.state) then 1 else 0)
    && (Pending(c.state) ==>
          && c.firings <= 1
          && c.timer == Some(c.sentTime + if c.firings == 0 then FIRST_CHECK else RPC_CALL_TIMEOUT_MAX))
    && (Ended(c.state) ==> c.timer == None && c.firings <= 2)
    && (c.state == TIMEOUT ==> c.endTime >= c.sentTime + RPC_CALL_TIMEOUT_MAX)
  }

  /** The table holds exactly the pending calls, each under its own transaction id. */
  ghost predicate TableOk(s: Server) {
    && (forall x :: x in s.pending ==>
          s.pending[x] < |s.store| && s.store[s.pending[x]].txid == x && Pending(s.store[s.pending[x]].state))
    && (forall h :: 0 <= h < |s.store| && Pending(s.store[h].state) ==>
          s.store[h].txid in s.pending && s.pending[s.store[h].txid] == h)
  }

  ghost predicate Inv(s: Server) {
    TableOk(s) && forall h :: 0 <= h < |s.store| ==> CallOk(s.store[h], s.clock)
  }

  /** An ended call never changes again. */
  ghost predicate Frozen(s: Server, t: Server) {
    |s.store| <= |t.store| && forall h :: 0 <= h < |s.store| && Ended(s.store[h].state) ==> t.store[h] == s.store[h]
  }

  lemma SendKeeps(s: Server, dest: nat, now: nat)
    requires Inv(s) && s.clock <= now
    ensures Inv(SendCall(s, dest, now)) && Frozen(s, SendCall(s, dest, now))
  {
  }

  lemma ReplyKeeps(s: Server, txid: int, from: nat, isError: bool, now: nat)
    requires Inv(s) && s.clock <= now
    ensures Inv(HandleReply(s, txid, from, isError, now)) && Frozen(s, HandleReply(s, txid, from, isError, now))
  {
    if txid in s.pending {
      var h := s.pending[txid];
      assert CallOk(s.store[h], s.clock);
      if s.store[h].dest == from {
        MatchKeeps(s, txid, isError, now);
      } else {
        MismatchKeeps(s, h, now);
      }
    }
  }

  lemma MatchKeeps(s: Server, txid: int, isError: bool, now: nat)
    requires Inv(s) && s.clock <= now && txid in s.pending
    ensures var h := s.pending[txid];
      var t := s.(clock := now, pending := s.pending - {txid}, store := s.store[h := s.store[h].Responsed(isError, now)]);
      Inv(t) && Frozen(s, t)
  {
  }

  lemma MismatchKeeps(s: Server, h: nat, now: nat)
    requires Inv(s) && s.clock <= now && h < |s.store|
    ensures var t := s.(clock := now, store := s.store[h := s.store[h].Stall(now)]); Inv(t) && Frozen(s, t)
  {
  }

  lemma FireKeeps(s: Server, h: nat, now: nat)
    requires Inv(s) && Enabled(s, TimerFires(h), now)
    ensures Inv(FireTimer(s, h, now)) && Frozen(s, FireTimer(s, h, now))
  {
    assert CallOk(s.store[h], s.clock);
  }

  lemma StepKeeps(s: Server, e: Event, now: nat)
    requires Inv(s) && Enabled(s, e, now)
    ensures Inv(Step(s, e, now)) && Frozen(s, Step(s, e, now))
  {
    match e
    case Send(dest) => SendKeeps(s, dest, now);
    case Reply(txid, from, isError) => ReplyKeeps(s, txid, from, isError, now);
    case TimerFires(h) => FireKeeps(s, h, now);
  }

  // ------------------------------------------------------------------------- runs

  /** A run: the states it goes through, each reached by an enabled event. */
  ghost predicate IsRun(states: seq<Server>, events: seq<(Event, nat)>) {
    && |states| == |events| + 1
    && states[0].pending == map[] && states[0].store == []
    && forall i :: 0 <= i < |events| ==>
         Enabled(states[i], events[i].0, events[i].1) && states[i + 1] == Step(states[i], events[i].0, events[i].1)
  }

  lemma {:induction false} RunKeeps(states: seq<Server>, events: seq<(Event, nat)>, n: nat)
    requires IsRun(states, events) && n <= |events|
    ensures Inv(states[n])
  {
    if n > 0 {
      RunKeeps(states, events, n - 1);
      StepKeeps(states[n - 1], events[n - 1].0, events[n - 1].1);
    }
  }

  lemma {:induction false} RunFrozen(states: seq<Server>, events: seq<(Event, nat)>, m: nat, n: nat)
    requires IsRun(states, events) && m <= n <= |events|
    ensures Frozen(states[m], states[n])
    decreases n - m
  {
    if m < n {
      RunFrozen(states, events, m, n - 1);
      RunKeeps(states, events, n - 1);
      StepKeeps(states[n - 1], events[n - 1].0, events[n - 1].1);
    }
  }

  /**
   At every point of every run: a call is in the pending table exactly while it is SENT
   or STALLED; it ends at most once and then never changes; TIMEOUT comes no earlier
   than ten seconds after sending; and after two timer firings no call is pending.
   */
  lemma EveryCallEndsOnce(states: seq<Server>, events: seq<(Event, nat)>, m: nat, n: nat, h: nat)
    requires IsRun(states, events) && m <= n <= |events| && h < |states[m].store|
    ensures h < |states[n].store|
    ensures var c, d := states[m].store[h], states[n].store[h];
      && (Pending(c.state) <==> c.txid in states[m].pending && states[m].pending[c.txid] == h)
      && c.ends <= 1 && (Ended(c.state) <==> c.ends == 1)
      && (Ended(c.state) ==> d == c)
      && (c.state == TIMEOUT ==> c.endTime >= c.sentTime + 10_000)
      && (c.firings >= 2 ==> Ended(c.state))
  {
    RunKeeps(states, events, m);
    RunFrozen(states, events, m, n);
    assert CallOk(states[m].store[h], states[m].clock);
  }

  // ------------------------------------------------------------ what an event does

  /** The reply answers the call: it names the call's transaction and comes from where the call was sent. */
  predicate Answers(e: Event, c: Call) {
    e.Reply? && e.txid == c.txid && e.from == c.dest
  }

  /** The reply names the call's transaction but comes from elsewhere. */
  predicate Strays(e: Event, c: Call) {
    e.Reply? && e.txid == c.txid && e.from != c.dest
  }

  /** What becomes of call h: c before and d after the event. */
  ghost predicate Becomes(c: Call, d: Call, e: Event, h: nat, now: nat) {
    if !Pending(c.state) then d == c
    else if Answers(e, c) then
      d == c.(state := if e.isError then ERR else RESPONDED, timer := None, endTime := now, ends := c.ends + 1)
    else if Strays(e, c) then d == c.(state := STALLED)
    else if e == TimerFires(h) then
      if now >= c.sentTime + 10_000
      then d == c.(state := TIMEOUT, timer := None, firings := c.firings + 1, endTime := now, ends := c.ends + 1)
      else d == c.(state := STALLED, timer := Some(c.sentTime + 10_000), firings := c.firings + 1)
    else d == c
  }

  /** What every event does to every call. */
  lemma EventEffect(s: Server, e: Event, now: nat, h: nat)
    requires Inv(s) && Enabled(s, e, now) && h < |s.store|
    ensures h < |Step(s, e, now).store| && Becomes(s.store[h], Step(s, e, now).store[h], e, h, now)
  {
    assert CallOk(s.store[h], s.clock);
    match e
    case Send(dest) =>
    case Reply(txid, from, isError) =>
      if Pending(s.store[h].state) {
        assert s.pending[s.store[h].txid] == h;
      }
    case TimerFires(k) =>
      assert CallOk(s.store[k], s.clock);
  }

  /** A send adds one call, due for a check after two seconds, under a transaction id that is not zero and not in use. */
  lemma SendEffect(s: Server, dest: nat, now: nat)
    ensures var t, x := SendCall(s, dest, now), if s.nextTxid == 0 then 1 else s.nextTxid;
      && x != 0 && t.nextTxid == (if x == 0x7FFF_FFFF then -0x8000_0000 else x + 1)
      && if x in s.pending then t.store == s.store && t.pending == s.pending
         else t.store == s.store + [Call(x, dest, SENT, now, 0, Some(now + 2_000), 0, 0)]
              && t.pending == s.pending[x := |s.store|]
  {
  }

  /**
   At every step of every run a call ends with RESPONDED or ERR exactly if the event is a
   reply with its transaction id from the address it was sent to, with ERR exactly if the
   reply is an error; a reply from elsewhere ends no call; and it ends with TIMEOUT exactly
   if its timer fires ten seconds or more after it was sent.
   */
  lemma WhatEndsACall(states: seq<Server>, events: seq<(Event, nat)>, i: nat, h: nat)
    requires IsRun(states, events) && i < |events| && h < |states[i].store|
    ensures h < |states[i + 1].store|
    ensures var c, d, e, now := states[i].store[h], states[i + 1].store[h], events[i].0, events[i].1;
      && (Pending(c.state) && (d.state == RESPONDED || d.state == ERR) <==> Pending(c.state) && Answers(e, c))
      && (Pending(c.state) && Answers(e, c) ==> (d.state == ERR <==> e.isError))
      && (Pending(c.state) && Strays(e, c) ==> d.state == STALLED)
      && (Pending(c.state) && d.state == TIMEOUT <==>
            Pending(c.state) && e == TimerFires(h) && now >= c.sentTime + 10_000)
  {
    RunKeeps(states, events, i);
    EventEffect(states[i], events[i].0, events[i].1, h);
  }

  // -------------------------------------------------------------------- the server

  class RPCServer {
    var calls: map<int, nat>
    var store: seq<Call>
    var nextTxid: int

    constructor (firstTxid: int)
      ensures calls == map[] && store == [] && nextTxid == firstTxid
    {
      calls, store, nextTxid := map[], [], firstTxid;
    }

    ghost function View(clock: nat): Server
      reads this
    {
      Server(calls, store, nextTxid, clock)
    }

    /** Sends a request; fails if the transaction id is still in use. */
    method SendRequest(dest: nat, now: nat) returns (ok: bool)
      modifies this
      ensures forall clock :: View(now) == SendCall(old(View(clock)), dest, now)
      ensures ok <==> |store| == |old(store)| + 1
    {
      var txid := nextTxid;
      nextTxid := Next(nextTxid);
      if txid == 0 {
        txid := nextTxid;
        nextTxid := Next(nextTxid);
      }
      if txid in calls {
        return false;
      }
      calls := calls[txid := |store|];
      store := store + [Call(txid, dest, SENT, now, 0, Some(now + FIRST_CHECK), 0, 0)];
      return true;
    }

    /** updateState: enters a state; `ends` and `endTime` note that a call has ended. */
    method UpdateState(h: nat, current: CallState, now: nat)
      requires h < |store|
      modifies this`store
      ensures store == old(store)[h := old(store)[h].Enter(current, now)]
    {
      store := store[h := store[h].(state := current)];
      if current == TIMEOUT || current == ERR || current == RESPONDED {
        store := store[h := store[h].(endTime := now, ends := store[h].ends + 1)];
      }
    }

    /** A matching reply: disarms the timer and ends the call. */
    method Responsed(h: nat, isError: bool, now: nat)
      requires h < |store|
      modifies this`store
      ensures store == old(store)[h := old(store)[h].Responsed(isError, now)]
    {
      if store[h].timer.Some? {
        store := store[h := store[h].(timer := None)];
      }
      if isError {
        UpdateState(h, ERR, now);
      } else {
        UpdateState(h, RESPONDED, now);
      }
    }

    method HandlePacket(txid: int, from: nat, isError: bool, now: nat)
      modifies this
      ensures forall clock :: View(now) == HandleReply(old(View(clock)), txid, from, isError, now)
    {
      if txid in calls && calls[txid] < |store| {
        var h := calls[txid];
        if store[h].dest == from {
          calls := calls - {txid};
          Responsed(h, isError, now);
          return;
        }
        if store[h].state == SENT {
          UpdateState(h, STALLED, now);
        }
      }
    }

    /** checkTimeout: stalls a pending call and arms the timer again, or ends it. */
    method CheckTimeout(h: nat, now: nat)
      requires h < |store|
      modifies this`store
      ensures store == old(store)[h := old(store)[h].CheckTimeout(now)]
    {
      store := store[h := store[h].(timer := None, firings := store[h].firings + 1)];
      if store[h].state != SENT && store[h].state != STALLED {
        return;
      }
      var elapsed := now - store[h].sentTime;
      var remaining := RPC_CALL_TIMEOUT_MAX - elapsed;
      if remaining > 0 {
        UpdateState(h, STALLED, now);
        store := store[h := store[h].(timer := Some(now + remaining))];
      } else {
        UpdateState(h, TIMEOUT, now);
      }
    }

    /** The armed timer fires; the timeout handler takes an ended call out of the table. */
    method TimerCallback(h: nat, now: nat)
      requires h < |store|
      modifies this
      ensures forall clock :: View(now) == FireTimer(old(View(clock)), h, now)
    {
      var wasPending := store[h].state == SENT || store[h].state == STALLED;
      CheckTimeout(h, now);
      if wasPending && store[h].state == TIMEOUT {
        calls := calls - {store[h].txid};
      }
    }
  }
}
