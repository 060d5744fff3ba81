/**
 How received messages feed the routing table, and the address book that goes with it.

 `knownNodes` remembers which id an address last used.  A message may add its sender to
 the table, refresh it, or, when an address shows up under a new id, throw the old
 entry out.
 */
module Dht {
  import opened Wrappers
  import opened Ids
  import opened KBuckets
  import Tables
  import Merging
  import RT = RoutingTables

  /** The call a response answers: does it come from the address and id that were asked? */
  datatype Call = Call(matchesAddress: bool, matchesId: bool, sentTime: Time)

  datatype Message = Message(origin: SocketAddress, bogon: bool, id: Id, call: Option<Call>)

  /** The node's routing state. */
  datatype State = State(table: Tables.Table, known: map<SocketAddress, Id>)

  function Newcomer(msg: Message, now: Time): Entry {
    var e := Entry(msg.id, msg.origin, now, now, 0, false, 0);
    if msg.call.Some? then e.SignalResponse(now).MergeRequestTime(msg.call.value.sentTime) else e
  }

  ghost predicate Ignored(s: State, msg: Message)
    requires Tables.Inv(s.table)
  {
    || msg.bogon
    || (msg.call.Some? && !(msg.call.value.matchesAddress && msg.call.value.matchesId))
    || (var e := Tables.GetEntry(s.table, msg.id); e.Some? && e.value.addr != msg.origin)
  }

  /** The address is on file under another id. */
  predicate Renamed(known: map<SocketAddress, Id>, msg: Message) {
    msg.origin in known && known[msg.origin] != msg.id
  }

  ghost function Received(s: State, msg: Message, now: Time): State
    requires Tables.Inv(s.table)
  {
    if Ignored(s, msg) then s
    else if Renamed(s.known, msg) && Tables.GetEntry(s.table, s.known[msg.origin]).Some? then
      State(Tables.RemoveNode(s.table, s.known[msg.origin]), s.known[msg.origin := msg.id])
    else
      State(Tables.PutEntry(s.table, Newcomer(msg, now), now), s.known[msg.origin := msg.id])
  }

  // ------------------------------------------------------------------ invariant

  /** Every stored entry's address is on file under the entry's own id. */
  ghost predicate OnFile(s: State) {
    forall e :: Tables.Stored(s.table, e) ==> e.addr in s.known && s.known[e.addr] == e.id
  }

  ghost predicate Ok(s: State) {
    Tables.Inv(s.table) && OnFile(s)
  }

  lemma ReceivedKeeps(s: State, msg: Message, now: Time)
    requires Ok(s)
    ensures Ok(Received(s, msg, now))
  {
    if !Ignored(s, msg) {
      if Renamed(s.known, msg) && Tables.GetEntry(s.table, s.known[msg.origin]).Some? {
        EvictKeeps(s, msg);
      } else {
        AddressFree(s, msg);
        Tables.PutKeeps(s.table, Newcomer(msg, now), now);
      }
    }
  }

  /** A message that answers no call of ours never brings a new node into the table. */
  lemma OnlyAnswersAdd(s: State, msg: Message, now: Time)
    requires Ok(s) && msg.call.None?
    ensures Tables.SameNodes(Received(s, msg, now).table, s.table)
  {
    if !Ignored(s, msg) {
      if Renamed(s.known, msg) && Tables.GetEntry(s.table, s.known[msg.origin]).Some? {
        Tables.RemoveKeeps(s.table, s.known[msg.origin]);
      } else {
        UnreachableAddsNothing(s.table, Newcomer(msg, now), now);
      }
    }
  }

  lemma UnreachableAddsNothing(t: Tables.Table, e: Entry, now: Time)
    requires Tables.Inv(t) && !e.reachable
    ensures Tables.SameNodes(Tables.PutEntry(t, e, now), t)
  {
    var i := Tables.IndexOf(t, e.id);
    var r := Tables.PutEntry(t, e, now);
    assert r == Tables.SetEntries(t, i, Put(t[i].entries, e, now));
    PutUnreachable(t[i].entries, e, now);
    forall x | Tables.Stored(r, x) ensures exists y :: Tables.Stored(t, y) && x.Equals(y) {
      var j :| 0 <= j < |r| && x in r[j].entries;
      if j != i {
        assert Tables.Stored(t, x) && x.Equals(x);
      }
    }
  }

  /** What is not known to be reachable can only be merged into an entry of the same node. */
  lemma PutUnreachable(es: seq<Entry>, e: Entry, now: Time)
    requires !e.reachable
    ensures forall x :: x in Put(es, e, now) ==> exists y :: y in es && x.Equals(y)
  {
    forall x | x in Put(es, e, now) ensures exists y :: y in es && x.Equals(y) {
      var k :| 0 <= k < |es| && Put(es, e, now)[k] == x;
      assert es[k] in es && x.Equals(es[k]);
    }
  }

  /** An answer from a node we do not have stores it, unless its bucket is full of good nodes. */
  lemma AnswerStores(s: State, msg: Message, now: Time)
    requires Ok(s) && !Ignored(s, msg) && msg.call.Some?
    requires Renamed(s.known, msg) ==> Tables.GetEntry(s.table, s.known[msg.origin]).None?
    requires Tables.GetEntry(s.table, msg.id).None?
    ensures Tables.StoredOrRefused(Received(s, msg, now).table, s.table, Newcomer(msg, now), now)
  {
    AddressFree(s, msg);
    Tables.GetEntryIsScan(s.table, msg.id);
    Tables.PutStores(s.table, Newcomer(msg, now), now);
  }

  /** The message must not touch the table: bogus, an answer we did not ask this node for, or a stolen id. */
  ghost predicate Suspicious(s: State, msg: Message) {
    || msg.bogon
    || (msg.call.Some? && !msg.call.value.matchesAddress)
    || (msg.call.Some? && !msg.call.value.matchesId)
    || exists e :: Tables.Stored(s.table, e) && e.id == msg.id && e.addr != msg.origin
  }

  /** The address was last used by another node, which is still in the table. */
  ghost predicate TakenOver(s: State, msg: Message) {
    msg.origin in s.known && s.known[msg.origin] != msg.id
    && exists e :: Tables.Stored(s.table, e) && e.id == s.known[msg.origin]
  }

  /**
   Every message, entry by entry: a suspicious one changes nothing; one from an address
   that another node of the table used last throws that node out and brings nobody in;
   any other one puts its sender, reachable exactly if it answers a call of ours.
   */
  lemma ReceivedEffect(s: State, msg: Message, now: Time)
    requires Ok(s)
    ensures var r := Received(s, msg, now);
      if Suspicious(s, msg) then r == s
      else
        && r.known == s.known[msg.origin := msg.id]
        && if TakenOver(s, msg)
           then forall x :: Tables.Stored(r.table, x) <==> Tables.Stored(s.table, x) && x.id != s.known[msg.origin]
           else r.table == Tables.PutEntry(s.table, Sender(msg, now), now)
  {
    IgnoredIff(s, msg);
    TakenOverIff(s, msg);
    SenderIs(msg, now);
    if TakenOver(s, msg) {
      Tables.RemoveKeeps(s.table, s.known[msg.origin]);
    }
  }

  lemma IgnoredIff(s: State, msg: Message)
    requires Ok(s)
    ensures Ignored(s, msg) <==> Suspicious(s, msg)
  {
    Tables.GetEntryIsScan(s.table, msg.id);
  }

  lemma TakenOverIff(s: State, msg: Message)
    requires Ok(s)
    ensures Renamed(s.known, msg) && Tables.GetEntry(s.table, s.known[msg.origin]).Some? <==> TakenOver(s, msg)
  {
    if Renamed(s.known, msg) {
      Tables.GetEntryIsScan(s.table, s.known[msg.origin]);
    }
  }

  lemma SenderIs(msg: Message, now: Time)
    ensures Newcomer(msg, now) == Sender(msg, now)
  {
  }

  /** What is known of the sender: seen now, never failed, reachable and asked before if it answers. */
  function Sender(msg: Message, now: Time): Entry {
    match msg.call
    case None => Entry(msg.id, msg.origin, now, now, 0, false, 0)
    case Some(call) => Entry(msg.id, msg.origin, now, now, call.sentTime, true, 0)
  }

  /** Unless the sender's old entry is thrown out, its address occurs under no other id. */
  lemma AddressFree(s: State, msg: Message)
    requires Ok(s)
    requires Renamed(s.known, msg) ==> Tables.GetEntry(s.table, s.known[msg.origin]).None?
    ensures forall e :: Tables.Stored(s.table, e) && e.addr == msg.origin ==> e.id == msg.id
  {
    if Renamed(s.known, msg) {
      Tables.GetEntryIsScan(s.table, s.known[msg.origin]);
    }
  }

  lemma EvictKeeps(s: State, msg: Message)
    requires Ok(s) && Renamed(s.known, msg)
    ensures Ok(State(Tables.RemoveNode(s.table, s.known[msg.origin]), s.known[msg.origin := msg.id]))
  {
    Tables.RemoveKeeps(s.table, s.known[msg.origin]);
  }

  /** Steps whose entries are all of nodes that were stored before keep the address book right. */
  lemma SameNodesKeep(s: State, t: Tables.Table)
    requires Ok(s) && Tables.Inv(t) && Tables.SameNodes(t, s.table)
    ensures Ok(State(t, s.known))
  {
    forall e | Tables.Stored(t, e) ensures e.addr in s.known && s.known[e.addr] == e.id {
      var y :| Tables.Stored(s.table, y) && e.Equals(y);
    }
  }

  datatype Event =
    | Receive(msg: Message)
    | Timeout(id: Id)
    | Remove(id: Id)
    | Send(id: Id)
    | Maintenance(localId: Id, bootstrapIds: seq<Id>)

  datatype TimedEvent = At(event: Event, now: Time)

  ghost function Step(s: State, e: TimedEvent): State
    requires Ok(s)
  {
    match e.event
    case Receive(msg) => Received(s, msg, e.now)
    case Timeout(id) => s.(table := Tables.TimeoutNode(s.table, id, e.now))
    case Remove(id) => s.(table := Tables.RemoveNode(s.table, id))
    case Send(id) => s.(table := Tables.SendNode(s.table, id, e.now))
    case Maintenance(localId, bootstrapIds) =>
      s.(table := Merging.Maintain(s.table, localId, bootstrapIds, e.now))
  }

  lemma StepKeeps(s: State, e: TimedEvent)
    requires Ok(s)
    ensures Ok(Step(s, e))
  {
    match e.event
    case Receive(msg) => ReceivedKeeps(s, msg, e.now);
    case Timeout(id) =>
      Tables.TimeoutKeeps(s.table, id, e.now);
      SameNodesKeep(s, Tables.TimeoutNode(s.table, id, e.now));
    case Remove(id) => Tables.RemoveKeeps(s.table, id);
    case Send(id) =>
      Tables.SendKeeps(s.table, id, e.now);
      SameNodesKeep(s, Tables.SendNode(s.table, id, e.now));
    case Maintenance(localId, bootstrapIds) =>
      Merging.MaintainKeeps(s.table, localId, bootstrapIds, e.now);
  }

  /** The state after a run from an empty table and an empty address book. */
  ghost function Run(start: Tables.Table, events: seq<TimedEvent>): (s: State)
    requires Merging.Initial(start)
    ensures Ok(s)
  {
    if events == [] then
      StartOk(start);
      State(start, map[])
    else
      var s := Run(start, events[..|events| - 1]);
      StepKeeps(s, events[|events| - 1]);
      Step(s, events[|events| - 1])
  }

  lemma StartOk(start: Tables.Table)
    requires Merging.Initial(start)
    ensures Ok(State(start, map[]))
  {
    Merging.InitialOk(start);
  }

  /**
   In every run that feeds the table through received messages only, no address occurs
   twice anywhere in the table: across id changes, removals, splits and merges.
   */
  lemma NoAddressTwice(start: Tables.Table, events: seq<TimedEvent>)
    requires Merging.Initial(start)
    ensures var t := Run(start, events).table;
      forall e, f :: Tables.Stored(t, e) && Tables.Stored(t, f) && (e.addr == f.addr || e.id == f.id) ==> e == f
  {
    var s := Run(start, events);
    forall e, f | Tables.Stored(s.table, e) && Tables.Stored(s.table, f) && (e.addr == f.addr || e.id == f.id)
      ensures e == f
    {
      Tables.GetEntryIsScan(s.table, e.id);
    }
  }

  /** The ping that verifies an unknown sender finds no entry to mark as contacted. */
  lemma SendToUnknown(t: Tables.Table, id: Id, now: Time)
    requires Tables.Inv(t) && Tables.GetEntry(t, id).None?
    ensures Tables.SendNode(t, id, now) == t
  {
  }

  class DHT {
    const routingTable: RT.RoutingTable
    var knownNodes: map<SocketAddress, Id>

    ghost function View(): State
      reads this, routingTable, routingTable.buckets
    {
      State(routingTable.View(), knownNodes)
    }

    constructor ()
      ensures fresh(routingTable) && routingTable.Valid() && Merging.Initial(routingTable.View()) && knownNodes == map[]
    {
      routingTable := new RT.RoutingTable();
      knownNodes := map[];
    }

    /** Messages that must not touch the table. */
    method IsIgnored(msg: Message) returns (r: bool)
      requires routingTable.Valid()
      ensures r <==> Ignored(View(), msg)
    {
      if msg.bogon {
        return true;
      }
      if msg.call.Some? && (!msg.call.value.matchesAddress || !msg.call.value.matchesId) {
        return true;
      }
      var known := routingTable.GetEntry(msg.id);
      r := known.Some? && known.value.addr != msg.origin;
    }

    /** Puts the address on file under the message's id. */
    method Note(msg: Message)
      modifies this`knownNodes
      ensures knownNodes == old(knownNodes)[msg.origin := msg.id]
    {
      if Renamed(knownNodes, msg) {
        knownNodes := knownNodes - {msg.origin};
      }
      knownNodes := knownNodes[msg.origin := msg.id];
    }

    /** Throws out the entry that an address had under its former id. */
    method Evict(msg: Message)
      requires routingTable.Valid() && Renamed(knownNodes, msg)
      modifies this`knownNodes, routingTable.buckets
      ensures View() == State(Tables.RemoveNode(old(routingTable.View()), old(knownNodes[msg.origin])),
                              old(knownNodes)[msg.origin := msg.id])
      ensures routingTable.Valid()
    {
      routingTable.Remove(knownNodes[msg.origin]);
      knownNodes := knownNodes[msg.origin := msg.id];
    }

    method Receive(msg: Message, now: Time)
      requires routingTable.Valid()
      modifies this`knownNodes, routingTable`buckets, routingTable.buckets
      ensures View() == Received(old(View()), msg, now)
      ensures routingTable.Valid()
    {
      var ignored := IsIgnored(msg);
      if ignored {
        return;
      }
      if Renamed(knownNodes, msg) {
        var knownEntry := routingTable.GetEntry(knownNodes[msg.origin]);
        if knownEntry.Some? {
          Evict(msg);
          return;
        }
      }
      Accept(msg, now);
    }

    /** Puts the sender on file and into the table. */
    method Accept(msg: Message, now: Time)
      requires routingTable.Valid()
      modifies this`knownNodes, routingTable`buckets, routingTable.buckets
      ensures View() == State(Tables.PutEntry(old(routingTable.View()), Newcomer(msg, now), now),
                              old(knownNodes)[msg.origin := msg.id])
      ensures routingTable.Valid()
    {
      Note(msg);
      routingTable.Put(Newcomer(msg, now), now);
    }
  }
}
