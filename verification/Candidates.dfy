/**
 The candidate list of an iterative lookup: nodes heard of, sorted by XOR distance to
 the target, each admitted once, trimmed to the most promising ones.
 */
module Candidates {
  import Numerals
  import opened Wrappers
  import opened Bits
  import opened Ids
  import opened Sorting
  import opened KBuckets

  /** A node as reported by others. */
  datatype NodeInfo = NodeInfo(id: Id, addr: SocketAddress)

  type Ip = seq<Byte>

  /** lastSent is the time of the unanswered request, zero if there is none. */
  datatype Candidate = Candidate(id: Id, addr: SocketAddress, lastSent: nat, pinged: nat) {
    predicate IsInFlight() {
      lastSent != 0
    }

    predicate IsUnreachable() {
      pinged >= 3
    }

    predicate IsEligible() {
      lastSent == 0 && pinged < 3
    }

    function SetSent(now: nat): Candidate {
      this.(lastSent := now, pinged := pinged + 1)
    }

    function ClearSent(): Candidate {
      this.(lastSent := 0)
    }
  }

  // ------------------------------------------------------------------- ordering

  ghost predicate IsDistance(key: Candidate -> int, target: Id) {
    forall c: Candidate :: key(c) == Dist(target, c.id)
  }

  /** Fewer requests first, then smaller distance. */
  ghost function Order(target: Id, c: Candidate): int {
    c.pinged * Pow2(ID_BITS) + Dist(target, c.id)
  }

  ghost predicate IsOrder(key: Candidate -> int, target: Id) {
    forall c: Candidate :: key(c) == Order(target, c)
  }

  lemma OrderIsLexicographic(target: Id, a: Candidate, b: Candidate)
    ensures a.pinged < b.pinged ==> Order(target, a) < Order(target, b)
    ensures a.pinged == b.pinged ==> Order(target, a) - Order(target, b) == Dist(target, a.id) - Dist(target, b.id)
  {
    NumBound(XorBytes(target, a.id));
    NumBound(XorBytes(target, b.id));
    Numerals.Spread(a.pinged, b.pinged, Pow2(ID_BITS));
  }

  ghost predicate SortedByDistance(cs: seq<Candidate>, target: Id) {
    forall i, j :: 0 <= i < j < |cs| ==> Dist(target, cs[i].id) < Dist(target, cs[j].id)
  }

  ghost predicate DistinctIds(cs: seq<Candidate>) {
    forall i, j :: 0 <= i < j < |cs| ==> cs[i].id != cs[j].id
  }

  lemma SortedDistinct(cs: seq<Candidate>, target: Id)
    requires SortedByDistance(cs, target)
    ensures DistinctIds(cs)
  {
  }

  /** Sorting candidates with different ids by distance gives a strictly sorted list. */
  lemma SortStrict(cs: seq<Candidate>, target: Id, key: Candidate -> int)
    requires IsDistance(key, target) && DistinctIds(cs)
    ensures SortedByDistance(Sort(cs, key), target)
  {
    var r := Sort(cs, key);
    var same := (x: Candidate, y: Candidate) => x.id == y.id;
    assert Symmetric(same);
    assert Free(cs, same);
    SortFree(cs, key, same);
    SortOrders(cs, key);
    forall i, j | 0 <= i < j < |r| ensures Dist(target, r[i].id) < Dist(target, r[j].id) {
      assert !same(r[i], r[j]);
      assert key(r[i]) <= key(r[j]);
      DistInjective(target, r[i].id, r[j].id);
    }
  }

  // ------------------------------------------------------------------ admission

  /** What is left of a batch after duplicates are dropped, and the two sets of seen keys. */
  datatype Admission = Admission(newcomers: seq<Candidate>, ids: set<Id>, ips: set<Ip>)

  function Admit(nodes: seq<NodeInfo>, ids: set<Id>, ips: set<Ip>): Admission {
    if nodes == [] then Admission([], ids, ips)
    else
      var a := Admit(nodes[..|nodes| - 1], ids, ips);
      var n := nodes[|nodes| - 1];
      if n.id in a.ids then a
      else if n.addr.ip in a.ips then a.(ids := a.ids + {n.id})
      else Admission(a.newcomers + [Candidate(n.id, n.addr, 0, 0)], a.ids + {n.id}, a.ips + {n.addr.ip})
  }

  lemma {:induction false} AdmitFacts(nodes: seq<NodeInfo>, ids: set<Id>, ips: set<Ip>)
    ensures var a := Admit(nodes, ids, ips);
      && ids <= a.ids
      && DistinctIds(a.newcomers)
      && (forall c :: c in a.newcomers ==> c.id in a.ids && c.id !in ids && c.lastSent == 0 && c.pinged == 0)
      && (forall c :: c in a.newcomers ==> exists n :: n in nodes && n.id == c.id && n.addr == c.addr)
  {
    if nodes != [] {
      var k := |nodes| - 1;
      AdmitFacts(nodes[..k], ids, ips);
      assert nodes[k] in nodes;
    }
  }

  /** The seen ids are exactly the old ones and those of the batch. */
  lemma {:induction false} AdmitIds(nodes: seq<NodeInfo>, ids: set<Id>, ips: set<Ip>)
    ensures Admit(nodes, ids, ips).ids == ids + set n | n in nodes :: n.id
  {
    if nodes != [] {
      var k := |nodes| - 1;
      AdmitIds(nodes[..k], ids, ips);
      assert nodes == nodes[..k] + [nodes[k]];
    }
  }

  /**
   Nobody is turned away without reason: newcomers have new and different addresses, and
   the first node of the batch under a new id is admitted unless its address was taken.
   */
  lemma {:induction false} AdmitIps(nodes: seq<NodeInfo>, ids: set<Id>, ips: set<Ip>)
    ensures var a := Admit(nodes, ids, ips);
      && a.ips == ips + (set c | c in a.newcomers :: c.addr.ip)
      && (forall c :: c in a.newcomers ==> c.addr.ip !in ips)
      && (forall i, j :: 0 <= i < j < |a.newcomers| ==> a.newcomers[i].addr.ip != a.newcomers[j].addr.ip)
    ensures forall i :: 0 <= i < |nodes| && FirstUnderId(nodes, ids, i) ==>
              nodes[i].addr.ip in Admit(nodes, ids, ips).ips
  {
    if nodes != [] {
      var k := |nodes| - 1;
      var a, r, n := Admit(nodes[..k], ids, ips), Admit(nodes, ids, ips), nodes[k];
      AdmitIps(nodes[..k], ids, ips);
      AdmitIds(nodes[..k], ids, ips);
      assert forall c :: c in a.newcomers ==> c.addr.ip in a.ips;
      forall i | 0 <= i < |nodes| && FirstUnderId(nodes, ids, i) ensures nodes[i].addr.ip in r.ips {
        if i < k {
          assert FirstUnderId(nodes[..k], ids, i);
        }
      }
    }
  }

  /** The id of node i is new, and no node before it in the batch has it. */
  ghost predicate FirstUnderId(nodes: seq<NodeInfo>, ids: set<Id>, i: nat)
    requires i < |nodes|
  {
    nodes[i].id !in ids && forall j :: 0 <= j < i ==> nodes[j].id != nodes[i].id
  }

  // ----------------------------------------------------------------------- trim

  function Idle(cs: seq<Candidate>): (r: seq<Candidate>)
    ensures |r| <= |cs|
  {
    if cs == [] then []
    else
      var rest := Idle(cs[..|cs| - 1]);
      if cs[|cs| - 1].IsInFlight() then rest else rest + [cs[|cs| - 1]]
  }

  /** The list without the candidates whose id is among `gone`. */
  function Drop(cs: seq<Candidate>, gone: set<Id>): seq<Candidate> {
    if cs == [] then []
    else
      var rest := Drop(cs[..|cs| - 1], gone);
      if cs[|cs| - 1].id in gone then rest else rest + [cs[|cs| - 1]]
  }

  lemma {:induction false} IdleMembers(cs: seq<Candidate>)
    ensures forall c :: c in Idle(cs) <==> c in cs && !c.IsInFlight()
    ensures DistinctIds(cs) ==> DistinctIds(Idle(cs))
  {
    if cs != [] {
      var n := |cs| - 1;
      IdleMembers(cs[..n]);
      assert cs == cs[..n] + [cs[n]];
      var rest := Idle(cs[..n]);
      if DistinctIds(cs) {
        forall i | 0 <= i < |rest| ensures rest[i].id != cs[n].id {
          assert rest[i] in rest && rest[i] in cs[..n];
        }
      }
    }
  }

  lemma {:induction false} DropMembers(cs: seq<Candidate>, gone: set<Id>)
    ensures forall c :: c in Drop(cs, gone) <==> c in cs && c.id !in gone
    ensures |Drop(cs, gone)| <= |cs|
  {
    if cs != [] {
      var n := |cs| - 1;
      DropMembers(cs[..n], gone);
      assert cs == cs[..n] + [cs[n]];
    }
  }

  lemma {:induction false} DropFacts(cs: seq<Candidate>, gone: set<Id>, target: Id)
    requires SortedByDistance(cs, target)
    ensures forall c :: c in Drop(cs, gone) <==> c in cs && c.id !in gone
    ensures SortedByDistance(Drop(cs, gone), target)
    ensures |Drop(cs, gone)| <= |cs|
  {
    DropMembers(cs, gone);
    if cs != [] {
      var n := |cs| - 1;
      DropFacts(cs[..n], gone, target);
      var rest := Drop(cs[..n], gone);
      forall i | 0 <= i < |rest| ensures Dist(target, rest[i].id) < Dist(target, cs[n].id) {
        assert rest[i] in rest && rest[i] in cs[..n];
      }
    }
  }

  function IdsOf(cs: seq<Candidate>): set<Id> {
    set c | c in cs :: c.id
  }

  /** The idle candidates beyond the best `capacity`. */
  ghost function Surplus(cs: seq<Candidate>, capacity: nat, key: Candidate -> int): seq<Candidate> {
    var idle := Idle(cs);
    if |cs| > capacity && |idle| > capacity then Sort(idle, key)[capacity..] else []
  }

  ghost function Trim(cs: seq<Candidate>, capacity: nat, key: Candidate -> int): seq<Candidate> {
    Drop(cs, IdsOf(Surplus(cs, capacity, key)))
  }

  ghost function InFlightCount(cs: seq<Candidate>): nat {
    |cs| - |Idle(cs)|
  }

  lemma SurplusFacts(cs: seq<Candidate>, capacity: nat, key: Candidate -> int)
    requires DistinctIds(cs)
    ensures forall c :: c in Surplus(cs, capacity, key) ==> c in cs && !c.IsInFlight()
    ensures forall c :: c in cs && c.id in IdsOf(Surplus(cs, capacity, key)) ==> c in Surplus(cs, capacity, key)
  {
    var idle, s := Idle(cs), Surplus(cs, capacity, key);
    IdleMembers(cs);
    SortMembers(idle, key);
    forall c | c in s ensures c in cs && !c.IsInFlight() {
      assert c in Sort(idle, key);
    }
    forall c | c in cs && c.id in IdsOf(s) ensures c in s {
      var d :| d in s && d.id == c.id;
      assert d in cs;
      assert c == d;
    }
  }

  /** Trimming never drops a candidate with a request under way. */
  lemma TrimKeepsInFlight(cs: seq<Candidate>, target: Id, capacity: nat, key: Candidate -> int)
    requires SortedByDistance(cs, target)
    ensures SortedByDistance(Trim(cs, capacity, key), target)
    ensures forall c :: c in cs && c.IsInFlight() ==> c in Trim(cs, capacity, key)
    ensures forall c :: c in Trim(cs, capacity, key) ==> c in cs
  {
    SortedDistinct(cs, target);
    SurplusFacts(cs, capacity, key);
    DropFacts(cs, IdsOf(Surplus(cs, capacity, key)), target);
  }

  /** Of the idle candidates the best `capacity` by (requests, distance) are kept. */
  lemma TrimKeepsBest(cs: seq<Candidate>, target: Id, capacity: nat, key: Candidate -> int)
    requires SortedByDistance(cs, target) && IsOrder(key, target)
    ensures forall x, y :: x in Trim(cs, capacity, key) && !x.IsInFlight() && y in cs && y !in Trim(cs, capacity, key) ==>
              Order(target, x) <= Order(target, y)
  {
    SortedDistinct(cs, target);
    SurplusFacts(cs, capacity, key);
    DropFacts(cs, IdsOf(Surplus(cs, capacity, key)), target);
    forall x, y | x in Trim(cs, capacity, key) && !x.IsInFlight() && y in cs && y !in Trim(cs, capacity, key)
      ensures Order(target, x) <= Order(target, y)
    {
      SurplusIsWorse(cs, capacity, key, x, y);
    }
  }

  lemma SurplusIsWorse(cs: seq<Candidate>, capacity: nat, key: Candidate -> int, x: Candidate, y: Candidate)
    requires x in cs && !x.IsInFlight() && x !in Surplus(cs, capacity, key) && y in Surplus(cs, capacity, key)
    ensures key(x) <= key(y)
  {
    var r := Sort(Idle(cs), key);
    IdleMembers(cs);
    SortMembers(Idle(cs), key);
    SortOrders(Idle(cs), key);
    assert x in r && r == r[..capacity] + r[capacity..];
    OrderedCut(r, key, capacity, x, y);
  }

  /** Trimming leaves those in flight and exactly as many idle ones as there is capacity for. */
  lemma TrimSize(cs: seq<Candidate>, target: Id, capacity: nat, key: Candidate -> int)
    requires SortedByDistance(cs, target)
    ensures |Trim(cs, capacity, key)| ==
            InFlightCount(cs) + if |Idle(cs)| > capacity then capacity else |Idle(cs)|
  {
    SortedDistinct(cs, target);
    SurplusFacts(cs, capacity, key);
    SurplusSize(cs, capacity, key);
    DropSize(cs, Surplus(cs, capacity, key));
  }

  lemma SurplusSize(cs: seq<Candidate>, capacity: nat, key: Candidate -> int)
    requires DistinctIds(cs)
    ensures DistinctIds(Surplus(cs, capacity, key))
    ensures |Surplus(cs, capacity, key)| == if |Idle(cs)| > capacity then |Idle(cs)| - capacity else 0
  {
    var idle := Idle(cs);
    IdleMembers(cs);
    SortDistinct(idle, key);
    SortContents(idle, key);
    if |idle| > capacity {
      SuffixDistinct(Sort(idle, key), capacity);
    }
  }

  lemma SortDistinct(cs: seq<Candidate>, key: Candidate -> int)
    requires DistinctIds(cs)
    ensures DistinctIds(Sort(cs, key))
  {
    var same := (x: Candidate, y: Candidate) => x.id == y.id;
    assert Symmetric(same) && Free(cs, same);
    SortFree(cs, key, same);
    var r := Sort(cs, key);
    forall i, j | 0 <= i < j < |r| ensures r[i].id != r[j].id {
      assert !same(r[i], r[j]);
    }
  }

  lemma SuffixDistinct(cs: seq<Candidate>, n: nat)
    requires DistinctIds(cs) && n <= |cs|
    ensures DistinctIds(cs[n..])
  {
  }

  /** Dropping k different members makes the list k shorter. */
  lemma {:induction false} DropSize(cs: seq<Candidate>, s: seq<Candidate>)
    requires DistinctIds(cs) && DistinctIds(s) && forall c :: c in s ==> c in cs
    ensures |Drop(cs, IdsOf(s))| == |cs| - |s|
  {
    assert s != [] ==> s[0] in cs;
    if cs != [] {
      var n := |cs| - 1;
      var last := cs[n];
      if last in s {
        var k :| 0 <= k < |s| && s[k] == last;
        var t := s[..k] + s[k + 1..];
        WithoutLast(cs, s, k);
        DropSize(cs[..n], t);
        DropSame(cs[..n], IdsOf(s), IdsOf(t), last.id);
      } else {
        LastNotIn(cs, s);
        DropSize(cs[..n], s);
      }
    }
  }

  lemma WithoutLast(cs: seq<Candidate>, s: seq<Candidate>, k: nat)
    requires cs != [] && DistinctIds(cs) && DistinctIds(s) && k < |s| && s[k] == cs[|cs| - 1]
    requires forall c :: c in s ==> c in cs
    ensures var t := s[..k] + s[k + 1..];
      && DistinctIds(t) && (forall c :: c in t ==> c in cs[..|cs| - 1])
      && IdsOf(s) == IdsOf(t) + {cs[|cs| - 1].id}
  {
    var t := s[..k] + s[k + 1..];
    var last := cs[|cs| - 1];
    forall i | 0 <= i < |t| ensures t[i] in s && t[i].id != last.id {
      assert t[i] == if i < k then s[i] else s[i + 1];
    }
    forall c | c in t ensures c in cs[..|cs| - 1] {
      assert c in cs && c != last;
    }
    forall x | x in IdsOf(s) ensures x in IdsOf(t) + {last.id} {
      var c :| c in s && c.id == x;
      var i :| 0 <= i < |s| && s[i] == c;
      assert i < k ==> t[i] == c;
      assert i > k ==> t[i - 1] == c;
    }
  }

  lemma LastNotIn(cs: seq<Candidate>, s: seq<Candidate>)
    requires cs != [] && DistinctIds(cs) && cs[|cs| - 1] !in s && forall c :: c in s ==> c in cs
    ensures cs[|cs| - 1].id !in IdsOf(s) && forall c :: c in s ==> c in cs[..|cs| - 1]
  {
    var n := |cs| - 1;
    forall c | c in s ensures c in cs[..n] && c.id != cs[n].id {
      var i :| 0 <= i < |cs| && cs[i] == c;
      assert i != n;
    }
  }

  /** Ids that the list does not contain do not matter. */
  lemma {:induction false} DropSame(cs: seq<Candidate>, a: set<Id>, b: set<Id>, id: Id)
    requires a == b + {id} && forall c :: c in cs ==> c.id != id
    ensures Drop(cs, a) == Drop(cs, b)
  {
    if cs != [] {
      DropSame(cs[..|cs| - 1], a, b, id);
      assert cs[|cs| - 1] in cs;
    }
  }

  // -------------------------------------------------------------- the list, pure

  /** The candidate list together with the ids and addresses ever seen. */
  datatype Cands = Cands(ids: set<Id>, ips: set<Ip>, closest: seq<Candidate>)

  ghost function DistKey(target: Id): (key: Candidate -> int)
    ensures IsDistance(key, target)
  {
    (c: Candidate) => Dist(target, c.id)
  }

  ghost function OrderKey(target: Id): (key: Candidate -> int)
    ensures IsOrder(key, target)
  {
    (c: Candidate) => Order(target, c)
  }

  /** Admits a batch of nodes, merges the new ones in and trims the list. */
  ghost function AddNodes(target: Id, capacity: nat, cs: Cands, nodes: seq<NodeInfo>): Cands {
    var a := Admit(nodes, cs.ids, cs.ips);
    Cands(a.ids, a.ips, Trim(Sort(cs.closest + a.newcomers, DistKey(target)), capacity, OrderKey(target)))
  }

  /** Position of a candidate by id, or the length of the list. */
  function Position(cs: seq<Candidate>, id: Id): (k: nat)
    ensures k <= |cs|
    ensures forall j :: 0 <= j < k ==> cs[j].id != id
    ensures k < |cs| ==> cs[k].id == id
  {
    if cs == [] || cs[0].id == id then 0 else 1 + Position(cs[1..], id)
  }

  function Eligibles(cs: seq<Candidate>): seq<Candidate> {
    if cs == [] then []
    else
      var rest := Eligibles(cs[..|cs| - 1]);
      if cs[|cs| - 1].IsEligible() then rest + [cs[|cs| - 1]] else rest
  }

  lemma {:induction false} EligibleMembers(cs: seq<Candidate>)
    ensures forall c :: c in Eligibles(cs) <==> c in cs && c.IsEligible()
  {
    if cs != [] {
      var n := |cs| - 1;
      EligibleMembers(cs[..n]);
      assert cs == cs[..n] + [cs[n]];
    }
  }

  /** The best eligible candidate. */
  ghost function Next(target: Id, cs: seq<Candidate>): Option<Candidate> {
    var es := Eligibles(cs);
    if es == [] then None else Some(Sort(es, OrderKey(target))[0])
  }

  /** Next finds an eligible candidate if there is any, and none is better. */
  lemma NextIsBest(target: Id, cs: seq<Candidate>)
    ensures Next(target, cs).None? <==> forall c :: c in cs ==> !c.IsEligible()
    ensures Next(target, cs).Some? ==>
      var best := Next(target, cs).value;
      && best in cs && best.IsEligible()
      && forall c :: c in cs && c.IsEligible() ==> Order(target, best) <= Order(target, c)
  {
    var es, key := Eligibles(cs), OrderKey(target);
    EligibleMembers(cs);
    if es == [] {
      forall c | c in cs ensures !c.IsEligible() {
        assert c !in es;
      }
    } else {
      var r := Sort(es, key);
      SortMembers(es, key);
      SortOrders(es, key);
      assert r[0] in r;
      forall c | c in cs && c.IsEligible() ensures Order(target, r[0]) <= Order(target, c) {
        assert c in r;
        var i :| 0 <= i < |r| && r[i] == c;
        assert key(r[0]) <= key(r[i]);
      }
    }
  }

  /** In a sorted list the head is the nearest candidate. */
  lemma HeadIsNearest(target: Id, cs: seq<Candidate>, c: Candidate)
    requires SortedByDistance(cs, target) && c in cs
    ensures Dist(target, cs[0].id) <= Dist(target, c.id)
  {
    var i :| 0 <= i < |cs| && cs[i] == c;
    assert i > 0 ==> Dist(target, cs[0].id) < Dist(target, cs[i].id);
  }

  // -------------------------------------------------------------- the list class

  class ClosestCandidates {
    const target: Id
    const capacity: nat
    var dedupIds: set<Id>
    var dedupAddrs: set<Ip>
    var closest: seq<Candidate>

    constructor (target: Id, capacity: nat)
      ensures this.target == target && this.capacity == capacity && View() == Cands({}, {}, [])
    {
      this.target, this.capacity := target, capacity;
      dedupIds, dedupAddrs, closest := {}, {}, [];
    }

    ghost function View(): Cands
      reads this
    {
      Cands(dedupIds, dedupAddrs, closest)
    }

    /** Compares by distance, or by the order in which candidates are asked. */
    method Compare(a: Candidate, b: Candidate, byOrder: bool, ghost key: Candidate -> int) returns (cmp: int)
      requires if byOrder then IsOrder(key, target) else IsDistance(key, target)
      ensures cmp <= 0 <==> key(a) <= key(b)
    {
      if byOrder && a.pinged != b.pinged {
        OrderIsLexicographic(target, a, b);
        OrderIsLexicographic(target, b, a);
        return if a.pinged < b.pinged then -1 else 1;
      }
      OrderIsLexicographic(target, a, b);
      cmp := ThreeWayCompare(target, a.id, b.id);
    }

    method PlaceIn(r: seq<Candidate>, c: Candidate, byOrder: bool, ghost key: Candidate -> int) returns (k: nat)
      requires if byOrder then IsOrder(key, target) else IsDistance(key, target)
      ensures k == Place(r, c, key)
    {
      k := |r|;
      assert r[..k] == r;
      while k > 0
        invariant 0 <= k <= |r|
        invariant Place(r, c, key) == Place(r[..k], c, key)
      {
        var cmp := Compare(r[k - 1], c, byOrder, key);
        PlaceStep(r, k, c, key);
        if cmp <= 0 {
          return;
        }
        k := k - 1;
      }
    }

    method SortCandidates(cs: seq<Candidate>, byOrder: bool, ghost key: Candidate -> int) returns (r: seq<Candidate>)
      requires if byOrder then IsOrder(key, target) else IsDistance(key, target)
      ensures r == Sort(cs, key)
    {
      r := [];
      for n := 0 to |cs|
        invariant r == Sort(cs[..n], key)
      {
        var k := PlaceIn(r, cs[n], byOrder, key);
        r := InsertAt(r, k, cs[n]);
        SortStep(cs, n, key);
      }
      assert cs[..|cs|] == cs;
    }

    /** The deduplication loop of add. */
    method AdmitNodes(nodes: seq<NodeInfo>) returns (filtered: seq<Candidate>)
      modifies this`dedupIds, this`dedupAddrs
      ensures Admission(filtered, dedupIds, dedupAddrs) == Admit(nodes, old(dedupIds), old(dedupAddrs))
    {
      filtered := [];
      for n := 0 to |nodes|
        invariant Admission(filtered, dedupIds, dedupAddrs) == Admit(nodes[..n], old(dedupIds), old(dedupAddrs))
      {
        assert nodes[..n + 1][..n] == nodes[..n];
        var item := nodes[n];
        if item.id in dedupIds {
          continue;
        }
        dedupIds := dedupIds + {item.id};
        if item.addr.ip in dedupAddrs {
          continue;
        }
        dedupAddrs := dedupAddrs + {item.addr.ip};
        filtered := filtered + [Candidate(item.id, item.addr, 0, 0)];
      }
      assert nodes[..|nodes|] == nodes;
    }

    method IdleCandidates() returns (idle: seq<Candidate>)
      ensures idle == Idle(closest)
    {
      idle := [];
      for n := 0 to |closest|
        invariant idle == Idle(closest[..n])
      {
        assert closest[..n + 1][..n] == closest[..n];
        if !closest[n].IsInFlight() {
          idle := idle + [closest[n]];
        }
      }
      assert closest[..|closest|] == closest;
    }

    method TrimList()
      modifies this`closest
      ensures closest == Trim(old(closest), capacity, OrderKey(target))
    {
      var surplus: seq<Candidate> := [];
      if |closest| > capacity {
        var idle := IdleCandidates();
        if |idle| > capacity {
          var sorted := SortCandidates(idle, true, OrderKey(target));
          surplus := sorted[capacity..];
        }
      }
      closest := Drop(closest, IdsOf(surplus));
    }

    method Add(nodes: seq<NodeInfo>)
      modifies this
      ensures View() == AddNodes(target, capacity, old(View()), nodes)
    {
      var filtered := AdmitNodes(nodes);
      closest := SortCandidates(closest + filtered, false, DistKey(target));
      TrimList();
    }

    method Remove(id: Id) returns (found: bool)
      modifies this`closest
      ensures closest == Drop(old(closest), {id})
      ensures found <==> exists c :: c in old(closest) && c.id == id
    {
      found := id in IdsOf(closest);
      closest := Drop(closest, {id});
    }

    method GetNext() returns (r: Option<Candidate>)
      ensures r == Next(target, closest)
    {
      var eligible: seq<Candidate> := [];
      for n := 0 to |closest|
        invariant eligible == Eligibles(closest[..n])
      {
        assert closest[..n + 1][..n] == closest[..n];
        if closest[n].IsEligible() {
          eligible := eligible + [closest[n]];
        }
      }
      assert closest[..|closest|] == closest;
      if eligible == [] {
        return None;
      }
      var sorted := SortCandidates(eligible, true, OrderKey(target));
      r := Some(sorted[0]);
    }
  }
}
