/**
 The value table of the node's storage: compare-and-set with sequence numbers, and
 visibility by age.  A row is what the SQL table holds for an id.
 */
module ValueStore {
  import opened Wrappers

  const MAX_VALUE_AGE := 120 * 60 * 1000

  /** valid says whether the signature checks out; id is what Value::getId computes. */
  datatype RawValue =
    Value(id: nat, isMutable: bool, hasPrivateKey: bool, sequenceNumber: int, valid: bool, data: seq<nat>)

  /** The constructors throw on a mutable value with a negative sequence number. */
  type Value = v: RawValue | v.isMutable ==> v.sequenceNumber >= 0 witness Value(0, false, false, 0, false, [])

  datatype Row = Row(value: Value, persistent: bool, timestamp: nat, announced: nat)

  type Store = map<nat, Row>

  datatype Rejection = InvalidSignature | ReplacesMutable | NotOwner | SequenceTooLow | CasFailure

  predicate Young(r: Row, now: nat) {
    r.timestamp >= now - MAX_VALUE_AGE
  }

  function Get(s: Store, id: nat, now: nat): Option<Value> {
    if id in s && Young(s[id], now) then Some(s[id].value) else None
  }

  /** Why a put is refused, if it is. */
  function Refusal(s: Store, v: Value, expectedSeq: int, now: nat): Option<Rejection> {
    if v.isMutable && !v.valid then Some(InvalidSignature)
    else
      var old_ := Get(s, v.id, now);
      if old_.None? || !old_.value.isMutable then None
      else if !v.isMutable then Some(ReplacesMutable)
      else if old_.value.hasPrivateKey && !v.hasPrivateKey then Some(NotOwner)
      else if v.sequenceNumber < old_.value.sequenceNumber then Some(SequenceTooLow)
      else if expectedSeq >= 0 && old_.value.sequenceNumber >= 0 && old_.value.sequenceNumber != expectedSeq then Some(CasFailure)
      else None
  }

  /** The upsert: a conflicting row keeps its persistent flag and announce time. */
  function Upsert(s: Store, v: Value, persistent: bool, announced: nat, now: nat): Store {
    s[v.id := if v.id in s then s[v.id].(value := v, timestamp := now) else Row(v, persistent, now, announced)]
  }

  function Expire(s: Store, now: nat): Store {
    map id | id in s && (s[id].persistent || Young(s[id], now)) :: s[id]
  }

  // ------------------------------------------------------------------------- runs

  datatype Op =
    | Put(value: Value, expectedSeq: int, persistent: bool, updateLastAnnounce: bool)
    | Lookup(id: nat)
    | Remove(id: nat)
    | ExpireOld

  datatype Timed = At(op: Op, now: nat)

  /** What a caller sees: the value found or replaced, or the refusal. */
  datatype Output = Found(value: Option<Value>) | Refused(why: Rejection) | Done

  function Apply(s: Store, t: Timed): Store {
    match t.op
    case Put(v, expectedSeq, persistent, announce) =>
      if Refusal(s, v, expectedSeq, t.now).Some? then s
      else Upsert(s, v, persistent, if announce then t.now else 0, t.now)
    case Lookup(id) => s
    case Remove(id) => s - {id}
    case ExpireOld => Expire(s, t.now)
  }

  function Answer(s: Store, t: Timed): Output {
    match t.op
    case Put(v, expectedSeq, _, _) =>
      var why := Refusal(s, v, expectedSeq, t.now);
      if why.Some? then Refused(why.value) else Found(Get(s, v.id, t.now))
    case Lookup(id) => Found(Get(s, id, t.now))
    case Remove(id) => Done
    case ExpireOld => Done
  }

  function Run(s: Store, ops: seq<Timed>): Store {
    if ops == [] then s else Apply(Run(s, ops[..|ops| - 1]), ops[|ops| - 1])
  }

  ghost predicate InOrder(ops: seq<Timed>, from: nat) {
    && (forall i :: 0 <= i < |ops| ==> from <= ops[i].now)
    && forall i, j :: 0 <= i < j < |ops| ==> ops[i].now <= ops[j].now
  }

  // --------------------------------------------------------------- compare and set

  /** What a value that replaces a visible mutable one must be. */
  ghost predicate Succeeds(a: Value, b: Value) {
    && b.isMutable
    && a.sequenceNumber <= b.sequenceNumber
    && (a.hasPrivateKey ==> b.hasPrivateKey)
  }

  /** Over a visible mutable record a put goes through exactly under these conditions, and is then stored. */
  lemma PutOverMutable(s: Store, v: Value, expectedSeq: int, persistent: bool, announce: bool, now: nat)
    requires var r := Get(s, v.id, now); r.Some? && r.value.isMutable
    ensures var a, t := Get(s, v.id, now).value, At(Put(v, expectedSeq, persistent, announce), now);
      if v.valid && Succeeds(a, v) && (expectedSeq < 0 || a.sequenceNumber == expectedSeq)
      then Get(Apply(s, t), v.id, now) == Some(v) && Answer(s, t) == Found(Some(a))
      else Apply(s, t) == s && Answer(s, t).Refused?
  {
  }

  /** Every put, whatever is stored: when it is refused and why, and that it is stored otherwise. */
  lemma PutAnswer(s: Store, v: Value, expectedSeq: int, persistent: bool, announce: bool, now: nat)
    ensures var t, a := At(Put(v, expectedSeq, persistent, announce), now), Get(s, v.id, now);
      var answer, forged, over := Answer(s, t), v.isMutable && !v.valid, a.Some? && a.value.isMutable;
      && (answer.Refused? <==>
            forged || (over && !(Succeeds(a.value, v) && (expectedSeq < 0 || a.value.sequenceNumber == expectedSeq))))
      && (answer == Refused(InvalidSignature) <==> forged)
      && (answer == Refused(ReplacesMutable) <==> over && !v.isMutable)
      && (answer == Refused(NotOwner) <==>
            over && v.isMutable && v.valid && a.value.hasPrivateKey && !v.hasPrivateKey)
      && (answer == Refused(SequenceTooLow) <==>
            over && v.isMutable && v.valid && (a.value.hasPrivateKey ==> v.hasPrivateKey)
            && v.sequenceNumber < a.value.sequenceNumber)
      && (answer == Refused(CasFailure) <==>
            over && v.valid && Succeeds(a.value, v) && 0 <= expectedSeq != a.value.sequenceNumber)
      && (answer.Refused? ==> Apply(s, t) == s)
      && (!answer.Refused? ==> answer == Found(a) && Get(Apply(s, t), v.id, now) == Some(v))
  {
  }

  /** A put that is not refused is what every later lookup finds for two hours, and touches no other id. */
  lemma PutVisible(s: Store, v: Value, expectedSeq: int, persistent: bool, announce: bool, now: nat)
    requires Refusal(s, v, expectedSeq, now).None?
    ensures var r := Apply(s, At(Put(v, expectedSeq, persistent, announce), now));
      && (forall later :: now <= later ==>
            Get(r, v.id, later) == if later - now <= 2 * 60 * 60 * 1000 then Some(v) else None)
      && (forall id, later :: id != v.id ==> Get(r, id, later) == Get(s, id, later))
      && (v.id in s ==> r[v.id].persistent == s[v.id].persistent && r[v.id].announced == s[v.id].announced)
      && (v.id !in s ==> r[v.id].persistent == persistent && r[v.id].announced == if announce then now else 0)
  {
  }

  /** The record of id is visible at every operation, and no operation removes it. */
  ghost predicate StaysYoung(s: Store, ops: seq<Timed>, id: nat) {
    forall n :: 0 <= n < |ops| ==> YoungAt(s, ops, id, n)
  }

  ghost predicate YoungAt(s: Store, ops: seq<Timed>, id: nat, n: nat)
    requires n < |ops|
  {
    Get(Run(s, ops[..n]), id, ops[n].now).Some? && ops[n].op != Remove(id)
  }

  lemma StepSucceeds(s: Store, t: Timed, id: nat)
    requires var r := Get(s, id, t.now); r.Some? && r.value.isMutable
    requires s[id].value.id == id && t.op != Remove(id)
    ensures id in Apply(s, t) && Apply(s, t)[id].value.id == id && Succeeds(s[id].value, Apply(s, t)[id].value)
  {
  }

  /**
   While the record of an id stays younger than the age limit, a mutable record is never
   replaced by an immutable one or by one without its private key, and its sequence
   number never decreases.
   */
  lemma {:induction false} SequenceNeverDecreases(s: Store, ops: seq<Timed>, id: nat)
    requires id in s && s[id].value.isMutable && s[id].value.id == id && StaysYoung(s, ops, id)
    ensures var t := Run(s, ops); id in t && t[id].value.id == id && Succeeds(s[id].value, t[id].value)
  {
    if ops != [] {
      var n := |ops| - 1;
      forall k | 0 <= k < n ensures YoungAt(s, ops[..n], id, k) {
        assert YoungAt(s, ops, id, k) && ops[..n][..k] == ops[..k];
      }
      assert YoungAt(s, ops, id, n);
      SequenceNeverDecreases(s, ops[..n], id);
      StepSucceeds(Run(s, ops[..n]), ops[n], id);
    }
  }

  /** At every point of every run a put with an expected sequence number goes through only on equality. */
  lemma CompareAndSet(s: Store, ops: seq<Timed>, k: nat)
    requires k < |ops| && ops[k].op.Put? && ops[k].op.expectedSeq >= 0
    requires var r := Get(Run(s, ops[..k]), ops[k].op.value.id, ops[k].now); r.Some? && r.value.isMutable
    ensures var before, a := Run(s, ops[..k]), Get(Run(s, ops[..k]), ops[k].op.value.id, ops[k].now).value;
      && (Answer(before, ops[k]).Found? ==> a.sequenceNumber == ops[k].op.expectedSeq)
      && (a.sequenceNumber != ops[k].op.expectedSeq ==>
            Answer(before, ops[k]).Refused? && Run(s, ops[..k + 1]) == before)
  {
    assert ops[..k + 1][..k] == ops[..k];
  }

  lemma {:induction false} RunJoin(s: Store, a: seq<Timed>, b: seq<Timed>)
    ensures Run(s, a + b) == Run(Run(s, a), b)
  {
    if b == [] {
      assert a + b == a;
    } else {
      var n := |b| - 1;
      RunJoin(s, a, b[..n]);
      assert (a + b)[..|a + b| - 1] == a + b[..n];
    }
  }

  lemma StaysYoungBetween(s: Store, ops: seq<Timed>, id: nat, i: nat, j: nat)
    requires i <= j <= |ops| && StaysYoung(s, ops, id)
    ensures StaysYoung(Run(s, ops[..i]), ops[i..j], id)
    ensures Run(Run(s, ops[..i]), ops[i..j]) == Run(s, ops[..j])
  {
    forall n | 0 <= n < j - i ensures YoungAt(Run(s, ops[..i]), ops[i..j], id, n) {
      assert YoungAt(s, ops, id, i + n);
      YoungShift(s, ops, id, i, j, n);
    }
    RunBetween(s, ops, i, j);
  }

  lemma YoungShift(s: Store, ops: seq<Timed>, id: nat, i: nat, j: nat, n: nat)
    requires i + n < j <= |ops| && YoungAt(s, ops, id, i + n)
    ensures YoungAt(Run(s, ops[..i]), ops[i..j], id, n)
  {
    RunBetween(s, ops, i, i + n);
    assert ops[i..j][..n] == ops[i..i + n];
  }

  lemma RunBetween(s: Store, ops: seq<Timed>, i: nat, j: nat)
    requires i <= j <= |ops|
    ensures Run(Run(s, ops[..i]), ops[i..j]) == Run(s, ops[..j])
  {
    assert ops[..i] + ops[i..j] == ops[..j];
    RunJoin(s, ops[..i], ops[i..j]);
  }

  /**
   Of two puts that expect the same sequence number of a record that stays young, and the
   first of which raises it, only the first can go through.
   */
  lemma CompareAndSetOnce(s: Store, ops: seq<Timed>, id: nat, i: nat, j: nat)
    requires id in s && s[id].value.isMutable && s[id].value.id == id && StaysYoung(s, ops, id)
    requires i < j < |ops| && ops[i].op.Put? && ops[j].op.Put?
    requires ops[i].op.value.id == id && ops[j].op.value.id == id
    requires ops[j].op.expectedSeq == ops[i].op.expectedSeq >= 0
    requires ops[i].op.value.sequenceNumber > ops[i].op.expectedSeq
    requires Answer(Run(s, ops[..i]), ops[i]).Found?
    ensures Answer(Run(s, ops[..j]), ops[j]).Refused?
  {
    var v := ops[i].op.value;
    StaysYoungBetween(s, ops, id, 0, i);
    assert ops[..0] == [] && ops[0..i] == ops[..i];
    SequenceNeverDecreases(s, ops[..i], id);
    assert YoungAt(s, ops, id, i);
    assert ops[..i + 1][..i] == ops[..i];
    var t := Run(s, ops[..i + 1]);
    assert t == Apply(Run(s, ops[..i]), ops[i]) && t[id].value == v;
    StaysYoungBetween(s, ops, id, i + 1, j);
    SequenceNeverDecreases(t, ops[i + 1..j], id);
    assert YoungAt(s, ops, id, j);
    CompareAndSet(s, ops, j);
  }

  // ------------------------------------------------------------------------ expiry

  /** Two stores that show the same young records from now on. */
  ghost predicate LookAlike(a: Store, b: Store, now: nat) {
    forall id ::
      && ((id in a && Young(a[id], now)) <==> (id in b && Young(b[id], now)))
      && (id in a && Young(a[id], now) ==> a[id].value == b[id].value && a[id].timestamp == b[id].timestamp)
  }

  /** Expiry removes exactly the rows that are not persistent and older than two hours, and changes no other. */
  lemma ExpireExactly(s: Store, now: nat)
    ensures var r := Expire(s, now);
      && (forall id :: id in r <==> id in s && (s[id].persistent || now - s[id].timestamp <= 2 * 60 * 60 * 1000))
      && (forall id :: id in r ==> r[id] == s[id])
  {
  }

  lemma ExpireLooksAlike(s: Store, now: nat)
    ensures LookAlike(Expire(s, now), s, now)
  {
  }

  lemma LaterLooksAlike(a: Store, b: Store, now: nat, later: nat)
    requires LookAlike(a, b, now) && now <= later
    ensures LookAlike(a, b, later)
  {
    forall id
      ensures (id in a && Young(a[id], later)) <==> (id in b && Young(b[id], later))
      ensures id in a && Young(a[id], later) ==> a[id].value == b[id].value && a[id].timestamp == b[id].timestamp
    {
      assert id in a && Young(a[id], later) ==> Young(a[id], now);
      assert id in b && Young(b[id], later) ==> Young(b[id], now);
    }
  }

  lemma SameAnswer(a: Store, b: Store, t: Timed)
    requires LookAlike(a, b, t.now)
    ensures Answer(a, t) == Answer(b, t)
    ensures LookAlike(Apply(a, t), Apply(b, t), t.now)
  {
    forall id ensures Get(a, id, t.now) == Get(b, id, t.now) {
    }
  }

  /** Expiring old rows never changes what any later operation sees. */
  lemma {:induction false} ExpireIsInvisible(s: Store, now: nat, ops: seq<Timed>, n: nat)
    requires InOrder(ops, now) && n < |ops|
    ensures LookAlike(Run(Expire(s, now), ops[..n]), Run(s, ops[..n]), ops[n].now)
    ensures Answer(Run(Expire(s, now), ops[..n]), ops[n]) == Answer(Run(s, ops[..n]), ops[n])
  {
    var a, b := Run(Expire(s, now), ops[..n]), Run(s, ops[..n]);
    if n == 0 {
      ExpireLooksAlike(s, now);
      LaterLooksAlike(Expire(s, now), s, now, ops[0].now);
    } else {
      ExpireIsInvisible(s, now, ops, n - 1);
      assert ops[..n][..n - 1] == ops[..n - 1];
      SameAnswer(Run(Expire(s, now), ops[..n - 1]), Run(s, ops[..n - 1]), ops[n - 1]);
      LaterLooksAlike(a, b, ops[n - 1].now, ops[n].now);
    }
    SameAnswer(a, b, ops[n]);
  }

  // ------------------------------------------------------------- what a lookup finds

  datatype Stamped = Stamped(value: Value, time: nat)

  /** The last value of an id that was accepted and not removed since. */
  ghost function Latest(ops: seq<Timed>, id: nat): Option<Stamped> {
    if ops == [] then None
    else
      var n := |ops| - 1;
      var t := ops[n];
      match t.op
      case Put(v, _, _, _) =>
        if v.id == id && !Answer(Run(map[], ops[..n]), t).Refused? then Some(Stamped(v, t.now)) else Latest(ops[..n], id)
      case Remove(x) => if x == id then None else Latest(ops[..n], id)
      case Lookup(_) => Latest(ops[..n], id)
      case ExpireOld => Latest(ops[..n], id)
  }

  /** The row of an id, if there is one, holds the latest value; if there is none, that is two hours old. */
  ghost predicate RowIsLatest(s: Store, l: Option<Stamped>, id: nat, now: nat) {
    if id in s then l == Some(Stamped(s[id].value, s[id].timestamp))
    else l.None? || now - l.value.time > 2 * 60 * 60 * 1000
  }

  lemma {:induction false} RowsAreLatest(ops: seq<Timed>, id: nat, now: nat)
    requires InOrder(ops, 0) && forall i :: 0 <= i < |ops| ==> ops[i].now <= now
    ensures RowIsLatest(Run(map[], ops), Latest(ops, id), id, now)
  {
    if ops != [] {
      var n := |ops| - 1;
      RowsAreLatest(ops[..n], id, ops[n].now);
      LatestStep(Run(map[], ops[..n]), Latest(ops[..n], id), ops[n], id, now);
    }
  }

  lemma LatestStep(s: Store, l: Option<Stamped>, t: Timed, id: nat, now: nat)
    requires RowIsLatest(s, l, id, t.now) && t.now <= now
    ensures var k :=
        match t.op
        case Put(v, _, _, _) => if v.id == id && !Answer(s, t).Refused? then Some(Stamped(v, t.now)) else l
        case Remove(x) => if x == id then None else l
        case Lookup(_) => l
        case ExpireOld => l;
      RowIsLatest(Apply(s, t), k, id, now)
  {
  }

  /**
   After every run from an empty store a lookup finds the last value accepted for the id
   and not removed since, for two hours, and nothing after that.
   */
  lemma LookupFindsLatest(ops: seq<Timed>, id: nat, now: nat)
    requires InOrder(ops, 0) && forall i :: 0 <= i < |ops| ==> ops[i].now <= now
    ensures var l := Latest(ops, id);
      Answer(Run(map[], ops), At(Lookup(id), now)) ==
      Found(if l.Some? && now - l.value.time <= 2 * 60 * 60 * 1000 then Some(l.value.value) else None)
  {
    RowsAreLatest(ops, id, now);
  }

  // ------------------------------------------------------------------- the storage

  class SqliteStorage {
    var rows: Store

    constructor ()
      ensures rows == map[]
    {
      rows := map[];
    }

    method GetValue(id: nat, now: nat) returns (r: Option<Value>)
      ensures r == Get(rows, id, now)
    {
      r := None;
      if id in rows {
        var when := now - MAX_VALUE_AGE;
        if rows[id].timestamp >= when {
          r := Some(rows[id].value);
        }
      }
    }

    /** Stores a value or says why not; returns what was visible before. */
    method PutValue(value: Value, expectedSeq: int, persistent: bool, updateLastAnnounce: bool, now: nat) returns (r: Output)
      modifies this
      ensures var t := At(Put(value, expectedSeq, persistent, updateLastAnnounce), now);
        rows == Apply(old(rows), t) && r == Answer(old(rows), t)
    {
      if value.isMutable && !value.valid {
        return Refused(InvalidSignature);
      }
      var before := GetValue(value.id, now);
      if before.Some? && before.value.isMutable {
        if !value.isMutable {
          return Refused(ReplacesMutable);
        }
        if before.value.hasPrivateKey && !value.hasPrivateKey {
          return Refused(NotOwner);
        }
        if value.sequenceNumber < before.value.sequenceNumber {
          return Refused(SequenceTooLow);
        }
        if expectedSeq >= 0 && before.value.sequenceNumber >= 0 && before.value.sequenceNumber != expectedSeq {
          return Refused(CasFailure);
        }
      }
      rows := Upsert(rows, value, persistent, if updateLastAnnounce then now else 0, now);
      r := Found(before);
    }

    method RemoveValue(id: nat) returns (removed: bool)
      modifies this
      ensures rows == Apply(old(rows), At(Op.Remove(id), 0)) && id !in rows
      ensures removed <==> rows != old(rows)
    {
      removed := id in rows;
      rows := rows - {id};
    }

    method ExpireRows(now: nat)
      modifies this
      ensures rows == Expire(old(rows), now)
    {
      var when := now - MAX_VALUE_AGE;
      rows := map id | id in rows && !(!rows[id].persistent && rows[id].timestamp < when) :: rows[id];
    }
  }
}
