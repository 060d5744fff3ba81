/**
 The timer queue: jobs ordered by deadline, ties in insertion order, and the loop that
 runs what is due.

 Jobs live in `jobs`, addressed by handle.  What a callback does is given by the
 environment: the n-th callback of a run adds jobs and cancels jobs, and `clock` gives
 the time it reads.
 */
module Schedulers {

  /** live is false for a cancelled job; a periodic job has a positive fixedDelay. */
  datatype Job = Job(live: bool, fixedDelay: nat)

  datatype Timer = Timer(time: nat, job: nat)

  datatype Queue = Queue(timers: seq<Timer>, jobs: seq<Job>)

  ghost predicate Ordered(timers: seq<Timer>) {
    forall i, j :: 0 <= i < j < |timers| ==> timers[i].time <= timers[j].time
  }

  ghost predicate DistinctJobs(timers: seq<Timer>) {
    forall i, j :: 0 <= i < j < |timers| ==> timers[i].job != timers[j].job
  }

  /** std::multimap::emplace: behind all timers that are not later. */
  function Emplace(timers: seq<Timer>, t: Timer): seq<Timer> {
    if timers == [] || timers[0].time > t.time then [t] + timers
    else [timers[0]] + Emplace(timers[1..], t)
  }

  /** The largest 64-bit number: a job with this deadline is not queued. */
  const NEVER: nat := 0xFFFF_FFFF_FFFF_FFFF

  function AddJob(q: Queue, job: Job, time: nat): Queue {
    Queue(if time == NEVER then q.timers else Emplace(q.timers, Timer(time, |q.jobs|)), q.jobs + [job])
  }

  function CancelJob(q: Queue, h: nat): Queue {
    if h < |q.jobs| then q.(jobs := q.jobs[h := Job(false, 0)]) else q
  }

  /** What a callback does. */
  datatype Action = Add(delay: nat, fixedDelay: nat) | Cancel(handle: nat)

  function Act(q: Queue, a: Action, time: nat): Queue {
    match a
    case Add(delay, fixedDelay) => AddJob(q, Job(true, fixedDelay), time + delay)
    case Cancel(h) => CancelJob(q, h)
  }

  function ActAll(q: Queue, acts: seq<Action>, time: nat): Queue {
    if acts == [] then q else Act(ActAll(q, acts[..|acts| - 1], time), acts[|acts| - 1], time)
  }

  /** Re-adds a periodic job under a new handle and clears the old one. */
  function Edit(q: Queue, h: nat, time: nat): Queue {
    if h < |q.jobs| && q.jobs[h].fixedDelay > 0 then
      AddJob(CancelJob(q, h), q.jobs[h], time + q.jobs[h].fixedDelay)
    else q
  }

  type Acts = nat -> seq<Action>
  type Clock = nat -> nat

  /** What happened to a due job: its handle, and whether it was live when its turn came. */
  datatype Turn = Turn(job: nat, fired: bool)

  predicate IsLive(q: Queue, h: nat) {
    h < |q.jobs| && q.jobs[h].live
  }

  /** The first timer's turn; n counts the turns of the run. */
  function TakeTurn(q: Queue, acts: Acts, clock: Clock, n: nat): Queue
    requires q.timers != []
  {
    var h := q.timers[0].job;
    var q1 := if IsLive(q, h) then ActAll(q, acts(n), clock(n)) else q;
    var q2 := Edit(q1, h, clock(n));
    q2.(timers := if q2.timers == [] then [] else q2.timers[1..])
  }

  // ---------------------------------------------------------------- due and later

  /** Callbacks add only positive delays, and the clock is never behind now. */
  ghost predicate Forward(acts: Acts, clock: Clock, now: nat) {
    && (forall n :: clock(n) >= now)
    && (forall n, i :: 0 <= i < |acts(n)| && acts(n)[i].Add? ==> acts(n)[i].delay > 0)
  }

  /** The queue is the due timers followed by later ones. */
  ghost predicate Splits(q: Queue, due: seq<Timer>, now: nat) {
    && |due| <= |q.timers| && q.timers[..|due|] == due
    && Ordered(q.timers)
    && (forall i :: 0 <= i < |due| ==> due[i].time <= now)
    && (forall i :: |due| <= i < |q.timers| ==> q.timers[i].time > now)
    && (forall i :: 0 <= i < |q.timers| ==> q.timers[i].job < |q.jobs|)
    && DistinctJobs(q.timers)
  }

  lemma {:induction false} EmplaceMembers(timers: seq<Timer>, t: Timer)
    ensures |Emplace(timers, t)| == |timers| + 1
    ensures forall x :: x in Emplace(timers, t) <==> x == t || x in timers
  {
    if timers != [] && timers[0].time <= t.time {
      EmplaceMembers(timers[1..], t);
      assert timers == [timers[0]] + timers[1..];
    }
  }

  lemma {:induction false} EmplaceDistinct(timers: seq<Timer>, t: Timer)
    requires DistinctJobs(timers) && forall x :: x in timers ==> x.job != t.job
    ensures DistinctJobs(Emplace(timers, t))
  {
    if timers == [] || timers[0].time > t.time {
      assert forall i :: 0 <= i < |timers| ==> timers[i] in timers;
    } else {
      EmplaceDistinct(timers[1..], t);
      EmplaceMembers(timers[1..], t);
      var r := Emplace(timers[1..], t);
      assert timers[0] in timers;
      forall i | 0 <= i < |r| ensures r[i].job != timers[0].job {
        assert r[i] in r;
        if r[i] != t {
          var j :| 0 <= j < |timers| - 1 && timers[1..][j] == r[i];
        }
      }
    }
  }

  lemma {:induction false} EmplaceOrdered(timers: seq<Timer>, t: Timer)
    requires Ordered(timers)
    ensures Ordered(Emplace(timers, t))
  {
    if timers != [] && timers[0].time <= t.time {
      EmplaceOrdered(timers[1..], t);
      EmplaceMembers(timers[1..], t);
      var r := Emplace(timers[1..], t);
      forall i | 0 <= i < |r| ensures timers[0].time <= r[i].time {
        assert r[i] in r;
        if r[i] != t {
          var j :| 0 <= j < |timers| - 1 && timers[1..][j] == r[i];
        }
      }
    }
  }

  /** A later timer goes behind all that are due. */
  lemma {:induction false} EmplaceLater(timers: seq<Timer>, k: nat, now: nat, t: Timer)
    requires k <= |timers| && t.time > now
    requires forall i :: 0 <= i < k ==> timers[i].time <= now
    requires forall i :: k <= i < |timers| ==> timers[i].time > now
    ensures var r := Emplace(timers, t);
      && |r| == |timers| + 1
      && (forall i :: 0 <= i < k ==> r[i] == timers[i])
      && (forall i :: k <= i < |r| ==> r[i].time > now)
  {
    if timers != [] && timers[0].time <= t.time {
      EmplaceLater(timers[1..], if k > 0 then k - 1 else 0, now, t);
    }
  }

  /** Adding a job with a deadline after now leaves the due part alone. */
  lemma AddKeeps(q: Queue, due: seq<Timer>, now: nat, job: Job, time: nat)
    requires Splits(q, due, now) && time > now
    ensures Splits(AddJob(q, job, time), due, now)
    ensures q.jobs <= AddJob(q, job, time).jobs
  {
    var t := Timer(time, |q.jobs|);
    forall x | x in q.timers ensures x.job < |q.jobs| {
      var i :| 0 <= i < |q.timers| && q.timers[i] == x;
    }
    EmplaceDistinct(q.timers, t);
    EmplaceOrdered(q.timers, t);
    EmplaceSplits(q.timers, due, now, t);
    EmplaceBelow(q.timers, t, |q.jobs| + 1);
  }

  lemma EmplaceSplits(timers: seq<Timer>, due: seq<Timer>, now: nat, t: Timer)
    requires due <= timers && t.time > now
    requires forall i :: 0 <= i < |due| ==> due[i].time <= now
    requires forall i :: |due| <= i < |timers| ==> timers[i].time > now
    ensures due <= Emplace(timers, t)
    ensures forall i :: |due| <= i < |Emplace(timers, t)| ==> Emplace(timers, t)[i].time > now
  {
    EmplaceLater(timers, |due|, now, t);
  }

  lemma EmplaceBelow(timers: seq<Timer>, t: Timer, n: nat)
    requires t.job < n && forall x :: x in timers ==> x.job < n
    ensures forall i :: 0 <= i < |Emplace(timers, t)| ==> Emplace(timers, t)[i].job < n
  {
    EmplaceMembers(timers, t);
    var r := Emplace(timers, t);
    forall i | 0 <= i < |r| ensures r[i].job < n {
      assert r[i] in r;
    }
  }

  /** Which jobs the list of actions cancels. */
  predicate Cancels(acts: seq<Action>, h: nat) {
    Cancel(h) in acts
  }

  lemma {:induction false} ActAllKeeps(q: Queue, due: seq<Timer>, now: nat, acts: seq<Action>, time: nat)
    requires Splits(q, due, now) && time >= now
    requires forall i :: 0 <= i < |acts| && acts[i].Add? ==> acts[i].delay > 0
    ensures var r := ActAll(q, acts, time);
      && Splits(r, due, now) && |q.jobs| <= |r.jobs|
      && (forall h :: 0 <= h < |q.jobs| ==> r.jobs[h] == if Cancels(acts, h) then Job(false, 0) else q.jobs[h])
  {
    if acts != [] {
      var n := |acts| - 1;
      ActAllKeeps(q, due, now, acts[..n], time);
      assert acts == acts[..n] + [acts[n]];
      var p := ActAll(q, acts[..n], time);
      match acts[n]
      case Add(delay, fixedDelay) => AddKeeps(p, due, now, Job(true, fixedDelay), time + delay);
      case Cancel(h) => CancelKeeps(p, due, now, h);
    }
  }

  lemma CancelKeeps(q: Queue, due: seq<Timer>, now: nat, h: nat)
    requires Splits(q, due, now)
    ensures var r := CancelJob(q, h);
      && Splits(r, due, now) && |r.jobs| == |q.jobs|
      && forall j :: 0 <= j < |q.jobs| ==> r.jobs[j] == if j == h then Job(false, 0) else q.jobs[j]
  {
  }

  lemma EditKeeps(q: Queue, due: seq<Timer>, now: nat, h: nat, time: nat)
    requires Splits(q, due, now) && time >= now && h < |q.jobs|
    ensures var r := Edit(q, h, time);
      && Splits(r, due, now) && |q.jobs| <= |r.jobs|
      && (forall j :: 0 <= j < |q.jobs| && j != h ==> r.jobs[j] == q.jobs[j])
  {
    if q.jobs[h].fixedDelay > 0 {
      CancelKeeps(q, due, now, h);
      AddKeeps(CancelJob(q, h), due, now, q.jobs[h], time + q.jobs[h].fixedDelay);
    }
  }

  /** A turn removes the first due timer and changes no other. */
  lemma TurnKeeps(q: Queue, due: seq<Timer>, acts: Acts, clock: Clock, now: nat, n: nat)
    requires Splits(q, due, now) && due != [] && Forward(acts, clock, now)
    ensures var r := TakeTurn(q, acts, clock, n);
      && Splits(r, due[1..], now) && |q.jobs| <= |r.jobs|
      && (forall h :: 0 <= h < |q.jobs| && h != due[0].job ==>
            r.jobs[h] == if IsLive(q, due[0].job) && Cancels(acts(n), h) then Job(false, 0) else q.jobs[h])
  {
    var h := q.timers[0].job;
    assert q.timers[0] == due[0];
    var q1 := if IsLive(q, h) then ActAll(q, acts(n), clock(n)) else q;
    if IsLive(q, h) {
      ActAllKeeps(q, due, now, acts(n), clock(n));
    }
    EditKeeps(q1, due, now, h, clock(n));
    var q2 := Edit(q1, h, clock(n));
    assert q2.timers[..|due|][1..] == q2.timers[1..][..|due| - 1];
  }

  // ------------------------------------------------------------- what a turn queues

  /** A new timer goes behind all that are not later and before all that are. */
  lemma {:induction false} EmplaceIs(timers: seq<Timer>, t: Timer) returns (k: nat)
    requires Ordered(timers)
    ensures k <= |timers| && Emplace(timers, t) == timers[..k] + [t] + timers[k..]
    ensures forall i :: 0 <= i < |timers| ==> (i < k <==> timers[i].time <= t.time)
  {
    if timers == [] || timers[0].time > t.time {
      k := 0;
    } else {
      k := EmplaceIs(timers[1..], t);
      assert timers == [timers[0]] + timers[1..];
      k := k + 1;
    }
  }

  /** The timer of a new job, unless its deadline is the largest number. */
  function NewTimer(time: nat, job: nat): set<Timer> {
    if time == 0xFFFF_FFFF_FFFF_FFFF then {} else {Timer(time, job)}
  }

  lemma AddQueues(q: Queue, job: Job, time: nat)
    ensures var r := AddJob(q, job, time);
      (forall x :: x in r.timers <==> x in q.timers || x in NewTimer(time, |q.jobs|)) && r.jobs == q.jobs + [job]
  {
    EmplaceMembers(q.timers, Timer(time, |q.jobs|));
  }

  /** How many jobs the actions add. */
  function Adds(acts: seq<Action>): nat {
    if acts == [] then 0 else Adds(acts[..|acts| - 1]) + if acts[|acts| - 1].Add? then 1 else 0
  }

  function NewTimerOf(a: Action, time: nat, job: nat): set<Timer> {
    if a.Add? then NewTimer(time + a.delay, job) else {}
  }

  /** The timers that actions performed at `time` queue; n jobs exist before. */
  function Queued(acts: seq<Action>, time: nat, n: nat): set<Timer> {
    if acts == [] then {}
    else
      var k := |acts| - 1;
      Queued(acts[..k], time, n) + NewTimerOf(acts[k], time, n + Adds(acts[..k]))
  }

  lemma ActQueues(q: Queue, a: Action, time: nat)
    ensures var r := Act(q, a, time);
      && (forall x :: x in r.timers <==> x in q.timers || x in NewTimerOf(a, time, |q.jobs|))
      && |r.jobs| == |q.jobs| + (if a.Add? then 1 else 0)
      && (a.Add? ==> r.jobs == q.jobs + [Job(true, a.fixedDelay)])
      && (a.Cancel? ==> forall h :: 0 <= h < |q.jobs| ==> r.jobs[h] == if h == a.handle then Job(false, 0) else q.jobs[h])
  {
    if a.Add? {
      AddQueues(q, Job(true, a.fixedDelay), time + a.delay);
    }
  }

  lemma {:induction false} ActAllQueues(q: Queue, acts: seq<Action>, time: nat)
    ensures var r := ActAll(q, acts, time);
      && (forall x :: x in r.timers <==> x in q.timers || x in Queued(acts, time, |q.jobs|))
      && |r.jobs| == |q.jobs| + Adds(acts)
  {
    if acts != [] {
      var k := |acts| - 1;
      ActAllQueues(q, acts[..k], time);
      ActQueues(ActAll(q, acts[..k], time), acts[k], time);
    }
  }

  /** What a job whose turn it is does. */
  function Did(q: Queue, h: nat, acts: seq<Action>): seq<Action> {
    if IsLive(q, h) then acts else []
  }

  /** The period of job h after a callback, which may have cancelled it. */
  function Period(q: Queue, h: nat, did: seq<Action>): nat
    requires h < |q.jobs|
  {
    if Cancels(did, h) then 0 else q.jobs[h].fixedDelay
  }

  /** The timer under which a periodic job is queued again. */
  function Again(d: nat, time: nat, job: nat): set<Timer> {
    if d > 0 then NewTimer(time + d, job) else {}
  }

  lemma EditQueues(q: Queue, h: nat, time: nat)
    requires h < |q.jobs|
    ensures var r, d := Edit(q, h, time), q.jobs[h].fixedDelay;
      && (forall x :: x in r.timers <==> x in q.timers || x in Again(d, time, |q.jobs|))
      && (d > 0 ==> |r.jobs| == |q.jobs| + 1 && r.jobs[|q.jobs|] == q.jobs[h] && !IsLive(r, h))
  {
    AddQueues(CancelJob(q, h), q.jobs[h], time + q.jobs[h].fixedDelay);
  }

  /** What a callback and the re-queueing of its job add to the queue. */
  lemma TurnAdds(q: Queue, h: nat, did: seq<Action>, time: nat)
    requires h < |q.jobs| && h < |ActAll(q, did, time).jobs|
    requires ActAll(q, did, time).jobs[h] == if Cancels(did, h) then Job(false, 0) else q.jobs[h]
    ensures var r := Edit(ActAll(q, did, time), h, time);
      var d, new_ := Period(q, h, did), |q.jobs| + Adds(did);
      && (forall x :: x in r.timers <==>
            x in q.timers || x in Queued(did, time, |q.jobs|) || x in Again(d, time, new_))
      && (d > 0 ==> |r.jobs| == new_ + 1 && r.jobs[new_] == q.jobs[h] && !IsLive(r, h))
  {
    ActAllQueues(q, did, time);
    EditQueues(ActAll(q, did, time), h, time);
  }

  lemma FirstOut(timers: seq<Timer>, due: seq<Timer>)
    requires due != [] && |due| <= |timers| && timers[..|due|] == due && DistinctJobs(timers)
    ensures forall x :: x in timers[1..] <==> x in timers && x != due[0]
  {
    assert timers[0] == timers[..|due|][0];
    assert timers == [timers[0]] + timers[1..];
  }

  /**
   What is queued after the turn of the job h of timer `first` that did `did` at `time`: the
   others, what it added, and the job itself again, its period later, under a new handle
   that is live if the old one was.
   */
  ghost predicate QueuesExactly(q: Queue, r: Queue, first: Timer, did: seq<Action>, time: nat)
    requires first.job < |q.jobs|
  {
    var d, new_ := Period(q, first.job, did), |q.jobs| + Adds(did);
    && (forall x :: x in r.timers <==>
          x != first && (x in q.timers || x in Queued(did, time, |q.jobs|) || x in Again(d, time, new_)))
    && (d > 0 ==> |r.jobs| == new_ + 1 && r.jobs[new_] == q.jobs[first.job] && !IsLive(r, first.job))
  }

  lemma QueuesFrom(q: Queue, due: seq<Timer>, did: seq<Action>, time: nat)
    requires due != [] && due[0].job < |q.jobs| <= |ActAll(q, did, time).jobs|
    requires ActAll(q, did, time).jobs[due[0].job] == if Cancels(did, due[0].job) then Job(false, 0) else q.jobs[due[0].job]
    requires var timers := Edit(ActAll(q, did, time), due[0].job, time).timers;
      |due| <= |timers| && timers[..|due|] == due && DistinctJobs(timers)
    ensures var q2 := Edit(ActAll(q, did, time), due[0].job, time);
      QueuesExactly(q, q2.(timers := q2.timers[1..]), due[0], did, time)
  {
    TurnAdds(q, due[0].job, did, time);
    FirstOut(Edit(ActAll(q, did, time), due[0].job, time).timers, due);
  }

  /**
   A turn takes the due timer out and queues what its callback adds; a periodic job that
   did not cancel itself is queued again.  No job is ever queued twice, so the set of
   timers says it all.
   */
  lemma TurnQueues(q: Queue, due: seq<Timer>, acts: Acts, clock: Clock, now: nat, n: nat)
    requires Splits(q, due, now) && due != [] && Forward(acts, clock, now)
    ensures due[0].job < |q.jobs|
    ensures QueuesExactly(q, TakeTurn(q, acts, clock, n), due[0], Did(q, due[0].job, acts(n)), clock(n))
  {
    var did := Did(q, due[0].job, acts(n));
    TurnFirst(q, due, did, now, clock(n));
    QueuesFrom(q, due, did, clock(n));
    TurnIs(q, due[0], acts, clock, n);
  }

  /** The due timers stay in front while a turn is under way. */
  lemma TurnFirst(q: Queue, due: seq<Timer>, did: seq<Action>, now: nat, time: nat)
    requires Splits(q, due, now) && due != [] && time >= now
    requires forall i :: 0 <= i < |did| && did[i].Add? ==> did[i].delay > 0
    ensures var q1, h := ActAll(q, did, time), due[0].job;
      && h < |q.jobs| <= |q1.jobs| && q.timers != [] && q.timers[0] == due[0]
      && q1.jobs[h] == (if Cancels(did, h) then Job(false, 0) else q.jobs[h])
      && var timers := Edit(q1, h, time).timers;
         |due| <= |timers| && timers[..|due|] == due && DistinctJobs(timers)
  {
    assert q.timers[0] == q.timers[..|due|][0] && q.timers[0].job < |q.jobs|;
    ActAllKeeps(q, due, now, did, time);
    EditKeeps(ActAll(q, did, time), due, now, due[0].job, time);
  }

  lemma TurnIs(q: Queue, first: Timer, acts: Acts, clock: Clock, n: nat)
    requires q.timers != [] && q.timers[0] == first
    requires Edit(ActAll(q, Did(q, first.job, acts(n)), clock(n)), first.job, clock(n)).timers != []
    ensures var q2 := Edit(ActAll(q, Did(q, first.job, acts(n)), clock(n)), first.job, clock(n));
      TakeTurn(q, acts, clock, n) == q2.(timers := q2.timers[1..])
  {
  }

  // -------------------------------------------------------------------------- run

  /** The timers due by now, of an ordered queue. */
  function Due(timers: seq<Timer>, now: nat): (due: seq<Timer>)
    ensures due <= timers && forall i :: 0 <= i < |due| ==> due[i].time <= now
    ensures |due| < |timers| ==> timers[|due|].time > now
  {
    if timers == [] || timers[0].time > now then [] else [timers[0]] + Due(timers[1..], now)
  }

  /** Kept by every operation: ordered by deadline, and no job is queued twice. */
  ghost predicate QueueOk(q: Queue) {
    Ordered(q.timers) && DistinctJobs(q.timers) && forall i :: 0 <= i < |q.timers| ==> q.timers[i].job < |q.jobs|
  }

  lemma AddOk(q: Queue, job: Job, time: nat)
    requires QueueOk(q)
    ensures QueueOk(AddJob(q, job, time))
  {
    var t := Timer(time, |q.jobs|);
    EmplaceOrdered(q.timers, t);
    EmplaceMembers(q.timers, t);
    forall x | x in q.timers ensures x.job != t.job {
      var i :| 0 <= i < |q.timers| && q.timers[i] == x;
    }
    EmplaceDistinct(q.timers, t);
    var r := AddJob(q, job, time);
    forall i | 0 <= i < |r.timers| ensures r.timers[i].job < |r.jobs| {
      assert r.timers[i] in r.timers;
    }
  }

  lemma DueSplits(q: Queue, now: nat)
    requires QueueOk(q)
    ensures Splits(q, Due(q.timers, now), now)
  {
    var due := Due(q.timers, now);
    assert q.timers[..|due|] == due;
    forall i | |due| <= i < |q.timers| ensures q.timers[i].time > now {
      assert i > |due| ==> q.timers[|due|].time <= q.timers[i].time;
    }
  }

  /** The queues a run goes through, one turn after another. */
  ghost predicate Trace(qs: seq<Queue>, turns: seq<Turn>, acts: Acts, clock: Clock) {
    && |qs| == |turns| + 1
    && forall i :: 0 <= i < |turns| ==>
         && qs[i].timers != []
         && turns[i] == Turn(qs[i].timers[0].job, IsLive(qs[i], qs[i].timers[0].job))
         && qs[i + 1] == TakeTurn(qs[i], acts, clock, i)
  }

  /** Some callback before turn k cancelled the job. */
  ghost predicate CancelledBefore(turns: seq<Turn>, acts: Acts, k: nat, h: nat)
    requires k <= |turns|
  {
    exists i :: 0 <= i < k && turns[i].fired && Cancels(acts(i), h)
  }

  /** Before turn k the first k due timers are gone and all other timers are untouched. */
  lemma {:induction false} TraceSplits(qs: seq<Queue>, turns: seq<Turn>, due: seq<Timer>, acts: Acts, clock: Clock, now: nat, k: nat)
    requires Trace(qs, turns, acts, clock) && Splits(qs[0], due, now) && Forward(acts, clock, now)
    requires k <= |turns| && k <= |due|
    ensures Splits(qs[k], due[k..], now) && |qs[0].jobs| <= |qs[k].jobs|
  {
    if k > 0 {
      TraceSplits(qs, turns, due, acts, clock, now, k - 1);
      TurnKeeps(qs[k - 1], due[k - 1..], acts, clock, now, k - 1);
      assert due[k - 1..][1..] == due[k..];
    } else {
      assert due[0..] == due;
    }
  }

  /** The job of a due timer is live before turn k unless it was dead or got cancelled. */
  lemma {:induction false} TraceLive(qs: seq<Queue>, turns: seq<Turn>, due: seq<Timer>, acts: Acts, clock: Clock, now: nat, k: nat, m: nat)
    requires Trace(qs, turns, acts, clock) && Splits(qs[0], due, now) && Forward(acts, clock, now)
    requires k <= |turns| && k <= m < |due|
    ensures IsLive(qs[k], due[m].job) <==> IsLive(qs[0], due[m].job) && !CancelledBefore(turns, acts, k, due[m].job)
  {
    var h := due[m].job;
    assert qs[0].timers[m] == due[m];
    if k > 0 {
      var j := k - 1;
      TraceLive(qs, turns, due, acts, clock, now, j, m);
      TraceSplits(qs, turns, due, acts, clock, now, j);
      TurnKeeps(qs[j], due[j..], acts, clock, now, j);
      assert due[j..][0] == due[j] && qs[j].timers[0] == due[j];
      assert qs[0].timers[j] == due[j] && due[j].job != h;
      assert CancelledBefore(turns, acts, k, h) <==>
        CancelledBefore(turns, acts, j, h) || (turns[j].fired && Cancels(acts(j), h));
    }
  }

  /** At every turn of a run exactly the right timers are queued. */
  lemma RunQueues(qs: seq<Queue>, turns: seq<Turn>, acts: Acts, clock: Clock, now: nat, k: nat)
    requires Trace(qs, turns, acts, clock) && QueueOk(qs[0]) && Forward(acts, clock, now)
    requires k < |turns| == |Due(qs[0].timers, now)|
    ensures var first := Due(qs[0].timers, now)[k];
      && first.job < |qs[k].jobs|
      && QueuesExactly(qs[k], qs[k + 1], first, Did(qs[k], first.job, acts(k)), clock(k))
  {
    var due := Due(qs[0].timers, now);
    DueSplits(qs[0], now);
    TraceSplits(qs, turns, due, acts, clock, now, k);
    TurnQueues(qs[k], due[k..], acts, clock, now, k);
  }

  /**
   What a run does: every due timer has exactly one turn, in deadline order with ties in
   insertion order; a job fires at its turn exactly if it was live at the start and no
   earlier callback of the run cancelled it; and only later deadlines are left.
   */
  lemma RunFiresTheDue(qs: seq<Queue>, turns: seq<Turn>, acts: Acts, clock: Clock, now: nat)
    requires Trace(qs, turns, acts, clock) && QueueOk(qs[0]) && Forward(acts, clock, now)
    requires |turns| == |Due(qs[0].timers, now)|
    ensures var due, last := Due(qs[0].timers, now), qs[|turns|];
      && (forall k :: 0 <= k < |due| ==> turns[k].job == due[k].job)
      && (forall k :: 0 <= k < |due| ==>
            (turns[k].fired <==> IsLive(qs[0], due[k].job) && !CancelledBefore(turns, acts, k, due[k].job)))
      && QueueOk(last)
      && (forall i :: 0 <= i < |last.timers| ==> last.timers[i].time > now)
  {
    var due := Due(qs[0].timers, now);
    DueSplits(qs[0], now);
    forall k | 0 <= k < |due|
      ensures turns[k].job == due[k].job
      ensures turns[k].fired <==> IsLive(qs[0], due[k].job) && !CancelledBefore(turns, acts, k, due[k].job)
    {
      TraceSplits(qs, turns, due, acts, clock, now, k);
      assert due[k..][0] == due[k] && qs[k].timers[0] == due[k];
      TraceLive(qs, turns, due, acts, clock, now, k, k);
    }
    TraceSplits(qs, turns, due, acts, clock, now, |due|);
  }

  // --------------------------------------------------------------------- the class

  class Scheduler {
    var timers: seq<Timer>
    var jobs: seq<Job>

    constructor ()
      ensures View() == Queue([], [])
    {
      timers, jobs := [], [];
    }

    ghost function View(): Queue
      reads this
    {
      Queue(timers, jobs)
    }

    method Add(job: Job, time: nat)
      modifies this
      ensures View() == AddJob(old(View()), job, time)
    {
      if time != NEVER {
        EmplaceTimer(Timer(time, |jobs|));
      }
      jobs := jobs + [job];
    }

    /** Looks for the first later timer and puts the new one before it. */
    method EmplaceTimer(t: Timer)
      modifies this`timers
      ensures timers == Emplace(old(timers), t)
    {
      var k := 0;
      while k < |timers| && timers[k].time <= t.time
        invariant 0 <= k <= |timers|
        invariant Emplace(timers, t) == timers[..k] + Emplace(timers[k..], t)
      {
        assert timers[k..][1..] == timers[k + 1..];
        k := k + 1;
      }
      assert timers[k..] == [] || timers[k..][0].time > t.time;
      timers := timers[..k] + [t] + timers[k..];
    }

    method CancelHandle(h: nat)
      modifies this`jobs
      ensures View() == CancelJob(old(View()), h)
    {
      if h < |jobs| {
        jobs := jobs[h := Job(false, 0)];
      }
    }

    /** The effect of a callback. */
    method Perform(acts: seq<Action>, time: nat)
      modifies this
      ensures View() == ActAll(old(View()), acts, time)
    {
      for i := 0 to |acts|
        invariant View() == ActAll(old(View()), acts[..i], time)
      {
        assert acts[..i + 1][..i] == acts[..i];
        match acts[i]
        case Add(delay, fixedDelay) => Add(Job(true, fixedDelay), time + delay);
        case Cancel(h) => CancelHandle(h);
      }
      assert acts[..|acts|] == acts;
    }

    method EditJob(h: nat, time: nat)
      modifies this
      ensures View() == Edit(old(View()), h, time)
    {
      if h < |jobs| && jobs[h].fixedDelay > 0 {
        var job := jobs[h];
        CancelHandle(h);
        Add(job, time + job.fixedDelay);
      }
    }

    method RunFirst(acts: Acts, clock: Clock, n: nat) returns (fired: bool)
      requires timers != []
      modifies this
      ensures View() == TakeTurn(old(View()), acts, clock, n)
      ensures fired == IsLive(old(View()), old(timers)[0].job)
    {
      var h := timers[0].job;
      fired := h < |jobs| && jobs[h].live;
      if fired {
        Perform(acts(n), clock(n));
      }
      EditJob(h, clock(n));
      if timers != [] {
        timers := timers[1..];
      }
    }

    /** One round of the run loop; rest are the due timers that are left. */
    method NextTurn(acts: Acts, clock: Clock, now: nat, n: nat, ghost rest: seq<Timer>) returns (turn: Turn)
      requires Splits(View(), rest, now) && Forward(acts, clock, now) && timers != [] && timers[0].time <= now
      modifies this
      ensures rest != [] && Splits(View(), rest[1..], now)
      ensures View() == TakeTurn(old(View()), acts, clock, n)
      ensures turn == Turn(old(timers)[0].job, IsLive(old(View()), old(timers)[0].job))
    {
      TurnKeeps(View(), rest, acts, clock, now, n);
      var h := timers[0].job;
      var fired := RunFirst(acts, clock, n);
      turn := Turn(h, fired);
    }

    /** Runs what is due by now; qs are the queues in between. */
    method Run(acts: Acts, clock: Clock, now: nat) returns (turns: seq<Turn>, ghost qs: seq<Queue>)
      requires QueueOk(View()) && Forward(acts, clock, now)
      modifies this
      ensures Trace(qs, turns, acts, clock) && qs[0] == old(View()) && qs[|turns|] == View()
      ensures |turns| == |Due(old(timers), now)|
    {
      turns := [];
      qs := [View()];
      ghost var rest := Due(timers, now);
      DueSplits(View(), now);
      while timers != [] && timers[0].time <= now
        invariant Trace(qs, turns, acts, clock) && qs[0] == old(View()) && qs[|turns|] == View()
        invariant |turns| + |rest| == |Due(old(timers), now)| && Splits(View(), rest, now)
        decreases |rest|
      {
        var turn := NextTurn(acts, clock, now, |turns|, rest);
        ExtendTrace(qs, turns, acts, clock, View(), turn);
        turns := turns + [turn];
        qs := qs + [View()];
        rest := rest[1..];
      }
    }
  }

  lemma ExtendTrace(qs: seq<Queue>, turns: seq<Turn>, acts: Acts, clock: Clock, q: Queue, turn: Turn)
    requires Trace(qs, turns, acts, clock) && qs[|turns|].timers != []
    requires turn == Turn(qs[|turns|].timers[0].job, IsLive(qs[|turns|], qs[|turns|].timers[0].job))
    requires q == TakeTurn(qs[|turns|], acts, clock, |turns|)
    ensures Trace(qs + [q], turns + [turn], acts, clock)
  {
    var ps, us := qs + [q], turns + [turn];
    forall i | 0 <= i < |us|
      ensures ps[i].timers != [] && us[i] == Turn(ps[i].timers[0].job, IsLive(ps[i], ps[i].timers[0].job))
      ensures ps[i + 1] == TakeTurn(ps[i], acts, clock, i)
    {
      assert ps[i] == qs[i];
      assert i < |turns| ==> ps[i + 1] == qs[i + 1] && us[i] == turns[i];
    }
  }
}
