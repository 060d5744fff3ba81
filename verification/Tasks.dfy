/**
 Life cycle of a task: its states, its completion listeners, and the counter that turns
 update requests arriving during an update into later passes.
 */
module Tasks {

  datatype TaskState = INITIAL | QUEUED | RUNNING | FINISHED | CANCELED

  predicate Terminal(s: TaskState) {
    s == FINISHED || s == CANCELED
  }

  /** A task as a value; `notified` lists the listener calls made so far. */
  datatype T = T(state: TaskState, listeners: seq<nat>, notified: seq<nat>)

  datatype Op = AddListener(listener: nat) | Enqueue | Start | Cancel | Finish

  /** The one transition into a terminal state tells every listener. */
  function Terminate(t: T, to: TaskState): T {
    if Terminal(t.state) then t else T(to, t.listeners, t.notified + t.listeners)
  }

  function Apply(t: T, op: Op): T {
    match op
    case AddListener(l) =>
      T(t.state, t.listeners + [l], if Terminal(t.state) then t.notified + [l] else t.notified)
    case Enqueue => if t.state == INITIAL then t.(state := QUEUED) else t
    case Start => if t.state == INITIAL || t.state == QUEUED then t.(state := RUNNING) else t
    case Cancel => Terminate(t, CANCELED)
    case Finish => Terminate(t, FINISHED)
  }

  function Run(t: T, ops: seq<Op>): T {
    if ops == [] then t else Apply(Run(t, ops[..|ops| - 1]), ops[|ops| - 1])
  }

  ghost predicate Told(t: T) {
    if Terminal(t.state) then multiset(t.notified) == multiset(t.listeners) else t.notified == []
  }

  lemma ApplyTold(t: T, op: Op)
    requires Told(t)
    ensures Told(Apply(t, op))
    ensures Terminal(t.state) ==> Apply(t, op).state == t.state
    ensures t.notified <= Apply(t, op).notified
  {
    if op.Cancel? || op.Finish? {
      assert [] + t.listeners == t.listeners;
    }
  }

  const NEW := T(INITIAL, [], [])

  lemma {:induction false} RunTold(ops: seq<Op>)
    ensures Told(Run(NEW, ops))
  {
    if ops != [] {
      RunTold(ops[..|ops| - 1]);
      ApplyTold(Run(NEW, ops[..|ops| - 1]), ops[|ops| - 1]);
    }
  }

  /** A terminal state is never left, and no call of a listener is undone. */
  lemma {:induction false} RunGoesOn(ops: seq<Op>, more: seq<Op>)
    ensures var t, u := Run(NEW, ops), Run(NEW, ops + more);
      (Terminal(t.state) ==> u.state == t.state) && t.notified <= u.notified
  {
    if more == [] {
      assert ops + more == ops;
    } else {
      var n := |more| - 1;
      var front := ops + more[..n];
      RunGoesOn(ops, more[..n]);
      assert ops + more == front + [more[n]];
      OneMore(front, more[n]);
      PrefixOfPrefix(Run(NEW, ops).notified, Run(NEW, front).notified, Run(NEW, ops + more).notified);
    }
  }

  lemma OneMore(ops: seq<Op>, op: Op)
    ensures var t, u := Run(NEW, ops), Run(NEW, ops + [op]);
      (Terminal(t.state) ==> u.state == t.state) && t.notified <= u.notified
  {
    assert (ops + [op])[..|ops|] == ops;
    RunTold(ops);
    ApplyTold(Run(NEW, ops), op);
  }

  lemma PrefixOfPrefix<U>(a: seq<U>, b: seq<U>, c: seq<U>)
    requires a <= b && b <= c
    ensures a <= c
  {
  }

  /**
   In every run each listener is called once for each time it was added if the task has
   ended, and not at all before; a terminal state is never left, and no call is undone.
   */
  lemma EachListenerOnce(ops: seq<Op>, more: seq<Op>)
    ensures var t, u := Run(NEW, ops), Run(NEW, ops + more);
      && (Terminal(t.state) ==> multiset(t.notified) == multiset(t.listeners) && u.state == t.state)
      && (!Terminal(t.state) ==> t.notified == [])
      && t.notified <= u.notified
  {
    RunTold(ops);
    RunGoesOn(ops, more);
  }

  /** As long as it has not ended, a task runs exactly if it was started. */
  lemma {:induction false} RunsOnceStarted(ops: seq<Op>)
    ensures !Terminal(Run(NEW, ops).state) ==> (Run(NEW, ops).state == RUNNING <==> Op.Start in ops)
  {
    if ops != [] {
      RunsOnceStarted(ops[..|ops| - 1]);
      assert ops == ops[..|ops| - 1] + [ops[|ops| - 1]];
    }
  }

  /** A task is cancelled exactly if a cancellation comes before any finish, and finished the other way round. */
  lemma {:induction false} FirstEndDecides(ops: seq<Op>)
    ensures Run(NEW, ops).state == CANCELED <==>
      exists i :: 0 <= i < |ops| && ops[i] == Op.Cancel && forall j :: 0 <= j < i ==> ops[j] != Op.Finish
    ensures Run(NEW, ops).state == FINISHED <==>
      exists i :: 0 <= i < |ops| && ops[i] == Op.Finish && forall j :: 0 <= j < i ==> ops[j] != Op.Cancel
  {
    if ops != [] {
      var n := |ops| - 1;
      FirstEndDecides(ops[..n]);
      var t := Run(NEW, ops[..n]);
      assert ops[..n][..n] == ops[..n];
      if t.state == CANCELED {
        var i :| 0 <= i < n && ops[..n][i] == Op.Cancel && forall j :: 0 <= j < i ==> ops[..n][j] != Op.Finish;
        assert ops[i] == Op.Cancel && forall j :: 0 <= j < i ==> ops[j] == ops[..n][j];
      } else if t.state == FINISHED {
        var i :| 0 <= i < n && ops[..n][i] == Op.Finish && forall j :: 0 <= j < i ==> ops[..n][j] != Op.Cancel;
        assert ops[i] == Op.Finish && forall j :: 0 <= j < i ==> ops[j] == ops[..n][j];
      } else {
        NoEndYet(ops[..n]);
        assert forall j :: 0 <= j < n ==> ops[j] == ops[..n][j];
      }
    }
  }

  lemma {:induction false} NoEndYet(ops: seq<Op>)
    requires !Terminal(Run(NEW, ops).state)
    ensures forall i :: 0 <= i < |ops| ==> ops[i] != Op.Cancel && ops[i] != Op.Finish
  {
    if ops != [] {
      NoEndYet(ops[..|ops| - 1]);
      assert forall i :: 0 <= i < |ops| - 1 ==> ops[i] == ops[..|ops| - 1][i];
    }
  }

  // ------------------------------------------------------------ serialized update

  /**
   What a pass meets: how many requests arrive during it, what isDone says before and
   after update(), and whether more requests may be sent.
   */
  datatype PassInput = PassInput(arrivals: nat, done: bool, canDoRequest: bool, doneAfter: bool)

  /** What pass k meets; nothing arrives any more behind the end of the list. */
  function Meets(inputs: seq<PassInput>, k: nat): PassInput {
    if k < |inputs| then inputs[k] else PassInput(0, false, false, false)
  }

  /** The body of one pass. */
  function AfterPass(t: T, p: PassInput): T {
    var t1 := if p.done then Apply(t, Finish) else t;
    if p.canDoRequest && !Terminal(t1.state) && p.doneAfter then Apply(t1, Finish) else t1
  }

  /** A pass ends a running task exactly if isDone says so, before update() or after one that it did call. */
  lemma PassEndsIff(t: T, p: PassInput)
    ensures AfterPass(t, p).state ==
      if !Terminal(t.state) && (p.done || (p.canDoRequest && p.doneAfter)) then FINISHED else t.state
  {
  }

  function AfterPasses(t: T, inputs: seq<PassInput>, n: nat): T {
    if n == 0 then t else AfterPass(AfterPasses(t, inputs, n - 1), Meets(inputs, n - 1))
  }

  /** Whether pass k calls update(). */
  predicate Updates(t: T, inputs: seq<PassInput>, k: nat) {
    var before, p := AfterPasses(t, inputs, k), Meets(inputs, k);
    p.canDoRequest && !p.done && !Terminal(before.state)
  }

  /** However many passes: listeners are told at the end only, and an ended task calls update() no more. */
  lemma {:induction false} PassesTold(t: T, inputs: seq<PassInput>, n: nat)
    requires Told(t)
    ensures Told(AfterPasses(t, inputs, n))
    ensures forall k :: 0 <= k <= n && Terminal(AfterPasses(t, inputs, k).state) ==>
      AfterPasses(t, inputs, n) == AfterPasses(t, inputs, k) && !Updates(t, inputs, n)
  {
    if n > 0 {
      PassesTold(t, inputs, n - 1);
      var u := AfterPasses(t, inputs, n - 1);
      ApplyTold(u, Finish);
    }
  }

  class Task {
    var state: TaskState
    var listeners: seq<nat>
    var notified: seq<nat>
    var lock: nat
    /** For each pass made so far, whether it called update(). */
    ghost var passes: seq<bool>

    constructor ()
      ensures View() == NEW && lock == 0 && passes == []
    {
      state, listeners, notified, lock, passes := INITIAL, [], [], 0, [];
    }

    ghost function View(): T
      reads this
    {
      T(state, listeners, notified)
    }

    method SetState(expected: seq<TaskState>, newState: TaskState) returns (ok: bool)
      modifies this`state
      ensures ok <==> old(state) in expected
      ensures state == if ok then newState else old(state)
    {
      ok := state in expected;
      if ok {
        state := newState;
      }
    }

    method NotifyCompletionListeners()
      modifies this`notified
      ensures notified == old(notified) + listeners
    {
      for i := 0 to |listeners|
        invariant notified == old(notified) + listeners[..i]
      {
        notified := notified + [listeners[i]];
      }
      assert listeners[..|listeners|] == listeners;
    }

    method AddListener(listener: nat)
      modifies this`listeners, this`notified
      ensures View() == Apply(old(View()), Op.AddListener(listener))
    {
      if Terminal(state) {
        notified := notified + [listener];
      }
      listeners := listeners + [listener];
    }

    method Cancel()
      modifies this`state, this`notified
      ensures View() == Apply(old(View()), Op.Cancel)
    {
      var ok := SetState([INITIAL, QUEUED, RUNNING], CANCELED);
      if ok {
        NotifyCompletionListeners();
      }
    }

    /** start() up to its first update; true if the task was still waiting. */
    method Start() returns (started: bool)
      modifies this`state
      ensures View() == Apply(old(View()), Op.Start)
      ensures started <==> old(state) == INITIAL || old(state) == QUEUED
    {
      started := SetState([INITIAL, QUEUED], RUNNING);
    }

    method Finish()
      modifies this`state, this`notified
      ensures View() == Apply(old(View()), Op.Finish)
    {
      var ok := SetState([INITIAL, QUEUED, RUNNING], FINISHED);
      if ok {
        NotifyCompletionListeners();
      }
    }

    /** A request that arrives while a pass is under way: counted, nothing else. */
    method NestedUpdate()
      requires lock > 0
      modifies this`lock
      ensures lock == old(lock) + 1
    {
      lock := lock + 1;
      var current := lock;
      if current > 1 {
        return;
      }
    }

    /** update(), during which n requests arrive. */
    method Update(n: nat)
      requires lock > 0
      modifies this`lock
      ensures lock == old(lock) + n
    {
      for i := 0 to n
        invariant lock == old(lock) + i
      {
        NestedUpdate();
      }
    }

    /** One pass; what arrives while it finishes the task, or anyhow, only raises the counter. */
    method OnePass(p: PassInput)
      requires lock > 0
      modifies this`lock, this`state, this`notified, this`passes
      ensures lock == old(lock) + p.arrivals
      ensures View() == AfterPass(old(View()), p)
      ensures passes == old(passes) + [p.canDoRequest && !p.done && !Terminal(old(state))]
    {
      if p.done {
        Finish();
      }
      var updating := p.canDoRequest && !Terminal(state);
      Update(p.arrivals);
      if updating {
        if p.doneAfter {
          Finish();
        }
      }
      passes := passes + [updating];
    }

    /**
     The outermost update.  Pass k + 1 follows pass k exactly if requests arrived during
     pass k, so every request is followed by a whole later pass, and the counter is back
     at zero at the end.
     */
    method SerializedUpdate(inputs: seq<PassInput>) returns (made: nat)
      requires lock == 0
      modifies this`lock, this`state, this`notified, this`passes
      ensures lock == 0 && made > 0 && |passes| == |old(passes)| + made
      ensures forall k :: 0 <= k < made - 1 ==> Meets(inputs, k).arrivals > 0
      ensures Meets(inputs, made - 1).arrivals == 0
      ensures View() == AfterPasses(old(View()), inputs, made)
      ensures forall k :: 0 <= k < made ==> passes[|old(passes)| + k] == Updates(old(View()), inputs, k)
    {
      made := 0;
      lock := lock + 1;
      var current := lock;
      while true
        invariant lock == current > 0 && |passes| == |old(passes)| + made
        invariant forall k :: 0 <= k < made ==> Meets(inputs, k).arrivals > 0
        invariant View() == AfterPasses(old(View()), inputs, made)
        invariant forall k :: 0 <= k < made ==> passes[|old(passes)| + k] == Updates(old(View()), inputs, k)
        decreases |inputs| - made
      {
        OnePass(Meets(inputs, made));
        made := made + 1;
        lock := lock - current;
        current := lock;
        if current == 0 {
          break;
        }
      }
    }
  }
}
