// The counting semaphore of the scheduler (utility/cos_semaphore.h and
// utility/cos_semaphore.c): a signed 8-bit counter and a list of the tasks
// blocked on it, built from the task-list primitives. A waiting task is put at
// the head of the list and a signal wakes the head, so the task that blocked
// last is woken first.

module Semaphore {
  import opened CosTypes
  import opened TaskList
  import Scheduler

  // ---------------------------------------------------------------------------
  // The semaphore as a value: what COS_SEM_WAIT and COS_SEM_SIGNAL do to it

  /** The counter and the handles in the waiting list, head first. */
  datatype SemState = SemState(count: int, waiters: seq<TaskId>)

  /**
   * The documented reading of the counter: a negative count is the number
   * of waiting tasks, and while it is not negative nobody waits.
   */
  predicate Balanced(s: SemState)
  {
    if s.count < 0 then |s.waiters| == -s.count else s.waiters == []
  }

  /** COS_SEM_WAIT for task `t`: it blocks (and is prepended) when the count is not positive; the count drops by one. */
  function WaitStep(s: SemState, t: TaskId): SemState
  {
    if s.count <= 0 then SemState(s.count - 1, [t] + s.waiters)
    else SemState(s.count - 1, s.waiters)
  }

  /** COS_SEM_SIGNAL: the count rises by one and the head of the waiting list, if any, leaves it. */
  function SignalStep(s: SemState): SemState
  {
    if s.waiters == [] then SemState(s.count + 1, [])
    else SemState(s.count + 1, s.waiters[1..])
  }

  /** The task COS_SEM_SIGNAL makes READY, if any. */
  function Woken(s: SemState): Option<TaskId>
  {
    if s.waiters == [] then None else Some(s.waiters[0])
  }

  /** One call on the semaphore. */
  datatype SemOp = Wait(task: TaskId) | Signal

  function Apply(s: SemState, op: SemOp): SemState
  {
    match op
    case Wait(t) => WaitStep(s, t)
    case Signal => SignalStep(s)
  }

  /** The state after a sequence of calls, in order. */
  function Run(s: SemState, ops: seq<SemOp>): SemState
    decreases |ops|
  {
    if ops == [] then s else Run(Apply(s, ops[0]), ops[1..])
  }

  /** Each task waits in turn, first element first. */
  function WaitAll(s: SemState, ts: seq<TaskId>): SemState
    decreases |ts|
  {
    if ts == [] then s else WaitAll(WaitStep(s, ts[0]), ts[1..])
  }

  /** The tasks `k` successive signals make READY, in the order they are woken. */
  function WakeOrder(s: SemState, k: nat): seq<TaskId>
    decreases k
  {
    if k == 0 then []
    else
      (match Woken(s) case Some(t) => [t] case None => []) + WakeOrder(SignalStep(s), k - 1)
  }

  /** COS_SEM_WAIT keeps the counter's documented meaning. */
  lemma WaitKeepsBalanced(s: SemState, t: TaskId)
    requires Balanced(s)
    ensures Balanced(WaitStep(s, t))
    ensures WaitStep(s, t).count < 0 ==> WaitStep(s, t).waiters[0] == t || s.count > 0
  {
    if s.count <= 0 {
      assert |[t] + s.waiters| == 1 + |s.waiters|;
    }
  }

  /** COS_SEM_SIGNAL keeps the counter's documented meaning. */
  lemma SignalKeepsBalanced(s: SemState)
    requires Balanced(s)
    ensures Balanced(SignalStep(s))
    ensures Woken(s).Some? <==> s.count < 0
  {
  }

  /** The number of signals in a sequence of calls. */
  function NumSignals(ops: seq<SemOp>): (n: nat)
    ensures n <= |ops|
    decreases |ops|
  {
    if ops == [] then 0
    else (if ops[0] == Signal then 1 else 0) + NumSignals(ops[1..])
  }

  /**
   * Whatever sequence of waits and signals is applied, a balanced semaphore
   * stays balanced, and its count has moved by one per call.
   */
  lemma {:induction false} RunKeepsBalanced(s: SemState, ops: seq<SemOp>)
    requires Balanced(s)
    ensures Balanced(Run(s, ops))
    ensures Run(s, ops).count == s.count + NumSignals(ops) - (|ops| - NumSignals(ops))
    decreases |ops|
  {
    if ops != [] {
      if ops[0].Wait? {
        WaitKeepsBalanced(s, ops[0].task);
      } else {
        SignalKeepsBalanced(s);
      }
      RunKeepsBalanced(Apply(s, ops[0]), ops[1..]);
    }
  }

  /**
   * Tasks that wait on a semaphore whose count is not positive all block,
   * and the list holds them latest first.
   */
  lemma {:induction false} WaitAllStacks(s: SemState, ts: seq<TaskId>)
    requires s.count <= 0
    ensures WaitAll(s, ts) == SemState(s.count - |ts|, Reversed(ts) + s.waiters)
    decreases |ts|
  {
    if ts != [] {
      var s1 := WaitStep(s, ts[0]);
      WaitAllStacks(s1, ts[1..]);
      assert Reversed(ts) == Reversed(ts[1..]) + [ts[0]];
    }
  }

  /** Signals wake the waiting tasks from the head of the list on. */
  lemma {:induction false} WakeOrderPrefix(s: SemState, p: seq<TaskId>, rest: seq<TaskId>)
    requires s.waiters == p + rest
    ensures WakeOrder(s, |p|) == p
    ensures |p| > 0 ==> Woken(s) == Some(p[0])
    decreases |p|
  {
    if p != [] {
      assert SignalStep(s).waiters == p[1..] + rest;
      WakeOrderPrefix(SignalStep(s), p[1..], rest);
    }
  }

  /**
   * The wake order is LIFO: when tasks block one after another, as many
   * signals wake them in the reverse order, the latest first.
   */
  lemma LifoWake(s: SemState, ts: seq<TaskId>)
    requires s.count <= 0
    ensures WakeOrder(WaitAll(s, ts), |ts|) == Reversed(ts)
  {
    WaitAllStacks(s, ts);
    WakeOrderPrefix(WaitAll(s, ts), Reversed(ts), s.waiters);
  }

  // ---------------------------------------------------------------------------
  // CosSema_t

  /** CosSema_t: the counter and the root pointer of the waiting list. */
  class CosSema {
    var count: int8
    const waiting: TaskList

    ghost predicate Valid()
      reads this, waiting, waiting.Repr
    {
      waiting.Valid() && this !in waiting.Repr
    }

    /** The semaphore as a value. */
    ghost function State(): SemState
      reads this, waiting
    {
      SemState(count, waiting.tasks)
    }

    /** A zero-initialised CosSema_t variable. */
    constructor ()
      ensures Valid() && fresh(waiting.Repr) && count == 0 && waiting.tasks == []
    {
      count := 0;
      waiting := new TaskList();
    }

    /** COS_SemCreate: the counter starts at `nStart`, the waiting list is empty (not freed); returns 0. */
    method Create(nStart: int8) returns (r: uint8)
      requires Valid()
      modifies this, waiting
      ensures Valid() && waiting.Repr == old(waiting.Repr) && r == 0
      ensures State() == SemState(nStart, [])
      ensures nStart >= 0 ==> Balanced(State())
    {
      count := nStart;
      waiting.Clear();
      r := 0;
    }

    /**
     * COS_SemDestroy: pops the nodes of the waiting list one by one; the
     * tasks and the counter are left as they are. Returns 0.
     */
    method Destroy() returns (r: uint8)
      requires Valid()
      modifies waiting
      ensures Valid() && waiting.Repr == old(waiting.Repr) && r == 0
      ensures State() == SemState(old(count), [])
    {
      while waiting.root != null
        invariant Valid() && waiting.Repr == old(waiting.Repr)
        decreases |waiting.nodes|
      {
        waiting.DropHead();
      }
      r := 0;
    }

    /**
     * COS_SEM_WAIT(s, pt) up to its return: the resume label is stored;
     * with a count that is not positive the task becomes BLOCKED and is
     * prepended to the waiting list; the count drops by one in every case.
     * A count of -128 would wrap, which the C code does not guard against.
     */
    method Wait(heap: TaskHeap, t: TaskId, line: uint16)
      requires Valid() && heap !in waiting.Repr
      requires t in heap.tasks && count > -0x80
      modifies this, waiting, heap
      ensures Valid() && fresh(waiting.Repr - old(waiting.Repr)) && old(waiting.Repr) <= waiting.Repr
      ensures State() == WaitStep(old(State()), t)
      ensures old(Balanced(State())) ==> Balanced(State())
      ensures heap.tasks == old(heap.tasks)[t := old(heap.tasks[t]).(
        lineCnt := line,
        state := if old(count) <= 0 then Blocked else old(heap.tasks[t].state))]
      ensures old(count) <= 0 ==> forall now: uint16 :: !Scheduler.Eligible(heap.tasks[t], now)
    {
      ghost var before := State();
      var rec := heap.tasks[t].(lineCnt := line);
      if count <= 0 {
        rec := rec.(state := Blocked);
        waiting.Prepend(t);
      }
      heap.Update(t, rec);
      count := count - 1;
      if Balanced(before) {
        WaitKeepsBalanced(before, t);
      }
    }

    /**
     * COS_SEM_SIGNAL: the count rises by one; when a task waits, the task at
     * the head of the list becomes READY and its node is unlinked, the rest
     * of the list keeping its order. A count of 127 would wrap.
     */
    method Signal(heap: TaskHeap) returns (ghost woken: Option<TaskId>)
      requires Valid() && heap !in waiting.Repr && count < 0x7F
      requires waiting.tasks != [] ==> waiting.tasks[0] in heap.tasks
      modifies this, waiting.Repr, heap
      ensures Valid() && waiting.Repr == old(waiting.Repr)
      ensures State() == SignalStep(old(State())) && woken == Woken(old(State()))
      ensures old(Balanced(State())) ==> Balanced(State())
      ensures woken.None? ==> heap.tasks == old(heap.tasks)
      ensures woken.Some? ==> heap.tasks == old(heap.tasks)[woken.value := old(heap.tasks[woken.value]).(state := Ready)]
    {
      ghost var before := State();
      count := count + 1;
      woken := None;
      if waiting.root != null {
        var t := waiting.root.task;
        woken := Some(t);
        assert t == waiting.tasks[0];
        heap.Update(t, heap.tasks[t].(state := Ready));
        UnlinkHead(t);
      }
      if Balanced(before) {
        SignalKeepsBalanced(before);
      }
    }

    /** _unlinkTaskFromTaskList(root_pt, t) where `t` is carried by the head node. */
    method UnlinkHead(t: TaskId)
      requires Valid() && waiting.tasks != [] && waiting.tasks[0] == t
      modifies waiting.Repr
      ensures Valid() && waiting.Repr == old(waiting.Repr)
      ensures waiting.tasks == old(waiting.tasks)[1..]
    {
      IndexOfUnique(waiting.tasks, t, 0);
      waiting.Unlink(t);
    }
  }
}
