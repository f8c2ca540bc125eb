// The cooperative, priority-based scheduler (utility/cos_scheduler.c and
// utility/cos_scheduler.h, with the openCM9.04 dispatch loop of
// CosScheduler.cpp).
//
// The scheduler owns the global task list `root_g`, kept sorted by
// non-increasing priority, and the two counters of the CPU-load estimate.
// Tasks are stackless coroutines: the scheduling-point macros store a resume
// label in the task's `lineCnt` and return; COS_TASK_BEGIN jumps back to it.

module Scheduler {
  import opened CosTypes
  import opened TaskList
  import SysTime

  /** IDLE_TASK_PERIOD_TICKS: _milliSecToTicks(10) on the configured platform. */
  const IDLE_TASK_PERIOD_TICKS: uint16 := SysTime.MilliSecToTicks(SysTime.ACTIVE_PLATFORM, 10)
  const IDLE_TASK_PRIO: uint8 := 0
  /** LOAD_MEASURE_TASK_PERIOD_TICKS: a hundred idle periods. */
  const LOAD_MEASURE_TASK_PERIOD_TICKS: uint16 := 100 * IDLE_TASK_PERIOD_TICKS
  const LOAD_MEASURE_TASK_PRIO: uint8 := 255

  /** The `__LINE__` labels of the sleep points of _idleTask and _cpuLoadMeasureTask. */
  const IDLE_SLEEP_LINE: uint16 := 284
  const LOAD_SLEEP_LINE: uint16 := 313

  /** The addresses of the two static task functions, and NULL user data. */
  const IDLE_TASK_FUNC: FuncRef := 1
  const LOAD_MEASURE_TASK_FUNC: FuncRef := 2
  const NULL_DATA: DataRef := 0

  /** Every task handle occurs at most once. */
  ghost predicate NoDuplicates(s: seq<TaskId>)
  {
    forall x :: multiset(s)[x] <= 1
  }

  /** A task is due when it is READY and at least its sleep time passed since its last activation. */
  predicate Eligible(task: CosTask, now: uint16)
  {
    task.state == Ready && SysTime.ElapsedTicks(now, task.lastActivationTicks) >= task.sleepTicks
  }

  lemma PriosAfterUpdate(h: map<TaskId, CosTask>, t: TaskId, rec: CosTask)
    requires t in h && rec.prio == h[t].prio
    ensures Prios(h[t := rec]) == Prios(h)
  {
    assert forall k :: k in Prios(h[t := rec]) <==> k in Prios(h);
  }

  /**
   * A task that became due `passed` ticks after its last activation is found
   * due exactly when `passed` reaches its sleep time, across the wrap of the
   * 16-bit clock, as long as fewer than 2^16 ticks passed.
   */
  lemma DueAfterSleep(task: CosTask, start: nat, passed: nat)
    requires task.state == Ready && task.lastActivationTicks == ToUint16(start) && passed < 0x1_0000
    ensures Eligible(task, ToUint16(start + passed)) <==> passed >= task.sleepTicks
  {
    SysTime.ElapsedAcrossWrap(start, passed);
  }

  /** Position of the first due task of `s`, scanning from the head. */
  function FirstDue(s: seq<TaskId>, tasks: map<TaskId, CosTask>, now: uint16): (r: Option<nat>)
    requires forall i :: 0 <= i < |s| ==> s[i] in tasks
    ensures r.Some? ==> r.value < |s| && Eligible(tasks[s[r.value]], now)
    ensures r.Some? ==> forall j :: 0 <= j < r.value ==> !Eligible(tasks[s[j]], now)
    ensures r.None? ==> forall j :: 0 <= j < |s| ==> !Eligible(tasks[s[j]], now)
  {
    if s == [] then None
    else if Eligible(tasks[s[0]], now) then Some(0)
    else match FirstDue(s[1..], tasks, now)
      case None => None
      case Some(k) => Some(k + 1)
  }

  /** The task at the first due position, if any. */
  function FirstDueTask(s: seq<TaskId>, tasks: map<TaskId, CosTask>, now: uint16): Option<TaskId>
    requires forall i :: 0 <= i < |s| ==> s[i] in tasks
  {
    match FirstDue(s, tasks, now)
    case None => None
    case Some(k) => Some(s[k])
  }

  /** No task before position `i` is due. */
  ghost predicate NoneDueBefore(s: seq<TaskId>, tasks: map<TaskId, CosTask>, now: uint16, i: nat)
    requires forall j :: 0 <= j < |s| ==> s[j] in tasks
  {
    i <= |s| && forall j :: 0 <= j < i ==> !Eligible(tasks[s[j]], now)
  }

  /** A due task with no due task before it is the first due task. */
  lemma FirstDueAt(s: seq<TaskId>, tasks: map<TaskId, CosTask>, now: uint16, i: nat)
    requires forall j :: 0 <= j < |s| ==> s[j] in tasks
    requires i < |s| && Eligible(tasks[s[i]], now) && NoneDueBefore(s, tasks, now, i)
    ensures FirstDue(s, tasks, now) == Some(i) && FirstDueTask(s, tasks, now) == Some(s[i])
  {
  }

  /** When the last task is not due either, there is no first due task. */
  lemma FirstDueNone(s: seq<TaskId>, tasks: map<TaskId, CosTask>, now: uint16)
    requires forall j :: 0 <= j < |s| ==> s[j] in tasks
    requires |s| > 0 && NoneDueBefore(s, tasks, now, |s| - 1) && !Eligible(tasks[s[|s| - 1]], now)
    ensures FirstDue(s, tasks, now).None? && FirstDueTask(s, tasks, now).None?
  {
  }

  /**
   * Scanning a sorted task list from its root, the first due task has the
   * highest priority of all due tasks: a due task is never passed over for a
   * due task of lower priority.
   */
  lemma FirstDueIsMostUrgent(s: seq<TaskId>, tasks: map<TaskId, CosTask>, now: uint16)
    requires forall i :: 0 <= i < |s| ==> s[i] in tasks
    requires HasPrio(s, Prios(tasks)) && SortedByPrio(s, Prios(tasks))
    ensures FirstDue(s, tasks, now).Some? ==>
      forall j :: 0 <= j < |s| && Eligible(tasks[s[j]], now) ==>
        tasks[s[FirstDue(s, tasks, now).value]].prio >= tasks[s[j]].prio
  {
    var r := FirstDue(s, tasks, now);
    if r.Some? {
      forall j | 0 <= j < |s| && Eligible(tasks[s[j]], now)
        ensures tasks[s[r.value]].prio >= tasks[s[j]].prio
      {
        assert r.value <= j;
        if r.value < j {
          assert Prios(tasks)[s[r.value]] >= Prios(tasks)[s[j]];
        }
      }
    }
  }

  /** A permutation of a duplicate-free list of allocated tasks is one as well. */
  lemma PermutationKeepsTasks(before: seq<TaskId>, after: seq<TaskId>, h: map<TaskId, CosTask>)
    requires multiset(after) == multiset(before) && NoDuplicates(before)
    requires forall i :: 0 <= i < |before| ==> before[i] in h
    ensures NoDuplicates(after)
    ensures forall i :: 0 <= i < |after| ==> after[i] in h
  {
    forall i | 0 <= i < |after| ensures after[i] in h {
      assert after[i] in multiset(before);
    }
  }

  /** Adding a task that was not listed keeps the list duplicate-free and allocated. */
  lemma AddedTaskKeepsTasks(before: seq<TaskId>, t: TaskId, after: seq<TaskId>, h: map<TaskId, CosTask>)
    requires multiset(after) == multiset(before) + multiset{t} && NoDuplicates(before) && t !in before
    requires forall i :: 0 <= i < |before| ==> before[i] in h
    requires t in h
    ensures NoDuplicates(after)
    ensures forall i :: 0 <= i < |after| ==> after[i] in h
  {
    forall i | 0 <= i < |after| ensures after[i] in h {
      assert after[i] in multiset(after);
    }
  }

  /** Allocating a task struct that is not listed leaves the list allocated and sorted. */
  lemma NewTaskKeepsList(s: seq<TaskId>, h: map<TaskId, CosTask>, u: TaskId, rec: CosTask)
    requires u !in h && (forall i :: 0 <= i < |s| ==> s[i] in h)
    requires HasPrio(s, Prios(h)) && SortedByPrio(s, Prios(h))
    ensures u !in s && forall i :: 0 <= i < |s| ==> s[i] in h[u := rec]
    ensures HasPrio(s, Prios(h[u := rec])) && SortedByPrio(s, Prios(h[u := rec]))
  {
  }

  /** Unlinking a task and freeing it keeps the list sorted, duplicate-free and allocated. */
  lemma RemovedTaskKeepsTasks(before: seq<TaskId>, t: TaskId, h: map<TaskId, CosTask>)
    requires NoDuplicates(before) && forall i :: 0 <= i < |before| ==> before[i] in h
    requires HasPrio(before, Prios(h)) && SortedByPrio(before, Prios(h))
    ensures var after := RemoveFirst(before, t);
      && NoDuplicates(after) && t !in after
      && (forall i :: 0 <= i < |after| ==> after[i] in h - {t})
      && HasPrio(after, Prios(h - {t})) && SortedByPrio(after, Prios(h - {t}))
  {
    var after := RemoveFirst(before, t);
    RemoveFirstMultiset(before, t);
    RemoveFirstKeepsSorted(before, t, Prios(h));
    assert multiset(after)[t] == 0;
    forall i | 0 <= i < |after| ensures after[i] in h - {t} {
      assert after[i] in multiset(before);
    }
  }

  // ---------------------------------------------------------------------------
  // Coroutine macros on the task record

  /** Where COS_TASK_BEGIN's switch enters the task body. */
  datatype Entry =
    | Top                    // case 0: the first activation
    | ResumeAt(line: uint16) // the case label a scheduling point stored
    | PastEnd                // no case matches: control falls to COS_TASK_END

  /** COS_TASK_BEGIN: `labels` are the case labels the task body contains (its scheduling points). */
  function TaskBegin(task: CosTask, labels: set<uint16>): (e: Entry)
    ensures e == Top <==> task.lineCnt == 0
    ensures e.ResumeAt? <==> task.lineCnt != 0 && task.lineCnt in labels
    ensures e.ResumeAt? ==> e.line == task.lineCnt
  {
    if task.lineCnt == 0 then Top
    else if task.lineCnt in labels then ResumeAt(task.lineCnt)
    else PastEnd
  }

  /** The record after COS_TASK_SLEEP(pt, ticks) at source line `line`; COS_TASK_SCHEDULE is ticks 0. */
  function Yielded(task: CosTask, ticks: uint16, line: uint16): CosTask
  {
    task.(sleepTicks := ticks, lineCnt := line)
  }

  /** Save and restore agree: the next activation resumes right after the scheduling point that yielded. */
  lemma ResumeAfterYield(task: CosTask, ticks: uint16, line: uint16, labels: set<uint16>)
    requires line != 0 && line in labels
    ensures TaskBegin(Yielded(task, ticks, line), labels) == ResumeAt(line)
    ensures Yielded(task, ticks, line).sleepTicks == ticks
    ensures Yielded(task, ticks, line).(sleepTicks := task.sleepTicks, lineCnt := task.lineCnt) == task
  {
  }

  // ---------------------------------------------------------------------------
  // CPU-load estimate

  /** cpuLoadPerCent_g and cpuLoadCounter_g. */
  datatype LoadMeter = LoadMeter(perCent: uint8, counter: uint8)

  ghost predicate MeterInRange(m: LoadMeter)
  {
    m.perCent <= 100 && m.counter <= 100
  }

  /** One activation of _idleTask: the counter goes down by one, but not below 0. */
  function IdleTick(m: LoadMeter): (m': LoadMeter)
    ensures m'.perCent == m.perCent
    ensures m'.counter == if m.counter > 0 then m.counter - 1 else 0
  {
    if m.counter > 0 then m.(counter := m.counter - 1) else m
  }

  /** One activation of _cpuLoadMeasureTask: publish the counter, then restart it at 100. */
  function LoadSample(m: LoadMeter): (m': LoadMeter)
    ensures m'.perCent == m.counter && m'.counter == 100
  {
    LoadMeter(m.counter, 100)
  }

  /** The meter after `k` idle activations. */
  function IdleTicks(m: LoadMeter, k: nat): LoadMeter
  {
    if k == 0 then m else IdleTick(IdleTicks(m, k - 1))
  }

  lemma {:induction false} IdleTicksCount(m: LoadMeter, k: nat)
    ensures IdleTicks(m, k).perCent == m.perCent
    ensures IdleTicks(m, k).counter == if m.counter >= k then m.counter - k else 0
  {
    if k > 0 {
      IdleTicksCount(m, k - 1);
    }
  }

  /**
   * The estimate: if the idle task ran `k` times between two samples, the
   * second sample publishes 100 - k, or 0 once the idle task ran 100 times or
   * more; an idle task that never ran reads as 100% load.
   */
  lemma LoadEstimate(m: LoadMeter, k: nat)
    ensures LoadSample(IdleTicks(LoadSample(m), k)).perCent == if k <= 100 then 100 - k else 0
    ensures LoadSample(IdleTicks(LoadSample(m), k)).counter == 100
  {
    IdleTicksCount(LoadSample(m), k);
  }

  /** Both counters stay percentages under every activation. */
  lemma MeterStaysInRange(m: LoadMeter)
    requires MeterInRange(m)
    ensures MeterInRange(IdleTick(m)) && MeterInRange(LoadSample(m))
  {
  }

  // ---------------------------------------------------------------------------
  // The scheduler state

  class Scheduler {
    /** The memory holding the task structs. */
    const heap: TaskHeap
    /** root_g. */
    const list: TaskList
    var meter: LoadMeter
    /** _idleTask_pt_g and _cpuLoadMeasureTask_pt_g. */
    var idleTask: Option<TaskId>
    var loadTask: Option<TaskId>

    ghost predicate Valid()
      reads this`meter, heap, list, list.Repr
    {
      && list.Valid()
      && heap !in list.Repr && this !in list.Repr
      && (forall i :: 0 <= i < |list.tasks| ==> list.tasks[i] in heap.tasks)
      && NoDuplicates(list.tasks)
      && HasPrio(list.tasks, Prios(heap.tasks))
      && SortedByPrio(list.tasks, Prios(heap.tasks))
      && MeterInRange(meter)
    }

    /** The state before COS_InitTaskList: an empty list and both load counters at 100. */
    constructor (h: TaskHeap)
      ensures Valid() && heap == h && fresh(list) && fresh(list.Repr)
      ensures list.tasks == [] && meter == LoadMeter(100, 100)
      ensures idleTask == None && loadTask == None
    {
      heap := h;
      list := new TaskList();
      meter := LoadMeter(100, 100);
      idleTask := None;
      loadTask := None;
    }

    /**
     * COS_CreateTask: allocate the task struct (`alloc` is what malloc
     * returned), put it at the head of the list and sort. NULL when the
     * allocation failed, and then nothing changes. The new task goes in front
     * of every older task of its priority.
     */
    method CreateTask(prio: uint8, data: DataRef, func: FuncRef, nowTicks: uint16, alloc: Option<TaskId>)
      returns (t: Option<TaskId>)
      requires Valid()
      requires alloc.Some? ==> alloc.value !in heap.tasks
      modifies heap, list.Repr
      ensures Valid() && t == alloc && fresh(list.Repr - old(list.Repr))
      ensures t.None? ==> heap.tasks == old(heap.tasks) && list.tasks == old(list.tasks)
      ensures t.Some? ==>
        && heap.tasks == old(heap.tasks)[t.value := CosTask(nowTicks, 0, Ready, prio, 0, data, func)]
        && multiset(list.tasks) == multiset(old(list.tasks)) + multiset{t.value}
        && HasPrio([t.value] + old(list.tasks), Prios(heap.tasks))
        && SamePrioOrder([t.value] + old(list.tasks), list.tasks, Prios(heap.tasks))
    {
      ghost var h := heap.tasks;
      t := heap.NewTask(prio, data, func, nowTicks, alloc);
      if t.None? {
        return;
      }
      NewTaskKeepsList(list.tasks, h, t.value, heap.tasks[t.value]);
      PrependAndSort(t.value);
    }

    /** The list part of COS_CreateTask: a node for the newly allocated `u` becomes the root, then the list is sorted. */
    method PrependAndSort(u: TaskId)
      requires Valid() && u in heap.tasks && u !in list.tasks
      modifies list.Repr
      ensures Valid() && fresh(list.Repr - old(list.Repr)) && heap.tasks == old(heap.tasks)
      ensures multiset(list.tasks) == multiset(old(list.tasks)) + multiset{u}
      ensures HasPrio([u] + old(list.tasks), Prios(heap.tasks))
      ensures SamePrioOrder([u] + old(list.tasks), list.tasks, Prios(heap.tasks))
    {
      ghost var before := list.tasks;
      list.Prepend(u);
      list.Sort(Prios(heap.tasks));
      AddedTaskKeepsTasks(before, u, list.tasks, heap.tasks);
    }

    /**
     * COS_DeleteTask: unlink the task's node if the list has one, free the
     * task struct in any case, and report success.
     */
    method DeleteTask(t: TaskId) returns (r: int8)
      requires Valid()
      modifies heap, list.Repr
      ensures Valid() && r == 0 && list.Repr == old(list.Repr)
      ensures list.tasks == RemoveFirst(old(list.tasks), t) && t !in list.tasks
      ensures heap.tasks == old(heap.tasks) - {t}
    {
      RemovedTaskKeepsTasks(list.tasks, t, heap.tasks);
      list.Unlink(t);
      heap.Free(t);
      r := 0;
    }

    /** COS_SuspendTask: -1 when the list does not hold the task; otherwise its state becomes SUSPENDED. */
    method SuspendTask(t: TaskId) returns (r: int8)
      requires Valid()
      modifies heap
      ensures Valid() && list.tasks == old(list.tasks)
      ensures r == (if t in list.tasks then 0 else -1)
      ensures r == -1 ==> heap.tasks == old(heap.tasks)
      ensures r == 0 ==> heap.tasks == old(heap.tasks)[t := old(heap.tasks[t]).(state := Suspended)]
    {
      r := SetState(t, Suspended);
    }

    /** COS_ResumeTask: -1 when the list does not hold the task; otherwise its state becomes READY. */
    method ResumeTask(t: TaskId) returns (r: int8)
      requires Valid()
      modifies heap
      ensures Valid() && list.tasks == old(list.tasks)
      ensures r == (if t in list.tasks then 0 else -1)
      ensures r == -1 ==> heap.tasks == old(heap.tasks)
      ensures r == 0 ==> heap.tasks == old(heap.tasks)[t := old(heap.tasks[t]).(state := Ready)]
    {
      r := SetState(t, Ready);
    }

    /** The common body of COS_SuspendTask and COS_ResumeTask. */
    method SetState(t: TaskId, s: TaskState) returns (r: int8)
      requires Valid()
      modifies heap
      ensures Valid() && list.tasks == old(list.tasks)
      ensures r == (if t in list.tasks then 0 else -1)
      ensures r == -1 ==> heap.tasks == old(heap.tasks)
      ensures r == 0 ==> heap.tasks == old(heap.tasks)[t := old(heap.tasks[t]).(state := s)]
    {
      var pt := list.Search(t);
      if pt == null {
        return -1;
      }
      var task := pt.task;
      PriosAfterUpdate(heap.tasks, task, heap.tasks[task].(state := s));
      heap.Update(task, heap.tasks[task].(state := s));
      r := 0;
    }

    /**
     * COS_SetTaskPrio: -1 when the list does not hold the task; otherwise
     * its priority changes and the list is sorted again, keeping the order
     * of tasks of equal priority.
     */
    method SetTaskPrio(t: TaskId, prio: uint8) returns (r: int8)
      requires Valid()
      modifies heap, list.Repr
      ensures Valid() && list.Repr == old(list.Repr)
      ensures r == (if t in old(list.tasks) then 0 else -1)
      ensures r == -1 ==> heap.tasks == old(heap.tasks) && list.tasks == old(list.tasks)
      ensures r == 0 ==>
        && heap.tasks == old(heap.tasks)[t := old(heap.tasks[t]).(prio := prio)]
        && multiset(list.tasks) == multiset(old(list.tasks))
        && HasPrio(old(list.tasks), Prios(heap.tasks))
        && SamePrioOrder(old(list.tasks), list.tasks, Prios(heap.tasks))
    {
      var pt := list.Search(t);
      if pt == null {
        return -1;
      }
      var task := pt.task;
      heap.Update(task, heap.tasks[task].(prio := prio));
      ghost var before := list.tasks;
      list.Sort(Prios(heap.tasks));
      PermutationKeepsTasks(before, list.tasks, heap.tasks);
      r := 0;
    }

    /**
     * COS_InitTaskList: empty the list (the old nodes are abandoned, not
     * freed), create the idle task (priority 0) and the load-measure task
     * (priority 255) and sort. A failed allocation is ignored and 0 is
     * returned in every case; with both allocations granted the list holds
     * exactly the load-measure task followed by the idle task.
     */
    method InitTaskList(nowTicks: uint16, allocIdle: Option<TaskId>, allocLoad: Option<TaskId>) returns (r: int8)
      requires Valid()
      requires allocIdle.Some? ==> allocIdle.value !in heap.tasks
      requires allocLoad.Some? ==> allocLoad.value !in heap.tasks && allocLoad != allocIdle
      modifies this, heap, list.Repr
      ensures Valid() && r == 0 && meter == old(meter)
      ensures idleTask == allocIdle && loadTask == allocLoad
      ensures list.tasks == OptSeq(allocLoad) + OptSeq(allocIdle)
      ensures allocIdle.Some? ==> allocIdle.value in heap.tasks && heap.tasks[allocIdle.value] == CosTask(nowTicks, 0, Ready, IDLE_TASK_PRIO, 0, NULL_DATA, IDLE_TASK_FUNC)
      ensures allocLoad.Some? ==> allocLoad.value in heap.tasks && heap.tasks[allocLoad.value] == CosTask(nowTicks, 0, Ready, LOAD_MEASURE_TASK_PRIO, 0, NULL_DATA, LOAD_MEASURE_TASK_FUNC)
    {
      CreateIdleTask(nowTicks, allocIdle);
      CreateLoadTaskAndSort(nowTicks, allocIdle, allocLoad);
      InitListShape(list.tasks, heap.tasks, allocIdle, allocLoad);
      r := 0;
    }

    /** The first two statements of COS_InitTaskList: an empty list, then the idle task. */
    method CreateIdleTask(nowTicks: uint16, allocIdle: Option<TaskId>)
      requires Valid()
      requires allocIdle.Some? ==> allocIdle.value !in heap.tasks
      modifies this, heap, list.Repr
      ensures Valid() && meter == old(meter) && fresh(list.Repr - old(list.Repr))
      ensures idleTask == allocIdle && loadTask == old(loadTask)
      ensures multiset(list.tasks) == multiset(OptSeq(allocIdle))
      ensures heap.tasks == WithNew(old(heap.tasks), allocIdle, CosTask(nowTicks, 0, Ready, IDLE_TASK_PRIO, 0, NULL_DATA, IDLE_TASK_FUNC))
    {
      list.Clear();
      idleTask := CreateSystemTask(IDLE_TASK_PRIO, IDLE_TASK_FUNC, nowTicks, allocIdle);
    }

    /** The rest of COS_InitTaskList: the load-measure task, then the sort. */
    method CreateLoadTaskAndSort(nowTicks: uint16, allocIdle: Option<TaskId>, allocLoad: Option<TaskId>)
      requires Valid() && multiset(list.tasks) == multiset(OptSeq(allocIdle))
      requires allocLoad.Some? ==> allocLoad.value !in heap.tasks
      modifies this, heap, list.Repr
      ensures Valid() && meter == old(meter) && idleTask == old(idleTask) && loadTask == allocLoad
      ensures multiset(list.tasks) == multiset(OptSeq(allocIdle)) + multiset(OptSeq(allocLoad))
      ensures heap.tasks == WithNew(old(heap.tasks), allocLoad, CosTask(nowTicks, 0, Ready, LOAD_MEASURE_TASK_PRIO, 0, NULL_DATA, LOAD_MEASURE_TASK_FUNC))
    {
      loadTask := CreateSystemTask(LOAD_MEASURE_TASK_PRIO, LOAD_MEASURE_TASK_FUNC, nowTicks, allocLoad);
      SortTaskList();
    }

    /** _sortLinearListPrio(root_g) on a list that is already kept sorted. */
    method SortTaskList()
      requires Valid()
      modifies list.Repr
      ensures Valid() && list.Repr == old(list.Repr) && heap.tasks == old(heap.tasks)
      ensures multiset(list.tasks) == multiset(old(list.tasks))
    {
      ghost var before := list.tasks;
      list.Sort(Prios(heap.tasks));
      PermutationKeepsTasks(before, list.tasks, heap.tasks);
    }

    /** COS_CreateTask as COS_InitTaskList uses it, with NULL user data; only the elements of the list matter there. */
    method CreateSystemTask(prio: uint8, func: FuncRef, nowTicks: uint16, alloc: Option<TaskId>) returns (t: Option<TaskId>)
      requires Valid()
      requires alloc.Some? ==> alloc.value !in heap.tasks
      modifies heap, list.Repr
      ensures Valid() && t == alloc && fresh(list.Repr - old(list.Repr))
      ensures heap.tasks == WithNew(old(heap.tasks), t, CosTask(nowTicks, 0, Ready, prio, 0, NULL_DATA, func))
      ensures multiset(list.tasks) == multiset(old(list.tasks)) + multiset(OptSeq(t))
    {
      t := CreateTask(prio, NULL_DATA, func, nowTicks, alloc);
    }

    /**
     * COS_GetTaskListRootPointer: the head of the list, NULL when it is
     * empty; it carries a task of the highest priority in the list.
     */
    function RootPointer(): (n: Node?)
      reads this, heap, list, list.Repr
      requires Valid()
      ensures n == null <==> list.tasks == []
      ensures n != null ==> n.task == list.tasks[0]
      ensures n != null ==> forall i :: 0 <= i < |list.tasks| ==> heap.tasks[n.task].prio >= heap.tasks[list.tasks[i]].prio
    {
      list.root
    }

    /** COS_GetCPULoadInPercent: the last published estimate, a percentage. */
    function GetCPULoadInPercent(): (r: int8)
      reads this
      requires MeterInRange(meter)
      ensures 0 <= r <= 100 && r == meter.perCent
    {
      meter.perCent
    }

    /**
     * One turn of the endless loop of CosRunScheduler (openCM9.04), standing
     * at node `pt`, with millis() returning `millis`. A due task gets its
     * last activation set to the current 16-bit time and its sleep time
     * cleared; the caller then runs its function and continues at the root,
     * the task of highest priority. Otherwise the scan moves to the next
     * node, from the last node back to the root.
     */
    method RunSchedulerStep(pt: Node, millis: nat) returns (next: Step)
      requires Valid() && pt in list.nodes
      modifies heap
      ensures Valid() && list.tasks == old(list.tasks)
      ensures next.Run? <==> Eligible(old(heap.tasks[pt.task]), ToUint16(millis))
      ensures next.Run? ==> next.task == pt.task && next.resume == list.root
      ensures next.Run? ==> heap.tasks == old(heap.tasks)[pt.task := old(heap.tasks[pt.task]).(lastActivationTicks := ToUint16(millis), sleepTicks := 0)]
      ensures next.MoveTo? ==> heap.tasks == old(heap.tasks) && next.node in list.nodes
      ensures next.MoveTo? ==> next.node == if pt.next != null then pt.next else list.root
    {
      ghost var k :| 0 <= k < |list.nodes| && list.nodes[k] == pt;
      assert pt.task in heap.tasks;
      var tTicks := ToUint16(millis);
      var task := heap.tasks[pt.task];
      if SysTime.ElapsedTicks(tTicks, task.lastActivationTicks) >= task.sleepTicks && task.state == Ready {
        var rec := task.(lastActivationTicks := tTicks, sleepTicks := 0);
        PriosAfterUpdate(heap.tasks, pt.task, rec);
        heap.Update(pt.task, rec);
        next := Run(pt.task, list.root);
      } else {
        list.NextAt(k);
        if pt.next == null {
          next := MoveTo(list.root);
        } else {
          next := MoveTo(pt.next);
        }
      }
    }

    /**
     * CosRunScheduler from the root pointer up to the first task it runs,
     * for one clock reading `millis`: the cursor starts at the root and moves
     * on node by node; the scan ends with the first task that is run, or after
     * the last node when none is due. The task run is the first due task of
     * the list, which is a due task of highest priority (FirstDueIsMostUrgent).
     */
    method ScanFromRoot(millis: nat) returns (ran: Option<TaskId>)
      requires Valid()
      modifies heap
      ensures Valid() && list.tasks == old(list.tasks)
      ensures ran == FirstDueTask(list.tasks, old(heap.tasks), ToUint16(millis))
      ensures ran.Some? ==> forall j :: 0 <= j < |list.tasks| && Eligible(old(heap.tasks)[list.tasks[j]], ToUint16(millis)) ==>
        old(heap.tasks)[ran.value].prio >= old(heap.tasks)[list.tasks[j]].prio
      ensures ran.None? ==> heap.tasks == old(heap.tasks)
      ensures ran.Some? ==> heap.tasks == old(heap.tasks)[ran.value := old(heap.tasks[ran.value]).(lastActivationTicks := ToUint16(millis), sleepTicks := 0)]
    {
      FirstDueIsMostUrgent(list.tasks, heap.tasks, ToUint16(millis));
      ran := None;
      if list.root == null {
        return;
      }
      var pt: Node := list.root;
      ghost var i := 0;
      while true
        invariant Valid() && list.tasks == old(list.tasks) && list.nodes == old(list.nodes)
        invariant 0 <= i < |list.nodes| && pt == list.nodes[i]
        invariant heap.tasks == old(heap.tasks)
        invariant NoneDueBefore(list.tasks, heap.tasks, ToUint16(millis), i)
        decreases |list.nodes| - i
      {
        var step := ScanTurn(pt, millis, i);
        if step.Run? {
          ran := Some(step.task);
          return;
        }
        if step.node == list.root {
          return;
        }
        pt := step.node;
        i := i + 1;
      }
    }

    /**
     * One turn of the scan at the node in position `i`, no earlier node
     * being due: either its task is the first due task and runs, or the
     * cursor moves on, to the root after the last node, when no task is due.
     */
    method ScanTurn(pt: Node, millis: nat, ghost i: nat) returns (next: Step)
      requires Valid() && i < |list.nodes| && pt == list.nodes[i]
      requires NoneDueBefore(list.tasks, heap.tasks, ToUint16(millis), i)
      modifies heap
      ensures Valid() && list.tasks == old(list.tasks)
      ensures next.Run? ==> FirstDueTask(list.tasks, old(heap.tasks), ToUint16(millis)) == Some(next.task)
      ensures next.Run? ==> heap.tasks == old(heap.tasks)[next.task := old(heap.tasks)[next.task].(lastActivationTicks := ToUint16(millis), sleepTicks := 0)]
      ensures next.MoveTo? ==> heap.tasks == old(heap.tasks)
      ensures next.MoveTo? && next.node == list.root ==> FirstDueTask(list.tasks, old(heap.tasks), ToUint16(millis)).None?
      ensures next.MoveTo? && next.node != list.root ==>
        i + 1 < |list.nodes| && next.node == list.nodes[i + 1] && NoneDueBefore(list.tasks, heap.tasks, ToUint16(millis), i + 1)
    {
      list.NextAt(i);
      ghost var h := heap.tasks;
      next := RunSchedulerStep(pt, millis);
      if next.Run? {
        FirstDueAt(list.tasks, h, ToUint16(millis), i);
      } else if next.node == list.root {
        FirstDueNone(list.tasks, h, ToUint16(millis));
      }
    }

    /** COS_TASK_SCHEDULE(pt) at source line `line`: due again at once, resume after this point. */
    method TaskSchedule(t: TaskId, line: uint16)
      requires Valid() && t in heap.tasks && line != 0
      modifies heap
      ensures Valid() && heap.tasks == old(heap.tasks)[t := Yielded(old(heap.tasks[t]), 0, line)]
    {
      TaskSleep(t, 0, line);
    }

    /** COS_TASK_SLEEP(pt, ticks) at source line `line`: due again `ticks` ticks after this activation. */
    method TaskSleep(t: TaskId, ticks: uint16, line: uint16)
      requires Valid() && t in heap.tasks && line != 0
      modifies heap
      ensures Valid() && heap.tasks == old(heap.tasks)[t := Yielded(old(heap.tasks[t]), ticks, line)]
    {
      PriosAfterUpdate(heap.tasks, t, Yielded(heap.tasks[t], ticks, line));
      heap.Update(t, Yielded(heap.tasks[t], ticks, line));
    }

    /** COS_TASK_END(pt): the task body ran to its end; the task is deleted. */
    method TaskEnd(t: TaskId)
      requires Valid() && t in heap.tasks
      modifies heap, list.Repr
      ensures Valid() && list.Repr == old(list.Repr)
      ensures list.tasks == RemoveFirst(old(list.tasks), t) && t !in list.tasks
      ensures heap.tasks == old(heap.tasks) - {t}
    {
      PriosAfterUpdate(heap.tasks, t, heap.tasks[t].(lineCnt := 0));
      heap.Update(t, heap.tasks[t].(lineCnt := 0));
      var _ := DeleteTask(t);
    }

    /** One activation of _idleTask: count down, then sleep for the idle period. */
    method IdleTaskActivation(t: TaskId)
      requires Valid() && t in heap.tasks
      modifies this, heap
      ensures Valid() && meter == IdleTick(old(meter))
      ensures heap.tasks == old(heap.tasks)[t := Yielded(old(heap.tasks[t]), IDLE_TASK_PERIOD_TICKS, IDLE_SLEEP_LINE)]
    {
      if meter.counter > 0 {
        meter := meter.(counter := meter.counter - 1);
      }
      TaskSleep(t, IDLE_TASK_PERIOD_TICKS, IDLE_SLEEP_LINE);
    }

    /** One activation of _cpuLoadMeasureTask: publish the counter, reset it, sleep for the measuring period. */
    method LoadMeasureActivation(t: TaskId)
      requires Valid() && t in heap.tasks
      modifies this, heap
      ensures Valid() && meter == LoadSample(old(meter))
      ensures heap.tasks == old(heap.tasks)[t := Yielded(old(heap.tasks[t]), LOAD_MEASURE_TASK_PERIOD_TICKS, LOAD_SLEEP_LINE)]
    {
      meter := meter.(perCent := meter.counter);
      meter := meter.(counter := 100);
      TaskSleep(t, LOAD_MEASURE_TASK_PERIOD_TICKS, LOAD_SLEEP_LINE);
    }
  }

  /** What the scheduler loop does after one turn. */
  datatype Step = Run(task: TaskId, resume: Node) | MoveTo(node: Node)

  /**
   * A sorted list of at most two tasks of different priorities is fixed by
   * its elements: the only order is the one by priority.
   */
  lemma SmallSortedList(s: seq<TaskId>, expected: seq<TaskId>, prio: map<TaskId, uint8>)
    requires HasPrio(s, prio) && HasPrio(expected, prio) && SortedByPrio(s, prio)
    requires multiset(s) == multiset(expected) && |expected| <= 2
    requires |expected| == 2 ==> prio[expected[0]] > prio[expected[1]]
    ensures s == expected
  {
    assert |s| == |multiset(s)| == |multiset(expected)| == |expected|;
    if |s| == 1 {
      assert s[0] in multiset(expected);
    } else if |s| == 2 {
      TwoPermutation(s, expected);
    }
  }

  /** Two elements have two orders. */
  lemma TwoPermutation(a: seq<TaskId>, b: seq<TaskId>)
    requires |a| == 2 && |b| == 2 && multiset(a) == multiset(b)
    ensures a == b || a == [b[1], b[0]]
  {
    assert a == [a[0], a[1]] && b == [b[0], b[1]];
    assert multiset(a) == multiset{a[0], a[1]};
    assert multiset(b) == multiset{b[0], b[1]};
    PairMultiset(a[0], a[1], b[0], b[1]);
  }

  lemma PairMultiset(x: TaskId, y: TaskId, u: TaskId, v: TaskId)
    requires multiset{x, y} == multiset{u, v}
    ensures (x == u && y == v) || (x == v && y == u)
  {
    assert x in multiset{u, v};
    assert multiset{x, y} - multiset{x} == multiset{y};
    if x == u {
      assert multiset{u, v} - multiset{u} == multiset{v};
    } else {
      assert multiset{u, v} - multiset{v} == multiset{u};
    }
  }


  /** The task structs after an allocation that may have failed: a new entry `rec` when it was granted. */
  function WithNew(h: map<TaskId, CosTask>, alloc: Option<TaskId>, rec: CosTask): map<TaskId, CosTask>
  {
    if alloc.Some? then h[alloc.value := rec] else h
  }

  /** The task of an allocation that may have failed, as a list of zero or one elements. */
  function OptSeq(o: Option<TaskId>): (s: seq<TaskId>)
    ensures |s| <= 1 && (s == [] <==> o.None?)
    ensures o.Some? ==> s[0] == o.value
  {
    if o.Some? then [o.value] else []
  }

  /**
   * The list COS_InitTaskList builds: after sorting, the load-measure task
   * (priority 255) stands in front of the idle task (priority 0).
   */
  lemma InitListShape(s: seq<TaskId>, h: map<TaskId, CosTask>, idle: Option<TaskId>, load: Option<TaskId>)
    requires multiset(s) == multiset(OptSeq(idle)) + multiset(OptSeq(load))
    requires idle.Some? ==> idle.value in h && h[idle.value].prio == IDLE_TASK_PRIO
    requires load.Some? ==> load.value in h && h[load.value].prio == LOAD_MEASURE_TASK_PRIO
    requires HasPrio(s, Prios(h)) && SortedByPrio(s, Prios(h))
    ensures s == OptSeq(load) + OptSeq(idle)
  {
    var expected := OptSeq(load) + OptSeq(idle);
    assert multiset(expected) == multiset(OptSeq(load)) + multiset(OptSeq(idle));
    SmallSortedList(s, expected, Prios(h));
  }
}
