// The task record and the singly linked task list of the scheduler
// (utility/cos_linear_task_list.h and utility/cos_linear_task_list.c).
//
// Task structs live in a `TaskHeap`: a map from a task handle (the address
// malloc returned) to the task record. List nodes are real objects linked by
// `next`; a `TaskList` object stands for one root-pointer variable (the
// scheduler's `root_g` or a semaphore's `root_pt`) and keeps, as ghost state,
// the sequence of its nodes and the sequence of task handles they carry.

module TaskList {
  import opened CosTypes

  /** Handle of a task struct; two tasks are the same task exactly when their handles are equal. */
  type TaskId = nat
  /** The opaque `pData` pointer and the task function pointer, compared by identity only. */
  type DataRef = nat
  type FuncRef = nat

  /** COS_TASK_READY, COS_TASK_SUSPENDED, COS_TASK_BLOCKED. */
  datatype TaskState = Ready | Suspended | Blocked
  {
    function Code(): (c: uint8)
      ensures c <= 2
      ensures StateOfCode(c) == Some(this)
    {
      match this
      case Ready => 0
      case Suspended => 1
      case Blocked => 2
    }
  }

  /** Reads back a state byte; the three codes are the only valid ones. */
  function StateOfCode(c: uint8): (r: Option<TaskState>)
    ensures r.Some? <==> c <= 2
  {
    if c == 0 then Some(Ready)
    else if c == 1 then Some(Suspended)
    else if c == 2 then Some(Blocked)
    else None
  }

  /** CosTask_t. `lineCnt` is the resume label of the stackless coroutine (0 = start at the top). */
  datatype CosTask = CosTask(
    lastActivationTicks: uint16,
    sleepTicks: uint16,
    state: TaskState,
    prio: uint8,
    lineCnt: uint16,
    data: DataRef,
    func: FuncRef)

  /** The priority field of every allocated task. */
  function Prios(tasks: map<TaskId, CosTask>): (m: map<TaskId, uint8>)
    ensures m.Keys == tasks.Keys
    ensures forall t :: t in tasks ==> m[t] == tasks[t].prio
  {
    map t | t in tasks :: tasks[t].prio
  }

  /** The memory that holds task structs. */
  class TaskHeap {
    var tasks: map<TaskId, CosTask>

    constructor ()
      ensures tasks == map[]
    {
      tasks := map[];
    }

    /**
     * _newTask: `alloc` is what malloc returned (None = NULL). A new task
     * is READY, due at once (sleep 0), starts at the top of its body, and was
     * last activated at `nowTicks`, the value _gettime_Ticks returned.
     */
    method NewTask(prio: uint8, data: DataRef, func: FuncRef, nowTicks: uint16, alloc: Option<TaskId>)
      returns (t: Option<TaskId>)
      requires alloc.Some? ==> alloc.value !in tasks
      modifies this
      ensures t == alloc
      ensures t.None? ==> tasks == old(tasks)
      ensures t.Some? ==> tasks == old(tasks)[t.value := CosTask(nowTicks, 0, Ready, prio, 0, data, func)]
    {
      if alloc.None? {
        return None;
      }
      var task := alloc.value;
      tasks := tasks[task := CosTask(nowTicks, 0, Ready, prio, 0, data, func)];
      t := Some(task);
    }

    /** free() of a task struct. */
    method Free(t: TaskId)
      modifies this
      ensures tasks == old(tasks) - {t}
    {
      tasks := tasks - {t};
    }

    /** Writes one task struct in place (a `pt->field = …` of the C code). */
    method Update(t: TaskId, rec: CosTask)
      requires t in tasks
      modifies this
      ensures tasks == old(tasks)[t := rec]
    {
      tasks := tasks[t := rec];
    }
  }

  /** Node_t. */
  class Node {
    var task: TaskId
    var next: Node?

    /** _newNode: the C code never checks the malloc result, so a node is always obtained. */
    constructor (t: TaskId)
      ensures task == t && next == null
    {
      task := t;
      next := null;
    }
  }

  // ---------------------------------------------------------------------------
  // Specification functions on sequences of task handles

  /** Position of the first occurrence of `t`: where a front-to-back search stops. */
  function IndexOf(s: seq<TaskId>, t: TaskId): (k: nat)
    requires t in s
    ensures k < |s| && s[k] == t && t !in s[..k]
  {
    if s[0] == t then 0
    else
      assert s == [s[0]] + s[1..];
      1 + IndexOf(s[1..], t)
  }

  lemma IndexOfUnique(s: seq<TaskId>, t: TaskId, k: nat)
    requires k < |s| && s[k] == t && t !in s[..k]
    ensures IndexOf(s, t) == k
  {
  }

  /** The list after the first node carrying `t` is unlinked. */
  function RemoveFirst(s: seq<TaskId>, t: TaskId): seq<TaskId>
  {
    if t in s then s[..IndexOf(s, t)] + s[IndexOf(s, t) + 1..] else s
  }

  lemma RemoveFirstAt(s: seq<TaskId>, t: TaskId, k: nat)
    requires k < |s| && s[k] == t && t !in s[..k]
    ensures RemoveFirst(s, t) == s[..k] + s[k + 1..]
  {
    IndexOfUnique(s, t, k);
  }

  lemma {:induction false} RemoveFirstMultiset(s: seq<TaskId>, t: TaskId)
    ensures multiset(RemoveFirst(s, t)) == multiset(s) - multiset{t}
    ensures |RemoveFirst(s, t)| == if t in s then |s| - 1 else |s|
  {
    if t in s {
      var k := IndexOf(s, t);
      assert s == s[..k] + [t] + s[k + 1..];
      calc {
        multiset(s);
        multiset(s[..k]) + multiset{t} + multiset(s[k + 1..]);
        multiset(RemoveFirst(s, t)) + multiset{t};
      }
    }
  }

  ghost predicate HasPrio(s: seq<TaskId>, prio: map<TaskId, uint8>)
  {
    forall i :: 0 <= i < |s| ==> s[i] in prio
  }

  /** Non-increasing priority from the head: the order _sortLinearListPrio establishes. */
  ghost predicate SortedByPrio(s: seq<TaskId>, prio: map<TaskId, uint8>)
    requires HasPrio(s, prio)
  {
    forall i, j :: 0 <= i < j < |s| ==> prio[s[i]] >= prio[s[j]]
  }

  /** The tasks of priority `p`, in list order. */
  function WithPrio(s: seq<TaskId>, prio: map<TaskId, uint8>, p: uint8): (r: seq<TaskId>)
    requires HasPrio(s, prio)
    ensures |r| <= |s|
    ensures forall i :: 0 <= i < |r| ==> r[i] in prio && prio[r[i]] == p && r[i] in s
  {
    if s == [] then []
    else (if prio[s[0]] == p then [s[0]] else []) + WithPrio(s[1..], prio, p)
  }

  /** Tasks of equal priority keep their relative order. */
  ghost predicate SamePrioOrder(s: seq<TaskId>, s': seq<TaskId>, prio: map<TaskId, uint8>)
    requires HasPrio(s, prio) && HasPrio(s', prio)
  {
    forall p: uint8 :: WithPrio(s', prio, p) == WithPrio(s, prio, p)
  }

  lemma SamePrioOrderTrans(a: seq<TaskId>, b: seq<TaskId>, c: seq<TaskId>, prio: map<TaskId, uint8>)
    requires HasPrio(a, prio) && HasPrio(b, prio) && HasPrio(c, prio)
    requires SamePrioOrder(a, b, prio) && SamePrioOrder(b, c, prio)
    ensures SamePrioOrder(a, c, prio)
  {
  }

  lemma {:induction false} WithPrioAppend(a: seq<TaskId>, b: seq<TaskId>, prio: map<TaskId, uint8>, p: uint8)
    requires HasPrio(a, prio) && HasPrio(b, prio)
    ensures HasPrio(a + b, prio)
    ensures WithPrio(a + b, prio, p) == WithPrio(a, prio, p) + WithPrio(b, prio, p)
  {
    if a == [] {
      assert a + b == b;
    } else {
      assert (a + b)[0] == a[0] && (a + b)[1..] == a[1..] + b;
      WithPrioAppend(a[1..], b, prio, p);
    }
  }

  function Swap(s: seq<TaskId>, i: nat): (r: seq<TaskId>)
    requires i + 1 < |s|
  {
    s[i := s[i + 1]][i + 1 := s[i]]
  }

  /** Swapping two neighbours of different priority keeps every priority class in order. */
  lemma SwapKeepsPrioOrder(s: seq<TaskId>, i: nat, prio: map<TaskId, uint8>)
    requires i + 1 < |s| && HasPrio(s, prio)
    requires prio[s[i]] != prio[s[i + 1]]
    ensures HasPrio(Swap(s, i), prio)
    ensures multiset(Swap(s, i)) == multiset(s)
    ensures SamePrioOrder(s, Swap(s, i), prio)
  {
    var a, x, y, b := s[..i], s[i], s[i + 1], s[i + 2..];
    assert s == a + [x, y] + b;
    assert Swap(s, i) == a + [y, x] + b;
    forall p: uint8
      ensures WithPrio(Swap(s, i), prio, p) == WithPrio(s, prio, p)
    {
      SwapInContext(a, x, y, b, prio, p);
    }
  }

  lemma SwapInContext(a: seq<TaskId>, x: TaskId, y: TaskId, b: seq<TaskId>, prio: map<TaskId, uint8>, p: uint8)
    requires HasPrio(a, prio) && HasPrio(b, prio) && x in prio && y in prio && prio[x] != prio[y]
    ensures HasPrio(a + [x, y] + b, prio) && HasPrio(a + [y, x] + b, prio)
    ensures WithPrio(a + [y, x] + b, prio, p) == WithPrio(a + [x, y] + b, prio, p)
  {
    assert [x, y][1..] == [y] && [y, x][1..] == [x] && [x][1..] == [] && [y][1..] == [];
    assert WithPrio([x, y], prio, p) == WithPrio([y, x], prio, p);
    WithPrioAppend(a, [x, y], prio, p);
    WithPrioAppend(a, [y, x], prio, p);
    WithPrioAppend(a + [x, y], b, prio, p);
    WithPrioAppend(a + [y, x], b, prio, p);
  }

  lemma {:induction false} AdjacentSorted(s: seq<TaskId>, prio: map<TaskId, uint8>)
    requires HasPrio(s, prio)
    requires forall j :: 0 <= j < |s| - 1 ==> prio[s[j]] >= prio[s[j + 1]]
    ensures SortedByPrio(s, prio)
  {
    if |s| > 1 {
      AdjacentSorted(s[1..], prio);
      forall i, j | 0 <= i < j < |s|
        ensures prio[s[i]] >= prio[s[j]]
      {
        if 0 < i {
          assert s[1..][i - 1] == s[i] && s[1..][j - 1] == s[j];
        } else if 1 < j {
          assert s[1..][0] == s[1] && s[1..][j - 1] == s[j];
        }
      }
    }
  }

  /**
   * The last `k` positions hold their final values: every element before a
   * position of that suffix has priority at least as high.
   */
  ghost predicate Settled(s: seq<TaskId>, prio: map<TaskId, uint8>, k: nat)
    requires HasPrio(s, prio)
  {
    forall i, j :: 0 <= i < j < |s| && |s| - k <= j ==> prio[s[i]] >= prio[s[j]]
  }

  lemma {:induction false} RemoveFirstKeepsSorted(s: seq<TaskId>, t: TaskId, prio: map<TaskId, uint8>)
    requires HasPrio(s, prio) && SortedByPrio(s, prio)
    ensures HasPrio(RemoveFirst(s, t), prio) && SortedByPrio(RemoveFirst(s, t), prio)
  {
    if t in s {
      var k := IndexOf(s, t);
      RemoveFirstAt(s, t, k);
      var r := s[..k] + s[k + 1..];
      forall i, j | 0 <= i < j < |r|
        ensures prio[r[i]] >= prio[r[j]]
      {
        RemovedAt(s, k, i);
        RemovedAt(s, k, j);
      }
    }
  }

  lemma RemovedAt(s: seq<TaskId>, k: nat, i: nat)
    requires k < |s| && i < |s| - 1
    ensures (s[..k] + s[k + 1..])[i] == if i < k then s[i] else s[i + 1]
  {
  }

  /**
   * What one pass of the bubble sort knows when it stands at position `i`:
   * the last `settled` positions are final, the element at `i` (or, past the
   * unsettled part, at its last position) has the lowest priority of those
   * before it, and if nothing was swapped yet the part up to `i` is in order.
   */
  ghost predicate PassInv(s: seq<TaskId>, prio: map<TaskId, uint8>, settled: nat, i: nat, swapped: bool)
  {
    && HasPrio(s, prio)
    && settled < |s| && i < |s|
    && Settled(s, prio, settled)
    && (var m := if i < |s| - settled - 1 then i else |s| - settled - 1;
        forall j :: 0 <= j < m ==> prio[s[j]] >= prio[s[m]])
    && (!swapped ==> forall j :: 0 <= j < i ==> prio[s[j]] >= prio[s[j + 1]])
    && (swapped ==> settled + 2 <= |s|)
  }

  lemma PassStart(s: seq<TaskId>, prio: map<TaskId, uint8>, settled: nat)
    requires HasPrio(s, prio) && settled < |s| && Settled(s, prio, settled)
    ensures PassInv(s, prio, settled, 0, false)
  {
  }

  /** One comparison of the pass, with the swap it makes when the first has strictly lower priority. */
  lemma PassStep(s: seq<TaskId>, prio: map<TaskId, uint8>, settled: nat, i: nat, swapped: bool)
    requires PassInv(s, prio, settled, i, swapped) && i + 1 < |s|
    ensures prio[s[i]] < prio[s[i + 1]] ==> i + 1 < |s| - settled && PassInv(Swap(s, i), prio, settled, i + 1, true)
    ensures prio[s[i]] >= prio[s[i + 1]] ==> PassInv(s, prio, settled, i + 1, swapped)
  {
    var n := |s|;
    if prio[s[i]] < prio[s[i + 1]] {
      SwapKeepsPrioOrder(s, i, prio);
      var s' := Swap(s, i);
      assert i + 1 < n - settled;
      forall a, b | 0 <= a < b < n && n - settled <= b
        ensures prio[s'[a]] >= prio[s'[b]]
      {
        assert s'[b] == s[b];
        if a == i {
          assert s'[a] == s[i + 1];
        } else if a == i + 1 {
          assert s'[a] == s[i];
        } else {
          assert s'[a] == s[a];
        }
      }
    }
  }

  /** At the end of a pass: with a swap, one more position is final; without, the list is sorted. */
  lemma PassEnd(s: seq<TaskId>, prio: map<TaskId, uint8>, settled: nat, swapped: bool)
    requires |s| > 0 && PassInv(s, prio, settled, |s| - 1, swapped)
    ensures !swapped ==> SortedByPrio(s, prio)
    ensures swapped ==> settled + 1 < |s| && Settled(s, prio, settled + 1)
  {
    var n := |s|;
    if !swapped {
      AdjacentSorted(s, prio);
    } else {
      forall a, b | 0 <= a < b < n && n - (settled + 1) <= b
        ensures prio[s[a]] >= prio[s[b]]
      {
        if b == n - settled - 1 {
          assert a < b;
        }
      }
    }
  }

  // ---------------------------------------------------------------------------
  // The linked list

  /** A root pointer together with the chain of nodes it reaches. */
  class TaskList {
    var root: Node?
    ghost var nodes: seq<Node>
    ghost var tasks: seq<TaskId>
    ghost var Repr: set<object>

    ghost predicate Valid()
      reads this, Repr
    {
      && this in Repr
      && |tasks| == |nodes|
      && (forall i :: 0 <= i < |nodes| ==> nodes[i] in Repr)
      && (forall i, j :: 0 <= i < j < |nodes| ==> nodes[i] != nodes[j])
      && root == (if nodes == [] then null else nodes[0])
      && (forall i :: 0 <= i < |nodes| ==> nodes[i].task == tasks[i])
      && (forall i :: 0 <= i < |nodes| - 1 ==> nodes[i].next == nodes[i + 1])
      && (nodes != [] ==> nodes[|nodes| - 1].next == null)
    }

    lemma NextAt(i: nat)
      requires Valid() && i < |nodes|
      ensures nodes[i].next == if i + 1 < |nodes| then nodes[i + 1] else null
    {
    }

    /** A root pointer initialised to NULL. */
    constructor ()
      ensures Valid() && fresh(Repr) && tasks == [] && nodes == []
    {
      root := null;
      nodes := [];
      tasks := [];
      Repr := {this};
    }

    /** `root = NULL`: forgets the chain without freeing it, as COS_InitTaskList and COS_SemCreate do. */
    method Clear()
      requires Valid()
      modifies this
      ensures Valid() && Repr == old(Repr) && tasks == [] && nodes == []
    {
      root := null;
      nodes := [];
      tasks := [];
    }

    /** _addTaskAtBeginningOfTaskList: a fresh node carrying `t` becomes the root; nothing else changes. */
    method Prepend(t: TaskId)
      requires Valid()
      modifies this
      ensures Valid() && fresh(Repr - old(Repr)) && old(Repr) <= Repr
      ensures tasks == [t] + old(tasks)
      ensures |nodes| > 0 && fresh(nodes[0]) && nodes[1..] == old(nodes)
    {
      var n := new Node(t);
      n.next := root;
      root := n;
      nodes := [n] + nodes;
      tasks := [t] + tasks;
      Repr := Repr + {n};
    }

    /** _searchTaskInList: the first node carrying `t`, or NULL. */
    method Search(t: TaskId) returns (n: Node?)
      requires Valid()
      ensures t !in tasks ==> n == null
      ensures t in tasks ==> n == nodes[IndexOf(tasks, t)]
    {
      n := root;
      ghost var i := 0;
      while n != null
        invariant 0 <= i <= |nodes|
        invariant n == if i < |nodes| then nodes[i] else null
        invariant t !in tasks[..i]
        decreases |nodes| - i
      {
        if n.task == t {
          IndexOfUnique(tasks, t, i);
          return;
        }
        assert tasks[..i + 1] == tasks[..i] + [tasks[i]];
        NextAt(i);
        n := n.next;
        i := i + 1;
      }
      assert tasks[..i] == tasks;
    }

    /**
     * _searchPredecessorTaskInList: the node before the first node carrying
     * `t`; NULL for an empty list, for `t` at the head and for `t` absent.
     */
    method SearchPredecessor(t: TaskId) returns (n: Node?)
      requires Valid()
      ensures (tasks == [] || tasks[0] == t || t !in tasks) ==> n == null
      ensures tasks != [] && tasks[0] != t && t in tasks ==> n == nodes[IndexOf(tasks, t) - 1]
    {
      if root == null {
        return null;
      }
      if root.task == t {
        return null;
      }
      n := root;
      ghost var i := 0;
      while n.next != null
        invariant 0 <= i < |nodes|
        invariant n == nodes[i]
        invariant t !in tasks[..i + 1]
        decreases |nodes| - i
      {
        if n.next.task == t {
          IndexOfUnique(tasks, t, i + 1);
          return;
        }
        assert tasks[..i + 2] == tasks[..i + 1] + [tasks[i + 1]];
        NextAt(i);
        n := n.next;
        i := i + 1;
      }
      NextAt(i);
      assert tasks[..i + 1] == tasks;
      n := null;
    }

    /**
     * _unlinkTaskFromTaskList: removes the first node carrying `t` and
     * relinks around it; a list without `t` is left as it is. The task struct
     * itself is not touched.
     */
    method Unlink(t: TaskId)
      requires Valid()
      modifies Repr
      ensures Valid() && Repr == old(Repr)
      ensures tasks == RemoveFirst(old(tasks), t)
      ensures t !in old(tasks) ==> nodes == old(nodes) && root == old(root)
      ensures t in old(tasks) ==>
        var k := IndexOf(old(tasks), t);
        nodes == old(nodes)[..k] + old(nodes)[k + 1..] &&
        (k == 0 ==> root == old(root.next)) &&
        (k > 0 ==> root == old(root))
    {
      var pt := Search(t);
      if pt == null {
        return;
      }
      if pt == root {
        assert nodes[IndexOf(tasks, t)] == nodes[0];
        UnlinkRoot(t);
        return;
      }
      var pred := SearchPredecessor(t);
      if pred == null {
        return;
      }
      UnlinkLater(pred, pt, t);
    }

    /** Unlink when the root node carries `t`. */
    method UnlinkRoot(ghost t: TaskId)
      requires Valid() && tasks != [] && tasks[0] == t
      modifies this
      ensures Valid() && Repr == old(Repr) && t in old(tasks) && IndexOf(old(tasks), t) == 0
      ensures tasks == RemoveFirst(old(tasks), t) && root == old(root.next)
      ensures nodes == old(nodes)[..0] + old(nodes)[1..]
    {
      ghost var N, T := nodes, tasks;
      RemoveFirstAt(T, t, 0);
      DropHead();
      assert N[..0] + N[1..] == N[1..] && T[..0] + T[1..] == T[1..];
    }

    /** Unlink when `t` is first carried by the node `pt` past the root, whose predecessor is `pred`. */
    method UnlinkLater(pred: Node, pt: Node, ghost t: TaskId)
      requires Valid() && t in tasks && IndexOf(tasks, t) > 0
      requires pt == nodes[IndexOf(tasks, t)] && pred == nodes[IndexOf(tasks, t) - 1]
      modifies this, pred
      ensures Valid() && Repr == old(Repr) && root == old(root) && IndexOf(old(tasks), t) > 0
      ensures tasks == RemoveFirst(old(tasks), t)
      ensures nodes == old(nodes)[..IndexOf(old(tasks), t)] + old(nodes)[IndexOf(old(tasks), t) + 1..]
    {
      ghost var k := IndexOf(tasks, t);
      RemoveFirstAt(tasks, t, k);
      RelinkAround(pred, pt, k);
    }

    /** `root = root->next`. */
    method DropHead()
      requires Valid() && root != null
      modifies this
      ensures Valid() && Repr == old(Repr)
      ensures root == old(root.next)
      ensures nodes == old(nodes)[1..] && tasks == old(tasks)[1..]
    {
      NextAt(0);
      root := root.next;
      nodes := nodes[1..];
      tasks := tasks[1..];
    }

    /** `pred->next = pt->next` for the node `pt` at position `k`, whose predecessor is `pred`. */
    method RelinkAround(pred: Node, pt: Node, ghost k: nat)
      requires Valid() && 0 < k < |nodes| && pred == nodes[k - 1] && pt == nodes[k]
      modifies this, pred
      ensures Valid() && Repr == old(Repr) && root == old(root)
      ensures nodes == old(nodes)[..k] + old(nodes)[k + 1..]
      ensures tasks == old(tasks)[..k] + old(tasks)[k + 1..]
    {
      ghost var N := nodes;
      pred.next := pt.next;
      nodes := N[..k] + N[k + 1..];
      tasks := tasks[..k] + tasks[k + 1..];
      forall j | 0 <= j < |nodes| - 1
        ensures nodes[j].next == nodes[j + 1]
      {
        if j < k - 1 {
          assert nodes[j] == N[j] && nodes[j + 1] == N[j + 1] && N[j] != pred;
        } else if j == k - 1 {
          assert nodes[j] == pred && nodes[j + 1] == N[k + 1];
        } else {
          assert nodes[j] == N[j + 1] && nodes[j + 1] == N[j + 2] && N[j + 1] != pred;
        }
      }
      assert nodes != [] ==> nodes[|nodes| - 1] == if k == |N| - 1 then pred else N[|N| - 1];
    }

    /**
     * _sortLinearListPrio: bubble sort of the payloads, highest priority
     * first, swapping neighbours only when the first has strictly lower
     * priority. The nodes stay where they are; the result is sorted, a
     * permutation of the old list, and tasks of equal priority keep their order.
     */
    method Sort(prio: map<TaskId, uint8>)
      requires Valid() && HasPrio(tasks, prio)
      modifies Repr
      ensures Valid() && Repr == old(Repr) && nodes == old(nodes) && root == old(root)
      ensures HasPrio(tasks, prio) && SortedByPrio(tasks, prio)
      ensures multiset(tasks) == multiset(old(tasks))
      ensures SamePrioOrder(old(tasks), tasks, prio)
    {
      if root == null {
        return;
      }
      ghost var settled := 0;
      while true
        invariant Valid() && Repr == old(Repr) && nodes == old(nodes) && root == old(root)
        invariant HasPrio(tasks, prio)
        invariant multiset(tasks) == multiset(old(tasks)) && SamePrioOrder(old(tasks), tasks, prio)
        invariant settled < |tasks| && Settled(tasks, prio, settled)
        decreases |tasks| - settled
      {
        var noOfSwaps := BubblePass(prio, settled);
        if noOfSwaps == 0 {
          break;
        }
        settled := settled + 1;
      }
    }

    /**
     * One pass of the do-while loop of _sortLinearListPrio, returning the
     * number of swaps. With the last `settled` positions already final, the
     * pass leaves one more position final; a pass without swaps finds the
     * list sorted.
     */
    method BubblePass(prio: map<TaskId, uint8>, ghost settled: nat) returns (noOfSwaps: nat)
      requires Valid() && root != null && HasPrio(tasks, prio)
      requires settled < |tasks| && Settled(tasks, prio, settled)
      modifies Repr
      ensures Valid() && Repr == old(Repr) && nodes == old(nodes) && root == old(root)
      ensures HasPrio(tasks, prio) && |tasks| == |old(tasks)|
      ensures multiset(tasks) == multiset(old(tasks)) && SamePrioOrder(old(tasks), tasks, prio)
      ensures noOfSwaps == 0 ==> SortedByPrio(tasks, prio)
      ensures noOfSwaps > 0 ==> settled + 1 < |tasks| && Settled(tasks, prio, settled + 1)
    {
      noOfSwaps := 0;
      var pt := root;
      ghost var i := 0;
      PassStart(tasks, prio, settled);
      while pt.next != null
        invariant Valid() && Repr == old(Repr) && nodes == old(nodes) && root == old(root)
        invariant |tasks| == |old(tasks)| && PassInv(tasks, prio, settled, i, noOfSwaps > 0)
        invariant pt == nodes[i]
        invariant multiset(tasks) == multiset(old(tasks)) && SamePrioOrder(old(tasks), tasks, prio)
        decreases |tasks| - i
      {
        var nx := pt.next;
        NextAt(i);
        ghost var before := tasks;
        var swapped := CompareNext(pt, prio, settled, i, noOfSwaps > 0);
        SamePrioOrderTrans(old(tasks), before, tasks, prio);
        if swapped {
          noOfSwaps := noOfSwaps + 1;
        }
        pt := nx;
        i := i + 1;
      }
      NextAt(i);
      PassEnd(tasks, prio, settled, noOfSwaps > 0);
    }

    /**
     * One comparison of the pass, at the node `pt` in position `i`: the
     * payloads are swapped when the first has strictly lower priority.
     */
    method CompareNext(pt: Node, prio: map<TaskId, uint8>, ghost settled: nat, ghost i: nat, ghost swappedBefore: bool)
      returns (swapped: bool)
      requires Valid() && i + 1 < |nodes| && pt == nodes[i]
      requires PassInv(tasks, prio, settled, i, swappedBefore)
      modifies Repr
      ensures Valid() && Repr == old(Repr) && nodes == old(nodes) && root == old(root)
      ensures swapped <==> prio[old(tasks)[i]] < prio[old(tasks)[i + 1]]
      ensures |tasks| == |old(tasks)| && PassInv(tasks, prio, settled, i + 1, swappedBefore || swapped)
      ensures multiset(tasks) == multiset(old(tasks)) && SamePrioOrder(old(tasks), tasks, prio)
    {
      NextAt(i);
      PassStep(tasks, prio, settled, i, swappedBefore);
      swapped := prio[pt.task] < prio[pt.next.task];
      if swapped {
        SwapWithNext(pt, i, prio);
      }
    }

    /** Exchanges the payloads of the node at position `i` and its successor. */
    method SwapWithNext(pt: Node, ghost i: nat, prio: map<TaskId, uint8>)
      requires Valid() && i + 1 < |nodes| && pt == nodes[i] && HasPrio(tasks, prio)
      requires prio[tasks[i]] < prio[tasks[i + 1]]
      modifies pt, pt.next, this
      ensures Valid() && Repr == old(Repr) && nodes == old(nodes) && root == old(root)
      ensures tasks == Swap(old(tasks), i)
      ensures HasPrio(tasks, prio) && multiset(tasks) == multiset(old(tasks))
      ensures SamePrioOrder(old(tasks), tasks, prio)
    {
      NextAt(i);
      SwapKeepsPrioOrder(tasks, i, prio);
      var nx := pt.next;
      var tmp := pt.task;
      pt.task := nx.task;
      nx.task := tmp;
      tasks := Swap(tasks, i);
    }
  }
}
