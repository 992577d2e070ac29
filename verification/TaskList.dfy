/**
  task.c: the doubly linked list of tasks and its round-robin order.
*/
module TaskList {
  import opened Words

  // ---------------------------------------------------------------- the order as a value

  function IndexOf<T(==)>(order: seq<T>, t: T): (i: nat)
    requires t in order
    ensures i < |order| && order[i] == t
  {
    if order[0] == t then 0 else 1 + IndexOf(order[1..], t)
  }

  /** The task after `t`, the first one after the last. */
  function Successor<T(==)>(order: seq<T>, t: T): (u: T)
    requires t in order
    ensures u in order
  {
    order[(IndexOf(order, t) + 1) % |order|]
  }

  /** The task that `k` switches lead to. */
  function After<T(==)>(order: seq<T>, t: T, k: nat): (u: T)
    requires t in order
    ensures u in order
  {
    if k == 0 then t else Successor(order, After(order, t, k - 1))
  }

  function Without<T(==)>(order: seq<T>, t: T): seq<T>
    requires t in order
  {
    order[..IndexOf(order, t)] + order[IndexOf(order, t) + 1..]
  }

  /** `rest` is `order` without the task at `i`. */
  ghost predicate Removed<T>(order: seq<T>, i: nat, rest: seq<T>) {
    && i < |order| && |rest| == |order| - 1 && Distinct(rest)
    && (forall j | 0 <= j < i :: rest[j] == order[j])
    && (forall j | i <= j < |rest| :: rest[j] == order[j + 1])
    && order[i] !in rest
    && (forall u | u in order && u != order[i] :: u in rest)
  }

  lemma WithoutFacts<T>(order: seq<T>, t: T, rest: seq<T>)
    requires Distinct(order) && t in order && rest == Without(order, t)
    ensures Removed(order, IndexOf(order, t), rest)
  {
    var i := IndexOf(order, t);
    forall u | u in order && u != t ensures u in rest {
      var k :| 0 <= k < |order| && order[k] == u;
      assert rest[if k < i then k else k - 1] == u;
    }
  }

  lemma SuccessorAt<T>(order: seq<T>, i: nat)
    requires i < |order| && IndexOf(order, order[i]) == i
    ensures Successor(order, order[i]) == if i + 1 < |order| then order[i + 1] else order[0]
  {
    if i + 1 < |order| { ModSmall(i + 1, |order|); } else { DivUnique(i + 1, |order|, 1, 0); }
  }

  lemma IndexUnique<T>(order: seq<T>, i: nat)
    requires Distinct(order) && i < |order|
    ensures IndexOf(order, order[i]) == i
  {
  }

  lemma {:induction false} AfterIndex<T>(order: seq<T>, c: nat, k: nat)
    requires Distinct(order) && c < |order|
    ensures After(order, order[c], k) == order[(c + k) % |order|]
  {
    if k == 0 {
      ModSmall(c, |order|);
    } else {
      AfterIndex(order, c, k - 1);
      IndexUnique(order, (c + k - 1) % |order|);
      ModNext(c + k - 1, |order|);
    }
  }

  lemma ModSmall(a: nat, n: nat)
    requires a < n
    ensures a % n == a
  {
  }

  lemma ModNext(a: nat, n: nat)
    requires n > 0
    ensures (a % n + 1) % n == (a + 1) % n
  {
    var q, r := a / n, a % n;
    assert a == q * n + r;
    if r + 1 < n {
      DivUnique(a + 1, n, q, r + 1);
      ModSmall(r + 1, n);
    } else {
      assert (q + 1) * n == q * n + n;
      DivUnique(a + 1, n, q + 1, 0);
    }
  }

  /** Switches from task `c` to reach task `d` for the first time. */
  function Distance(n: nat, c: nat, d: nat): (k: nat)
    requires c < n && d < n
    ensures 1 <= k <= n
  {
    if d > c then d - c else d - c + n
  }

  lemma DistanceExact(n: nat, c: nat, d: nat, k: nat)
    requires c < n && d < n && 1 <= k <= n
    ensures (c + k) % n == d <==> k == Distance(n, c, d)
  {
    if c + k < n { ModSmall(c + k, n); } else if c + k < 2 * n { DivUnique(c + k, n, 1, c + k - n); }
  }

  /** Round robin: from any task, `n` switches visit each of the `n` tasks exactly once and come back. */
  lemma RoundRobin<T>(order: seq<T>, t: T, u: T)
    requires Distinct(order) && t in order && u in order
    ensures After(order, t, |order|) == t
    ensures exists k: nat :: 1 <= k <= |order| && After(order, t, k) == u
    ensures forall j: nat, k: nat | 1 <= j <= |order| && 1 <= k <= |order| && After(order, t, j) == u
        && After(order, t, k) == u :: j == k
  {
    hide After;
    hide IndexOf;
    var n, c, d := |order|, IndexOf(order, t), IndexOf(order, u);
    AfterIndex(order, c, n);
    DistanceExact(n, c, c, n);
    forall k: nat | 1 <= k <= n ensures After(order, t, k) == u <==> k == Distance(n, c, d) {
      AfterIndex(order, c, k);
      DistanceExact(n, c, d, k);
      SameElement(order, (c + k) % n, d);
    }
    assert After(order, t, Distance(n, c, d)) == u;
  }

  lemma SameElement<T>(order: seq<T>, i: nat, j: nat)
    requires Distinct(order) && i < |order| && j < |order|
    ensures order[i] == order[j] <==> i == j
  {
  }

  // ---------------------------------------------------------------- the list in memory

  class Task {
    var next: Task?
    var prev: Task?

    /** task_init: a zeroed structure. */
    constructor ()
      ensures next == null && prev == null
    {
      next, prev := null, null;
    }
  }

  /** A `prev` that names the predecessor; for the first task, one that names no other task of the list, or
      none at all if it is the only one. */
  ghost predicate GoodPrev(order: seq<Task>, i: nat, p: Task?)
    requires i < |order|
  {
    if i > 0 then p == order[i - 1]
    else p == null || (|order| > 1 && p !in order[1..])
  }

  class TaskList {
    var taskHead: Task?
    var taskTail: Task?
    var currentTask: Task?
    ghost var order: seq<Task>

    constructor ()
      ensures Chained() && BackLinked() && order == []
    {
      taskHead, taskTail, currentTask := null, null, null;
      order := [];
    }

    /** Following `next` from the head goes through `order` and ends at the tail; the current task is one of
        the list, null when there is none. */
    ghost predicate Chained()
      reads this, order
    {
      && Distinct(order)
      && taskHead == (if order == [] then null else order[0])
      && taskTail == (if order == [] then null else order[|order| - 1])
      && (forall i, j | 0 <= i < |order| && j == i + 1 && j < |order| :: order[i].next == order[j])
      && (order != [] ==> order[|order| - 1].next == null)
      && (if order == [] then currentTask == null else currentTask != null && currentTask in order)
    }

    /** The `prev` links mirror the `next` links. */
    ghost predicate BackLinked()
      reads this, order
    {
      && (order != [] ==> order[0].prev == null)
      && (forall i, j | 0 <= i < |order| && j == i + 1 && j < |order| :: order[j].prev == order[i])
    }

    /** task_new for a task whose structure was set up: append it. */
    method TaskNew() returns (task: Task)
      requires Chained()
      modifies this, taskTail
      ensures Chained() && fresh(task) && order == old(order) + [task]
      ensures currentTask == if old(order) == [] then task else old(currentTask)
      ensures old(BackLinked()) ==> BackLinked()
    {
      task := new Task();
      if taskHead == null {
        taskHead, taskTail, currentTask := task, task, task;
        order := [task];
        return;
      }
      taskTail.next := task;
      task.prev := taskTail;
      taskTail := task;
      order := order + [task];
    }

    /** task_get_next: in a whole chain the current task's cyclic successor. While task_list_remove is under way
        the chain may be broken; there the answer is what the links say. */
    method TaskGetNext() returns (t: Task?)
      requires currentTask != null
      ensures Chained() && order != [] ==> t == Successor(order, currentTask)
      ensures t == if currentTask.next == null then taskHead else currentTask.next
    {
      if Chained() && order != [] { NextIsSuccessor(); }
      if currentTask.next == null {
        return taskHead;
      }
      return currentTask.next;
    }

    /** The link of the current task, or the head at the end, is its successor. */
    lemma NextIsSuccessor()
      requires Chained() && order != []
      ensures Successor(order, currentTask) == if currentTask.next == null then taskHead else currentTask.next
    {
      var i := IndexOf(order, currentTask);
      if i + 1 < |order| {
        assert order[i].next == order[i + 1];
        ModSmall(i + 1, |order|);
      } else {
        DivUnique(i + 1, |order|, 1, 0);
      }
    }

    /** task_next and the task_switch in it, as a step of the list. */
    method TaskNext()
      requires Chained() && order != []
      modifies this`currentTask
      ensures Chained() && currentTask == Successor(order, old(currentTask))
    {
      currentTask := TaskGetNext();
    }

    /** Unlinking by `task.prev` repairs the chain. */
    ghost predicate CanUnlink(task: Task)
      requires task in order
      reads this, order
    {
      GoodPrev(order, IndexOf(order, task), task.prev)
    }

    /** The four updates of task_list_remove. */
    method Relink(task: Task)
      requires Chained() && task in order
      modifies this, task.prev
      ensures order == old(order)
      ensures forall t | t in order :: t.prev == old(t.prev)
      ensures forall t | t in order && t != old(task.prev) :: t.next == old(t.next)
      ensures old(task.prev) != null ==> old(task.prev).next == old(task.next)
      ensures task.next == old(task.next)
      ensures taskHead == if task == old(taskHead) then task.next else old(taskHead)
      ensures taskTail == if task == old(taskTail) then task.prev else old(taskTail)
      ensures currentTask == if task != old(currentTask) then old(currentTask)
                             else if task.next == null then taskHead else task.next
    {
      if task.prev != null {
        task.prev.next := task.next;
      }
      if task == taskHead {
        taskHead := task.next;
      }
      if task == taskTail {
        taskTail := task.prev;
      }
      if task == currentTask {
        currentTask := TaskGetNext();
      }
    }

    /** task_list_remove. It leaves the chain of the other tasks in their order exactly when the task's `prev`
        is right. It never repairs the successor's `prev`, so after an inner task is removed from a well
        linked list, its successor can no longer be unlinked. */
    method TaskListRemove(task: Task)
      requires Chained() && task in order
      modifies this, task.prev
      ensures order == Without(old(order), task)
      ensures Chained() <==> old(CanUnlink(task))
      ensures old(CanUnlink(task)) ==>
                currentTask == if task != old(currentTask) then old(currentTask)
                               else if |old(order)| == 1 then null else Successor(old(order), task)
      ensures old(BackLinked()) ==>
                && old(CanUnlink(task))
                && (forall i, j | 0 <= i < |order| && j == i + 1 && j < |order| && j != IndexOf(old(order), task) ::
                      order[j].prev == order[i])
                && (IndexOf(old(order), task) > 0 ==> order[0].prev == null)
                && (IndexOf(old(order), task) < |order| ==> order[IndexOf(old(order), task)].prev == task)
      ensures old(BackLinked()) && IndexOf(old(order), task) < |order| ==>
                (CanUnlink(order[IndexOf(old(order), task)]) <==> IndexOf(old(order), task) == 0 && |order| > 1)
    {
      hide IndexOf;
      hide Without;
      hide Removed;
      hide Successor;
      hide GoodPrev;
      ghost var o, i, p := order, IndexOf(order, task), task.prev;
      WithoutFacts(o, task, Without(o, task));
      SuccessorAt(o, i);
      Relink(task);
      order := Without(order, task);
      if old(BackLinked()) { BackLinksLeft(o, i); }
      Settled(o, i, p);
    }

    /** Whether the chain is whole after task `i`, whose `prev` was `p`, was relinked. */
    lemma Settled(o: seq<Task>, i: nat, p: Task?)
      requires Distinct(o) && Removed(o, i, order)
      requires taskHead == (if i > 0 then o[0] else if |o| > 1 then o[1] else null)
      requires taskTail == (if i == |o| - 1 then p else o[|o| - 1])
      requires forall j, k | 0 <= j < |o| && k == j + 1 && k < |o| && o[j] != p :: o[j].next == o[k]
      requires o[|o| - 1] != p ==> o[|o| - 1].next == null
      requires p != null ==> p.next == if i + 1 < |o| then o[i + 1] else null
      requires if |o| > 1 then currentTask != null && currentTask in order else currentTask == null
      ensures Chained() <==> GoodPrev(o, i, p)
    {
      if i > 0 && p == o[i - 1] {
        UnlinkedInner(o, i);
      } else if i == 0 && (p == null || (|o| > 1 && p !in o[1..])) {
        UnlinkedHead(o);
      } else {
        Broken(o, i, p);
      }
    }

    /** A wrong `prev` leaves the task linked from its predecessor, or overwrites another link or the tail. */
    lemma Broken(o: seq<Task>, i: nat, p: Task?)
      requires Distinct(o) && Removed(o, i, order)
      requires if i > 0 then o[i - 1].next == o[i] else p != null
      requires i == 0 && |o| > 1 ==> p in o[1..] && p.next == o[1]
      requires i == 0 && |o| == 1 ==> taskTail == p
      ensures !Chained()
    {
      if i > 0 {
        assert order[i - 1] == o[i - 1];
        if i < |order| { assert order[i - 1].next != order[i]; }
      } else if |o| > 1 {
        var k :| 1 <= k < |o| && o[k] == p;
        assert order[k - 1] == p;
        if k < |order| { assert order[k] == o[k + 1] && order[k - 1].next != order[k]; }
      }
    }

    /** The chain after its inner or last task `i` was taken out. */
    lemma UnlinkedInner(o: seq<Task>, i: nat)
      requires Distinct(o) && 0 < i < |o| && Removed(o, i, order)
      requires taskHead == o[0] && taskTail == if i == |o| - 1 then o[i - 1] else o[|o| - 1]
      requires forall j, k | 0 <= j < |o| && k == j + 1 && k < |o| && k != i :: o[j].next == o[k]
      requires o[i - 1].next == if i + 1 < |o| then o[i + 1] else null
      requires i + 1 < |o| ==> o[|o| - 1].next == null
      requires currentTask != null && currentTask in order
      ensures Chained()
    {
      hide IndexOf;
      forall j, k | 0 <= j < |order| && k == j + 1 && k < |order| ensures order[j].next == order[k] {
        if j >= i { assert o[j + 1].next == o[j + 2]; } else if j < i - 1 { assert o[j].next == o[j + 1]; }
      }
    }

    /** ... or its first. */
    lemma UnlinkedHead(o: seq<Task>)
      requires Distinct(o) && |o| > 0 && Removed(o, 0, order)
      requires taskHead == (if |o| > 1 then o[1] else null) && taskTail == (if |o| > 1 then o[|o| - 1] else null)
      requires forall j, k | 1 <= j < |o| && k == j + 1 && k < |o| :: o[j].next == o[k]
      requires |o| > 1 ==> o[|o| - 1].next == null
      requires if |o| > 1 then currentTask != null && currentTask in order else currentTask == null
      ensures Chained()
    {
      forall j, k | 0 <= j < |order| && k == j + 1 && k < |order| ensures order[j].next == order[k] {
        assert o[j + 1].next == o[j + 2];
      }
    }

    /** Back links of the others after task `i` was taken out of a well linked list. */
    lemma BackLinksLeft(o: seq<Task>, i: nat)
      requires Distinct(o) && Removed(o, i, order)
      requires o[0].prev == null && forall j, k | 0 <= j < |o| && k == j + 1 && k < |o| :: o[k].prev == o[j]
      ensures forall j, k | 0 <= j < |order| && k == j + 1 && k < |order| && k != i :: order[k].prev == order[j]
      ensures i > 0 ==> order != [] && order[0].prev == null
      ensures i < |order| ==> order[i].prev == o[i] && (CanUnlink(order[i]) <==> i == 0 && |order| > 1)
      ensures GoodPrev(o, i, o[i].prev)
    {
      hide IndexOf;
      if i < |order| { IndexUnique(order, i); }
      forall j, k | 0 <= j < |order| && k == j + 1 && k < |order| && k != i ensures order[k].prev == order[j] {
        if j >= i { assert o[k + 1].prev == o[j + 1]; } else { assert o[k].prev == o[j]; }
      }
    }
  }

  /** Three tasks; removing the second and then the third leaves a broken chain. */
  method RemovingTwiceBreaks() returns (l: TaskList)
    ensures fresh(l) && !l.Chained()
  {
    l := new TaskList();
    var a := l.TaskNew();
    var b := l.TaskNew();
    var c := l.TaskNew();
    assert l.order == [a, b, c] && IndexOf(l.order, b) == 1;
    l.TaskListRemove(b);
    assert l.order == [a, c] && IndexOf(l.order, c) == 1;
    assert !l.CanUnlink(c);
    l.TaskListRemove(c);
  }
}
