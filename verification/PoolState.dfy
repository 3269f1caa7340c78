/**
 The thread pool (threadpool.c), one critical section at a time: a ring of tasks and the
 counters of its threads.  The lock makes each of these methods one step.
*/
module PoolState {
  const MIN_WAIT_TASK_NUM := 10
  const DEFAULT_THREAD_VARY := 10

  datatype Task = Task(function_: nat, arg: nat)

  /** What a critical section changes: the tasks that wait, in order, the counters and the thread ids (0 for none). */
  datatype View = View(queue: seq<Task>, live: int, busy: int, waitExit: int, threads: seq<nat>)

  /** The limits given to threadpool_create. */
  datatype Limits = Limits(minThreads: nat, maxThreads: nat, maxQueue: nat)

  // ----- what the critical sections do -----

  /** A worker that woke up: one fewer is asked to exit, and it does unless that leaves too few. */
  function Woken(l: Limits, v: View): (View, bool) {
    if v.waitExit > 0 then
      var exits := v.live > l.minThreads;
      (v.(waitExit := v.waitExit - 1, live := if exits then v.live - 1 else v.live), exits)
    else (v, false)
  }

  /** The creating loop of the manager from slot `i` on: free slots get new threads, with the ids from `next` on. */
  function Created(l: Limits, v: View, alive: seq<bool>, i: nat, add: nat, next: nat): (View, nat)
    requires |v.threads| == |alive| == l.maxThreads && i <= l.maxThreads
    decreases l.maxThreads - i
  {
    if i < l.maxThreads && add < DEFAULT_THREAD_VARY && v.live < l.maxThreads then
      if v.threads[i] == 0 || !alive[i]
      then Created(l, v.(threads := v.threads[i := next], live := v.live + 1), alive, i + 1, add + 1, next + 1)
      else Created(l, v, alive, i + 1, add, next)
    else (v, add)
  }

  function Min(a: int, b: int): int {
    if a < b then a else b
  }

  /** The slots from `i` on that hold no living thread, in order. */
  function Free(threads: seq<nat>, alive: seq<bool>, i: nat): (free: seq<nat>)
    requires |threads| == |alive| && i <= |threads|
    decreases |threads| - i
  {
    if i == |threads| then []
    else (if threads[i] == 0 || !alive[i] then [i] else []) + Free(threads, alive, i + 1)
  }

  lemma {:induction false} FreeIs(threads: seq<nat>, alive: seq<bool>, i: nat)
    requires |threads| == |alive| && i <= |threads|
    ensures var free := Free(threads, alive, i);
            && (forall q :: 0 <= q < |free| ==> i <= free[q] < |threads| && (threads[free[q]] == 0 || !alive[free[q]]))
            && (forall q, r :: 0 <= q < r < |free| ==> free[q] < free[r])
            && (forall j :: i <= j < |threads| && (threads[j] == 0 || !alive[j]) ==> j in free)
    decreases |threads| - i
  {
    hide Free;
    FreeStep(threads, alive, i);
    if i < |threads| {
      FreeIs(threads, alive, i + 1);
      var free, more := Free(threads, alive, i), Free(threads, alive, i + 1);
      assert forall q :: 0 <= q < |free| ==> free[q] == i || free[q] in more;
      assert forall j :: j in more ==> j in free;
      assert threads[i] == 0 || !alive[i] ==> free[0] == i;
    }
  }

  lemma {:induction false} FreeFrom(threads: seq<nat>, threads': seq<nat>, alive: seq<bool>, i: nat)
    requires |threads| == |threads'| == |alive| && i <= |threads|
    requires forall j :: i <= j < |threads| ==> threads[j] == threads'[j]
    ensures Free(threads, alive, i) == Free(threads', alive, i)
    decreases |threads| - i
  {
    if i < |threads| { FreeFrom(threads, threads', alive, i + 1); }
  }

  /** The first `k` of the free slots hold the ids from `next` on; the other slots are as they were. */
  ghost predicate Filled(threads: seq<nat>, threads': seq<nat>, free: seq<nat>, k: nat, next: nat) {
    && |threads'| == |threads| && k <= |free|
    && (forall q :: 0 <= q < k ==> free[q] < |threads| && threads'[free[q]] == next + q)
    && (forall j :: 0 <= j < |threads| && j !in free[..k] ==> threads'[j] == threads[j])
  }

  /**
   What the creating loop does.  It makes as many threads as it may at once, as the maximum leaves
   room for, and as there are free slots, whichever is least; they fill the first free slots in turn.
  */
  lemma {:induction false} CreatedIs(l: Limits, v: View, alive: seq<bool>, i: nat, add: nat, next: nat)
    requires |v.threads| == |alive| == l.maxThreads && i <= l.maxThreads && add <= DEFAULT_THREAD_VARY
    ensures var (p, n) := Created(l, v, alive, i, add, next);
            var free := Free(v.threads, alive, i);
            var room := if v.live < l.maxThreads then l.maxThreads - v.live else 0;
            && n - add == Min(Min(DEFAULT_THREAD_VARY - add, room), |free|)
            && Filled(v.threads, p.threads, free, n - add, next)
            && p == v.(threads := p.threads, live := v.live + (n - add))
    decreases l.maxThreads - i
  {
    hide Filled, Free;
    FreeStep(v.threads, alive, i);
    if i < l.maxThreads && add < DEFAULT_THREAD_VARY && v.live < l.maxThreads {
      if v.threads[i] == 0 || !alive[i] {
        var w := v.(threads := v.threads[i := next], live := v.live + 1);
        CreatedIs(l, w, alive, i + 1, add + 1, next + 1);
        FreeFrom(v.threads, w.threads, alive, i + 1);
        var (p, n) := Created(l, w, alive, i + 1, add + 1, next + 1);
        FilledFirst(v.threads, p.threads, alive, n - add - 1, i, next);
      } else {
        CreatedIs(l, v, alive, i + 1, add, next);
      }
    } else {
      NoneFilled(v.threads, Free(v.threads, alive, i), next);
    }
  }

  lemma NoneFilled(threads: seq<nat>, free: seq<nat>, next: nat)
    ensures Filled(threads, threads, free, 0, next)
  {
  }

  lemma FreeStep(threads: seq<nat>, alive: seq<bool>, i: nat)
    requires |threads| == |alive| && i <= |threads|
    ensures var free := Free(threads, alive, i);
            if i == |threads| then |free| == 0
            else if threads[i] == 0 || !alive[i] then free == [i] + Free(threads, alive, i + 1)
            else free == Free(threads, alive, i + 1)
  {
  }

  lemma FilledFirst(threads: seq<nat>, threads': seq<nat>, alive: seq<bool>, k: nat, i: nat, next: nat)
    requires |threads| == |alive| && i < |threads| && (threads[i] == 0 || !alive[i])
    requires Filled(threads[i := next], threads', Free(threads, alive, i + 1), k, next + 1)
    ensures Filled(threads, threads', Free(threads, alive, i), k + 1, next)
  {
    hide Free;
    FreeStep(threads, alive, i);
    FreeIs(threads, alive, i + 1);
    var free, all := Free(threads, alive, i + 1), Free(threads, alive, i);
    assert all[..k + 1] == [i] + free[..k];
    assert i !in free[..k];
    assert forall q :: 0 < q < k + 1 ==> all[q] == free[q - 1];
  }

  lemma ModOnce(x: nat, m: nat)
    requires m > 0 && x < 2 * m
    ensures x % m == if x < m then x else x - m
  {
    if x >= m {
      assert x == m + (x - m) && (x - m) % m == x - m;
    }
  }

  class Pool {
    const limits: Limits
    const task_queue: array<Task>
    var queue_front: nat
    var queue_rear: nat
    var queue_size: nat
    var live_thr_num: int
    var busy_thr_num: int
    var wait_exit_thr_num: int
    var threads: seq<nat>

    /** threadpool_create; the task queue and wait_exit_thr_num hold whatever malloc found. */
    constructor (limits: Limits, garbage: nat -> Task, waitExit: int)
      requires limits.minThreads <= limits.maxThreads
      ensures this.limits == limits && Valid()
      ensures Contents() == View([], limits.minThreads, 0, waitExit,
                seq(limits.maxThreads, i => if 0 <= i < limits.minThreads then i + 1 else 0))
    {
      this.limits := limits;
      task_queue := new Task[limits.maxQueue](garbage);
      queue_front, queue_rear, queue_size := 0, 0, 0;
      live_thr_num, busy_thr_num, wait_exit_thr_num := limits.minThreads, 0, waitExit;
      threads := seq(limits.maxThreads, i => if 0 <= i < limits.minThreads then i + 1 else 0);
    }

    /** The slot of the task at position `i` of the queue. */
    function Slot(i: nat): nat
      reads this`queue_front
    {
      if queue_front + i < limits.maxQueue then queue_front + i else queue_front + i - limits.maxQueue
    }

    ghost predicate Ring()
      reads this`queue_front, this`queue_rear, this`queue_size
    {
      && task_queue.Length == limits.maxQueue && queue_size <= limits.maxQueue && queue_front <= limits.maxQueue
      && (limits.maxQueue > 0 ==> queue_front < limits.maxQueue && queue_rear == Slot(queue_size))
    }

    ghost predicate Valid()
      reads this`queue_front, this`queue_rear, this`queue_size, this`threads
    {
      Ring() && |threads| == limits.maxThreads
    }

    /** The tasks that wait, the oldest first. */
    ghost function Queue(): (q: seq<Task>)
      requires Ring()
      reads this`queue_front, this`queue_rear, this`queue_size, task_queue
      ensures |q| == queue_size && forall i :: 0 <= i < queue_size ==> q[i] == task_queue[Slot(i)]
    {
      if queue_front + queue_size <= limits.maxQueue then task_queue[queue_front..queue_front + queue_size]
      else task_queue[queue_front..] + task_queue[..queue_front + queue_size - limits.maxQueue]
    }

    ghost function Contents(): View
      requires Valid()
      reads this, task_queue
    {
      View(Queue(), live_thr_num, busy_thr_num, wait_exit_thr_num, threads)
    }

    /** The slot that an add clears and fills holds no task that waits. */
    lemma RearIsFree()
      requires Valid() && queue_size < limits.maxQueue
      ensures queue_rear < limits.maxQueue && forall i: nat :: i < queue_size ==> Slot(i) != queue_rear
    {
    }

    /** threadpool_add, once the queue is not full: `cleared` is the argument it frees, if there is one. */
    method Add(task: Task) returns (cleared: nat)
      requires Valid() && queue_size < limits.maxQueue
      modifies this`queue_rear, this`queue_size, task_queue
      ensures Valid() && Contents() == old(Contents()).(queue := old(Queue()) + [task])
      ensures old(queue_rear) < limits.maxQueue && cleared == old(task_queue[queue_rear]).arg
    {
      hide Pool.Queue;
      RearIsFree();
      ghost var q := Queue();
      cleared := task_queue[queue_rear].arg;
      if cleared != 0 {
        task_queue[queue_rear] := task_queue[queue_rear].(arg := 0);
      }
      task_queue[queue_rear] := task;
      ModOnce(queue_rear + 1, limits.maxQueue);
      queue_rear := (queue_rear + 1) % limits.maxQueue;
      queue_size := queue_size + 1;
      assert Queue() == q + [task];
    }

    /** threadpool_thread: a worker takes the oldest task. */
    method Take() returns (task: Task)
      requires Valid() && queue_size > 0
      modifies this`queue_front, this`queue_size
      ensures Valid() && task == old(Queue())[0] && Contents() == old(Contents()).(queue := old(Queue())[1..])
    {
      hide Pool.Queue;
      ghost var q := Queue();
      task := Task(task_queue[queue_front].function_, task_queue[queue_front].arg);
      ModOnce(queue_front + 1, limits.maxQueue);
      queue_front := (queue_front + 1) % limits.maxQueue;
      queue_size := queue_size - 1;
      assert Queue() == q[1..];
    }

    /** threadpool_thread, after pthread_cond_wait. */
    method WakeUp() returns (exits: bool)
      requires Valid()
      modifies this`wait_exit_thr_num, this`live_thr_num
      ensures Valid() && (Contents(), exits) == Woken(limits, old(Contents()))
      ensures exits <==> old(wait_exit_thr_num) > 0 && old(live_thr_num) > limits.minThreads
      ensures live_thr_num == old(live_thr_num) - if exits then 1 else 0
      ensures old(live_thr_num) >= limits.minThreads ==> live_thr_num >= limits.minThreads
      ensures wait_exit_thr_num == if old(wait_exit_thr_num) > 0 then old(wait_exit_thr_num) - 1 else old(wait_exit_thr_num)
    {
      exits := false;
      if wait_exit_thr_num > 0 {
        wait_exit_thr_num := wait_exit_thr_num - 1;
        if live_thr_num > limits.minThreads {
          live_thr_num := live_thr_num - 1;
          exits := true;
        }
      }
    }

    /** adjust_thread, the creating loop.  `alive` holds what is_thread_alive says of each slot, `next` is the next thread id. */
    method CreateThreads(alive: seq<bool>, next: nat) returns (add: nat)
      requires Valid() && |alive| == limits.maxThreads
      modifies this`threads, this`live_thr_num
      ensures Valid() && (Contents(), add) == Created(limits, old(Contents()), alive, 0, 0, next)
      ensures var free := Free(old(threads), alive, 0);
              && Filled(old(threads), threads, free, add, next) && live_thr_num == old(live_thr_num) + add
              && add <= DEFAULT_THREAD_VARY && (add > 0 ==> live_thr_num <= limits.maxThreads)
              && (add == DEFAULT_THREAD_VARY || add == |free| || live_thr_num >= limits.maxThreads)
    {
      hide Pool.Queue, Pool.Ring, Filled;
      add := 0;
      var i: nat := 0;
      while i < limits.maxThreads && add < DEFAULT_THREAD_VARY && live_thr_num < limits.maxThreads
        invariant Valid() && i <= limits.maxThreads && Queue() == old(Queue())
        invariant Created(limits, old(Contents()), alive, 0, 0, next) == Created(limits, Contents(), alive, i, add, next + add)
      {
        if threads[i] == 0 || !alive[i] {
          threads := threads[i := next + add];
          add := add + 1;
          live_thr_num := live_thr_num + 1;
        }
        i := i + 1;
      }
      CreatedIs(limits, old(Contents()), alive, 0, 0, next);
    }

    /** threadpool_thread, under thread_counter: a task begins. */
    method Begin()
      requires Valid()
      modifies this`busy_thr_num
      ensures Contents() == old(Contents()).(busy := old(busy_thr_num) + 1)
    {
      busy_thr_num := busy_thr_num + 1;
    }

    /** threadpool_thread, under thread_counter: a task is done. */
    method End()
      requires Valid()
      modifies this`busy_thr_num
      ensures Contents() == old(Contents()).(busy := old(busy_thr_num) - 1)
    {
      busy_thr_num := busy_thr_num - 1;
    }

    /** adjust_thread: idle threads are asked to exit. */
    method AskToExit()
      requires Valid()
      modifies this`wait_exit_thr_num
      ensures Contents() == old(Contents()).(waitExit := DEFAULT_THREAD_VARY)
    {
      wait_exit_thr_num := DEFAULT_THREAD_VARY;
    }
  }
}
