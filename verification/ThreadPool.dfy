/**
 The thread pool (threadpool.c) over whole runs: the critical sections of PoolState, interleaved
 in any order by the threads that add tasks, the workers and the manager, without shutdown.
*/
module ThreadPool {
  import opened PoolState

  /** What a worker is about to do. */
  datatype Worker =
    | Entering               // take the lock at the top of its loop
    | Waiting                // in pthread_cond_wait
    | Holding(task: Task)    // count itself busy and run the task it took
    | Running(task: Task)    // finish the task and count itself idle
    | Exited

  /** What the manager is about to do; it acts on the counters it read before. */
  datatype Manager =
    | Sleeping                                 // read queue_size and live_thr_num
    | Counting(size: nat, live: int)           // read busy_thr_num
    | Growing(size: nat, live: int, busy: int) // create threads, if that is called for
    | Trimming(live: int, busy: int)           // ask threads to exit, if that is called for

  datatype State = State(
    pool: View, workers: seq<Worker>, manager: Manager,
    added: seq<Task>, taken: seq<Task>, finished: multiset<Task>)

  datatype Action =
    | Add(task: Task)
    | Work(k: nat)
    | Manage(alive: seq<bool>)

  /** After threadpool_create, which does not set wait_exit_thr_num. */
  ghost predicate Init(l: Limits, s: State) {
    && s.pool == View([], l.minThreads, 0, s.pool.waitExit, seq(l.maxThreads, i => if 0 <= i < l.minThreads then i + 1 else 0))
    && s.workers == seq(l.minThreads, _ => Entering)
    && s.manager == Sleeping && s.added == [] && s.taken == [] && s.finished == multiset{}
  }

  /** An add waits while the queue is full.  A thread that has not exited answers to is_thread_alive; one that has may or may not. */
  ghost predicate Enabled(l: Limits, s: State, a: Action) {
    match a
    case Add(_) => |s.pool.queue| < l.maxQueue
    case Work(k) => k < |s.workers| && s.workers[k] != Exited
    case Manage(alive) =>
      && |alive| == |s.pool.threads| == l.maxThreads
      && forall i :: 0 <= i < |alive| && Lives(s, s.pool.threads[i]) ==> alive[i]
  }

  /** The thread with this id, if there is one, has not exited. */
  predicate Lives(s: State, id: nat) {
    0 < id <= |s.workers| && s.workers[id - 1] != Exited
  }

  /** A worker that holds the lock: it takes the oldest task or waits for one. */
  function TakeOrWait(s: State, k: nat): (after: State)
    requires k < |s.workers|
    ensures |after.workers| == |s.workers|
  {
    if s.pool.queue == [] then s.(workers := s.workers[k := Waiting])
    else
      var task := s.pool.queue[0];
      s.(pool := s.pool.(queue := s.pool.queue[1..]), taken := s.taken + [task], workers := s.workers[k := Holding(task)])
  }

  function WorkStep(l: Limits, s: State, k: nat): (after: State)
    requires k < |s.workers|
    ensures |after.workers| == |s.workers|
  {
    match s.workers[k]
    case Entering => TakeOrWait(s, k)
    case Waiting =>
      var (pool, exits) := Woken(l, s.pool);
      if exits then s.(pool := pool, workers := s.workers[k := Exited]) else TakeOrWait(s.(pool := pool), k)
    case Holding(task) => s.(pool := s.pool.(busy := s.pool.busy + 1), workers := s.workers[k := Running(task)])
    case Running(task) =>
      s.(pool := s.pool.(busy := s.pool.busy - 1), workers := s.workers[k := Entering], finished := s.finished + multiset{task})
    case Exited => s
  }

  function ManageStep(l: Limits, s: State, alive: seq<bool>): State
    requires |alive| == |s.pool.threads| == l.maxThreads
  {
    match s.manager
    case Sleeping => s.(manager := Counting(|s.pool.queue|, s.pool.live))
    case Counting(size, live) => s.(manager := Growing(size, live, s.pool.busy))
    case Growing(size, live, busy) =>
      if size >= MIN_WAIT_TASK_NUM && live < l.maxThreads then
        var (pool, n) := Created(l, s.pool, alive, 0, 0, |s.workers| + 1);
        s.(pool := pool, workers := s.workers + seq(n, _ => Entering), manager := Trimming(live, busy))
      else s.(manager := Trimming(live, busy))
    case Trimming(live, busy) =>
      if busy * 2 < live && live > l.minThreads
      then s.(pool := s.pool.(waitExit := DEFAULT_THREAD_VARY), manager := Sleeping)
      else s.(manager := Sleeping)
  }

  function Apply(l: Limits, s: State, a: Action): State
    requires a.Work? ==> a.k < |s.workers|
    requires a.Manage? ==> |a.alive| == |s.pool.threads| == l.maxThreads
  {
    match a
    case Add(task) => s.(pool := s.pool.(queue := s.pool.queue + [task]), added := s.added + [task])
    case Work(k) => WorkStep(l, s, k)
    case Manage(alive) => ManageStep(l, s, alive)
  }

  /** A run from threadpool_create, each state one step after the one before. */
  ghost predicate Run(l: Limits, run: seq<State>, actions: seq<Action>) {
    && |run| == |actions| + 1 && Init(l, run[0])
    && forall i :: 0 <= i < |actions| ==> Enabled(l, run[i], actions[i]) && run[i + 1] == Apply(l, run[i], actions[i])
  }

  // ----- the steps on a real pool -----

  /** threadpool_add on a pool does what the step says. */
  method AddOn(p: Pool, task: Task, ghost l: Limits, ghost s: State)
    requires p.Valid() && p.limits == l && p.Contents() == s.pool && Enabled(l, s, Add(task))
    modifies p`queue_rear, p`queue_size, p.task_queue
    ensures p.Valid() && p.Contents() == Apply(l, s, Add(task)).pool
  {
    var _ := p.Add(task);
  }

  /** The same of a worker that holds the lock. */
  method TakeOrWaitOn(p: Pool, ghost s: State, ghost k: nat) returns (w: Worker)
    requires p.Valid() && p.Contents() == s.pool && k < |s.workers|
    modifies p`queue_front, p`queue_size
    ensures p.Valid() && p.Contents() == TakeOrWait(s, k).pool && w == TakeOrWait(s, k).workers[k]
  {
    hide Pool.Ring;
    if p.queue_size == 0 {
      w := Waiting;
    } else {
      var task := p.Take();
      w := Holding(task);
    }
  }

  /** Of one that wakes up. */
  method WakeUpOn(p: Pool, ghost l: Limits, ghost s: State, ghost k: nat) returns (w: Worker)
    requires p.Valid() && p.limits == l && p.Contents() == s.pool && k < |s.workers| && s.workers[k] == Waiting
    modifies p`queue_front, p`queue_size, p`live_thr_num, p`wait_exit_thr_num
    ensures p.Valid() && p.Contents() == WorkStep(l, s, k).pool && w == WorkStep(l, s, k).workers[k]
  {
    hide Pool.Queue, Pool.Ring, Woken;
    var exits := p.WakeUp();
    if exits {
      w := Exited;
    } else {
      w := TakeOrWaitOn(p, s.(pool := Woken(l, s.pool).0), k);
    }
  }

  /** Of one that starts or ends with its task. */
  method CountOn(p: Pool, w: Worker, ghost l: Limits, ghost s: State, ghost k: nat) returns (w': Worker)
    requires p.Valid() && p.limits == l && p.Contents() == s.pool && k < |s.workers| && s.workers[k] == w
    requires w.Holding? || w.Running?
    modifies p`busy_thr_num
    ensures p.Valid() && p.Contents() == WorkStep(l, s, k).pool && w' == WorkStep(l, s, k).workers[k]
  {
    hide Pool.Queue, Pool.Ring, Woken, TakeOrWait;
    if w.Holding? {
      p.Begin();
      w' := Running(w.task);
    } else {
      p.End();
      w' := Entering;
    }
  }

  /** The code that a worker runs on the pool from one step to the next. */
  method WorkOn(p: Pool, w: Worker, ghost l: Limits, ghost s: State, ghost k: nat) returns (w': Worker)
    requires p.Valid() && p.limits == l && p.Contents() == s.pool && k < |s.workers| && s.workers[k] == w
    modifies p`queue_front, p`queue_size, p`live_thr_num, p`busy_thr_num, p`wait_exit_thr_num
    ensures p.Valid() && p.Contents() == WorkStep(l, s, k).pool && w' == WorkStep(l, s, k).workers[k]
  {
    hide Pool.Queue, Pool.Ring, Woken, TakeOrWait;
    match w
    case Entering => w' := TakeOrWaitOn(p, s, k);
    case Waiting => w' := WakeUpOn(p, l, s, k);
    case Exited => w' := w;
    case _ => w' := CountOn(p, w, l, s, k);
  }

  /** And the code of the manager. */
  method ManageOn(p: Pool, m: Manager, alive: seq<bool>, next: nat, ghost l: Limits, ghost s: State) returns (m': Manager)
    requires p.Valid() && p.limits == l && p.Contents() == s.pool && s.manager == m
    requires Enabled(l, s, Manage(alive)) && next == |s.workers| + 1
    modifies p`threads, p`live_thr_num, p`wait_exit_thr_num
    ensures p.Valid() && p.Contents() == ManageStep(l, s, alive).pool && m' == ManageStep(l, s, alive).manager
  {
    hide Pool.Ring, Created, Lives;
    match m
    case Sleeping => m' := Counting(p.queue_size, p.live_thr_num);
    case Counting(size, live) => m' := Growing(size, live, p.busy_thr_num);
    case Growing(size, live, busy) =>
      if size >= MIN_WAIT_TASK_NUM && live < p.limits.maxThreads {
        var _ := p.CreateThreads(alive, next);
      }
      m' := Trimming(live, busy);
    case Trimming(live, busy) =>
      if busy * 2 < live && live > p.limits.minThreads {
        p.AskToExit();
      }
      m' := Sleeping;
  }

  // ----- counting workers -----

  function Live(ws: seq<Worker>): nat {
    if ws == [] then 0 else (if ws[0] == Exited then 0 else 1) + Live(ws[1..])
  }

  function Busy(ws: seq<Worker>): nat {
    if ws == [] then 0 else (if ws[0].Running? then 1 else 0) + Busy(ws[1..])
  }

  /** The task that a worker has taken and not finished. */
  function HeldBy(w: Worker): multiset<Task> {
    if w.Holding? || w.Running? then multiset{w.task} else multiset{}
  }

  function Held(ws: seq<Worker>): multiset<Task> {
    if ws == [] then multiset{} else HeldBy(ws[0]) + Held(ws[1..])
  }

  lemma {:induction false} OneChanges(ws: seq<Worker>, k: nat, w: Worker)
    requires k < |ws|
    ensures Live(ws[k := w]) + (if ws[k] == Exited then 0 else 1) == Live(ws) + if w == Exited then 0 else 1
    ensures Busy(ws[k := w]) + (if ws[k].Running? then 1 else 0) == Busy(ws) + if w.Running? then 1 else 0
  {
    if k == 0 {
      assert ws[0 := w][1..] == ws[1..];
    } else {
      assert ws[k := w][1..] == ws[1..][k - 1 := w];
      OneChanges(ws[1..], k - 1, w);
    }
  }

  lemma {:induction false} OneHeldChanges(ws: seq<Worker>, k: nat, w: Worker, t: Task)
    requires k < |ws|
    ensures Held(ws[k := w])[t] + HeldBy(ws[k])[t] == Held(ws)[t] + HeldBy(w)[t]
  {
    hide HeldBy;
    if k == 0 {
      assert ws[0 := w][1..] == ws[1..];
    } else {
      assert ws[k := w][1..] == ws[1..][k - 1 := w];
      OneHeldChanges(ws[1..], k - 1, w, t);
    }
  }

  /** Every task that was taken was finished, or one worker has it. */
  ghost predicate Accounted(taken: seq<Task>, finished: multiset<Task>, ws: seq<Worker>) {
    forall t :: multiset(taken)[t] == finished[t] + Held(ws)[t]
  }

  lemma StillAccounted(taken: seq<Task>, finished: multiset<Task>, ws: seq<Worker>, k: nat, w: Worker,
                       more: seq<Task>, done: multiset<Task>)
    requires Accounted(taken, finished, ws) && k < |ws|
    requires forall t :: multiset(more)[t] + HeldBy(ws[k])[t] == done[t] + HeldBy(w)[t]
    ensures Accounted(taken + more, finished + done, ws[k := w])
  {
    hide HeldBy, Held;
    forall t ensures multiset(taken + more)[t] == (finished + done)[t] + Held(ws[k := w])[t] {
      OneHeldChanges(ws, k, w, t);
      assert multiset(taken + more) == multiset(taken) + multiset(more);
    }
  }

  lemma {:induction false} NewOnes(ws: seq<Worker>, n: nat)
    ensures var more := ws + seq(n, _ => Entering);
            Live(more) == Live(ws) + n && Busy(more) == Busy(ws) && Held(more) == Held(ws)
    decreases |ws|, n
  {
    var more := ws + seq(n, _ => Entering);
    if ws != [] {
      assert more[1..] == ws[1..] + seq(n, _ => Entering);
      NewOnes(ws[1..], n);
    } else if n > 0 {
      assert more[1..] == [] + seq(n - 1, _ => Entering);
      NewOnes([], n - 1);
    }
  }

  // ----- the invariant -----

  /** Every thread that has not exited has its id in the table. */
  ghost predicate Known(s: State, k: nat) {
    exists i :: 0 <= i < |s.pool.threads| && s.pool.threads[i] == k + 1
  }

  /** No two slots of the table hold the same thread, and none holds one that was never made. */
  ghost predicate Distinct(threads: seq<nat>, made: nat) {
    && (forall i :: 0 <= i < |threads| ==> threads[i] <= made)
    && forall i, j :: 0 <= i < j < |threads| && threads[i] != 0 ==> threads[i] != threads[j]
  }

  ghost predicate Inv(l: Limits, s: State) {
    && |s.pool.queue| <= l.maxQueue && |s.pool.threads| == l.maxThreads
    && s.added == s.taken + s.pool.queue
    && l.minThreads <= s.pool.live <= l.maxThreads
    && s.pool.live == Live(s.workers) && s.pool.busy == Busy(s.workers)
    && Accounted(s.taken, s.finished, s.workers)
    && (forall k: nat :: k < |s.workers| && s.workers[k] != Exited ==> Known(s, k))
    && Distinct(s.pool.threads, |s.workers|)
  }

  lemma InitInv(l: Limits, s: State)
    requires Init(l, s) && l.minThreads <= l.maxThreads
    ensures Inv(l, s)
  {
    NewOnes([], l.minThreads);
    assert [] + s.workers == s.workers;
    forall k: nat | k < |s.workers| ensures Known(s, k) {
      assert s.pool.threads[k] == k + 1;
    }
  }

  lemma AddKeeps(l: Limits, s: State, task: Task)
    requires Inv(l, s) && |s.pool.queue| < l.maxQueue
    ensures Inv(l, Apply(l, s, Add(task)))
  {
    var s' := Apply(l, s, Add(task));
    assert s.taken + (s.pool.queue + [task]) == s.taken + s.pool.queue + [task];
    forall k: nat | k < |s.workers| && s.workers[k] != Exited ensures Known(s', k) { assert Known(s, k); }
  }

  lemma TakeKeeps(l: Limits, s: State, k: nat)
    requires Inv(l, s) && k < |s.workers| && (s.workers[k] == Entering || s.workers[k] == Waiting)
    ensures Inv(l, TakeOrWait(s, k))
  {
    hide Accounted, Held, Live, Busy;
    var s' := TakeOrWait(s, k);
    OneChanges(s.workers, k, s'.workers[k]);
    if s.pool.queue != [] {
      var task := s.pool.queue[0];
      assert s.pool.queue == [task] + s.pool.queue[1..];
      assert s'.taken + s'.pool.queue == s.taken + s.pool.queue;
      StillAccounted(s.taken, s.finished, s.workers, k, Holding(task), [task], multiset{});
      assert s.finished + multiset{} == s.finished;
    } else {
      StillAccounted(s.taken, s.finished, s.workers, k, Waiting, [], multiset{});
      assert s.finished + multiset{} == s.finished && s.taken + [] == s.taken;
    }
    StillKnown(s, s');
  }

  lemma StillKnown(s: State, s': State)
    requires s'.pool.threads == s.pool.threads
    requires forall k: nat :: k < |s.workers| && s.workers[k] != Exited ==> Known(s, k)
    requires |s'.workers| == |s.workers|
    requires forall k: nat :: k < |s.workers| && s'.workers[k] != Exited ==> s.workers[k] != Exited
    ensures forall k: nat :: k < |s'.workers| && s'.workers[k] != Exited ==> Known(s', k)
  {
    forall k: nat | k < |s'.workers| && s'.workers[k] != Exited ensures Known(s', k) { assert Known(s, k); }
  }

  lemma WorkKeeps(l: Limits, s: State, k: nat)
    requires Inv(l, s) && k < |s.workers| && s.workers[k] != Exited
    ensures Inv(l, WorkStep(l, s, k))
  {
    hide Accounted, Held, Live, Busy, Known;
    var s' := WorkStep(l, s, k);
    if s.workers[k] == Entering {
      TakeKeeps(l, s, k);
    } else if s.workers[k] == Waiting && !Woken(l, s.pool).1 {
      var t := s.(pool := Woken(l, s.pool).0);
      StillKnown(s, t);
      TakeKeeps(l, t, k);
    } else {
      var done := if s.workers[k].Running? then multiset{s.workers[k].task} else multiset{};
      OneChanges(s.workers, k, s'.workers[k]);
      StillAccounted(s.taken, s.finished, s.workers, k, s'.workers[k], [], done);
      assert s.taken + [] == s.taken && s.finished + done == s'.finished;
      StillKnown(s, s');
    }
  }

  /** A thread that lives keeps its slot. */
  lemma OldOneKnown(s: State, s': State, alive: seq<bool>, n: nat, k: nat)
    requires |alive| == |s.pool.threads| && forall i :: 0 <= i < |alive| && Lives(s, s.pool.threads[i]) ==> alive[i]
    requires Filled(s.pool.threads, s'.pool.threads, Free(s.pool.threads, alive, 0), n, |s.workers| + 1)
    requires k < |s.workers| && s.workers[k] != Exited && Known(s, k)
    ensures Known(s', k)
  {
    hide Free;
    var i :| 0 <= i < |s.pool.threads| && s.pool.threads[i] == k + 1;
    assert Lives(s, s.pool.threads[i]);
    FreeIs(s.pool.threads, alive, 0);
    assert i !in Free(s.pool.threads, alive, 0);
    assert s'.pool.threads[i] == k + 1;
  }

  /** And each new one has its own. */
  lemma NewOneKnown(s: State, s': State, free: seq<nat>, n: nat, k: nat)
    requires Filled(s.pool.threads, s'.pool.threads, free, n, |s.workers| + 1)
    requires |s.workers| <= k < |s.workers| + n
    ensures Known(s', k)
  {
    assert s'.pool.threads[free[k - |s.workers|]] == k + 1;
  }

  lemma GrownKnown(s: State, s': State, alive: seq<bool>, n: nat)
    requires |alive| == |s.pool.threads| && forall i :: 0 <= i < |alive| && Lives(s, s.pool.threads[i]) ==> alive[i]
    requires forall k: nat :: k < |s.workers| && s.workers[k] != Exited ==> Known(s, k)
    requires Filled(s.pool.threads, s'.pool.threads, Free(s.pool.threads, alive, 0), n, |s.workers| + 1)
    requires s'.workers == s.workers + seq(n, _ => Entering)
    ensures |s'.workers| == |s.workers| + n
    ensures forall k: nat :: k < |s'.workers| && s'.workers[k] != Exited ==> Known(s', k)
  {
    hide Known, Filled, Lives, Free;
    forall k: nat | k < |s'.workers| && s'.workers[k] != Exited ensures Known(s', k) {
      if k < |s.workers| {
        assert s'.workers[k] == s.workers[k];
        OldOneKnown(s, s', alive, n, k);
      } else {
        NewOneKnown(s, s', Free(s.pool.threads, alive, 0), n, k);
      }
    }
  }

  lemma GrowKeeps(l: Limits, s: State, alive: seq<bool>)
    requires Inv(l, s) && Enabled(l, s, Manage(alive)) && s.manager.Growing?
    ensures Inv(l, ManageStep(l, s, alive))
  {
    hide Accounted, Held, Live, Busy, Distinct, Filled, Known, Lives, Free;
    var s' := ManageStep(l, s, alive);
    if s.manager.size >= MIN_WAIT_TASK_NUM && s.manager.live < l.maxThreads {
      CreatedIs(l, s.pool, alive, 0, 0, |s.workers| + 1);
      var (p, n) := Created(l, s.pool, alive, 0, 0, |s.workers| + 1);
      NewOnes(s.workers, n);
      StillAccountedFor(s.taken, s.finished, s.workers, n);
      FreeIs(s.pool.threads, alive, 0);
      FilledIsDistinct(s.pool.threads, p.threads, Free(s.pool.threads, alive, 0), n, |s.workers|);
      GrownKnown(s, s', alive, n);
    } else {
      StillKnown(s, s');
    }
  }

  /** What the creating loop leaves in a slot is a new id, by the place of the slot among the free ones, or what was there. */
  lemma FilledIsDistinct(threads: seq<nat>, threads': seq<nat>, free: seq<nat>, n: nat, made: nat)
    requires Distinct(threads, made) && Filled(threads, threads', free, n, made + 1)
    requires forall q, r :: 0 <= q < r < |free| ==> free[q] < free[r]
    ensures |threads'| == |threads| && Distinct(threads', made + n)
  {
    forall j | 0 <= j < |threads'|
      ensures threads'[j] == threads[j] <= made || exists q :: 0 <= q < n && free[q] == j && threads'[j] == made + 1 + q
    {
      if j in free[..n] {
        var q :| 0 <= q < n && free[..n][q] == j;
        assert free[q] == j;
      }
    }
  }

  lemma StillAccountedFor(taken: seq<Task>, finished: multiset<Task>, ws: seq<Worker>, n: nat)
    requires Accounted(taken, finished, ws)
    ensures Accounted(taken, finished, ws + seq(n, _ => Entering))
  {
    NewOnes(ws, n);
  }

  lemma ManageKeeps(l: Limits, s: State, alive: seq<bool>)
    requires Inv(l, s) && Enabled(l, s, Manage(alive))
    ensures Inv(l, ManageStep(l, s, alive))
  {
    hide Accounted, Held, Live, Busy, Known, Lives;
    if s.manager.Growing? {
      GrowKeeps(l, s, alive);
    } else {
      StillKnown(s, ManageStep(l, s, alive));
    }
  }

  /** Every state of every run meets the invariant. */
  lemma {:induction false} RunKeeps(l: Limits, run: seq<State>, actions: seq<Action>, k: nat)
    requires Run(l, run, actions) && k < |run| && l.minThreads <= l.maxThreads
    ensures Inv(l, run[k])
  {
    hide Inv, Apply;
    if k == 0 {
      InitInv(l, run[0]);
    } else {
      RunKeeps(l, run, actions, k - 1);
      StepKeeps(l, run[k - 1], actions[k - 1]);
    }
  }

  lemma StepKeeps(l: Limits, s: State, a: Action)
    requires Inv(l, s) && Enabled(l, s, a)
    ensures Inv(l, Apply(l, s, a))
  {
    hide Inv, WorkStep, ManageStep;
    match a
    case Add(task) => AddKeeps(l, s, task);
    case Work(k) => WorkKeeps(l, s, k);
    case Manage(alive) => ManageKeeps(l, s, alive);
  }

  // ----- the main results -----

  /** Tasks are taken in the order in which they were added; those not yet taken wait in the queue. */
  lemma FirstInFirstOut(l: Limits, run: seq<State>, actions: seq<Action>, k: nat)
    requires Run(l, run, actions) && k < |run| && l.minThreads <= l.maxThreads
    ensures var s := run[k];
            s.taken <= s.added && s.pool.queue == s.added[|s.taken|..] && |s.added| - |s.taken| <= l.maxQueue
  {
    RunKeeps(l, run, actions, k);
  }

  /** Every task that was added waits, or is with one worker, or was finished: each as often as it was added. */
  lemma ExactlyOnce(l: Limits, run: seq<State>, actions: seq<Action>, k: nat, t: Task)
    requires Run(l, run, actions) && k < |run| && l.minThreads <= l.maxThreads
    ensures var s := run[k];
            multiset(s.added)[t] == multiset(s.pool.queue)[t] + Held(s.workers)[t] + s.finished[t]
  {
    RunKeeps(l, run, actions, k);
    var s := run[k];
    assert multiset(s.taken + s.pool.queue) == multiset(s.taken) + multiset(s.pool.queue);
  }

  /** The counters are right: so many threads have not exited, between the two limits, and so many run a task. */
  lemma CountersAreRight(l: Limits, run: seq<State>, actions: seq<Action>, k: nat)
    requires Run(l, run, actions) && k < |run| && l.minThreads <= l.maxThreads
    ensures var s := run[k];
            && l.minThreads <= s.pool.live == Live(s.workers) <= l.maxThreads
            && 0 <= s.pool.busy == Busy(s.workers) <= s.pool.live
            && forall j: nat :: j < |s.workers| && s.workers[j] != Exited ==> Known(s, j)
  {
    RunKeeps(l, run, actions, k);
    BusyLive(run[k].workers);
  }

  lemma {:induction false} BusyLive(ws: seq<Worker>)
    ensures Busy(ws) <= Live(ws)
  {
    if ws != [] { BusyLive(ws[1..]); }
  }

  // ----- and every task gets done -----

  /** `n` steps of one worker. */
  function Works(l: Limits, s: State, k: nat, n: nat): (after: State)
    requires k < |s.workers|
    ensures |after.workers| == |s.workers|
    decreases n
  {
    if n == 0 then s else Works(l, WorkStep(l, s, k), k, n - 1)
  }

  lemma {:induction false} WorksMore(l: Limits, s: State, k: nat, m: nat, n: nat)
    requires k < |s.workers|
    ensures Works(l, s, k, m + n) == Works(l, Works(l, s, k, m), k, n)
    decreases m
  {
    hide WorkStep;
    if m > 0 { WorksMore(l, WorkStep(l, s, k), k, m - 1, n); }
  }

  /** Three steps of a worker at the top of its loop finish the oldest task, and bring it back there. */
  lemma OneTask(l: Limits, s: State, k: nat)
    requires k < |s.workers| && s.workers[k] == Entering && s.pool.queue != []
    ensures var task := s.pool.queue[0];
            WorkStep(l, WorkStep(l, WorkStep(l, s, k), k), k)
            == s.(pool := s.pool.(queue := s.pool.queue[1..]), taken := s.taken + [task], finished := s.finished + multiset{task})
  {
    var s1 := WorkStep(l, s, k);
    var s2 := WorkStep(l, s1, k);
    var s3 := WorkStep(l, s2, k);
    assert s3.workers == s.workers;
  }

  /** One worker at the top of its loop is enough for all tasks that wait. */
  lemma {:induction false} WorksOff(l: Limits, s: State, k: nat)
    requires k < |s.workers| && s.workers[k] == Entering
    ensures Works(l, s, k, 3 * |s.pool.queue|)
         == s.(pool := s.pool.(queue := []), taken := s.taken + s.pool.queue, finished := s.finished + multiset(s.pool.queue))
    decreases |s.pool.queue|
  {
    hide WorkStep;
    var q := s.pool.queue;
    if q == [] {
      assert s.taken + [] == s.taken && s.finished + multiset([]) == s.finished;
    } else {
      OneTask(l, s, k);
      var s3 := WorkStep(l, WorkStep(l, WorkStep(l, s, k), k), k);
      WorksOff(l, s3, k);
      ThreeWorks(l, s, k, 3 * |q[1..]|);
      assert q == [q[0]] + q[1..];
      assert s.taken + [q[0]] + q[1..] == s.taken + q;
      assert s.finished + multiset{q[0]} + multiset(q[1..]) == s.finished + multiset(q);
    }
  }

  lemma ThreeWorks(l: Limits, s: State, k: nat, n: nat)
    requires k < |s.workers|
    ensures Works(l, s, k, n + 3) == Works(l, WorkStep(l, WorkStep(l, WorkStep(l, s, k), k), k), k, n)
  {
    hide WorkStep;
    var s1 := WorkStep(l, s, k);
    assert Works(l, s, k, n + 3) == Works(l, s1, k, n + 2);
    assert Works(l, s1, k, n + 2) == Works(l, WorkStep(l, s1, k), k, n + 1);
  }

  /** How many steps a worker is from the top of its loop. */
  function ToTop(w: Worker): nat {
    match w
    case Running(_) => 1
    case Holding(_) => 2
    case _ => 0
  }

  lemma BackAtTop(l: Limits, s: State, k: nat)
    requires k < |s.workers| && (s.workers[k] == Entering || s.workers[k].Holding? || s.workers[k].Running?)
    ensures var t := Works(l, s, k, ToTop(s.workers[k]));
            && t.workers[k] == Entering && t.pool.queue == s.pool.queue && t.taken == s.taken
            && t.finished == s.finished + HeldBy(s.workers[k])
  {
    var n := ToTop(s.workers[k]);
    if n > 0 {
      var s1 := WorkStep(l, s, k);
      assert Works(l, s, k, n) == Works(l, s1, k, n - 1);
      if n == 2 { assert Works(l, s1, k, 1) == Works(l, WorkStep(l, s1, k), k, 0); }
    } else {
      assert s.finished + multiset{} == s.finished;
    }
  }

  /**
   Every task gets done.  In any state of any run, any worker that runs, by itself and for so many
   steps as it needs, finishes the task that it has and then all that wait, as many as there are.
  */
  lemma EveryTaskGetsDone(l: Limits, run: seq<State>, actions: seq<Action>, i: nat, k: nat)
    requires Run(l, run, actions) && i < |run| && l.minThreads <= l.maxThreads
    requires k < |run[i].workers| && !run[i].workers[k].Waiting? && !run[i].workers[k].Exited?
    ensures var s := run[i];
            var t := Works(l, s, k, ToTop(s.workers[k]) + 3 * |s.pool.queue|);
            && t.pool.queue == [] && t.taken == s.added
            && t.finished == s.finished + HeldBy(s.workers[k]) + multiset(s.pool.queue)
  {
    hide Works, WorkStep, ToTop, HeldBy;
    RunKeeps(l, run, actions, i);
    var s := run[i];
    BackAtTop(l, s, k);
    var top := Works(l, s, k, ToTop(s.workers[k]));
    WorksOff(l, top, k);
    WorksMore(l, s, k, ToTop(s.workers[k]), 3 * |s.pool.queue|);
  }

  /**
   And a worker that wakes up while tasks wait takes the oldest, unless the manager asked for
   exits and there are more threads than the minimum, which therefore stay to work.
  */
  lemma WakesToWork(l: Limits, run: seq<State>, actions: seq<Action>, i: nat, k: nat)
    requires Run(l, run, actions) && i < |actions| && l.minThreads <= l.maxThreads
    requires actions[i] == Work(k) && run[i].workers[k] == Waiting && run[i].pool.queue != []
    ensures var s, t := run[i], run[i + 1];
            if s.pool.waitExit > 0 && Live(s.workers) > l.minThreads
            then t.workers[k] == Exited && t.pool.queue == s.pool.queue
            else t.workers[k] == Holding(s.pool.queue[0]) && t.pool.queue == s.pool.queue[1..]
  {
    RunKeeps(l, run, actions, i);
  }

  // ----- when the manager grows and trims -----

  function LiveSlots(threads: seq<nat>, alive: seq<bool>, i: nat): (slots: set<nat>)
    requires |threads| == |alive|
  {
    set j: nat | i <= j < |threads| && threads[j] != 0 && alive[j]
  }

  lemma {:induction false} FreeAndLive(threads: seq<nat>, alive: seq<bool>, i: nat)
    requires |threads| == |alive| && i <= |threads|
    ensures |Free(threads, alive, i)| + |LiveSlots(threads, alive, i)| == |threads| - i
    decreases |threads| - i
  {
    if i < |threads| {
      FreeAndLive(threads, alive, i + 1);
      var slots, more := LiveSlots(threads, alive, i), LiveSlots(threads, alive, i + 1);
      assert slots == if threads[i] != 0 && alive[i] then {i} + more else more;
    }
  }

  function LiveIds(ws: seq<Worker>): set<nat> {
    set k: nat | k < |ws| && ws[k] != Exited :: k + 1
  }

  lemma {:induction false} LiveIdsCount(ws: seq<Worker>)
    ensures |LiveIds(ws)| == Live(ws)
  {
    if ws != [] {
      var init, last := ws[..|ws| - 1], ws[|ws| - 1];
      LiveIdsCount(init);
      LiveOfLast(init, last);
      assert ws == init + [last];
      assert LiveIds(ws) == if last == Exited then LiveIds(init) else LiveIds(init) + {|ws|};
    }
  }

  lemma {:induction false} LiveOfLast(ws: seq<Worker>, w: Worker)
    ensures Live(ws + [w]) == Live(ws) + if w == Exited then 0 else 1
  {
    if ws != [] {
      assert (ws + [w])[1..] == ws[1..] + [w];
      LiveOfLast(ws[1..], w);
    }
  }

  /** Different slots with different ids are as many as their ids. */
  lemma {:induction false} AsManyIds(threads: seq<nat>, slots: set<nat>, ids: set<nat>)
    requires forall j :: j in slots ==> j < |threads| && threads[j] in ids
    requires forall i, j :: i in slots && j in slots && i != j ==> threads[i] != threads[j]
    requires forall id :: id in ids ==> exists j :: j in slots && threads[j] == id
    ensures |slots| == |ids|
    decreases slots
  {
    if slots != {} {
      var j :| j in slots;
      AsManyIds(threads, slots - {j}, ids - {threads[j]});
    } else {
      assert ids == {};
    }
  }

  /** is_thread_alive tells exactly the threads that have not exited. */
  ghost predicate TellsExactly(s: State, alive: seq<bool>)
    requires |alive| == |s.pool.threads|
  {
    forall i :: 0 <= i < |alive| && s.pool.threads[i] != 0 ==> (alive[i] <==> Lives(s, s.pool.threads[i]))
  }

  /** As many slots are free as there are threads fewer than the maximum. */
  lemma FreeIsRoom(l: Limits, s: State, alive: seq<bool>)
    requires Inv(l, s) && Enabled(l, s, Manage(alive)) && TellsExactly(s, alive)
    ensures |Free(s.pool.threads, alive, 0)| == l.maxThreads - s.pool.live
  {
    hide Live, Accounted, Distinct, Known, Lives, TellsExactly, LiveSlots, LiveIds, Held, Busy;
    FreeAndLive(s.pool.threads, alive, 0);
    LiveIdsCount(s.workers);
    LiveSlotsIds(s, alive);
  }

  lemma LiveSlotsIds(s: State, alive: seq<bool>)
    requires |alive| == |s.pool.threads| && TellsExactly(s, alive) && Distinct(s.pool.threads, |s.workers|)
    requires forall k: nat :: k < |s.workers| && s.workers[k] != Exited ==> Known(s, k)
    ensures |LiveSlots(s.pool.threads, alive, 0)| == |LiveIds(s.workers)|
  {
    var slots, ids := LiveSlots(s.pool.threads, alive, 0), LiveIds(s.workers);
    forall j | j in slots ensures s.pool.threads[j] in ids {
      assert Lives(s, s.pool.threads[j]);
      assert s.pool.threads[j] == (s.pool.threads[j] - 1) + 1;
    }
    forall id | id in ids ensures exists j :: j in slots && s.pool.threads[j] == id {
      assert Known(s, id - 1);
      var i :| 0 <= i < |s.pool.threads| && s.pool.threads[i] == id;
      assert i in slots;
    }
    AsManyIds(s.pool.threads, slots, ids);
  }

  /** Some state before `k` had that many tasks waiting and that many threads. */
  ghost predicate Saw(run: seq<State>, k: nat, size: nat, live: int) {
    exists j :: 0 <= j < k < |run| && |run[j].pool.queue| == size && run[j].pool.live == live
  }

  /** Some state before `k` had that many threads, and a later one that many that were busy. */
  ghost predicate SawBusy(run: seq<State>, k: nat, live: int, busy: int) {
    exists i, j :: 0 <= i < j < k < |run| && run[i].pool.live == live && run[j].pool.busy == busy
  }

  /** What the manager goes by is what it read in this round. */
  ghost predicate ManagerSaw(run: seq<State>, k: nat)
    requires k < |run|
  {
    match run[k].manager
    case Sleeping => true
    case Counting(size, live) => Saw(run, k, size, live)
    case Growing(size, live, busy) => Saw(run, k, size, live) && SawBusy(run, k, live, busy)
    case Trimming(live, busy) => SawBusy(run, k, live, busy)
  }

  lemma {:induction false} ManagerReads(l: Limits, run: seq<State>, actions: seq<Action>, k: nat)
    requires Run(l, run, actions) && k < |run|
    ensures ManagerSaw(run, k)
  {
    hide Created, WorkStep;
    if k > 0 {
      ManagerReads(l, run, actions, k - 1);
      var s := run[k - 1];
      if !actions[k - 1].Manage? {
        ManagerWaits(l, s, actions[k - 1]);
      } else if s.manager.Counting? {
        var i :| 0 <= i < k - 1 && |run[i].pool.queue| == s.manager.size && run[i].pool.live == s.manager.live;
        assert run[k - 1].pool.busy == run[k].manager.busy;
      }
    }
  }

  lemma ManagerWaits(l: Limits, s: State, a: Action)
    requires Enabled(l, s, a) && !a.Manage?
    ensures Apply(l, s, a).manager == s.manager
  {
  }

  /**
   When the manager grows.  If is_thread_alive tells the truth, a step of the manager makes new
   threads just if it had read that 10 tasks wait and that there are fewer threads than may be, and
   then it makes 10, or as many as are missing to the maximum.  No other step makes any.
  */
  lemma ManagerGrows(l: Limits, run: seq<State>, actions: seq<Action>, k: nat)
    requires Run(l, run, actions) && k < |actions| && l.minThreads <= l.maxThreads
    requires actions[k].Manage? ==> |actions[k].alive| == |run[k].pool.threads| && TellsExactly(run[k], actions[k].alive)
    ensures var s, t := run[k], run[k + 1];
            var grows := actions[k].Manage? && s.manager.Growing? && s.manager.size >= 10 && s.manager.live < l.maxThreads;
            && |t.workers| - |s.workers| == (if grows then Min(10, l.maxThreads - s.pool.live) else 0)
            && (grows ==> t.pool.live == s.pool.live + Min(10, l.maxThreads - s.pool.live))
            && (grows ==> Saw(run, k, s.manager.size, s.manager.live))
  {
    hide Inv, Created, TakeOrWait, Woken;
    RunKeeps(l, run, actions, k);
    ManagerReads(l, run, actions, k);
    if actions[k].Manage? && run[k].manager.Growing? {
      var s, alive := run[k], actions[k].alive;
      InRoom(l, s);
      FreeIsRoom(l, s, alive);
      CreatedIs(l, s.pool, alive, 0, 0, |s.workers| + 1);
    }
  }

  lemma InRoom(l: Limits, s: State)
    requires Inv(l, s)
    ensures 0 <= s.pool.live <= l.maxThreads
  {
  }

  /**
   When the manager trims.  A step of it asks 10 threads to exit just if it had read that fewer than
   half of the threads were busy and that there were more than the minimum.
  */
  lemma ManagerTrims(l: Limits, run: seq<State>, actions: seq<Action>, k: nat)
    requires Run(l, run, actions) && k < |actions| && actions[k].Manage?
    ensures var s, t := run[k], run[k + 1];
            var trims := s.manager.Trimming? && s.manager.busy * 2 < s.manager.live && s.manager.live > l.minThreads;
            && t.pool.waitExit == (if trims then 10 else s.pool.waitExit)
            && (trims ==> SawBusy(run, k, s.manager.live, s.manager.busy))
  {
    ManagerReads(l, run, actions, k);
    var s := run[k];
    if s.manager.Growing? {
      CreatedIs(l, s.pool, actions[k].alive, 0, 0, |s.workers| + 1);
    }
  }
}
