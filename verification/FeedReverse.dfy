/**
 Feeding a list of watchers from its end (ev.c: feed_reverse, feed_reverse_done).
*/
module FeedReverse {
  import opened TimerHeap
  import opened EventHistory
  import opened PendingQueues
  import opened DeadlineOrder

  /** `xs` are the watchers in `rfeeds`, with the priorities and intervals they have. */
  ghost predicate Listed(rfeeds: seq<Watcher>, xs: seq<Expired>, ev: Events)
    reads rfeeds
  {
    && |rfeeds| == |xs|
    && forall i :: 0 <= i < |xs| ==>
         && rfeeds[i] == xs[i].w && xs[i].pri == AbsPri(rfeeds[i]) && InRange(rfeeds[i].priority)
         && xs[i].repeat == rfeeds[i].repeat && xs[i].ev == ev
  }

  /** None of `xs` is pending. */
  ghost predicate Clean(xs: seq<Expired>)
    reads (set x | x in xs :: x.w)`pending
  {
    Unique(xs) && forall x :: x in xs ==> x.w.pending == 0
  }

  /** The watchers from `n` on are fed. */
  ghost predicate Feeding(q: Queues, rfeeds: seq<Watcher>, xs: seq<Expired>, n: nat, ev: Events,
                          start: seq<Event>, base: seq<seq<Pending>>, clean: bool)
    requires |q.pendings| == NUMPRI == |base| && n <= |xs|
    reads rfeeds, (set x | x in xs :: x.w)`pending, q`pendings, q`history
  {
    && Listed(rfeeds, xs, ev)
    && q.history == start + FeedsBackwards(xs[n..])
    && (clean ==> Unique(xs))
    && (clean ==> forall p :: 0 <= p < NUMPRI ==> q.pendings[p] == base[p] + FedBackwards(xs[n..], p))
    && (clean ==> forall i :: 0 <= i < n ==> xs[i].w.pending == 0)
  }

  method FeedLast(q: Queues, rfeeds: seq<Watcher>, ghost xs: seq<Expired>, n: nat, ev: Events,
                  ghost start: seq<Event>, ghost base: seq<seq<Pending>>, ghost clean: bool)
    requires q.Valid() && WatchersOf(xs) <= q.ws && |base| == NUMPRI
    requires 0 < n <= |xs| && Feeding(q, rfeeds, xs, n, ev, start, base, clean)
    modifies q`pendings, q`pendingpri, q`history, rfeeds`pending
    ensures q.Valid() && Feeding(q, rfeeds, xs, n - 1, ev, start, base, clean)
  {
    hide Queues.Valid, FeedsBackwards, FedBackwards;
    FedOneMore(xs, n - 1);
    assert xs[n - 1] in xs && xs[n - 1].w in WatchersOf(xs);
    q.FeedEvent(rfeeds[n - 1], ev);
  }

  /** feed_reverse_done. */
  method FeedReverseDone(q: Queues, rfeeds: seq<Watcher>, ghost xs: seq<Expired>, ev: Events)
    requires q.Valid() && Listed(rfeeds, xs, ev) && WatchersOf(xs) <= q.ws
    modifies q`pendings, q`pendingpri, q`history, rfeeds`pending
    ensures q.Valid()
    ensures q.history == old(q.history) + FeedsBackwards(xs)
    ensures old(Clean(xs)) ==> forall p :: 0 <= p < NUMPRI ==> q.pendings[p] == old(q.pendings)[p] + FedBackwards(xs, p)
  {
    var n := |rfeeds|;
    ghost var start, base := q.history, q.pendings;
    assert xs[n..] == [] && xs[0..] == xs;
    while n > 0
      invariant q.Valid() && n <= |xs| && Feeding(q, rfeeds, xs, n, ev, start, base, old(Clean(xs)))
    {
      hide Queues.Valid;
      FeedLast(q, rfeeds, xs, n, ev, start, base, old(Clean(xs)));
      n := n - 1;
    }
  }

  /**
   EV_INVOKE_PENDING, when `xs` was fed backwards on top of what the queues held, which was `base`:
   `called` are the invocations there were since the history was `start`.
  */
  method InvokeCollected(q: Queues, ghost xs: seq<Expired>, ghost t: map<Watcher, real>, ghost p: map<Watcher, real>,
                         ghost base: seq<seq<Pending>>, ghost start: seq<Event>, ghost quiet: seq<Event>)
    returns (ghost called: seq<Event>)
    requires q.Valid() && Collected(xs, t, p) && WatchersOf(xs) <= q.ws
    requires |base| == NUMPRI && OneSlotEach(base, q.pending_w) && WaitingIn(base, q.pending_w) !! t.Keys + p.Keys
    requires forall r :: 0 <= r < NUMPRI ==> q.pendings[r] == base[r] + FedBackwards(xs, r)
    requires q.history == start + quiet && forall e :: e in quiet ==> !e.Invoked?
    modifies q`pendings, q`pendingpri, q`history, q.ws`pending, q.pending_w`pending
    ensures q.Valid() && q.NothingAbove(-1)
    ensures CalledInTurn(called, t, p, WaitingIn(base, q.pending_w)) && forall e :: e in called ==> q.AtItsPriority(e)
    ensures start <= q.history && Invocations(q.history[|start|..]) == called
  {
    hide Queues.Valid, CalledInTurn, Collected, FedBackwards, Drain, OneSlotEach, WaitingIn;
    q.DummyIsNew();
    assert forall x :: x in xs ==> x.w in WatchersOf(xs);
    DrainInOrder(xs, base, q.pendings, NUMPRI, q.pending_w);
    DeadlineOrderHolds(xs, base, q.pending_w, t, p);
    called := q.InvokePending([]);
    InvokedSince(start, quiet, called);
  }
}
