/**
 Periodic watchers and their pending events together (ev.c: ev_periodic_stop,
 periodics_reify), and one turn of ev_run with timers and periodics.
*/
module PeriodicLoop {
  import opened TimerHeap
  import opened EventHistory
  import opened PendingQueues
  import opened DeadlineOrder
  import opened FeedReverse
  import opened TimerSet
  import opened EventLoop
  import PeriodicTimes
  import P = Periodics

  /** The watchers in `rfeeds` with the times they were due; an interval plays no part in the order. */
  ghost function Listing(rfeeds: seq<Watcher>, at0: map<Watcher, real>): (xs: seq<Expired>)
    requires forall w :: w in rfeeds ==> w in at0
    reads rfeeds`priority, rfeeds`repeat
    ensures |xs| == |rfeeds|
    ensures forall i :: 0 <= i < |xs| ==>
              xs[i] == Expired(rfeeds[i], at0[rfeeds[i]], AbsPri(rfeeds[i]), rfeeds[i].repeat, EV_PERIODIC)
  {
    if rfeeds == [] then []
    else
      var n := |rfeeds| - 1;
      Listing(rfeeds[..n], at0) + [Expired(rfeeds[n], at0[rfeeds[n]], AbsPri(rfeeds[n]), rfeeds[n].repeat, EV_PERIODIC)]
  }

  lemma ListingIsCollected(rfeeds: seq<Watcher>, at0: map<Watcher, real>, cur: map<Watcher, real>,
      specs: map<Watcher, PeriodicTimes.Spec>, now: real)
    requires P.Renewed(rfeeds, at0, cur, specs, now) && P.InOrder(rfeeds, at0, cur)
    requires (set w | w in rfeeds) == LateIn(at0, now) && forall w :: w in at0 ==> InRange(w.priority)
    ensures forall w :: w in rfeeds ==> w in at0
    ensures var xs := Listing(rfeeds, at0);
            Collected(xs, map[], Late(at0, now)) && Listed(rfeeds, xs, EV_PERIODIC) && WatchersOf(xs) <= at0.Keys
  {
    hide P.Renewed, P.InOrder, Chronological, Unique, DueIn, Listing;
    ListingInOrder(rfeeds, at0, cur, specs, now);
    ListingIsDue(rfeeds, at0, now);
  }

  lemma ListingInOrder(rfeeds: seq<Watcher>, at0: map<Watcher, real>, cur: map<Watcher, real>,
      specs: map<Watcher, PeriodicTimes.Spec>, now: real)
    requires P.Renewed(rfeeds, at0, cur, specs, now) && P.InOrder(rfeeds, at0, cur)
    ensures forall w :: w in rfeeds ==> w in at0
    ensures Chronological(Listing(rfeeds, at0)) && Unique(Listing(rfeeds, at0))
  {
  }

  lemma ListingIsDue(rfeeds: seq<Watcher>, at0: map<Watcher, real>, now: real)
    requires forall w :: w in rfeeds ==> w in at0
    requires (set w | w in rfeeds) == LateIn(at0, now) && forall w :: w in at0 ==> InRange(w.priority)
    ensures WatchersOf(Listing(rfeeds, at0)) == LateIn(at0, now) <= at0.Keys
    ensures forall x :: x in Listing(rfeeds, at0) ==> DueIn(x, map[], Late(at0, now)) && 0 <= x.pri < NUMPRI
    ensures Listed(rfeeds, Listing(rfeeds, at0), EV_PERIODIC)
  {
    var xs := Listing(rfeeds, at0);
    assert forall i :: 0 <= i < |rfeeds| ==> rfeeds[i] in rfeeds;
    forall w | w in rfeeds ensures w in WatchersOf(xs) {
      var i :| 0 <= i < |rfeeds| && rfeeds[i] == w;
      assert xs[i] in xs;
    }
    forall x | x in xs ensures DueIn(x, map[], Late(at0, now)) && 0 <= x.pri < NUMPRI && x.w in LateIn(at0, now) {
      var i :| 0 <= i < |xs| && xs[i] == x;
      assert rfeeds[i] in set w | w in rfeeds;
    }
  }

  /**
   Of the periodics with the times `at0`, those that were due have their next ones, or were
   stopped; the others have not moved.
  */
  ghost predicate AllSettled(p: P.Periodics, at0: map<Watcher, real>)
    reads p`members, p`rt_now, p.members`at
  {
    && p.members <= at0.Keys <= p.specs.Keys
    && (forall w :: w in at0 && at0[w] >= p.rt_now ==> w in p.members && w.at == at0[w])
    && (forall w :: w in at0 && at0[w] < p.rt_now ==> (w in p.members <==> P.Repeats(p.specs[w])))
    && (forall w :: w in p.members && at0[w] < p.rt_now ==> P.Rescheduled(p.specs[w], p.rt_now, w.at))
  }

  lemma RenewedIsSettled(p: P.Periodics, rfeeds: seq<Watcher>, at0: map<Watcher, real>)
    requires P.Renewed(rfeeds, at0, p.Times(), p.specs, p.rt_now)
    requires (set w | w in rfeeds) == LateIn(at0, p.rt_now)
    ensures AllSettled(p, at0)
  {
    hide P.Repeats, P.Rescheduled;
    assert p.Times().Keys == p.members;
    forall w | w in at0 ensures w in rfeeds <==> at0[w] < p.rt_now {
      assert w in rfeeds <==> w in LateIn(at0, p.rt_now);
    }
  }

  /** ev_periodic_stop. */
  method PeriodicStop(p: P.Periodics, q: Queues, w: Watcher)
    requires p.Valid() && q.Valid() && w in q.ws && (w.active != 0 <==> w in p.members)
    modifies p`periodiccnt, p`activecnt, p`members, p.heap, p.members`active, w`active
    modifies q`pendings, q`history, w`pending
    ensures p.Valid() && q.Valid() && w.pending == 0 && w.active == 0
    ensures p.members == old(p.members) - {w}
    ensures p.activecnt == old(if w.active != 0 then p.activecnt - 1 else p.activecnt)
    ensures q.history == old(q.history) + [Cleared(w)]
  {
    hide P.Periodics.Valid, Queues.Valid;
    var _ := q.ClearPending(w);
    p.Stop(w);
  }

  /** None of the periodics is pending. */
  ghost predicate NonePending(p: P.Periodics)
    reads p`members, p.members`pending
  {
    forall w :: w in p.members ==> w.pending == 0
  }

  /** The loop of periodics_reify, with the list that it collects. */
  method CollectPeriodics(p: P.Periodics) returns (rfeeds: seq<Watcher>, ghost xs: seq<Expired>)
    requires p.Valid() && p.AllProper()
    modifies p`periodiccnt, p`activecnt, p`members, p.heap, p.members`active, p.members`at
    ensures p.Valid() && LateIn(p.Times(), p.rt_now) == {} && AllSettled(p, old(p.Times()))
    ensures p.activecnt - p.periodiccnt == old(p.activecnt - p.periodiccnt)
    ensures Collected(xs, map[], Late(old(p.Times()), p.rt_now)) && Listed(rfeeds, xs, EV_PERIODIC)
    ensures WatchersOf(xs) <= old(p.members) && forall i :: 0 <= i < |rfeeds| ==> rfeeds[i] in old(p.members)
  {
    hide AllSettled, P.Renewed, P.InOrder, P.Periodics.Valid, LateIn, Listed, Collected;
    ghost var at0 := p.Times();
    p.Keys();
    rfeeds := p.PeriodicsReify();
    RenewedIsSettled(p, rfeeds, at0);
    ListingIsCollected(rfeeds, at0, p.Times(), p.specs, p.rt_now);
    xs := Listing(rfeeds, at0);
    assert forall i :: 0 <= i < |rfeeds| ==> rfeeds[i] in rfeeds;
  }

  /** periodics_reify.  `xs` lists the periodics that were due, in the order of their times. */
  method PeriodicsReify(p: P.Periodics, q: Queues) returns (ghost xs: seq<Expired>)
    requires p.Valid() && p.AllProper() && q.Valid() && p.members <= q.ws && NonePending(p)
    modifies p`periodiccnt, p`activecnt, p`members, p.heap, p.members`active, p.members`at
    modifies q`pendings, q`pendingpri, q`history, p.members`pending
    ensures p.Valid() && q.Valid() && LateIn(p.Times(), p.rt_now) == {} && AllSettled(p, old(p.Times()))
    ensures p.activecnt - p.periodiccnt == old(p.activecnt - p.periodiccnt)
    ensures Collected(xs, map[], Late(old(p.Times()), p.rt_now)) && WatchersOf(xs) <= q.ws
    ensures q.history == old(q.history) + FeedsBackwards(xs)
    ensures forall r :: 0 <= r < NUMPRI ==> q.pendings[r] == old(q.pendings)[r] + FedBackwards(xs, r)
  {
    hide AllSettled, P.Periodics.Valid, Queues.Valid, LateIn, Listed, FedBackwards, FeedsBackwards, Chronological;
    var rfeeds;
    rfeeds, xs := CollectPeriodics(p);
    assert forall x :: x in xs ==> x.w in WatchersOf(xs);
    FeedReverseDone(q, rfeeds, xs, EV_PERIODIC);
  }

  /** ev_run from periodics_reify to its EV_INVOKE_PENDING, when no periodic is pending yet and callbacks are passive. */
  method ExpirePeriodics(p: P.Periodics, q: Queues) returns (ghost called: seq<Event>)
    requires p.Valid() && p.AllProper() && q.Valid() && p.members <= q.ws && NonePending(p)
    modifies p`periodiccnt, p`activecnt, p`members, p.heap, p.members`active, p.members`at
    modifies q`pendings, q`pendingpri, q`history, q.ws`pending, q.pending_w`pending
    ensures p.Valid() && q.Valid() && q.NothingAbove(-1)
    ensures CalledInTurn(called, map[], Late(old(p.Times()), p.rt_now), old(q.Waiting()))
    ensures forall e :: e in called ==> q.AtItsPriority(e)
    ensures old(q.history) <= q.history && Invocations(q.history[|old(q.history)|..]) == called
    ensures LateIn(p.Times(), p.rt_now) == {} && AllSettled(p, old(p.Times()))
  {
    hide AllSettled, P.Periodics.Valid, Queues.Valid, LateIn, CalledInTurn, Collected, FedBackwards, FeedsBackwards,
         OneSlotEach, WaitingIn, Invocations;
    ghost var base, start := q.pendings, q.history;
    SlotsOfQueues(q);
    p.Keys();
    ghost var xs := PeriodicsReify(p, q);
    NobodyFed(xs);
    called := InvokeCollected(q, xs, map[], Late(old(p.Times()), p.rt_now), base, start, FeedsBackwards(xs));
  }

  /** timers_reify leaves the periodics alone. */
  method TimersBeside(l: Loop, p: P.Periodics) returns (ghost ys: seq<Expired>, ghost quiet: seq<Event>)
    requires l.Valid() && l.rfeeds == [] && l.NonePending()
    requires p.Valid() && p.AllProper() && NonePending(p) && p.members <= l.queues.ws - l.own && p.heap != l.timers.heap
    modifies l`activecnt, l`rfeeds, l.queues`pendings, l.queues`pendingpri, l.queues`history, l.timers`timercnt,
             l.timers`members, l.timers.heap, l.timers.members`active, l.timers.members`at, l.timers.members`pending
    ensures l.Valid() && l.rfeeds == [] && LateIn(l.Deadlines(), l.timers.mn_now) == {} && l.AllSettled(old(l.Deadlines()))
    ensures Collected(ys, Late(old(l.Deadlines()), l.timers.mn_now), map[]) && WatchersOf(ys) <= l.queues.ws
    ensures l.queues.history == old(l.queues.history) + quiet && forall e :: e in quiet ==> !e.Invoked?
    ensures forall r :: 0 <= r < NUMPRI ==> l.queues.pendings[r] == old(l.queues.pendings)[r] + FedBackwards(ys, r)
    ensures p.Valid() && p.AllProper() && NonePending(p) && p.Times() == old(p.Times()) && l.timers.members <= l.own
  {
    hide Loop.AllSettled, P.Periodics.Valid, Timers.Valid, Queues.Valid, LateIn, Collected, FedBackwards;
    ys, quiet := l.CollectTimers();
  }

  /** timers_reify and periodics_reify: what is due is `xs`, the periodics first; `quiet` is what the history grew by. */
  method ReifyBoth(l: Loop, p: P.Periodics) returns (ghost xs: seq<Expired>, ghost quiet: seq<Event>)
    requires l.Valid() && l.rfeeds == [] && l.NonePending()
    requires p.Valid() && p.AllProper() && NonePending(p) && p.members <= l.queues.ws - l.own && p.heap != l.timers.heap
    modifies l`activecnt, l`rfeeds, l.queues`pendings, l.queues`pendingpri, l.queues`history, l.timers`timercnt,
             l.timers`members, l.timers.heap, l.timers.members`active, l.timers.members`at, l.timers.members`pending
    modifies p`periodiccnt, p`activecnt, p`members, p.heap, p.members`active, p.members`at, p.members`pending
    ensures l.Valid() && p.Valid() && l.rfeeds == []
    ensures Collected(xs, Late(old(l.Deadlines()), l.timers.mn_now), Late(old(p.Times()), p.rt_now))
    ensures WatchersOf(xs) <= l.queues.ws
    ensures forall r :: 0 <= r < NUMPRI ==> l.queues.pendings[r] == old(l.queues.pendings)[r] + FedBackwards(xs, r)
    ensures l.queues.history == old(l.queues.history) + quiet && forall e :: e in quiet ==> !e.Invoked?
    ensures LateIn(l.Deadlines(), l.timers.mn_now) == {} && l.AllSettled(old(l.Deadlines()))
    ensures LateIn(p.Times(), p.rt_now) == {} && AllSettled(p, old(p.Times()))
  {
    hide AllSettled, Loop.AllSettled, P.Periodics.Valid, Timers.Valid, Queues.Valid, LateIn,
         Collected, FedBackwards, FeedsBackwards;
    ghost var t, base, start := Late(l.Deadlines(), l.timers.mn_now), l.queues.pendings, l.queues.history;
    ghost var ys, before := TimersBeside(l, p);
    ghost var mid := l.queues.pendings;
    ghost var zs := PeriodicsReify(p, l.queues);
    CollectedBoth(zs, Late(old(p.Times()), p.rt_now), ys, t);
    xs, quiet := zs + ys, before + FeedsBackwards(zs);
    FedOnTop(base, mid, l.queues.pendings, zs, ys);
    NobodyFed(zs);
    Assoc(start, before, FeedsBackwards(zs));
    assert WatchersOf(xs) == WatchersOf(zs) + WatchersOf(ys);
  }

  lemma FedOnTop(base: seq<seq<Pending>>, mid: seq<seq<Pending>>, end: seq<seq<Pending>>, zs: seq<Expired>, ys: seq<Expired>)
    requires |base| == |mid| == |end| == NUMPRI
    requires forall r :: 0 <= r < NUMPRI ==> mid[r] == base[r] + FedBackwards(ys, r) && end[r] == mid[r] + FedBackwards(zs, r)
    ensures forall r :: 0 <= r < NUMPRI ==> end[r] == base[r] + FedBackwards(zs + ys, r)
  {
    hide FedBackwards;
    forall r | 0 <= r < NUMPRI ensures end[r] == base[r] + FedBackwards(zs + ys, r) {
      FedBoth(zs, ys, r);
      Assoc(base[r], FedBackwards(ys, r), FedBackwards(zs, r));
    }
  }

  /**
   One turn of ev_run from timers_reify to EV_INVOKE_PENDING, when no timer and no periodic is
   pending yet and callbacks are passive: in each priority the due periodics are called by their
   times, then the due timers by their deadlines, and then whatever else was pending.
  */
  method RunTurn(l: Loop, p: P.Periodics) returns (ghost called: seq<Event>)
    requires l.Valid() && l.rfeeds == [] && l.NonePending()
    requires p.Valid() && p.AllProper() && NonePending(p) && p.members <= l.queues.ws - l.own && p.heap != l.timers.heap
    modifies l`activecnt, l`rfeeds, l.queues`pendings, l.queues`pendingpri, l.queues`history, l.timers`timercnt,
             l.timers`members, l.timers.heap, l.timers.members`active, l.timers.members`at,
             l.queues.ws`pending, l.queues.pending_w`pending
    modifies p`periodiccnt, p`activecnt, p`members, p.heap, p.members`active, p.members`at
    ensures l.Valid() && p.Valid() && l.rfeeds == [] && l.queues.NothingAbove(-1)
    ensures CalledInTurn(called, Late(old(l.Deadlines()), l.timers.mn_now), Late(old(p.Times()), p.rt_now),
                         old(l.queues.Waiting()))
    ensures forall e :: e in called ==> l.queues.AtItsPriority(e)
    ensures old(l.queues.history) <= l.queues.history
    ensures Invocations(l.queues.history[|old(l.queues.history)|..]) == called
    ensures LateIn(l.Deadlines(), l.timers.mn_now) == {} && l.AllSettled(old(l.Deadlines()))
    ensures LateIn(p.Times(), p.rt_now) == {} && AllSettled(p, old(p.Times()))
  {
    hide AllSettled, Loop.AllSettled, P.Periodics.Valid, Timers.Valid, Queues.Valid, LateIn, CalledInTurn, Collected,
         FedBackwards, OneSlotEach, WaitingIn, Invocations;
    ghost var at0, pt0, base, start := l.Deadlines(), p.Times(), l.queues.pendings, l.queues.history;
    SlotsOfQueues(l.queues);
    p.Keys();
    ghost var xs, quiet := ReifyBoth(l, p);
    called := InvokeCollected(l.queues, xs, Late(at0, l.timers.mn_now), Late(pt0, p.rt_now), base, start, quiet);
  }

  // ----- how long the loop waits -----

  const MAX_BLOCKTIME := 59.743

  /** What the heaps leave of the blocking time. */
  method TimeToFirst(l: Loop, p: P.Periodics) returns (waittime: real)
    requires l.Valid() && p.Valid()
    ensures waittime <= MAX_BLOCKTIME
    ensures forall w :: w in l.timers.members ==> l.timers.mn_now + waittime <= w.at
    ensures forall w :: w in p.members ==> p.rt_now + waittime <= w.at
    ensures || waittime == MAX_BLOCKTIME
            || (exists w :: w in l.timers.members && l.timers.mn_now + waittime == w.at)
            || (exists w :: w in p.members && p.rt_now + waittime == w.at)
  {
    hide Queues.Valid, Ordered;
    l.timers.RootFirst();
    p.TopIsFirst();
    waittime := MAX_BLOCKTIME;
    if l.timers.timercnt > 0 {
      var to := l.timers.heap[HEAP0].at - l.timers.mn_now;
      if waittime > to { waittime := to; }
    }
    if p.periodiccnt > 0 {
      var to := p.heap[HEAP0].at - p.rt_now;
      if waittime > to { waittime := to; }
    }
  }

  /**
   The blocking time that ev_run computes: `slept` by itself, and `waittime` in the poll.  Beyond the
   least times that are set, no timer and no periodic is overslept, and the loop does not come back before
   there is a reason to.  `wait` tells whether it may wait at all, and `spent` is the time since the last poll.
  */
  method BlockingTime(l: Loop, p: P.Periodics, wait: bool, timeout_blocktime: real, io_blocktime: real,
                      backend_mintime: real, spent: real) returns (waittime: real, slept: real)
    requires l.Valid() && p.Valid()
    ensures !wait ==> waittime == slept == 0.0
    ensures wait ==> waittime >= backend_mintime && waittime + slept >= timeout_blocktime
    ensures slept >= 0.0 && (slept > 0.0 ==> io_blocktime != 0.0 && slept <= io_blocktime - spent)
    ensures var total := waittime + slept;
            wait && total > timeout_blocktime && total > backend_mintime ==>
              && total <= MAX_BLOCKTIME
              && (forall w :: w in l.timers.members ==> l.timers.mn_now + total <= w.at)
              && (forall w :: w in p.members ==> p.rt_now + total <= w.at)
    ensures var total := waittime + slept;
            wait ==>
              || total == MAX_BLOCKTIME || total == timeout_blocktime || total == backend_mintime
              || (exists w :: w in l.timers.members && l.timers.mn_now + total == w.at)
              || (exists w :: w in p.members && p.rt_now + total == w.at)
  {
    hide Timers.Valid, Queues.Valid, P.Periodics.Valid;
    waittime, slept := 0.0, 0.0;
    if wait {
      waittime := TimeToFirst(l, p);
      if waittime < timeout_blocktime { waittime := timeout_blocktime; }
      if waittime < backend_mintime { waittime := backend_mintime; }
      if io_blocktime != 0.0 {
        var sleeptime := io_blocktime - spent;
        if sleeptime > waittime - backend_mintime { sleeptime := waittime - backend_mintime; }
        if sleeptime > 0.0 {
          slept := sleeptime;
          waittime := waittime - sleeptime;
        }
      }
    }
  }
}
