/**
 Timers and their pending events together (ev.c: ev_timer_start, ev_timer_stop,
 ev_timer_again, timers_reify).
*/
module EventLoop {
  import opened TimerHeap
  import opened EventHistory
  import opened PendingQueues
  import opened TimerSet
  import opened DeadlineOrder
  import opened FeedReverse

  class Loop {
    const timers: Timers
    const queues: Queues
    var rfeeds: seq<Watcher>
    var activecnt: int

    /** Those of the watchers that are timers. */
    ghost var own: set<Watcher>

    ghost predicate TimerOk(w: Watcher)
      reads timers`members, w`active, w`priority, w`repeat
    {
      if w in timers.members then InRange(w.priority) && w.repeat >= 0.0 else w.active == 0
    }

    ghost predicate Valid()
      reads this`own, timers, timers.heap, queues, queues.ws, timers.members
    {
      && timers.Valid()
      && queues.Valid()
      && timers.members <= own <= queues.ws
      && forall w :: w in own ==> TimerOk(w)
    }

    constructor (now: real)
      ensures Valid() && fresh(timers) && fresh(queues) && fresh(timers.heap)
      ensures queues.ws == {} && queues.history == [] && timers.members == {} && own == {} && timers.mn_now == now
      ensures rfeeds == []
    {
      timers := new Timers(now);
      queues := new Queues();
      rfeeds, activecnt, own := [], 0, {};
    }

    /** A new timer becomes known to the loop. */
    ghost method Adopt(w: Watcher)
      requires Valid() && w.pending == 0 && w.active == 0 && w != queues.pending_w && w !in queues.ws
      modifies this`own, queues`ws
      ensures Valid() && own == old(own) + {w} && queues.ws == old(queues.ws) + {w}
    {
      hide Timers.Valid, Queues.Valid;
      timers.ActiveIfMember(w);
      queues.Adopt(w);
      own := own + {w};
    }

    method TimerStart(w: Watcher)
      requires Valid() && w in own && w.repeat >= 0.0
      modifies this`activecnt, timers`heap, timers`timercnt, timers`members, timers.heap, timers.members`active,
               w`active, w`at, w`priority
      ensures Valid()
      ensures timers.members == old(timers.members) + {w}
      ensures w.at == old(if w.active != 0 then w.at else w.at + timers.mn_now)
      ensures activecnt == old(if w.active != 0 then activecnt else activecnt + 1)
      ensures w.priority == Clamp(old(w.priority))
    {
      hide Timers.Valid, Queues.Valid;
      assert TimerOk(w);
      timers.ActiveIfMember(w);
      if w.active != 0 { return; }
      queues.PriAdjust(w);
      activecnt := activecnt + 1;
      timers.Start(w);
    }

    method TimerStop(w: Watcher)
      requires Valid() && w in own
      modifies this`activecnt, queues`pendings, queues`history, timers`timercnt, timers`members, timers.heap,
               timers.members`active, w`at, w`pending
      ensures Valid() && w.pending == 0 && w.active == 0
      ensures timers.members == old(timers.members) - {w}
      ensures w.at == old(if w.active != 0 then w.at - timers.mn_now else w.at)
      ensures activecnt == old(if w.active != 0 then activecnt - 1 else activecnt)
      ensures queues.history == old(queues.history) + [Cleared(w)]
      ensures old(w.pending) == 0 ==> queues.pendings == old(queues.pendings)
    {
      hide Timers.Valid, Queues.Valid;
      assert TimerOk(w);
      timers.ActiveIfMember(w);
      var _ := queues.ClearPending(w);
      if w.active == 0 { return; }
      timers.Stop(w);
      activecnt := activecnt - 1;
    }

    method TimerAgain(w: Watcher)
      requires Valid() && w in own && w.repeat >= 0.0
      modifies this`activecnt, queues`pendings, queues`history, timers`heap, timers`timercnt, timers`members, timers.heap,
               timers.members`active, w`active, w`at, w`pending, w`priority
      ensures Valid() && w.pending == 0
      ensures timers.members == if w.repeat == 0.0 then old(timers.members) - {w} else old(timers.members) + {w}
      ensures w.repeat != 0.0 ==> w.at == timers.mn_now + w.repeat && w.priority == Clamp(old(w.priority))
      ensures w.repeat == 0.0 ==> w.at == old(if w.active != 0 then w.at - timers.mn_now else w.at) && w.priority == old(w.priority)
      ensures activecnt == old(activecnt) +
                (if w.repeat != 0.0 && old(w.active) == 0 then 1 else if w.repeat == 0.0 && old(w.active) != 0 then -1 else 0)
      ensures queues.history == old(queues.history) + [Cleared(w)] +
                if old(w.active) != 0 && w.repeat == 0.0 then [Cleared(w)] else []
    {
      hide Timers.Valid, Queues.Valid;
      assert TimerOk(w);
      timers.ActiveIfMember(w);
      var _ := queues.ClearPending(w);
      if w.active != 0 {
        if w.repeat != 0.0 {
          timers.Reschedule(w, timers.mn_now + w.repeat);
        } else {
          TimerStop(w);
        }
      } else if w.repeat != 0.0 {
        w.at := w.repeat;
        TimerStart(w);
      }
    }

    // ----- expiring timers -----

    /** One turn of timers_reify. */
    method ReifyRoot() returns (w: Watcher)
      requires Valid() && timers.Due()
      modifies this`activecnt, queues`pendings, queues`history, timers`timercnt, timers`members, timers.heap,
               timers.members`active, timers.heap[HEAP0].w`at, timers.heap[HEAP0].w`pending
      ensures Valid()
      ensures w == old(timers.heap[HEAP0].w) && w in old(timers.members)
      ensures old(w.at) < timers.mn_now
      ensures forall x :: x in old(timers.members) ==> old(w.at) <= old(x.at)
      ensures timers.members == if w.repeat != 0.0 then old(timers.members) else old(timers.members) - {w}
      ensures w.repeat != 0.0 ==> Restarted(old(w.at), w.repeat, timers.mn_now, w.at)
      ensures w.repeat == 0.0 ==> w.at == old(w.at) - timers.mn_now
      ensures old(w.pending) == 0 ==> queues.pendings == old(queues.pendings) && w.pending == 0
      ensures queues.history == old(queues.history) + if w.repeat != 0.0 then [] else [Cleared(w)]
    {
      timers.RootFirst();
      w := timers.heap[HEAP0].w;
      hide Timers.Valid, Queues.Valid;
      assert TimerOk(w);
      timers.ActiveIfMember(w);
      if w.repeat != 0.0 {
        var at := w.at + w.repeat;
        if at < timers.mn_now { at := timers.mn_now; }
        timers.DelayRoot(at);
      } else {
        TimerStop(w);
      }
    }

    /** feed_reverse_done. */
    method FeedTimers(ghost xs: seq<Expired>)
      requires Valid() && Listed(rfeeds, xs, EV_TIMER) && WatchersOf(xs) <= queues.ws
      modifies this`rfeeds, queues`pendings, queues`pendingpri, queues`history, rfeeds`pending
      ensures Valid() && rfeeds == []
      ensures queues.history == old(queues.history) + FeedsBackwards(xs)
      ensures old(Clean(xs)) ==>
                forall p :: 0 <= p < NUMPRI ==> queues.pendings[p] == old(queues.pendings)[p] + FedBackwards(xs, p)
    {
      hide Timers.Valid, Queues.Valid, FeedsBackwards, FedBackwards, Clean, Listed;
      FeedReverseDone(queues, rfeeds, xs, EV_TIMER);
      rfeeds := [];
    }

    ghost function Deadlines(): map<Watcher, real>
      reads timers`members, timers.members`at
    {
      map w | w in timers.members :: w.at
    }

    /** No timer that runs is pending. */
    ghost predicate NonePending()
      reads timers`members, timers.members`pending
    {
      forall w :: w in timers.members ==> w.pending == 0
    }

    ghost predicate Reifying(xs: seq<Expired>, at0: map<Watcher, real>, start: seq<Event>)
      reads this`rfeeds, rfeeds, timers`members, timers`mn_now, timers.members`at, queues`history
    {
      && Listed(rfeeds, xs, EV_TIMER)
      && Reified(xs, at0, Deadlines(), timers.mn_now)
      && queues.history == start + Clears(xs)
    }

    /** The queues are still `base`, and no timer is pending, running or collected. */
    ghost predicate Quiet(base: seq<seq<Pending>>)
      reads this`rfeeds, rfeeds, timers`members, timers.members`pending, queues`pendings
    {
      queues.pendings == base && NonePending() && forall i :: 0 <= i < |rfeeds| ==> rfeeds[i].pending == 0
    }

    ghost function Top(): Expired
      requires Valid() && timers.Due()
      reads this`own, timers, timers.heap, queues, queues.ws, timers.members
    {
      var w := timers.heap[HEAP0].w;
      Expired(w, w.at, AbsPri(w), w.repeat, EV_TIMER)
    }

    lemma TopExpires(xs: seq<Expired>, at0: map<Watcher, real>, start: seq<Event>)
      requires Valid() && timers.Due() && Reifying(xs, at0, start)
      ensures var now, next := timers.mn_now, Without(Deadlines(), Top(), timers.mn_now);
              && Reified(xs + [Top()], at0, next, now)
              && |LateIn(next, now)| < |LateIn(Deadlines(), now)|
      ensures Clears(xs + [Top()]) == Clears(xs) + if Top().repeat == 0.0 then [Cleared(Top().w)] else []
      ensures NonePending() ==> Top().w.pending == 0
      ensures TimerOk(Top().w) && Top().w in timers.members && Top().w in queues.ws
    {
      timers.RootFirst();
      assert TimerOk(Top().w);
      ReifiedOneMore(xs, at0, Deadlines(), timers.mn_now, Top());
      ClearsOneMore(xs, Top());
      LateOneLess(Deadlines(), timers.mn_now, Top());
    }

    /** The root is taken as the next of the timers `xs`. */
    method TakeRoot(ghost xs: seq<Expired>, ghost at0: map<Watcher, real>, ghost start: seq<Event>)
      returns (w: Watcher, ghost e: Expired)
      requires Valid() && timers.Due() && Reifying(xs, at0, start)
      modifies this`activecnt, queues`pendings, queues`history, timers`timercnt, timers`members,
               timers.heap, timers.members`active, timers.members`at, timers.members`pending
      ensures Valid() && timers.members <= old(timers.members) && w in old(timers.members)
      ensures e.w == w && e.pri == AbsPri(w) && InRange(w.priority) && e.repeat == w.repeat && e.ev == EV_TIMER
      ensures Reified(xs + [e], at0, Deadlines(), timers.mn_now)
      ensures queues.history == start + Clears(xs + [e])
      ensures |LateIn(Deadlines(), timers.mn_now)| < old(|LateIn(Deadlines(), timers.mn_now)|)
      ensures old(NonePending()) ==> queues.pendings == old(queues.pendings) && w.pending == 0
      ensures forall x :: x in old(timers.members) && x != w ==> x.pending == old(x.pending)
    {
      hide Timers.Valid, Queues.Valid, Reified, Clears, LateIn;
      TopExpires(xs, at0, start);
      ghost var next := Without(Deadlines(), Top(), timers.mn_now);
      e := Top();
      w := ReifyRoot();
      assert Deadlines() == next;
    }

    method ReifyNext(ghost xs: seq<Expired>, ghost at0: map<Watcher, real>, ghost start: seq<Event>,
                     ghost base: seq<seq<Pending>>, ghost clean: bool)
      returns (ghost xs': seq<Expired>)
      requires Valid() && timers.Due() && Reifying(xs, at0, start) && (clean ==> Quiet(base))
      modifies this`activecnt, this`rfeeds, queues`pendings, queues`history, timers`timercnt, timers`members,
               timers.heap, timers.members`active, timers.members`at, timers.members`pending
      ensures Valid() && Reifying(xs', at0, start) && (clean ==> Quiet(base))
      ensures timers.members <= old(timers.members)
      ensures |LateIn(Deadlines(), timers.mn_now)| < old(|LateIn(Deadlines(), timers.mn_now)|)
    {
      hide Timers.Valid, Queues.Valid, Reified, Clears, LateIn;
      ghost var e;
      var w;
      w, e := TakeRoot(xs, at0, start);
      rfeeds := rfeeds + [w];
      xs' := xs + [e];
    }

    lemma NoneLate()
      requires Valid() && !timers.Due()
      ensures LateIn(Deadlines(), timers.mn_now) == {}
    {
      timers.RootFirst();
    }

    lemma ReifiedClean(xs: seq<Expired>, at0: map<Watcher, real>, start: seq<Event>, base: seq<seq<Pending>>, clean: bool)
      requires Valid() && Reifying(xs, at0, start) && (clean ==> Quiet(base)) && at0.Keys <= queues.ws
      ensures WatchersOf(xs) <= queues.ws
      ensures forall i :: 0 <= i < |rfeeds| ==> rfeeds[i] in at0
      ensures clean ==> Clean(xs)
      ensures forall x :: x in xs ==>
                x.w in queues.ws && InRange(x.w.priority) && x.pri == AbsPri(x.w) && x.repeat == x.w.repeat
    {
      forall x | x in xs
        ensures x.w in queues.ws && InRange(x.w.priority) && x.pri == AbsPri(x.w) && x.repeat == x.w.repeat
        ensures clean ==> x.w.pending == 0
      {
        assert Settled(x, at0, Deadlines(), timers.mn_now);
        var i :| 0 <= i < |xs| && xs[i] == x;
        assert rfeeds[i] == x.w;
      }
      forall i | 0 <= i < |rfeeds| ensures rfeeds[i] in at0 {
        assert xs[i] in xs && Settled(xs[i], at0, Deadlines(), timers.mn_now);
      }
    }

    /** The loop of timers_reify. */
    method CollectExpired(ghost start: seq<Event>, ghost base: seq<seq<Pending>>, ghost clean: bool)
      returns (ghost expired: seq<Expired>)
      requires Valid() && rfeeds == [] && queues.history == start && queues.pendings == base && (clean ==> NonePending())
      modifies this`activecnt, this`rfeeds, queues`pendings, queues`history, timers`timercnt, timers`members,
               timers.heap, timers.members`active, timers.members`at, timers.members`pending
      ensures Valid() && Reifying(expired, old(Deadlines()), start) && (clean ==> Quiet(base))
      ensures LateIn(Deadlines(), timers.mn_now) == {}
    {
      ghost var at0 := Deadlines();
      expired := [];
      while timers.Due()
        invariant Valid() && Reifying(expired, at0, start) && (clean ==> Quiet(base))
        invariant timers.members <= old(timers.members)
        decreases |LateIn(Deadlines(), timers.mn_now)|
      {
        hide Timers.Valid, Queues.Valid, Reified, LateIn, Clears;
        expired := ReifyNext(expired, at0, start, base, clean);
      }
      NoneLate();
    }

    /**
     timers_reify.  `expired` lists the timers that were due, in the order in which they came
     off the heap, with the deadlines they had then.
    */
    method TimersReify() returns (ghost expired: seq<Expired>)
      requires Valid() && rfeeds == []
      modifies this`activecnt, this`rfeeds, queues`pendings, queues`pendingpri, queues`history, timers`timercnt,
               timers`members, timers.heap, timers.members`active, timers.members`at, timers.members`pending
      ensures Valid() && rfeeds == []
      ensures Reified(expired, old(Deadlines()), Deadlines(), timers.mn_now)
      ensures LateIn(Deadlines(), timers.mn_now) == {}
      ensures WatchersOf(expired) == old(LateIn(Deadlines(), timers.mn_now))
      ensures queues.history == old(queues.history) + (Clears(expired) + FeedsBackwards(expired))
      ensures old(NonePending()) ==>
                forall p :: 0 <= p < NUMPRI ==> queues.pendings[p] == old(queues.pendings)[p] + FedBackwards(expired, p)
      ensures forall x :: x in expired ==>
                x.w in queues.ws && InRange(x.w.priority) && x.pri == AbsPri(x.w) && x.repeat == x.w.repeat
    {
      hide Timers.Valid, Queues.Valid, Reified, LateIn, Clears;
      ghost var at0, start, base, clean := Deadlines(), queues.history, queues.pendings, NonePending();
      expired := CollectExpired(start, base, clean);
      ReifiedDone(expired, at0, Deadlines(), timers.mn_now);
      ReifiedClean(expired, at0, start, base, clean);
      hide FeedsBackwards, FedBackwards, Quiet;
      Assoc(start, Clears(expired), FeedsBackwards(expired));
      if rfeeds != [] {
        FeedTimers(expired);
      } else {
        FedNothing(expired);
      }
    }

    /**
     Of the timers with the deadlines `at0`, those that were due have their next ones, or were
     stopped; the others have not moved.
    */
    ghost predicate AllSettled(at0: map<Watcher, real>)
      reads timers`members, timers`mn_now, timers.members`at, at0.Keys`repeat
    {
      && timers.members <= at0.Keys
      && (forall w :: w in at0 && at0[w] >= timers.mn_now ==> w in timers.members && w.at == at0[w])
      && (forall w :: w in at0 && at0[w] < timers.mn_now ==> (w in timers.members <==> w.repeat != 0.0))
      && (forall w :: w in timers.members && at0[w] < timers.mn_now ==> w.at >= timers.mn_now)
      && (forall w :: w in timers.members && at0[w] < timers.mn_now <= at0[w] + w.repeat ==> w.at == at0[w] + w.repeat)
      && (forall w :: w in timers.members && at0[w] < timers.mn_now && at0[w] + w.repeat < timers.mn_now ==> w.at == timers.mn_now)
    }

    lemma ReifiedIsSettled(xs: seq<Expired>, at0: map<Watcher, real>)
      requires Reified(xs, at0, Deadlines(), timers.mn_now)
      requires WatchersOf(xs) == LateIn(at0, timers.mn_now)
      requires forall x :: x in xs ==> x.repeat == x.w.repeat
      ensures AllSettled(at0)
    {
      assert Deadlines().Keys == timers.members;
      forall w | w in at0 && at0[w] < timers.mn_now
        ensures w in timers.members <==> w.repeat != 0.0
        ensures w in timers.members ==> Restarted(at0[w], w.repeat, timers.mn_now, w.at)
      {
        assert w in LateIn(at0, timers.mn_now);
        var x :| x in xs && x.w == w;
        assert Settled(x, at0, Deadlines(), timers.mn_now);
      }
    }

    /** timers_reify when no timer is pending yet: `quiet` is what the history grew by. */
    method CollectTimers() returns (ghost xs: seq<Expired>, ghost quiet: seq<Event>)
      requires Valid() && rfeeds == [] && NonePending()
      modifies this`activecnt, this`rfeeds, queues`pendings, queues`pendingpri, queues`history, timers`timercnt,
               timers`members, timers.heap, timers.members`active, timers.members`at, timers.members`pending
      ensures Valid() && rfeeds == [] && LateIn(Deadlines(), timers.mn_now) == {} && AllSettled(old(Deadlines()))
      ensures Collected(xs, Late(old(Deadlines()), timers.mn_now), map[]) && WatchersOf(xs) <= queues.ws
      ensures queues.history == old(queues.history) + quiet && forall e :: e in quiet ==> !e.Invoked?
      ensures forall p :: 0 <= p < NUMPRI ==> queues.pendings[p] == old(queues.pendings)[p] + FedBackwards(xs, p)
    {
      hide Loop.AllSettled, Timers.Valid, Queues.Valid, Reified, LateIn, Collected, FedBackwards, FeedsBackwards, Clears;
      ghost var at0 := Deadlines();
      xs := TimersReify();
      quiet := Clears(xs) + FeedsBackwards(xs);
      ReifiedIsSettled(xs, at0);
      ReifiedIsCollected(xs, at0, Deadlines(), timers.mn_now);
      NobodyInvoked(xs);
    }

    /** ev_run from timers_reify to its EV_INVOKE_PENDING, when no timer is pending yet and callbacks are passive. */
    method ExpireTimers() returns (ghost called: seq<Event>)
      requires Valid() && rfeeds == [] && NonePending()
      modifies this`activecnt, this`rfeeds, queues`pendings, queues`pendingpri, queues`history, timers`timercnt,
               timers`members, timers.heap, timers.members`active, timers.members`at, queues.ws`pending, queues.pending_w`pending
      ensures Valid() && rfeeds == [] && queues.NothingAbove(-1)
      ensures CalledInTurn(called, Late(old(Deadlines()), timers.mn_now), map[], old(queues.Waiting()))
      ensures forall e :: e in called ==> queues.AtItsPriority(e)
      ensures old(queues.history) <= queues.history && Invocations(queues.history[|old(queues.history)|..]) == called
      ensures LateIn(Deadlines(), timers.mn_now) == {} && AllSettled(old(Deadlines()))
    {
      hide Loop.AllSettled, Timers.Valid, Queues.Valid, LateIn, CalledInTurn, Collected, FedBackwards, OneSlotEach, WaitingIn,
           Invocations;
      ghost var at0, base, start := Deadlines(), queues.pendings, queues.history;
      SlotsOfQueues(queues);
      ghost var expired, quiet := CollectTimers();
      called := InvokeCollected(queues, expired, Late(at0, timers.mn_now), map[], base, start, quiet);
    }

    /**
     The loop finds the clock at one of `times` after the other.  A repeating timer does not drift:
     if each of its expiries is handled within one repeat, its deadline moves by exactly one repeat each.
    */
    method ExpireEach(times: seq<real>)
      requires Valid() && rfeeds == [] && NonePending()
      modifies this`activecnt, this`rfeeds, queues`pendings, queues`pendingpri, queues`history, timers`timercnt,
               timers`members, timers`mn_now, timers.heap, timers.members`active, timers.members`at,
               queues.ws`pending, queues.pending_w`pending
      ensures Valid() && rfeeds == [] && NonePending() && timers.members <= old(timers.members)
      ensures forall w :: w in old(timers.members) && w.repeat > 0.0 && InTime(old(w.at), w.repeat, times) ==>
                w in timers.members && w.at == old(w.at) + Expiries(old(w.at), w.repeat, times) as real * w.repeat
      decreases |times|
    {
      hide Timers.Valid, Queues.Valid, LateIn, CalledInTurn, Invocations, InTime, Expiries;
      if times == [] {
        forall w | w in timers.members { NoLook(w.at, w.repeat); }
        return;
      }
      forall w | w in timers.members && w.repeat > 0.0 && InTime(w.at, w.repeat, times) { OneLook(w.at, w.repeat, times); }
      AtTime(times[0]);
      ExpireEach(times[1..]);
    }

    /** One look at the clock. */
    method AtTime(now: real)
      requires Valid() && rfeeds == [] && NonePending()
      modifies this`activecnt, this`rfeeds, queues`pendings, queues`pendingpri, queues`history, timers`timercnt,
               timers`members, timers`mn_now, timers.heap, timers.members`active, timers.members`at,
               queues.ws`pending, queues.pending_w`pending
      ensures Valid() && rfeeds == [] && NonePending() && timers.members <= old(timers.members)
      ensures forall w :: w in old(timers.members) && w.repeat > 0.0 ==> w in timers.members
      ensures forall w :: w in old(timers.members) && w.repeat > 0.0 && old(w.at) >= now ==> w.at == old(w.at)
      ensures forall w :: w in old(timers.members) && w.repeat > 0.0 && old(w.at) < now <= old(w.at) + w.repeat ==>
                w.at == old(w.at) + w.repeat
    {
      hide Timers.Valid, Queues.Valid, LateIn, CalledInTurn, Invocations;
      ghost var at0 := Deadlines();
      timers.mn_now := now;
      var _ := ExpireTimers();
      queues.NothingOwed();
      assert forall w :: w in old(timers.members) ==> w in at0;
    }
  }
}
