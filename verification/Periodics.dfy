/**
 Periodic watchers (ev.c: ev_periodic_start, ev_periodic_stop, periodics_reify,
 periodics_reschedule), on a heap like the one of the timers.
*/
module Periodics {
  import opened TimerHeap
  import opened EventHistory
  import opened PendingQueues
  import opened DeadlineOrder
  import opened PeriodicTimes

  /** What the source demands: a callback does not tell a time in the past, and intervals are not negative. */
  ghost predicate Proper(sp: Spec, now: real) {
    match sp.reschedule
    case Some(f) => f(now) >= now
    case None => sp.interval >= 0.0
  }

  predicate Repeats(sp: Spec) {
    sp.reschedule.Some? || sp.interval != 0.0
  }

  /** The time that a repeating watcher gets at `now`. */
  ghost predicate Rescheduled(sp: Spec, now: real, at: real) {
    match sp.reschedule
    case Some(f) => at == f(now)
    case None => Recalculated(sp, now, at)
  }

  /**
   From the times `at0`, the watchers `fed` came off the heap, each once; `cur` are the times now.
   Those that repeat got their next time, the others were stopped, and no other watcher has moved.
  */
  ghost predicate Renewed(fed: seq<Watcher>, at0: map<Watcher, real>, cur: map<Watcher, real>,
                          specs: map<Watcher, Spec>, now: real)
  {
    && cur.Keys <= at0.Keys <= specs.Keys
    && (forall i, j :: 0 <= i < j < |fed| ==> fed[i] != fed[j])
    && (forall w :: w in fed ==> w in at0 && at0[w] < now)
    && (forall w :: w in fed ==> if Repeats(specs[w]) then w in cur && Rescheduled(specs[w], now, cur[w]) && cur[w] >= now else w !in cur)
    && (forall w :: w in at0 && w !in fed ==> w in cur && cur[w] == at0[w])
  }

  /** The watchers came off in the order of their times. */
  ghost predicate InOrder(fed: seq<Watcher>, at0: map<Watcher, real>, cur: map<Watcher, real>) {
    && (forall w :: w in fed ==> w in at0)
    && (forall i, j :: 0 <= i < j < |fed| ==> at0[fed[i]] <= at0[fed[j]])
    && (forall v, w :: v in fed && w in cur ==> at0[v] <= cur[w])
  }

  lemma InOrderStill(fed: seq<Watcher>, at0: map<Watcher, real>, cur: map<Watcher, real>, next: map<Watcher, real>,
      w: Watcher)
    requires InOrder(fed, at0, cur) && w in cur && w in at0 && at0[w] == cur[w]
    requires forall x :: x in next ==> cur[w] <= next[x]
    ensures InOrder(fed + [w], at0, next)
  {
    assert forall i :: 0 <= i < |fed| ==> fed[i] in fed;
  }

  lemma OneMoreReified(fed: seq<Watcher>, at0: map<Watcher, real>, cur: map<Watcher, real>, next: map<Watcher, real>,
                       specs: map<Watcher, Spec>, now: real, w: Watcher)
    requires Renewed(fed, at0, cur, specs, now) && InOrder(fed, at0, cur)
    requires w in cur && cur[w] < now && forall x :: x in cur ==> cur[w] <= cur[x]
    requires w in specs && next.Keys == if Repeats(specs[w]) then cur.Keys else cur.Keys - {w}
    requires Repeats(specs[w]) ==> Rescheduled(specs[w], now, next[w]) && next[w] >= now
    requires forall x :: x in next && x != w ==> next[x] == cur[x]
    ensures Renewed(fed + [w], at0, next, specs, now) && InOrder(fed + [w], at0, next)
    ensures |LateIn(next, now)| < |LateIn(cur, now)|
  {
    hide Rescheduled, Repeats, InOrder;
    assert w !in fed && at0[w] == cur[w];
    assert LateIn(next, now) == LateIn(cur, now) - {w};
    InOrderStill(fed, at0, cur, next, w);
  }

  class Periodics {
    var heap: array<HeapEntry>
    var periodiccnt: nat
    var activecnt: int
    var rt_now: real
    /** The fields that an ev_periodic adds to a watcher. */
    const specs: map<Watcher, Spec>

    ghost var members: set<Watcher>

    constructor (specs: map<Watcher, Spec>, now: real)
      ensures Valid() && members == {} && activecnt == 0 && rt_now == now && this.specs == specs && fresh(heap)
    {
      var filler := new Watcher(0, 0.0, 0.0);
      heap := new HeapEntry[HEAP0](_ => HeapEntry(0.0, filler));
      periodiccnt, activecnt, rt_now, members := 0, 0, now, {};
      this.specs := specs;
    }

    ghost predicate Valid()
      reads this`heap, this`periodiccnt, this`members, heap, members`active, members`at, members`priority
    {
      Heap(heap, periodiccnt, members) && members <= specs.Keys && forall w :: w in members ==> InRange(w.priority)
    }

    ghost predicate AllProper()
      reads this`rt_now
    {
      forall w :: w in specs ==> Proper(specs[w], rt_now)
    }

    ghost function Times(): map<Watcher, real>
      reads this`members, members`at
    {
      map w | w in members :: w.at
    }

    // ----- starting and stopping -----

    /** ev_periodic_start. */
    method Start(w: Watcher)
      requires Valid() && w in specs && Proper(specs[w], rt_now) && (w.active != 0 <==> w in members)
      modifies this`heap, this`periodiccnt, this`activecnt, this`members, heap, members`active, w`active, w`at, w`priority
      ensures Valid() && members == old(members) + {w}
      ensures activecnt == old(if w.active != 0 then activecnt else activecnt + 1)
      ensures w.priority == Clamp(old(w.priority))
      ensures old(w.active) == 0 ==>
                if Repeats(specs[w]) then Rescheduled(specs[w], rt_now, w.at) else w.at == specs[w].offset
      ensures old(w.active) != 0 ==> w.at == old(w.at)
    {
      hide Rescheduled, Repeats, Proper, Periodics.Valid;
      Keys();
      if w.active != 0 { return; }
      w.at := FirstTime(specs[w]);
      w.priority := Clamp(w.priority);
      activecnt := activecnt + 1;
      Enter(w);
    }

    method Enter(w: Watcher)
      requires Valid() && w in specs && w !in members && InRange(w.priority)
      modifies this`heap, this`periodiccnt, this`members, heap, members`active, w`active
      ensures Valid() && members == old(members) + {w}
      ensures heap == old(heap) || fresh(heap)
    {
      hide Heap;
      heap := NeedSize(heap, periodiccnt, periodiccnt + 1 + HEAP0, HeapEntry(w.at, w), members);
      Insert(heap, periodiccnt, w, members);
      periodiccnt := periodiccnt + 1;
      members := members + {w};
    }

    /** The time that ev_periodic_start gives a watcher. */
    method FirstTime(sp: Spec) returns (at: real)
      requires Proper(sp, rt_now)
      ensures if Repeats(sp) then Rescheduled(sp, rt_now, at) else at == sp.offset
    {
      if sp.reschedule.Some? {
        at := (sp.reschedule.value)(rt_now);
      } else if sp.interval != 0.0 {
        at := PeriodicRecalc(sp, rt_now);
      } else {
        at := sp.offset;
      }
    }

    /** ev_periodic_stop, apart from the pending event of the watcher. */
    method Stop(w: Watcher)
      requires Valid() && (w.active != 0 <==> w in members)
      modifies this`periodiccnt, this`activecnt, this`members, heap, members`active, w`active
      ensures Valid() && members == old(members) - {w} && w.active == 0
      ensures activecnt == old(if w.active != 0 then activecnt - 1 else activecnt)
      ensures activecnt - periodiccnt == old(activecnt - periodiccnt)
    {
      if w.active == 0 { return; }
      Remove(heap, periodiccnt, w, members);
      periodiccnt := periodiccnt - 1;
      activecnt := activecnt - 1;
      members := members - {w};
      w.active := 0;
    }

    // ----- periodics_reify -----

    /** The guard of periodics_reify. */
    predicate Due()
      requires Valid()
      reads this`heap, this`periodiccnt, this`rt_now, this`members, heap, members`active, members`at, members`priority
    {
      periodiccnt > 0 && heap[HEAP0].at < rt_now
    }

    lemma TopIsFirst()
      requires Valid()
      ensures periodiccnt == 0 ==> members == {}
      ensures periodiccnt > 0 ==> heap[HEAP0].w in members && heap[HEAP0].at == heap[HEAP0].w.at
      ensures periodiccnt > 0 ==> forall w :: w in members ==> heap[HEAP0].at <= w.at && w.active != 0
    {
      RootFirst(heap, periodiccnt, members);
    }

    /** One turn of the loop of periodics_reify. */
    method ReifyRoot() returns (w: Watcher)
      requires Valid() && Due() && AllProper()
      modifies this`periodiccnt, this`activecnt, this`members, heap, members`active, heap[HEAP0].w`at
      ensures activecnt - periodiccnt == old(activecnt - periodiccnt)
      ensures Valid() && w in old(members) && old(w.at) < rt_now
      ensures forall x :: x in old(members) ==> old(w.at) <= old(x.at)
      ensures members == if Repeats(specs[w]) then old(members) else old(members) - {w}
      ensures Repeats(specs[w]) ==> Rescheduled(specs[w], rt_now, w.at) && w.at >= rt_now
      ensures forall x :: x in members && x != w ==> x.at == old(x.at)
    {
      TopIsFirst();
      w := heap[HEAP0].w;
      var sp := specs[w];
      if sp.reschedule.Some? {
        DelayRoot(heap, periodiccnt, (sp.reschedule.value)(rt_now), members);
      } else if sp.interval != 0.0 {
        var at := PeriodicRecalc(sp, rt_now);
        DelayRoot(heap, periodiccnt, at, members);
      } else {
        Stop(w);
      }
    }

    method ReifyNext(ghost fed: seq<Watcher>, ghost at0: map<Watcher, real>) returns (w: Watcher)
      requires Valid() && Due() && AllProper() && Renewed(fed, at0, Times(), specs, rt_now) && InOrder(fed, at0, Times())
      modifies this`periodiccnt, this`activecnt, this`members, heap, members`active, members`at
      ensures Valid() && members <= old(members) && activecnt - periodiccnt == old(activecnt - periodiccnt)
      ensures Renewed(fed + [w], at0, Times(), specs, rt_now) && InOrder(fed + [w], at0, Times())
      ensures |LateIn(Times(), rt_now)| < old(|LateIn(Times(), rt_now)|)
    {
      hide Periodics.Valid, Rescheduled, Repeats, Proper, Renewed, InOrder, LateIn;
      TopIsFirst();
      Keys();
      ghost var before := Times();
      w := ReifyRoot();
      OneMoreReified(fed, at0, before, Times(), specs, rt_now, w);
    }

    /**
     periodics_reify, up to feed_reverse_done: it terminates, and no watcher is overdue any more.
     `rfeeds` lists the watchers that were, the one that was due first comes first.
    */
    method PeriodicsReify() returns (rfeeds: seq<Watcher>)
      requires Valid() && AllProper()
      modifies this`periodiccnt, this`activecnt, this`members, heap, members`active, members`at
      ensures activecnt - periodiccnt == old(activecnt - periodiccnt)
      ensures Valid() && Renewed(rfeeds, old(Times()), Times(), specs, rt_now) && InOrder(rfeeds, old(Times()), Times())
      ensures LateIn(Times(), rt_now) == {}
      ensures (set w | w in rfeeds) == LateIn(old(Times()), rt_now)
    {
      hide Periodics.Valid, Rescheduled, Repeats, Proper;
      rfeeds := [];
      ghost var at0 := Times();
      Keys();
      while Due()
        invariant Valid() && members <= old(members) && activecnt - periodiccnt == old(activecnt - periodiccnt)
        invariant Renewed(rfeeds, at0, Times(), specs, rt_now) && InOrder(rfeeds, at0, Times())
        decreases |LateIn(Times(), rt_now)|
      {
        var w := ReifyNext(rfeeds, at0);
        rfeeds := rfeeds + [w];
      }
      TopIsFirst();
      assert forall w :: w in LateIn(at0, rt_now) ==> w in rfeeds;
    }

    lemma Keys()
      requires Valid()
      ensures members <= specs.Keys && forall w :: w in members ==> InRange(w.priority)
    {
    }

    // ----- periodics_reschedule -----

    lemma EntriesAreMembers()
      requires Valid()
      ensures periodiccnt + HEAP0 <= heap.Length && members <= specs.Keys
      ensures Distinct(heap[HEAP0..periodiccnt + HEAP0]) && Watchers(heap[HEAP0..periodiccnt + HEAP0]) == members
      ensures forall i :: HEAP0 <= i < periodiccnt + HEAP0 ==> heap[i].w in members && heap[i].at == heap[i].w.at
    {
      var s := heap[HEAP0..periodiccnt + HEAP0];
      forall w | w in members ensures w in Watchers(s) {
        assert s[w.active - HEAP0] == heap[w.active];
      }
    }

    /** The loop body of periodics_reschedule: one entry gets its new time, wherever that belongs. */
    method Retime(i: nat)
      requires HEAP0 <= i < heap.Length && heap[i].w in specs && Proper(specs[heap[i].w], rt_now)
      modifies heap, heap[i].w`at
      ensures var w := old(heap[i].w);
              && heap[..] == old(heap[..])[i := HeapEntry(w.at, w)]
              && if Repeats(specs[w]) then Rescheduled(specs[w], rt_now, w.at) else w.at == old(w.at)
    {
      var w := heap[i].w;
      var sp := specs[w];
      if sp.reschedule.Some? {
        w.at := (sp.reschedule.value)(rt_now);
      } else if sp.interval != 0.0 {
        w.at := PeriodicRecalc(sp, rt_now);
      }
      heap[i] := HeapEntry(w.at, w);
    }

    /** The entries below `i` have their new times; the watchers are those of `s`, whose times were `at0`. */
    ghost predicate Retiming(s: seq<HeapEntry>, i: nat, at0: map<Watcher, real>)
      requires Watchers(s) <= at0.Keys && at0.Keys <= specs.Keys
      reads this`heap, this`rt_now, heap, at0.Keys`at
    {
      && HEAP0 <= i <= |s| + HEAP0 <= heap.Length
      && (forall j :: 0 <= j < |s| ==> s[j].w in at0 && heap[j + HEAP0] == HeapEntry(s[j].w.at, s[j].w))
      && (forall j :: 0 <= j < i - HEAP0 ==> NewTime(s[j].w, at0[s[j].w]))
      && (forall j :: i - HEAP0 <= j < |s| ==> s[j].w.at == at0[s[j].w])
    }

    ghost predicate NewTime(w: Watcher, before: real)
      requires w in specs
      reads this`rt_now, w`at
    {
      if Repeats(specs[w]) then Rescheduled(specs[w], rt_now, w.at) else w.at == before
    }

    method RetimeNext(i: nat, ghost s: seq<HeapEntry>, ghost at0: map<Watcher, real>)
      requires AllProper() && Distinct(s) && Watchers(s) <= at0.Keys && at0.Keys <= specs.Keys
      requires Retiming(s, i, at0) && i < |s| + HEAP0
      modifies heap, at0.Keys`at
      ensures Retiming(s, i + 1, at0)
    {
      hide Rescheduled, Repeats, Proper;
      assert heap[i] == HeapEntry(s[i - HEAP0].w.at, s[i - HEAP0].w);
      Retime(i);
    }

    /** periodics_reschedule: after a jump of the clock every repeating watcher has its next time, and the heap is one again. */
    method Reschedule()
      requires Valid() && AllProper()
      modifies heap, members`active, members`at
      ensures Valid()
      ensures forall w :: w in members ==> NewTime(w, old(w.at))
    {
      hide Rescheduled, Repeats, Proper, Heap, Retiming, NewTime, Distinct, Watchers, Periodics.Valid;
      EntriesAreMembers();
      Keys();
      ghost var s, at0 := heap[HEAP0..periodiccnt + HEAP0], Times();
      var i: nat := HEAP0;
      NotYetRetimed(s);
      while i < periodiccnt + HEAP0
        invariant HEAP0 <= i <= periodiccnt + HEAP0 && Retiming(s, i, at0)
      {
        RetimeNext(i, s, at0);
        i := i + 1;
      }
      AllRetimed(s, at0);
      SameWatchers(s, heap[HEAP0..periodiccnt + HEAP0]);
      Reheap(heap, periodiccnt);
      ValidAgain(Watchers(s));
    }

    lemma ValidAgain(ms: set<Watcher>)
      requires ms == members <= specs.Keys && Heap(heap, periodiccnt, ms) && forall w :: w in members ==> InRange(w.priority)
      ensures Valid()
    {
    }

    lemma NotYetRetimed(s: seq<HeapEntry>)
      requires Valid() && s == heap[HEAP0..periodiccnt + HEAP0] && Watchers(s) == members
      ensures Retiming(s, HEAP0, Times())
    {
      assert forall j :: 0 <= j < |s| ==> s[j] == heap[j + HEAP0];
    }

    lemma AllRetimed(s: seq<HeapEntry>, at0: map<Watcher, real>)
      requires Watchers(s) == at0.Keys <= specs.Keys && |s| == periodiccnt && Retiming(s, periodiccnt + HEAP0, at0)
      ensures forall w :: w in at0 ==> NewTime(w, at0[w])
      ensures forall i :: 0 <= i < |s| ==> s[i].w == heap[HEAP0..periodiccnt + HEAP0][i].w
      ensures forall i :: HEAP0 <= i < periodiccnt + HEAP0 ==> heap[i].at == heap[i].w.at
    {
      assert forall i :: HEAP0 <= i < periodiccnt + HEAP0 ==> heap[i] == HeapEntry(s[i - HEAP0].w.at, s[i - HEAP0].w);
    }

    lemma SameWatchers(s: seq<HeapEntry>, t: seq<HeapEntry>)
      requires |s| == |t| && forall i :: 0 <= i < |s| ==> s[i].w == t[i].w
      requires Distinct(s)
      ensures Distinct(t) && Watchers(t) == Watchers(s)
    {
      assert forall i :: 0 <= i < |s| ==> s[i].w in Watchers(t) && t[i].w in Watchers(s) by {
        assert forall i :: 0 <= i < |s| ==> s[i] in s && t[i] in t;
      }
    }
  }
}
