/**
 Why timers and periodics come out in the order of their deadlines: timers_reify and
 periodics_reify collect them in heap order, feed them last to first, and ev_invoke_pending
 serves each queue last to first.
*/
module DeadlineOrder {
  import opened TimerHeap
  import opened EventHistory
  import opened PendingQueues

  const EV_TIMER: Events := {8}
  const EV_PERIODIC: Events := {9}

  /**
   A watcher taken off the top of its heap: its deadline then, its priority counted from 0, its
   interval if it is a timer, and the event it gets.
  */
  datatype Expired = Expired(w: Watcher, at: real, pri: int, repeat: real, ev: Events)

  /** `x` may be served before `y` of the same priority: periodics come before timers, and either by deadline. */
  ghost predicate Sooner(x: Expired, y: Expired) {
    (x.ev == EV_PERIODIC && y.ev == EV_TIMER) || (x.ev == y.ev && x.at <= y.at)
  }

  ghost predicate Chronological(xs: seq<Expired>) {
    forall i, j :: 0 <= i < j < |xs| ==> Sooner(xs[i], xs[j])
  }

  ghost predicate Unique(xs: seq<Expired>) {
    forall i, j :: 0 <= i < j < |xs| ==> xs[i].w != xs[j].w
  }

  ghost function WatchersOf(xs: seq<Expired>): set<Watcher> { set x | x in xs :: x.w }

  /** The deadline a repeating timer gets when it expires: one repeat on, unless that is over already. */
  function NextDeadline(at: real, repeat: real, now: real): real {
    if at + repeat < now then now else at + repeat
  }

  /** What taking `xs` off the heap leaves in the history: stopping a timer clears its pending event. */
  ghost function Clears(xs: seq<Expired>): seq<Event> {
    if xs == [] then []
    else
      var x := xs[|xs| - 1];
      Clears(xs[..|xs| - 1]) + if x.repeat == 0.0 then [Cleared(x.w)] else []
  }

  /** What feeding `xs` from its end to its beginning leaves in the history. */
  ghost function FeedsBackwards(xs: seq<Expired>): seq<Event> {
    if xs == [] then [] else FeedsBackwards(xs[1..]) + [Fed(xs[0].w, xs[0].pri, xs[0].ev)]
  }

  /** What feeding `xs` from its end to its beginning adds to the queue of priority `pri`. */
  ghost function FedBackwards(xs: seq<Expired>, pri: int): seq<Pending> {
    if xs == [] then []
    else FedBackwards(xs[1..], pri) + if xs[0].pri == pri then [Pending(xs[0].w, xs[0].ev)] else []
  }

  lemma FedNothing(xs: seq<Expired>)
    ensures xs == [] ==> FeedsBackwards(xs) == [] && forall p :: FedBackwards(xs, p) == []
  {
  }

  lemma FedOneMore(xs: seq<Expired>, n: nat)
    requires n < |xs|
    ensures FeedsBackwards(xs[n..]) == FeedsBackwards(xs[n + 1..]) + [Fed(xs[n].w, xs[n].pri, xs[n].ev)]
    ensures forall p :: FedBackwards(xs[n..], p) ==
              if xs[n].pri == p then FedBackwards(xs[n + 1..], p) + [Pending(xs[n].w, xs[n].ev)]
              else FedBackwards(xs[n + 1..], p)
  {
    assert xs[n..][1..] == xs[n + 1..];
  }

  /** What is fed last is served first: feeding `b` and then `a` is feeding `a` followed by `b` backwards. */
  lemma {:induction false} FedBoth(a: seq<Expired>, b: seq<Expired>, pri: int)
    ensures FedBackwards(a + b, pri) == FedBackwards(b, pri) + FedBackwards(a, pri)
  {
    if a == [] {
      assert a + b == b;
    } else {
      FedBoth(a[1..], b, pri);
      assert (a + b)[1..] == a[1..] + b;
    }
  }

  ghost function OfPriority(xs: seq<Expired>, pri: int): seq<Expired> {
    if xs == [] then [] else (if xs[0].pri == pri then [xs[0]] else []) + OfPriority(xs[1..], pri)
  }

  function CallOf(x: Expired): Event { Invoked(x.w, x.pri, x.ev) }

  ghost function Calls(xs: seq<Expired>): seq<Event> {
    seq(|xs|, i requires 0 <= i < |xs| => CallOf(xs[i]))
  }

  /** The order of service: in each priority first `xs`, then what was in the queue before, the last first. */
  ghost function ServedWith(xs: seq<Expired>, base: seq<seq<Pending>>, n: nat, dummy: Watcher): seq<Event>
    requires n <= |base|
  {
    if n == 0 then []
    else Calls(OfPriority(xs, n - 1)) + DrainLevel(base[n - 1], n - 1, dummy) + ServedWith(xs, base, n - 1, dummy)
  }

  lemma DrainLast(q: seq<Pending>, last: Pending, pri: int, dummy: Watcher)
    ensures DrainLevel(q + [last], pri, dummy) == Called(last, pri, dummy) + DrainLevel(q, pri, dummy)
  {
    assert (q + [last])[..|q|] == q;
  }

  lemma CallsFrom(x: Expired, xs: seq<Expired>)
    ensures Calls([x] + xs) == [CallOf(x)] + Calls(xs) && Calls([]) == []
  {
  }

  lemma {:induction false} DrainLevelInOrder(q: seq<Pending>, xs: seq<Expired>, pri: int, dummy: Watcher)
    requires forall x :: x in xs ==> x.w != dummy
    ensures DrainLevel(q + FedBackwards(xs, pri), pri, dummy) == Calls(OfPriority(xs, pri)) + DrainLevel(q, pri, dummy)
  {
    hide DrainLevel, Calls;
    if xs == [] {
      assert q + FedBackwards(xs, pri) == q;
      CallsFrom(Expired(dummy, 0.0, 0, 0.0, {}), []);
    } else {
      DrainLevelInOrder(q, xs[1..], pri, dummy);
      var fed, more, last := FedBackwards(xs[1..], pri), OfPriority(xs[1..], pri), Pending(xs[0].w, xs[0].ev);
      if xs[0].pri == pri {
        assert q + (fed + [last]) == q + fed + [last];
        DrainLast(q + fed, last, pri, dummy);
        CallsFrom(xs[0], more);
        Assoc([CallOf(xs[0])], Calls(more), DrainLevel(q, pri, dummy));
      } else {
        assert fed + [] == fed && [] + more == more;
      }
    }
  }

  lemma NobodyLeft(xs: seq<Expired>, base: seq<seq<Pending>>, qs: seq<seq<Pending>>, dummy: Watcher)
    ensures Drain(qs, 0, dummy) == [] == ServedWith(xs, base, 0, dummy)
  {
  }

  lemma ServedTop(xs: seq<Expired>, base: seq<seq<Pending>>, n: nat, dummy: Watcher)
    requires 0 < n <= |base|
    ensures ServedWith(xs, base, n, dummy) ==
              Calls(OfPriority(xs, n - 1)) + DrainLevel(base[n - 1], n - 1, dummy) + ServedWith(xs, base, n - 1, dummy)
  {
  }

  lemma {:induction false} DrainInOrder(xs: seq<Expired>, base: seq<seq<Pending>>, qs: seq<seq<Pending>>, n: nat, dummy: Watcher)
    requires n <= |qs| == |base| && forall p :: 0 <= p < n ==> qs[p] == base[p] + FedBackwards(xs, p)
    requires forall x :: x in xs ==> x.w != dummy
    ensures Drain(qs, n, dummy) == ServedWith(xs, base, n, dummy)
  {
    hide FedBackwards, Drain, DrainLevel, OfPriority, Calls, ServedWith;
    if n == 0 {
      NobodyLeft(xs, base, qs, dummy);
    } else {
      DrainInOrder(xs, base, qs, n - 1, dummy);
      DrainLevelInOrder(base[n - 1], xs, n - 1, dummy);
      DrainTop(qs, n, dummy);
      ServedTop(xs, base, n, dummy);
    }
  }

  lemma {:induction false} OfPriorityKeepsOrder(xs: seq<Expired>, pri: int)
    requires Chronological(xs) && Unique(xs)
    ensures Chronological(OfPriority(xs, pri)) && Unique(OfPriority(xs, pri))
    ensures forall x :: x in OfPriority(xs, pri) ==> x in xs && x.pri == pri
    ensures forall x :: x in xs && x.pri == pri ==> x in OfPriority(xs, pri)
  {
    if xs != [] {
      OfPriorityKeepsOrder(xs[1..], pri);
      var rest, r := OfPriority(xs[1..], pri), OfPriority(xs, pri);
      assert xs == [xs[0]] + xs[1..];
      if xs[0].pri == pri {
        forall k | 0 <= k < |rest| ensures Sooner(xs[0], rest[k]) && xs[0].w != rest[k].w {
          assert rest[k] in rest;
          var m :| 0 <= m < |xs[1..]| && xs[1..][m] == rest[k];
          assert xs[m + 1] == rest[k];
        }
        assert r == [xs[0]] + rest;
      } else {
        assert r == rest;
      }
    }
  }

  lemma SameWatcher(xs: seq<Expired>, x: Expired, y: Expired)
    requires Unique(xs) && x in xs && y in xs && x.pri != y.pri
    ensures x.w != y.w
  {
    var i :| 0 <= i < |xs| && xs[i] == x;
    var j :| 0 <= j < |xs| && xs[j] == y;
  }

  // ----- taking timers off the heap -----

  ghost function LateIn(cur: map<Watcher, real>, now: real): set<Watcher> { set w | w in cur && cur[w] < now }

  /**
   From the deadlines `at0`, the timers `xs` came off the heap in order and each once; `cur` are
   the deadlines now.  Nobody else has moved, and nobody left is due before the last of `xs`.
  */
  ghost predicate Reified(xs: seq<Expired>, at0: map<Watcher, real>, cur: map<Watcher, real>, now: real) {
    && Chronological(xs) && Unique(xs)
    && cur.Keys <= at0.Keys
    && (forall x :: x in xs ==> Settled(x, at0, cur, now))
    && (forall w :: w in at0 && w !in WatchersOf(xs) ==> w in cur && cur[w] == at0[w])
    && (forall x, w :: x in xs && w in cur ==> x.at <= cur[w])
  }

  /** A timer that was due at `at` is due one repeat later, unless that is over already at `now`: then it is due at once. */
  ghost predicate Restarted(at: real, repeat: real, now: real, next: real) {
    now <= next && (now <= at + repeat ==> next == at + repeat) && (at + repeat < now ==> next == now)
  }

  /** When the loop looks at the times `times`, each expiry of the timer is handled within one repeat of its deadline. */
  ghost predicate InTime(at: real, repeat: real, times: seq<real>)
    decreases |times|
  {
    times == [] ||
    if at < times[0] then times[0] <= at + repeat && InTime(at + repeat, repeat, times[1..])
    else InTime(at, repeat, times[1..])
  }

  /** How often it expires then. */
  ghost function Expiries(at: real, repeat: real, times: seq<real>): nat
    decreases |times|
  {
    if times == [] then 0
    else if at < times[0] then 1 + Expiries(at + repeat, repeat, times[1..])
    else Expiries(at, repeat, times[1..])
  }

  /** One look at the clock. */
  lemma OneLook(at: real, repeat: real, times: seq<real>)
    requires times != [] && InTime(at, repeat, times)
    ensures at < times[0] ==> times[0] <= at + repeat
    ensures var next := if at < times[0] then at + repeat else at;
            && InTime(next, repeat, times[1..])
            && at + Expiries(at, repeat, times) as real * repeat == next + Expiries(next, repeat, times[1..]) as real * repeat
  {
    var next := if at < times[0] then at + repeat else at;
    OneMoreRepeat(Expiries(next, repeat, times[1..]), repeat);
  }

  lemma NoLook(at: real, repeat: real)
    ensures at + Expiries(at, repeat, []) as real * repeat == at
  {
  }

  lemma OneMoreRepeat(n: nat, repeat: real)
    ensures (1 + n) as real * repeat == repeat + n as real * repeat
  {
    assert (1 + n) as real == 1.0 + n as real;
  }

  /** `x` was due, and has either left the heap or got its next deadline. */
  ghost predicate Settled(x: Expired, at0: map<Watcher, real>, cur: map<Watcher, real>, now: real) {
    && x.w in at0 && x.at == at0[x.w] < now && 0.0 <= x.repeat && x.ev == EV_TIMER
    && if x.repeat == 0.0 then x.w !in cur
       else x.w in cur && Restarted(x.at, x.repeat, now, cur[x.w])
  }

  ghost function Without(cur: map<Watcher, real>, e: Expired, now: real): map<Watcher, real> {
    if e.repeat == 0.0 then cur - {e.w} else cur[e.w := NextDeadline(e.at, e.repeat, now)]
  }

  lemma StillSettled(x: Expired, at0: map<Watcher, real>, cur: map<Watcher, real>, now: real, e: Expired)
    requires Settled(x, at0, cur, now) && e.w in cur && e.at == cur[e.w] < now
    requires x.w in cur ==> x.at <= cur[x.w]
    ensures x.w != e.w && x.ev == EV_TIMER && Settled(x, at0, Without(cur, e, now), now)
  {
  }

  lemma ReifiedOneMore(xs: seq<Expired>, at0: map<Watcher, real>, cur: map<Watcher, real>, now: real, e: Expired)
    requires Reified(xs, at0, cur, now)
    requires e.w in cur && e.at == cur[e.w] < now && 0.0 <= e.repeat && e.ev == EV_TIMER
    requires forall w :: w in cur ==> e.at <= cur[w]
    ensures Reified(xs + [e], at0, Without(cur, e, now), now)
    ensures e.repeat != 0.0 ==>
              var next := Without(cur, e, now)[e.w];
              now <= next && (now <= e.at + e.repeat ==> next == e.at + e.repeat) && (e.at + e.repeat < now ==> next == now)
  {
    hide Settled, Chronological, Unique;
    var next := Without(cur, e, now);
    forall x | x in xs ensures x.w != e.w && Settled(x, at0, next, now) && x.ev == e.ev {
      StillSettled(x, at0, cur, now, e);
    }
    NewlySettled(xs, at0, cur, now, e);
    OrderedOneMore(xs, e);
    forall w | w in next ensures e.at <= next[w] && forall x :: x in xs ==> x.at <= next[w] {}
    assert WatchersOf(xs + [e]) == WatchersOf(xs) + {e.w};
  }

  lemma OrderedOneMore(xs: seq<Expired>, e: Expired)
    requires Chronological(xs) && Unique(xs) && forall x :: x in xs ==> Sooner(x, e) && x.w != e.w
    ensures Chronological(xs + [e]) && Unique(xs + [e])
  {
    assert forall i :: 0 <= i < |xs| ==> xs[i] in xs;
  }

  lemma NewlySettled(xs: seq<Expired>, at0: map<Watcher, real>, cur: map<Watcher, real>, now: real, e: Expired)
    requires Reified(xs, at0, cur, now)
    requires e.w in cur && e.at == cur[e.w] < now && 0.0 <= e.repeat && e.ev == EV_TIMER
    ensures e.w !in WatchersOf(xs) && Settled(e, at0, Without(cur, e, now), now)
  {
    forall x | x in xs ensures x.w != e.w {
      StillSettled(x, at0, cur, now, e);
    }
  }

  lemma ClearsOneMore(xs: seq<Expired>, e: Expired)
    ensures Clears(xs + [e]) == Clears(xs) + if e.repeat == 0.0 then [Cleared(e.w)] else []
  {
    assert (xs + [e])[..|xs|] == xs;
  }

  lemma LateOneLess(cur: map<Watcher, real>, now: real, e: Expired)
    requires e.w in cur && e.at == cur[e.w] < now && 0.0 <= e.repeat && e.ev == EV_TIMER
    ensures |LateIn(Without(cur, e, now), now)| < |LateIn(cur, now)|
  {
    assert LateIn(Without(cur, e, now), now) == LateIn(cur, now) - {e.w};
  }

  lemma ReifiedDone(xs: seq<Expired>, at0: map<Watcher, real>, cur: map<Watcher, real>, now: real)
    requires Reified(xs, at0, cur, now) && LateIn(cur, now) == {}
    ensures WatchersOf(xs) == LateIn(at0, now)
  {
    forall w | w in LateIn(at0, now) ensures w in WatchersOf(xs) {
      assert w !in LateIn(cur, now);
    }
  }

  // ----- the whole way from the heap to the callbacks -----

  /** The deadlines before `now`. */
  ghost function Late(at0: map<Watcher, real>, now: real): (m: map<Watcher, real>)
    ensures m.Keys == LateIn(at0, now)
  {
    map w | w in at0 && at0[w] < now :: at0[w]
  }

  /**
   `v` may be called before `w` of the same priority, when the timers `t` and the periodics `p` are
   due: first the periodics, then the timers, each by deadline, and then whatever else is pending.
  */
  ghost predicate Ahead(v: Watcher, w: Watcher, t: map<Watcher, real>, p: map<Watcher, real>) {
    if v in p then w in p ==> p[v] <= p[w]
    else w !in p && if v in t then w in t ==> t[v] <= t[w] else w !in t
  }

  ghost predicate CalledBefore(d: Event, e: Event, t: map<Watcher, real>, p: map<Watcher, real>) {
    d.Invoked? && e.Invoked? && d.w != e.w && (d.pri > e.pri || (d.pri == e.pri && Ahead(d.w, e.w, t, p)))
  }

  /**
   Each of the timers `t` and periodics `p` that are due is called once, with its event, and so is
   each of the `others`; all by descending priority and, within a priority, in the order of Ahead.
  */
  ghost predicate CalledInTurn(called: seq<Event>, t: map<Watcher, real>, p: map<Watcher, real>, others: set<Watcher>) {
    && (set e | e in called :: e.w) == t.Keys + p.Keys + others
    && (forall e :: e in called ==> e.Invoked? && (e.w in t ==> e.events == EV_TIMER) && (e.w in p ==> e.events == EV_PERIODIC))
    && (forall i, j :: 0 <= i < j < |called| ==> CalledBefore(called[i], called[j], t, p))
  }

  /** `xs` are the due timers `t` and periodics `p`, each once, the periodics first and either by deadline. */
  ghost predicate Collected(xs: seq<Expired>, t: map<Watcher, real>, p: map<Watcher, real>) {
    && Chronological(xs) && Unique(xs) && WatchersOf(xs) == t.Keys + p.Keys && t.Keys !! p.Keys
    && forall x :: x in xs ==> DueIn(x, t, p) && 0 <= x.pri < NUMPRI
  }

  ghost predicate DueIn(x: Expired, t: map<Watcher, real>, p: map<Watcher, real>) {
    (x.ev == EV_TIMER && x.w in t && x.at == t[x.w]) || (x.ev == EV_PERIODIC && x.w in p && x.at == p[x.w])
  }

  lemma ReifiedIsCollected(xs: seq<Expired>, at0: map<Watcher, real>, cur: map<Watcher, real>, now: real)
    requires Reified(xs, at0, cur, now) && LateIn(cur, now) == {} && forall x :: x in xs ==> 0 <= x.pri < NUMPRI
    ensures Collected(xs, Late(at0, now), map[])
  {
    ReifiedDone(xs, at0, cur, now);
    forall x | x in xs ensures DueIn(x, Late(at0, now), map[]) {
      assert Settled(x, at0, cur, now);
    }
  }

  /** Periodics that are fed after timers come first. */
  lemma CollectedBoth(xs: seq<Expired>, p: map<Watcher, real>, ys: seq<Expired>, t: map<Watcher, real>)
    requires Collected(xs, map[], p) && Collected(ys, t, map[]) && t.Keys !! p.Keys
    ensures Collected(xs + ys, t, p)
  {
    hide Chronological, Unique;
    assert WatchersOf(xs + ys) == WatchersOf(xs) + WatchersOf(ys);
    assert forall x :: x in xs ==> x.ev == EV_PERIODIC && x.w in p;
    assert forall y :: y in ys ==> y.ev == EV_TIMER && y.w in t;
    ChronologicalBoth(xs, ys);
  }

  lemma ChronologicalBoth(xs: seq<Expired>, ys: seq<Expired>)
    requires Chronological(xs) && Chronological(ys) && Unique(xs) && Unique(ys)
    requires forall x, y :: x in xs && y in ys ==> Sooner(x, y) && x.w != y.w
    ensures Chronological(xs + ys) && Unique(xs + ys)
  {
    assert forall i :: 0 <= i < |xs| ==> xs[i] in xs;
    assert forall i :: 0 <= i < |ys| ==> ys[i] in ys;
  }

  /** No watcher has two slots. */
  ghost predicate OneSlotEach(base: seq<seq<Pending>>, dummy: Watcher) {
    forall p, i, q, j :: 0 <= p < |base| && 0 <= i < |base[p]| && 0 <= q < |base| && 0 <= j < |base[q]| ==>
      base[p][i].w == base[q][j].w != dummy ==> p == q && i == j
  }

  ghost function WaitingIn(base: seq<seq<Pending>>, dummy: Watcher): set<Watcher> {
    set p, i | 0 <= p < |base| && 0 <= i < |base[p]| && base[p][i].w != dummy :: base[p][i].w
  }

  /** The call that the slot `i` of priority `p` stands for. */
  ghost function SlotCall(base: seq<seq<Pending>>, p: nat, i: nat): Event
    requires p < |base| && i < |base[p]|
  {
    Invoked(base[p][i].w, p, base[p][i].events)
  }

  ghost predicate FromList(e: Event, xs: seq<Expired>, pri: int) {
    exists x :: x in xs && x.pri == pri && e == CallOf(x)
  }

  ghost predicate FromSlot(e: Event, base: seq<seq<Pending>>, pri: nat, k: nat, dummy: Watcher)
    requires pri < |base| && k <= |base[pri]|
  {
    exists i :: 0 <= i < k && base[pri][i].w != dummy && e == SlotCall(base, pri, i)
  }

  ghost predicate InTurn(called: seq<Event>, t: map<Watcher, real>, p: map<Watcher, real>) {
    forall i, j :: 0 <= i < j < |called| ==> CalledBefore(called[i], called[j], t, p)
  }

  lemma InTurnBoth(a: seq<Event>, b: seq<Event>, t: map<Watcher, real>, p: map<Watcher, real>)
    requires InTurn(a, t, p) && InTurn(b, t, p) && forall d, e :: d in a && e in b ==> CalledBefore(d, e, t, p)
    ensures InTurn(a + b, t, p)
  {
  }

  /** The due watchers of one priority. */
  lemma ListInTurn(xs: seq<Expired>, pri: int, t: map<Watcher, real>, p: map<Watcher, real>)
    requires Collected(xs, t, p)
    ensures forall e :: e in Calls(OfPriority(xs, pri)) <==> FromList(e, xs, pri)
    ensures InTurn(Calls(OfPriority(xs, pri)), t, p)
  {
    OfPriorityKeepsOrder(xs, pri);
    var ys := OfPriority(xs, pri);
    hide OfPriority;
    CallsAre(ys);
    forall i, j | 0 <= i < j < |ys| ensures CalledBefore(Calls(ys)[i], Calls(ys)[j], t, p) {
      assert ys[i] in ys && ys[j] in ys && Sooner(ys[i], ys[j]);
      assert DueIn(ys[i], t, p) && DueIn(ys[j], t, p);
    }
  }

  lemma CallsAre(ys: seq<Expired>)
    ensures forall e :: e in Calls(ys) <==> exists x :: x in ys && e == CallOf(x)
  {
    assert forall i :: 0 <= i < |ys| ==> ys[i] in ys && Calls(ys)[i] == CallOf(ys[i]);
    forall x | x in ys ensures CallOf(x) in Calls(ys) {
      var i :| 0 <= i < |ys| && ys[i] == x;
      assert Calls(ys)[i] == CallOf(x);
    }
  }

  /** What else is pending in one priority. */
  lemma {:induction false} SlotsInTurn(base: seq<seq<Pending>>, pri: nat, k: nat, dummy: Watcher,
      t: map<Watcher, real>, p: map<Watcher, real>)
    requires pri < |base| && k <= |base[pri]| && OneSlotEach(base, dummy)
    requires WaitingIn(base, dummy) !! t.Keys + p.Keys
    ensures forall e :: e in DrainLevel(base[pri][..k], pri, dummy) <==> FromSlot(e, base, pri, k, dummy)
    ensures InTurn(DrainLevel(base[pri][..k], pri, dummy), t, p)
  {
    if k > 0 {
      SlotsInTurn(base, pri, k - 1, dummy, t, p);
      var q := base[pri][..k];
      assert q[..k - 1] == base[pri][..k - 1] && q[k - 1] == base[pri][k - 1];
      var first, rest := Called(q[k - 1], pri, dummy), DrainLevel(q[..k - 1], pri, dummy);
      assert DrainLevel(q, pri, dummy) == first + rest;
      forall e ensures e in first + rest <==> FromSlot(e, base, pri, k, dummy) {
        assert FromSlot(e, base, pri, k, dummy) <==> FromSlot(e, base, pri, k - 1, dummy) || e in first;
      }
      forall d, e | d in first && e in rest ensures CalledBefore(d, e, t, p) {
        assert FromSlot(e, base, pri, k - 1, dummy);
        var i :| 0 <= i < k - 1 && base[pri][i].w != dummy && e == SlotCall(base, pri, i);
        assert d == SlotCall(base, pri, k - 1) && d.w in WaitingIn(base, dummy) && e.w in WaitingIn(base, dummy);
      }
      InTurnBoth(first, rest, t, p);
    }
  }

  ghost predicate ServedFrom(e: Event, xs: seq<Expired>, base: seq<seq<Pending>>, n: nat, dummy: Watcher)
    requires n <= |base|
  {
    e.Invoked? && 0 <= e.pri < n && (FromList(e, xs, e.pri) || FromSlot(e, base, e.pri, |base[e.pri]|, dummy))
  }

  /** Calls of different priorities are of different watchers. */
  lemma OtherLevel(d: Event, e: Event, xs: seq<Expired>, base: seq<seq<Pending>>, n: nat, dummy: Watcher,
      t: map<Watcher, real>, p: map<Watcher, real>)
    requires n <= |base| && Collected(xs, t, p) && OneSlotEach(base, dummy) && WaitingIn(base, dummy) !! t.Keys + p.Keys
    requires ServedFrom(d, xs, base, n, dummy) && ServedFrom(e, xs, base, n, dummy) && d.pri > e.pri
    ensures CalledBefore(d, e, t, p)
  {
    hide Chronological, OneSlotEach;
    if FromList(d, xs, d.pri) {
      var x :| x in xs && x.pri == d.pri && d == CallOf(x);
      assert d.w in WatchersOf(xs);
      if FromList(e, xs, e.pri) {
        var y :| y in xs && y.pri == e.pri && e == CallOf(y);
        SameWatcher(xs, x, y);
      } else {
        SlotWaits(e, base, dummy);
      }
    } else {
      SlotWaits(d, base, dummy);
      if FromList(e, xs, e.pri) {
        assert e.w in WatchersOf(xs);
      } else {
        SlotsDiffer(d, e, base, dummy);
      }
    }
  }

  lemma SlotWaits(e: Event, base: seq<seq<Pending>>, dummy: Watcher)
    requires e.Invoked? && 0 <= e.pri < |base| && FromSlot(e, base, e.pri, |base[e.pri]|, dummy)
    ensures e.w in WaitingIn(base, dummy)
  {
  }

  lemma SlotsDiffer(d: Event, e: Event, base: seq<seq<Pending>>, dummy: Watcher)
    requires d.Invoked? && 0 <= d.pri < |base| && FromSlot(d, base, d.pri, |base[d.pri]|, dummy)
    requires e.Invoked? && 0 <= e.pri < |base| && FromSlot(e, base, e.pri, |base[e.pri]|, dummy)
    requires OneSlotEach(base, dummy) && d.pri != e.pri
    ensures d.w != e.w
  {
  }

  /** The due watchers of a priority come before what else is pending in it. */
  lemma ListBeforeSlots(d: Event, e: Event, xs: seq<Expired>, base: seq<seq<Pending>>, pri: nat, dummy: Watcher,
      t: map<Watcher, real>, p: map<Watcher, real>)
    requires pri < |base| && Collected(xs, t, p) && WaitingIn(base, dummy) !! t.Keys + p.Keys
    requires FromList(d, xs, pri) && FromSlot(e, base, pri, |base[pri]|, dummy)
    ensures CalledBefore(d, e, t, p)
  {
    hide Chronological, Unique;
    SlotWaits(e, base, dummy);
    assert d.w in WatchersOf(xs);
  }

  lemma LevelOf(a: seq<Event>, b: seq<Event>, xs: seq<Expired>, base: seq<seq<Pending>>, k: nat, dummy: Watcher)
    requires k < |base|
    requires forall e :: e in a <==> FromList(e, xs, k)
    requires forall e :: e in b <==> FromSlot(e, base, k, |base[k]|, dummy)
    ensures forall e :: e in a + b ==> ServedFrom(e, xs, base, k + 1, dummy) && e.pri == k
    ensures forall e :: ServedFrom(e, xs, base, k, dummy) ==> ServedFrom(e, xs, base, k + 1, dummy) && e.pri < k
    ensures forall e :: ServedFrom(e, xs, base, k + 1, dummy) ==> e in a + b || ServedFrom(e, xs, base, k, dummy)
  {
  }

  lemma NobodyServed(xs: seq<Expired>, base: seq<seq<Pending>>, dummy: Watcher, t: map<Watcher, real>, p: map<Watcher, real>)
    ensures forall e :: !ServedFrom(e, xs, base, 0, dummy)
    ensures InTurn([], t, p)
  {
  }

  /** A priority, of which `a` are the due watchers and `b` the others, before the priorities below it. */
  lemma LevelInTurn(a: seq<Event>, b: seq<Event>, c: seq<Event>, xs: seq<Expired>, base: seq<seq<Pending>>, k: nat,
      dummy: Watcher, t: map<Watcher, real>, p: map<Watcher, real>)
    requires k < |base| && Collected(xs, t, p) && OneSlotEach(base, dummy) && WaitingIn(base, dummy) !! t.Keys + p.Keys
    requires (forall e :: e in a <==> FromList(e, xs, k)) && forall e :: e in b <==> FromSlot(e, base, k, |base[k]|, dummy)
    requires forall e :: e in c <==> ServedFrom(e, xs, base, k, dummy)
    requires InTurn(a, t, p) && InTurn(b, t, p) && InTurn(c, t, p)
    ensures InTurn(a + b + c, t, p)
  {
    hide Collected, OneSlotEach, WaitingIn, InTurn, CalledBefore, FromList, FromSlot, ServedFrom;
    LevelOf(a, b, xs, base, k, dummy);
    forall d, e | d in a && e in b ensures CalledBefore(d, e, t, p) {
      assert FromList(d, xs, k) && FromSlot(e, base, k, |base[k]|, dummy);
      ListBeforeSlots(d, e, xs, base, k, dummy, t, p);
    }
    InTurnBoth(a, b, t, p);
    forall d, e | d in a + b && e in c ensures CalledBefore(d, e, t, p) {
      assert ServedFrom(e, xs, base, k, dummy);
      OtherLevel(d, e, xs, base, k + 1, dummy, t, p);
    }
    InTurnBoth(a + b, c, t, p);
  }

  /** The order of service is that of CalledInTurn, and it loses or repeats nobody. */
  lemma {:induction false} ServedInTurn(xs: seq<Expired>, base: seq<seq<Pending>>, n: nat, dummy: Watcher,
      t: map<Watcher, real>, p: map<Watcher, real>)
    requires n <= |base| && Collected(xs, t, p) && OneSlotEach(base, dummy) && WaitingIn(base, dummy) !! t.Keys + p.Keys
    ensures forall e :: e in ServedWith(xs, base, n, dummy) <==> ServedFrom(e, xs, base, n, dummy)
    ensures InTurn(ServedWith(xs, base, n, dummy), t, p)
  {
    hide Collected, OneSlotEach, WaitingIn, InTurn, CalledBefore, FromList, FromSlot, ServedFrom, OfPriority, Calls, DrainLevel;
    if n == 0 {
      NobodyServed(xs, base, dummy, t, p);
    } else {
      var k: nat := n - 1;
      ServedInTurn(xs, base, k, dummy, t, p);
      ListInTurn(xs, k, t, p);
      assert base[k][..|base[k]|] == base[k];
      SlotsInTurn(base, k, |base[k]|, dummy, t, p);
      var a, b, c := Calls(OfPriority(xs, k)), DrainLevel(base[k], k, dummy), ServedWith(xs, base, k, dummy);
      LevelOf(a, b, xs, base, k, dummy);
      LevelInTurn(a, b, c, xs, base, k, dummy, t, p);
    }
  }

  /** Heap order, reverse feed and drain together. */
  lemma DeadlineOrderHolds(xs: seq<Expired>, base: seq<seq<Pending>>, dummy: Watcher,
      t: map<Watcher, real>, p: map<Watcher, real>)
    requires |base| == NUMPRI && Collected(xs, t, p) && OneSlotEach(base, dummy) && WaitingIn(base, dummy) !! t.Keys + p.Keys
    ensures CalledInTurn(ServedWith(xs, base, NUMPRI, dummy), t, p, WaitingIn(base, dummy))
  {
    hide Chronological, Unique, OneSlotEach, ServedWith;
    ServedInTurn(xs, base, NUMPRI, dummy, t, p);
    var called := ServedWith(xs, base, NUMPRI, dummy);
    forall e | e in called ensures Settles(e, t, p, WaitingIn(base, dummy)) {
      assert ServedFrom(e, xs, base, NUMPRI, dummy);
      CallSettles(e, xs, base, dummy, t, p);
    }
    forall x | x in xs ensures CallOf(x) in called {
      assert FromList(CallOf(x), xs, x.pri);
    }
    forall q, i | 0 <= q < |base| && 0 <= i < |base[q]| && base[q][i].w != dummy ensures SlotCall(base, q, i) in called {
      assert FromSlot(SlotCall(base, q, i), base, q, |base[q]|, dummy);
    }
    Everyone(called, xs, base, dummy, t, p);
  }

  ghost predicate Settles(e: Event, t: map<Watcher, real>, p: map<Watcher, real>, others: set<Watcher>) {
    e.Invoked? && e.w in t.Keys + p.Keys + others && (e.w in t ==> e.events == EV_TIMER) && (e.w in p ==> e.events == EV_PERIODIC)
  }

  lemma CallSettles(e: Event, xs: seq<Expired>, base: seq<seq<Pending>>, dummy: Watcher,
      t: map<Watcher, real>, p: map<Watcher, real>)
    requires |base| == NUMPRI && Collected(xs, t, p) && WaitingIn(base, dummy) !! t.Keys + p.Keys
    requires ServedFrom(e, xs, base, NUMPRI, dummy)
    ensures Settles(e, t, p, WaitingIn(base, dummy))
  {
    hide Chronological, Unique;
    if FromList(e, xs, e.pri) {
      var x :| x in xs && x.pri == e.pri && e == CallOf(x);
      assert DueIn(x, t, p);
    } else {
      SlotWaits(e, base, dummy);
    }
  }

  lemma Everyone(called: seq<Event>, xs: seq<Expired>, base: seq<seq<Pending>>, dummy: Watcher,
      t: map<Watcher, real>, p: map<Watcher, real>)
    requires Collected(xs, t, p)
    requires forall e :: e in called ==> Settles(e, t, p, WaitingIn(base, dummy))
    requires forall x :: x in xs ==> CallOf(x) in called
    requires forall q, i :: 0 <= q < |base| && 0 <= i < |base[q]| && base[q][i].w != dummy ==> SlotCall(base, q, i) in called
    ensures (set e | e in called :: e.w) == t.Keys + p.Keys + WaitingIn(base, dummy)
  {
    hide Chronological, Unique;
    var ws := set e | e in called :: e.w;
    forall w | w in t.Keys + p.Keys ensures w in ws {
      assert w in WatchersOf(xs);
      var x :| x in xs && x.w == w;
      assert CallOf(x) in called && CallOf(x).w == w;
    }
    forall w | w in WaitingIn(base, dummy) ensures w in ws {
      var q, i :| 0 <= q < |base| && 0 <= i < |base[q]| && base[q][i].w != dummy && base[q][i].w == w;
      assert SlotCall(base, q, i) in called && SlotCall(base, q, i).w == w;
    }
  }

  /** What the slots of valid queues stand for. */
  lemma SlotsOfQueues(q: Queues)
    requires q.Valid()
    ensures OneSlotEach(q.pendings, q.pending_w)
    ensures WaitingIn(q.pendings, q.pending_w) == q.Waiting()
  {
    forall p, i, r, j | 0 <= p < NUMPRI && 0 <= i < |q.pendings[p]| && 0 <= r < NUMPRI && 0 <= j < |q.pendings[r]|
      ensures q.pendings[p][i].w == q.pendings[r][j].w != q.pending_w ==> p == r && i == j
    {
      assert q.OwnerOk(p, i) && q.OwnerOk(r, j);
    }
    forall w | w in q.ws && w.pending != 0 ensures w in WaitingIn(q.pendings, q.pending_w) {
      assert q.SlotOk(w);
      assert q.pendings[AbsPri(w)][w.pending - 1].w == w;
    }
    forall w | w in WaitingIn(q.pendings, q.pending_w) ensures w in q.ws && w.pending != 0 {
      var p, i :| 0 <= p < |q.pendings| && 0 <= i < |q.pendings[p]| && q.pendings[p][i].w == w != q.pending_w;
      assert q.OwnerOk(p, i);
    }
  }

  /** Taking watchers off the heap and feeding them invokes nobody. */
  lemma NobodyInvoked(xs: seq<Expired>)
    ensures forall e :: e in Clears(xs) + FeedsBackwards(xs) ==> !e.Invoked?
  {
    NobodyCleared(xs);
    NobodyFed(xs);
  }

  lemma {:induction false} NobodyFed(xs: seq<Expired>)
    ensures forall e :: e in FeedsBackwards(xs) ==> !e.Invoked?
  {
    if xs != [] { NobodyFed(xs[1..]); }
  }

  lemma {:induction false} NobodyCleared(xs: seq<Expired>)
    ensures forall e :: e in Clears(xs) ==> !e.Invoked?
  {
    if xs != [] { NobodyCleared(xs[..|xs| - 1]); }
  }
}
