/**
 The per-priority queues of pending events (ev.c: ev_feed_event, clear_pending,
 ev_clear_pending, ev_invoke_pending, pri_adjust).
*/
module PendingQueues {
  import opened Wrappers
  import opened TimerHeap
  import opened EventHistory

  datatype Pending = Pending(w: Watcher, events: Events)

  /** What a callback does to the queues: ev_feed_event and ev_clear_pending.  `pri` is the watcher's priority. */
  datatype Action = Feed(w: Watcher, pri: int, events: Events) | Clear(w: Watcher)

  function AbsPri(w: Watcher): int
    reads w`priority
  {
    w.priority - MINPRI
  }

  function Distance(a: int, b: int): nat {
    if a < b then b - a else a - b
  }

  /** The priority in the allowed range that is nearest. */
  function Clamp(priority: int): (r: int)
    ensures InRange(r) && forall q :: InRange(q) ==> Distance(priority, r) <= Distance(priority, q)
  {
    if priority < MINPRI then MINPRI else if priority > MAXPRI then MAXPRI else priority
  }

  class Queues {
    /** `pendings[pri]` has `pendingcnt[pri]` slots; the last one is served first. */
    var pendings: seq<seq<Pending>>
    var pendingpri: nat
    const pending_w: Watcher

    ghost var ws: set<Watcher>
    ghost var history: seq<Event>

    /** A pending watcher owns the one slot its `pending` field names, and that slot holds what it is owed. */
    ghost predicate SlotOk(w: Watcher)
      requires |pendings| == NUMPRI
      reads this`pendings, this`history, w`pending, w`priority
    {
      if w.pending == 0 then Owed(history, w) == None
      else
        && InRange(w.priority)
        && 1 <= w.pending <= |pendings[AbsPri(w)]|
        && var p := pendings[AbsPri(w)][w.pending - 1];
        && p.w == w
        && Owed(history, w) == Some(Debt(AbsPri(w), p.events))
    }

    /** A slot is either emptied by a clear or owned by the watcher in it. */
    ghost predicate OwnerOk(pri: int, i: int)
      requires 0 <= pri < |pendings| == NUMPRI && 0 <= i < |pendings[pri]|
      reads this`pendings, this`ws, ws`pending, ws`priority
    {
      var w := pendings[pri][i].w;
      w == pending_w || (w in ws && AbsPri(w) == pri && w.pending == i + 1)
    }

    ghost predicate Valid()
      ensures Valid() ==> |pendings| == NUMPRI
      reads this`pendings, this`history, this`ws, ws`pending, ws`priority
    {
      && |pendings| == NUMPRI
      && pending_w !in ws
      && (forall w :: w in ws ==> SlotOk(w))
      && (forall pri, i :: 0 <= pri < NUMPRI && 0 <= i < |pendings[pri]| ==> OwnerOk(pri, i))
      && (forall e :: e in history ==> e.w in ws)
      && Justified(history)
    }

    constructor ()
      ensures Valid() && ws == {} && history == [] && pendings == seq(NUMPRI, _ => [])
      ensures fresh(pending_w)
    {
      pending_w := new Watcher(0, 0.0, 0.0);
      pendings, pendingpri := seq(NUMPRI, _ => []), 0;
      ws, history := {}, [];
    }

    /** An initialised watcher becomes known to the loop. */
    ghost method Adopt(w: Watcher)
      requires Valid() && w.pending == 0 && w != pending_w && w !in ws
      modifies this`ws
      ensures Valid() && ws == old(ws) + {w}
    {
      ws := ws + {w};
      NeverSeen(history, w);
      forall x | x in ws ensures SlotOk(x) { assert x != w ==> old(SlotOk(x)); }
      forall p, i | 0 <= p < NUMPRI && 0 <= i < |pendings[p]| ensures OwnerOk(p, i) { assert old(OwnerOk(p, i)); }
    }

    lemma {:induction false} NeverSeen(h: seq<Event>, w: Watcher)
      requires forall e :: e in h ==> e.w != w
      ensures Owed(h, w) == None
    {
      if h != [] { NeverSeen(h[..|h| - 1], w); }
    }

    /** pri_adjust: an out-of-range priority is clamped when a watcher is started. */
    method PriAdjust(w: Watcher)
      requires Valid() && w in ws
      modifies w`priority
      ensures Valid() && InRange(w.priority)
      ensures w.priority == Clamp(old(w.priority))
      ensures w.pending != 0 ==> InRange(old(w.priority))
    {
      assert SlotOk(w);
      if w.priority < MINPRI { w.priority := MINPRI; }
      if w.priority > MAXPRI { w.priority := MAXPRI; }
      forall x | x in ws ensures SlotOk(x) { assert old(SlotOk(x)); }
      forall p, i | 0 <= p < NUMPRI && 0 <= i < |pendings[p]| ensures OwnerOk(p, i) { assert old(OwnerOk(p, i)); }
    }

    method FeedEvent(w: Watcher, revents: Events)
      requires Valid() && w in ws && InRange(w.priority)
      modifies this`pendings, this`pendingpri, this`history, w`pending
      ensures Valid()
      ensures history == old(history) + [Fed(w, AbsPri(w), revents)]
      ensures old(w.pending) == 0 ==>
                pendings == old(pendings)[AbsPri(w) := old(pendings)[AbsPri(w)] + [Pending(w, revents)]]
      ensures w.pending != 0 && pendingpri == NUMPRI - 1
    {
      hide Owed, Justified, Queues.OwnerOk;
      var pri := AbsPri(w);
      assert SlotOk(w);
      history := history + [Fed(w, pri, revents)];
      if w.pending != 0 {
        var p := pendings[pri][w.pending - 1];
        pendings := pendings[pri := pendings[pri][w.pending - 1 := p.(events := p.events + revents)]];
      } else {
        w.pending := |pendings[pri]| + 1;
        pendings := pendings[pri := pendings[pri] + [Pending(w, revents)]];
      }
      pendingpri := NUMPRI - 1;
      forall x | x in ws ensures SlotOk(x) {
        OwedAfter(old(history), Fed(w, pri, revents), x);
        assert old(SlotOk(x));
        assert x != w && x.pending != 0 ==>
            pendings[AbsPri(x)][x.pending - 1] == old(pendings)[AbsPri(x)][x.pending - 1];
      }
      OwnersAfterFeed(w);
      JustifiedAfter(old(history), Fed(w, pri, revents));
    }

    twostate lemma OwnersAfterFeed(w: Watcher)
      requires old(Valid()) && |pendings| == NUMPRI && ws == old(ws) && w in ws && InRange(w.priority)
      requires forall x :: x in ws ==> x.priority == old(x.priority) && (x != w ==> x.pending == old(x.pending))
      requires old(w.pending) != 0 ==> w.pending == old(w.pending)
      requires old(w.pending) == 0 ==> w.pending == |old(pendings)[AbsPri(w)]| + 1
      requires forall p :: 0 <= p < NUMPRI ==>
                 |pendings[p]| == |old(pendings)[p]| + if p == AbsPri(w) && old(w.pending) == 0 then 1 else 0
      requires forall p, i :: 0 <= p < NUMPRI && 0 <= i < |pendings[p]| ==>
                 pendings[p][i].w == if i < |old(pendings)[p]| then old(pendings)[p][i].w else w
      ensures forall p, i :: 0 <= p < NUMPRI && 0 <= i < |pendings[p]| ==> OwnerOk(p, i)
    {
      hide Owed, Justified;
      assert old(SlotOk(w));
      forall p, i | 0 <= p < NUMPRI && 0 <= i < |pendings[p]| ensures OwnerOk(p, i) {
        if i < |old(pendings)[p]| { assert old(OwnerOk(p, i)); }
      }
    }

    method ClearPending(w: Watcher) returns (events: Events)
      requires Valid() && w in ws
      modifies this`pendings, this`history, w`pending
      ensures Valid() && w.pending == 0
      ensures events == match Owed(old(history), w) { case Some(d) => d.events case None => {} }
      ensures history == old(history) + [Cleared(w)]
      ensures old(w.pending) == 0 ==> pendings == old(pendings)
      ensures |pendings| == |old(pendings)|
      ensures forall pri :: 0 <= pri < |pendings| ==> |pendings[pri]| == |old(pendings)[pri]|
    {
      events := {};
      assert SlotOk(w);
      history := history + [Cleared(w)];
      if w.pending != 0 {
        var pri := AbsPri(w);
        var p := pendings[pri][w.pending - 1];
        events := p.events;
        pendings := pendings[pri := pendings[pri][w.pending - 1 := p.(w := pending_w)]];
        w.pending := 0;
      }
      forall x | x in ws ensures SlotOk(x) {
        OwedAfter(old(history), Cleared(w), x);
        assert old(SlotOk(x));
      }
      forall p, i | 0 <= p < NUMPRI && 0 <= i < |pendings[p]| ensures OwnerOk(p, i) {
        assert old(OwnerOk(p, i));
      }
      JustifiedAfter(old(history), Cleared(w));
    }

    // ----- invoking what is pending -----

    ghost predicate NothingAbove(pri: int)
      requires |pendings| == NUMPRI && -1 <= pri
      reads this`pendings
    {
      forall p :: pri < p < NUMPRI ==> pendings[p] == []
    }

    lemma TopPayable()
      requires Valid() && pendingpri < NUMPRI && pendings[pendingpri] != [] && NothingAbove(pendingpri)
      ensures OwnerOk(pendingpri, |pendings[pendingpri]| - 1)
      ensures var p := pendings[pendingpri][|pendings[pendingpri]| - 1];
              p.w == pending_w || Payable(history, Invoked(p.w, pendingpri, p.events))
    {
      var p := pendings[pendingpri][|pendings[pendingpri]| - 1];
      assert OwnerOk(pendingpri, |pendings[pendingpri]| - 1);
      assert p.w != pending_w ==> SlotOk(p.w);
      forall x | x in history && Owed(history, x.w).Some?
        ensures Owed(history, x.w).value.pri <= pendingpri
      {
        assert SlotOk(x.w);
      }
    }

    /** Takes the slot to serve next; a cleared slot belongs to the dummy watcher. */
    method Pop() returns (p: Pending)
      requires Valid() && pendingpri < NUMPRI && pendings[pendingpri] != [] && NothingAbove(pendingpri)
      modifies this`pendings, this`history, ws`pending, pending_w`pending
      ensures Valid()
      ensures pendings == old(pendings)[pendingpri := old(pendings)[pendingpri][..|old(pendings)[pendingpri]| - 1]]
      ensures p == old(pendings)[pendingpri][|old(pendings)[pendingpri]| - 1]
      ensures history == old(history) + Called(p, pendingpri, pending_w)
    {
      var q := pendings[pendingpri];
      p := q[|q| - 1];
      TopPayable();
      hide Owed, Justified, Payable;
      pendings := pendings[pendingpri := q[..|q| - 1]];
      p.w.pending := 0;
      if p.w != pending_w {
        var e := Invoked(p.w, pendingpri, p.events);
        history := history + [e];
        JustifiedAfter(old(history), e);
      }
      hide Queues.SlotOk, Queues.OwnerOk;
      SlotsAfterPop(p);
      OwnersAfterPop(p);
    }

    /** What popping the slot `p` changes. */
    twostate predicate Popped(p: Pending)
      reads this`pendings, this`pendingpri, this`history, this`ws, ws`pending, ws`priority
    {
      && old(pendingpri < |pendings| == NUMPRI && pendings[pendingpri] != [])
      && ws == old(ws) && pendingpri == old(pendingpri)
      && p == old(pendings[pendingpri][|pendings[pendingpri]| - 1])
      && pendings == old(pendings)[pendingpri := old(pendings)[pendingpri][..|old(pendings)[pendingpri]| - 1]]
      && history == (if p.w == pending_w then old(history) else old(history) + [Invoked(p.w, pendingpri, p.events)])
      && forall x :: x in ws ==> x.priority == old(x.priority) && x.pending == if x == p.w then 0 else old(x.pending)
    }

    twostate lemma SlotsAfterPop(p: Pending)
      requires old(Valid()) && Popped(p)
      ensures forall x :: x in ws ==> SlotOk(x)
    {
      hide Owed, Justified;
      assert old(OwnerOk(pendingpri, |pendings[pendingpri]| - 1));
      forall x | x in ws ensures SlotOk(x) {
        OwedAfter(old(history), Invoked(p.w, pendingpri, p.events), x);
        assert old(SlotOk(x));
      }
    }

    twostate lemma OwnersAfterPop(p: Pending)
      requires old(Valid()) && Popped(p)
      ensures forall r, i :: 0 <= r < NUMPRI && 0 <= i < |pendings[r]| ==> OwnerOk(r, i)
    {
      hide Owed, Justified;
      assert old(OwnerOk(pendingpri, |pendings[pendingpri]| - 1));
      forall r, i | 0 <= r < NUMPRI && 0 <= i < |pendings[r]| ensures OwnerOk(r, i) {
        assert old(OwnerOk(r, i));
      }
    }

    method RunAction(a: Action)
      requires Valid() && CanDo(a)
      modifies this`pendings, this`pendingpri, this`history, ws`pending
      ensures Valid()
      ensures history == old(history) + [EchoOf(a)]
      ensures pendingpri == NUMPRI - 1 || pendingpri == old(pendingpri)
      ensures pendingpri < NUMPRI - 1 && old(NothingAbove(pendingpri)) ==> NothingAbove(pendingpri)
    {
      match a
      case Feed(w, _, events) => FeedEvent(w, events);
      case Clear(w) => var _ := ClearPending(w);
    }

    method RunCallback(acts: seq<Action>)
      requires Valid() && Doable(acts)
      modifies this`pendings, this`pendingpri, this`history, ws`pending
      ensures Valid()
      ensures history == old(history) + Echo(acts)
      ensures acts == [] ==> pendings == old(pendings)
      ensures pendingpri == NUMPRI - 1 || pendingpri == old(pendingpri)
      ensures pendingpri < NUMPRI - 1 && old(NothingAbove(pendingpri)) ==> NothingAbove(pendingpri)
    {
      for i := 0 to |acts|
        invariant Valid()
        invariant history == old(history) + Echo(acts[..i])
        invariant i == 0 ==> pendings == old(pendings)
        invariant pendingpri == NUMPRI - 1 || pendingpri == old(pendingpri)
        invariant pendingpri < NUMPRI - 1 && old(NothingAbove(pendingpri)) ==> NothingAbove(pendingpri)
      {
        assert acts[..i + 1][..i] == acts[..i];
        assert acts[i] in acts;
        RunAction(acts[i]);
      }
      assert acts[..|acts|] == acts;
    }

    lemma DummyIsNew()
      requires Valid()
      ensures pending_w !in ws
    {
    }

    /** With empty queues nothing is pending and nothing is owed. */
    lemma NothingOwed()
      requires Valid() && NothingAbove(-1)
      ensures forall w :: w in ws ==> w.pending == 0 && Owed(history, w) == None
    {
      forall w | w in ws ensures w.pending == 0 && Owed(history, w) == None {
        assert SlotOk(w);
      }
    }

    ghost function Waiting(): set<Watcher>
      reads this`ws, ws`pending
    {
      set w | w in ws && w.pending != 0
    }

    lemma TopIsOwned()
      requires Valid() && pendingpri < NUMPRI && pendings[pendingpri] != []
      ensures var w := pendings[pendingpri][|pendings[pendingpri]| - 1].w;
              w == pending_w || (w in ws && AbsPri(w) == pendingpri)
    {
      assert OwnerOk(pendingpri, |pendings[pendingpri]| - 1);
    }

    /** An invocation of one of the watchers, in the queue of its priority. */
    ghost predicate AtItsPriority(e: Event)
      reads this`ws, ws`priority
    {
      e.Invoked? && e.w in ws && e.pri == AbsPri(e.w)
    }

    /** One turn of the inner loop of ev_invoke_pending.  Real callbacks consume `script`. */
    method InvokeTop(script: seq<seq<Action>>) returns (rest: seq<seq<Action>>, ghost called: seq<Event>)
      requires Valid() && pendingpri < NUMPRI && pendings[pendingpri] != [] && NothingAbove(pendingpri)
      requires forall acts :: acts in script ==> Doable(acts)
      modifies this`pendings, this`pendingpri, this`history, ws`pending, pending_w`pending
      ensures Valid() && pendingpri < NUMPRI && NothingAbove(pendingpri)
      ensures script == [] ==> pendingpri == old(pendingpri)
      ensures forall e :: e in called ==> AtItsPriority(e)
      ensures |called| <= 1 && rest == if called == [] || script == [] then script else script[1..]
      ensures rest == script ==> pendingpri == old(pendingpri) && |pendings[pendingpri]| < |old(pendings)[pendingpri]|
      ensures history == old(history) + (called + if called == [] || script == [] then [] else Echo(script[0]))
      ensures script == [] ==>
                called + Drain(pendings, NUMPRI, pending_w) == Drain(old(pendings), NUMPRI, pending_w)
    {
      hide Queues.Valid, Queues.CanDo, Queues.Doable, Drain, DrainLevel, Echo, Weave, Owed, Justified;
      ghost var qs, pri := pendings, pendingpri;
      TopIsOwned();
      var p := Pop();
      called := Called(p, pri, pending_w);
      assert forall e :: e in called ==> AtItsPriority(e);
      DrainPop(qs, NUMPRI, pri, pending_w);
      rest := script;
      if p.w != pending_w && script != [] {
        assert script[0] in script;
        RunCallback(script[0]);
        rest := script[1..];
      }
    }

    /**
     Between two turns: after the invocations `called`, the history `start` has grown by them
     and by what their callbacks did, the callbacks still to come do `rest`, and without
     callbacks the invocations still to come complete `drained`.
    */
    ghost predicate Serving(script: seq<seq<Action>>, rest: seq<seq<Action>>, called: seq<Event>,
                            start: seq<Event>, drained: seq<Event>)
      requires |pendings| == NUMPRI
      reads this`pendings, this`history, this`ws, ws`priority
    {
      && (forall e :: e in called ==> AtItsPriority(e))
      && (if |called| <= |script| then rest == script[|called|..] else rest == [])
      && history == start + Weave(called, script)
      && (script == [] ==> called + Drain(pendings, NUMPRI, pending_w) == drained)
    }

    method ServeTop(ghost script: seq<seq<Action>>, rest: seq<seq<Action>>, ghost called: seq<Event>,
                    ghost start: seq<Event>, ghost drained: seq<Event>)
      returns (rest': seq<seq<Action>>, ghost called': seq<Event>)
      requires Valid() && pendingpri < NUMPRI && pendings[pendingpri] != [] && NothingAbove(pendingpri)
      requires forall acts :: acts in rest ==> Doable(acts)
      requires Serving(script, rest, called, start, drained)
      modifies this`pendings, this`pendingpri, this`history, ws`pending, pending_w`pending
      ensures Valid() && pendingpri < NUMPRI && NothingAbove(pendingpri)
      ensures rest' == rest || (rest != [] && rest' == rest[1..])
      ensures rest' == rest ==> pendingpri == old(pendingpri) && |pendings[pendingpri]| < |old(pendings)[pendingpri]|
      ensures Serving(script, rest', called', start, drained)
    {
      hide Queues.Valid, Drain, Weave, Echo, Queues.NothingAbove;
      ghost var e;
      rest', e := InvokeTop(rest);
      called' := called + e;
      WeaveNext(called, e, script);
      Assoc(called, e, Drain(pendings, NUMPRI, pending_w));
      Assoc(start, Weave(called, script), e + if e == [] || rest == [] then [] else Echo(rest[0]));
    }

    /**
     ev_invoke_pending.  `script` is what the callbacks do, in the order in which they are
     called; callbacks past its end do nothing, so it stands for any terminating behaviour.
    */
    method InvokePending(script: seq<seq<Action>>) returns (ghost called: seq<Event>)
      requires Valid()
      requires forall acts :: acts in script ==> Doable(acts)
      modifies this`pendings, this`pendingpri, this`history, ws`pending, pending_w`pending
      ensures Valid() && NothingAbove(-1)
      ensures history == old(history) + Weave(called, script)
      ensures forall e :: e in called ==> AtItsPriority(e)
      ensures Delivered(old(history), called, script, history)
      ensures script == [] ==> called == Drain(old(pendings), NUMPRI, pending_w) && history == old(history) + called
    {
      hide Queues.Valid, Queues.Serving, Queues.CanDo, Queues.Doable, Drain, DrainLevel, Echo, Weave, Owed, Justified;
      var rest := script;
      called := [];
      pendingpri := NUMPRI;
      ghost var start, drained := history, Drain(pendings, NUMPRI, pending_w);
      ServingBegins(script);
      while pendingpri > 0
        invariant Valid() && pendingpri <= NUMPRI && NothingAbove(pendingpri - 1)
        invariant forall acts :: acts in rest ==> Doable(acts)
        invariant Serving(script, rest, called, start, drained)
        decreases |rest|, pendingpri
      {
        ghost var rest0, pri0 := |rest|, pendingpri;
        pendingpri := pendingpri - 1;
        while pendings[pendingpri] != []
          invariant Valid() && pendingpri < NUMPRI && NothingAbove(pendingpri)
          invariant |rest| < rest0 || (|rest| == rest0 && pendingpri < pri0)
          invariant forall acts :: acts in rest ==> Doable(acts)
          invariant Serving(script, rest, called, start, drained)
          decreases |rest|, pendingpri, |pendings[pendingpri]|
        {
          rest, called := ServeTop(script, rest, called, start, drained);
        }
      }
      ServingEnds(script, rest, called, start, drained);
      NothingFedSince();
      AllDelivered(start, called, script, history);
    }

    lemma ServingBegins(script: seq<seq<Action>>)
      requires |pendings| == NUMPRI
      ensures Serving(script, script, [], history, Drain(pendings, NUMPRI, pending_w))
    {
      assert script[0..] == script;
    }

    lemma ServingEnds(script: seq<seq<Action>>, rest: seq<seq<Action>>, called: seq<Event>,
                      start: seq<Event>, drained: seq<Event>)
      requires |pendings| == NUMPRI && NothingAbove(-1) && Serving(script, rest, called, start, drained)
      ensures history == start + Weave(called, script) && (script == [] ==> called == drained)
      ensures script == [] ==> Weave(called, script) == called
      ensures forall e :: e in called ==> AtItsPriority(e)
    {
      DrainNothing(pendings, NUMPRI, pending_w);
      WeaveAlone(called);
    }

    /** With empty queues nothing that was ever fed is still owed. */
    lemma NothingFedSince()
      requires Valid() && NothingAbove(-1)
      ensures forall i :: 0 <= i < |history| ==> !FedSince(history, history[i].w, i)
    {
      NothingOwed();
      forall i | 0 <= i < |history| ensures !FedSince(history, history[i].w, i) {
        assert history[i] in history;
        OwedIsFedSince(history, history[i].w);
      }
    }

    /**
     Every invocation that ever was passed exactly the bits that its watcher had been fed since it
     was last invoked or cleared, and came when no watcher of a higher priority was owed anything.
    */
    lemma EveryInvocationIsExact(i: nat)
      requires Valid() && i < |history| && history[i].Invoked?
      ensures var h, e := history[..i], history[i];
              && (forall bit :: bit in e.events <==> exists k :: FedSince(h, e.w, k) && bit in h[k].events)
              && (exists k :: FedSince(h, e.w, k))
              && (forall k :: 0 <= k < i && FedSince(h, h[k].w, k) ==> Owed(h, h[k].w).Some? && Owed(h, h[k].w).value.pri <= e.pri)
    {
      var h := history[..i];
      EveryInvocationPayable(history, i);
      OwedIsFedSince(h, history[i].w);
      forall k | 0 <= k < i && FedSince(h, h[k].w, k)
        ensures Owed(h, h[k].w).Some? && Owed(h, h[k].w).value.pri <= history[i].pri
      {
        OwedIsFedSince(h, h[k].w);
        assert h[k] in h;
      }
    }

    ghost predicate CanDo(a: Action)
      reads this`ws, ws`priority
    {
      a.w in ws && InRange(a.w.priority) && (a.Feed? ==> a.pri == AbsPri(a.w))
    }

    ghost predicate Doable(acts: seq<Action>)
      reads this`ws, ws`priority
    {
      forall a :: a in acts ==> CanDo(a)
    }
  }

  /** The invocation that serving slot `p` makes; the dummy's callback does nothing. */
  ghost function Called(p: Pending, pri: int, dummy: Watcher): seq<Event> {
    if p.w == dummy then [] else [Invoked(p.w, pri, p.events)]
  }

  ghost function EchoOf(a: Action): Event {
    if a.Feed? then Fed(a.w, a.pri, a.events) else Cleared(a.w)
  }

  /** The history a callback leaves. */
  ghost function Echo(acts: seq<Action>): seq<Event> {
    if acts == [] then [] else Echo(acts[..|acts| - 1]) + [EchoOf(acts[|acts| - 1])]
  }

  /** The invocations `called`, each followed by what its callback does. */
  ghost function Weave(called: seq<Event>, script: seq<seq<Action>>): seq<Event> {
    if called == [] then []
    else
      var n := |called| - 1;
      Weave(called[..n], script) + [called[n]] + (if n < |script| then Echo(script[n]) else [])
  }

  lemma {:induction false} WeaveAlone(called: seq<Event>)
    ensures Weave(called, []) == called
  {
    if called != [] {
      WeaveAlone(called[..|called| - 1]);
      assert called == called[..|called| - 1] + [called[|called| - 1]];
    }
  }

  /** The event is one of the invocations, or a clear that one of their callbacks made. */
  ghost predicate Answers(e: Event, called: seq<Event>, script: seq<seq<Action>>) {
    e in called || (e.Cleared? && exists n :: 0 <= n < |called| && n < |script| && Clear(e.w) in script[n])
  }

  /**
   Whatever was owed at `before`, and whatever callbacks fed since, was followed in `after` by an
   invocation of its watcher, unless a callback cleared it.
  */
  ghost predicate Delivered(before: seq<Event>, called: seq<Event>, script: seq<seq<Action>>, after: seq<Event>) {
    forall i :: 0 <= i < |after| && after[i].Fed? && (i < |before| ==> FedSince(before, after[i].w, i)) ==>
      exists j :: i < j < |after| && |before| <= j && after[j].w == after[i].w && Answers(after[j], called, script)
  }

  lemma {:induction false} EchoParts(acts: seq<Action>)
    ensures forall e :: e in Echo(acts) ==> e.Fed? || (e.Cleared? && Clear(e.w) in acts)
  {
    if acts != [] {
      EchoParts(acts[..|acts| - 1]);
      assert acts == acts[..|acts| - 1] + [acts[|acts| - 1]];
    }
  }

  lemma {:induction false} WeaveParts(called: seq<Event>, script: seq<seq<Action>>)
    ensures forall e :: e in Weave(called, script) ==> e.Fed? || Answers(e, called, script)
  {
    if called != [] {
      var n := |called| - 1;
      WeaveParts(called[..n], script);
      if n < |script| { EchoParts(script[n]); }
    }
  }

  lemma AllDelivered(before: seq<Event>, called: seq<Event>, script: seq<seq<Action>>, after: seq<Event>)
    requires after == before + Weave(called, script)
    requires forall i :: 0 <= i < |after| ==> !FedSince(after, after[i].w, i)
    ensures Delivered(before, called, script, after)
  {
    hide Weave, Answers;
    WeaveParts(called, script);
    assert forall k :: 0 <= k < |before| ==> after[k] == before[k];
    forall i | 0 <= i < |after| && after[i].Fed? && (i < |before| ==> FedSince(before, after[i].w, i))
      ensures exists j :: i < j < |after| && |before| <= j && after[j].w == after[i].w && Answers(after[j], called, script)
    {
      var j :| i < j < |after| && after[j].w == after[i].w && !after[j].Fed?;
      assert after[j] == Weave(called, script)[j - |before|];
    }
  }

  lemma Assoc<T>(a: seq<T>, b: seq<T>, c: seq<T>)
    ensures (a + b) + c == a + (b + c)
  {
  }

  lemma WeaveNext(called: seq<Event>, e: seq<Event>, script: seq<seq<Action>>)
    requires |e| <= 1
    ensures Weave(called + e, script) == Weave(called, script) +
              (e + if e == [] || |called| >= |script| then [] else Echo(script[|called|]))
  {
    if |e| == 1 {
      assert (called + e)[..|called|] == called && [(called + e)[|called|]] == e;
      Assoc(Weave(called, script), e, if |called| >= |script| then [] else Echo(script[|called|]));
    } else {
      assert called + e == called;
    }
  }

  /** What serving a queue without interference invokes. */
  ghost function DrainLevel(q: seq<Pending>, pri: int, dummy: Watcher): seq<Event> {
    if q == [] then [] else Called(q[|q| - 1], pri, dummy) + DrainLevel(q[..|q| - 1], pri, dummy)
  }

  ghost function Drain(qs: seq<seq<Pending>>, n: nat, dummy: Watcher): seq<Event>
    requires n <= |qs|
  {
    if n == 0 then [] else DrainLevel(qs[n - 1], n - 1, dummy) + Drain(qs, n - 1, dummy)
  }

  lemma DrainTop(qs: seq<seq<Pending>>, n: nat, dummy: Watcher)
    requires 0 < n <= |qs|
    ensures Drain(qs, n, dummy) == DrainLevel(qs[n - 1], n - 1, dummy) + Drain(qs, n - 1, dummy)
    ensures var q := qs[n - 1];
            q != [] ==> DrainLevel(q, n - 1, dummy) == Called(q[|q| - 1], n - 1, dummy) + DrainLevel(q[..|q| - 1], n - 1, dummy)
    ensures qs[n - 1] == [] ==> Drain(qs, n, dummy) == Drain(qs, n - 1, dummy)
  {
  }

  lemma {:induction false} DrainPop(qs: seq<seq<Pending>>, n: nat, pri: nat, dummy: Watcher)
    requires pri < n <= |qs| && qs[pri] != []
    requires forall p :: pri < p < n ==> qs[p] == []
    ensures Drain(qs, n, dummy) ==
              Called(qs[pri][|qs[pri]| - 1], pri, dummy) + Drain(qs[pri := qs[pri][..|qs[pri]| - 1]], n, dummy)
  {
    hide Called, Drain, DrainLevel;
    var q := qs[pri];
    var t := qs[pri := q[..|q| - 1]];
    DrainTop(qs, n, dummy);
    DrainTop(t, n, dummy);
    if n == pri + 1 {
      DrainLocal(qs, t, pri, dummy);
      Assoc(Called(q[|q| - 1], pri, dummy), DrainLevel(q[..|q| - 1], pri, dummy), Drain(qs, pri, dummy));
    } else {
      DrainPop(qs, n - 1, pri, dummy);
      assert t[n - 1] == [];
    }
  }

  lemma {:induction false} DrainLocal(qs: seq<seq<Pending>>, t: seq<seq<Pending>>, n: nat, dummy: Watcher)
    requires n <= |qs| && n <= |t| && qs[..n] == t[..n]
    ensures Drain(qs, n, dummy) == Drain(t, n, dummy)
  {
    if n > 0 {
      assert qs[n - 1] == qs[..n][n - 1] == t[n - 1];
      assert qs[..n - 1] == qs[..n][..n - 1] == t[..n - 1];
      DrainLocal(qs, t, n - 1, dummy);
    }
  }

  lemma {:induction false} DrainNothing(qs: seq<seq<Pending>>, n: nat, dummy: Watcher)
    requires n <= |qs| && forall p :: 0 <= p < n ==> qs[p] == []
    ensures Drain(qs, n, dummy) == []
  {
    if n > 0 { DrainNothing(qs, n - 1, dummy); }
  }
}
