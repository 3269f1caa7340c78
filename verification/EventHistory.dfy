/**
 What the pending queues of an event loop are for, stated on values: the history of
 feeds, clears and invocations, and what each watcher is owed at any point of it.
*/
module EventHistory {
  import opened Wrappers
  import opened TimerHeap

  /** A revents mask, as the set of its bit numbers: a bitwise or is a union. */
  type Events = set<nat>

  const NUMPRI := 5
  const MINPRI := -2
  const MAXPRI := 2

  predicate InRange(priority: int) { MINPRI <= priority <= MAXPRI }

  /** One step of the life of a watcher.  `pri` counts from 0, the lowest priority. */
  datatype Event =
    | Fed(w: Watcher, pri: int, events: Events)
    | Cleared(w: Watcher)
    | Invoked(w: Watcher, pri: int, events: Events)

  datatype Debt = Debt(pri: int, events: Events)

  /** The bits fed to `w` since it was last invoked or cleared. */
  ghost function Owed(h: seq<Event>, w: Watcher): Option<Debt> {
    if h == [] then None else OwedNext(Owed(h[..|h| - 1], w), h[|h| - 1], w)
  }

  ghost function OwedNext(before: Option<Debt>, e: Event, w: Watcher): Option<Debt> {
    if e.w != w then before
    else if !e.Fed? then None
    else if before.None? then Some(Debt(e.pri, e.events))
    else Some(Debt(before.value.pri, before.value.events + e.events))
  }

  /** Invoking `e` pays exactly what is owed, and nobody of a higher priority is owed anything. */
  ghost predicate Payable(h: seq<Event>, e: Event) {
    e.Invoked? ==>
      && Owed(h, e.w) == Some(Debt(e.pri, e.events))
      && forall x :: x in h && Owed(h, x.w).Some? ==> Owed(h, x.w).value.pri <= e.pri
  }

  ghost predicate Justified(h: seq<Event>) {
    h == [] || (Justified(h[..|h| - 1]) && Payable(h[..|h| - 1], h[|h| - 1]))
  }

  lemma OwedAfter(h: seq<Event>, e: Event, w: Watcher)
    ensures Owed(h + [e], w) == OwedNext(Owed(h, w), e, w)
  {
    assert (h + [e])[..|h|] == h;
  }

  lemma JustifiedAfter(h: seq<Event>, e: Event)
    requires Justified(h) && Payable(h, e)
    ensures Justified(h + [e])
  {
    assert (h + [e])[..|h|] == h;
  }

  lemma {:induction false} EveryInvocationPayable(h: seq<Event>, i: nat)
    requires Justified(h) && i < |h|
    ensures Payable(h[..i], h[i])
  {
    if i < |h| - 1 {
      EveryInvocationPayable(h[..|h| - 1], i);
      assert h[..|h| - 1][..i] == h[..i];
    }
  }

  /** `k` is a feed of `w` after which `w` was neither invoked nor cleared. */
  ghost predicate FedSince(h: seq<Event>, w: Watcher, k: int) {
    0 <= k < |h| && h[k].Fed? && h[k].w == w && forall j :: k < j < |h| && h[j].w == w ==> h[j].Fed?
  }

  /** What a watcher is owed are exactly the bits of those feeds, and it is owed nothing when there are none. */
  lemma {:induction false} OwedIsFedSince(h: seq<Event>, w: Watcher)
    ensures Owed(h, w).Some? <==> exists k :: FedSince(h, w, k)
    ensures Owed(h, w).Some? ==>
              forall bit :: bit in Owed(h, w).value.events <==> exists k :: FedSince(h, w, k) && bit in h[k].events
  {
    if h != [] {
      var g, e := h[..|h| - 1], h[|h| - 1];
      OwedIsFedSince(g, w);
      forall k | 0 <= k < |g| ensures FedSince(h, w, k) <==> FedSince(g, w, k) && (e.w == w ==> e.Fed?) {
        assert h[k] == g[k] && forall j :: k < j < |g| ==> h[j] == g[j];
        assert FedSince(h, w, k) ==> forall j :: k < j < |g| ==> g[j] == h[j];
      }
      if e.Fed? && e.w == w {
        assert FedSince(h, w, |h| - 1);
      }
      if Owed(g, w).Some? && (e.w == w ==> e.Fed?) {
        var k :| FedSince(g, w, k);
        assert FedSince(h, w, k);
      }
    }
  }

  /** The invocations in a history, in their order. */
  ghost function Invocations(h: seq<Event>): seq<Event> {
    if h == [] then []
    else Invocations(h[..|h| - 1]) + if h[|h| - 1].Invoked? then [h[|h| - 1]] else []
  }

  lemma {:induction false} InvocationsOfBoth(a: seq<Event>, b: seq<Event>)
    ensures Invocations(a + b) == Invocations(a) + Invocations(b)
  {
    if b == [] {
      assert a + b == a;
    } else {
      InvocationsOfBoth(a, b[..|b| - 1]);
      assert (a + b)[..|a + b| - 1] == a + b[..|b| - 1];
    }
  }

  lemma {:induction false} InvocationsOnly(h: seq<Event>)
    ensures (forall e :: e in h ==> e.Invoked?) ==> Invocations(h) == h
    ensures (forall e :: e in h ==> !e.Invoked?) ==> Invocations(h) == []
  {
    if h != [] {
      InvocationsOnly(h[..|h| - 1]);
      assert h == h[..|h| - 1] + [h[|h| - 1]];
    }
  }

  /** Of what a history grew by, `called` are the invocations when they come last and nothing before them is one. */
  lemma InvokedSince(start: seq<Event>, quiet: seq<Event>, called: seq<Event>)
    requires (forall e :: e in quiet ==> !e.Invoked?) && forall e :: e in called ==> e.Invoked?
    ensures Invocations((start + quiet + called)[|start|..]) == called
  {
    assert (start + quiet + called)[|start|..] == quiet + called;
    InvocationsOfBoth(quiet, called);
    InvocationsOnly(quiet);
    InvocationsOnly(called);
  }
}
