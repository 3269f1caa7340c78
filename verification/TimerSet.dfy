/**
 The timers of an event loop (ev.c: ev_timer_start, ev_timer_stop, ev_timer_again), apart
 from their pending events.  A stopped timer stores a relative time in `at`, a running one
 its deadline.
*/
module TimerSet {
  import opened TimerHeap

  class Timers {
    var heap: array<HeapEntry>
    var timercnt: nat
    var mn_now: real

    ghost var members: set<Watcher>

    ghost predicate Valid()
      reads this`heap, this`timercnt, this`members, heap, members`active, members`at
    {
      Heap(heap, timercnt, members)
    }

    constructor (now: real)
      ensures Valid() && members == {} && mn_now == now && fresh(heap)
    {
      var filler := new Watcher(0, 0.0, 0.0);
      heap := new HeapEntry[HEAP0](_ => HeapEntry(0.0, filler));
      timercnt, mn_now, members := 0, now, {};
    }

    lemma ActiveIfMember(w: Watcher)
      requires Valid()
      ensures w in members ==> w.active != 0
    {
    }

    method Start(w: Watcher)
      requires Valid() && w.active == 0
      modifies this`heap, this`timercnt, this`members, heap, members`active, w`active, w`at
      ensures Valid() && members == old(members) + {w}
      ensures w.at == old(w.at) + mn_now
      ensures heap == old(heap) || fresh(heap)
    {
      assert w !in members;
      w.at := w.at + mn_now;
      heap := NeedSize(heap, timercnt, timercnt + 1 + HEAP0, HeapEntry(w.at, w), members);
      Insert(heap, timercnt, w, members);
      timercnt := timercnt + 1;
      members := members + {w};
    }

    method Stop(w: Watcher)
      requires Valid() && w in members
      modifies this`timercnt, this`members, heap, members`active, w`at
      ensures Valid() && members == old(members) - {w}
      ensures w.active == 0 && w.at == old(w.at) - mn_now
    {
      Remove(heap, timercnt, w, members);
      timercnt := timercnt - 1;
      members := members - {w};
      w.at := w.at - mn_now;
      w.active := 0;
    }

    method Reschedule(w: Watcher, at: real)
      requires Valid() && w in members
      modifies heap, members`active, w`at
      ensures Valid() && w.at == at
    {
      w.at := at;
      Rekey(heap, timercnt, w, members);
    }

    /** The guard of timers_reify. */
    predicate Due()
      requires Valid()
      reads this`heap, this`timercnt, this`mn_now, this`members, heap, members`active, members`at
    {
      timercnt > 0 && heap[HEAP0].at < mn_now
    }

    /** The timer on top of the heap gets a new deadline. */
    method DelayRoot(at: real)
      requires Valid() && timercnt > 0
      modifies heap, members`active, heap[HEAP0].w`at
      ensures Valid()
      ensures old(heap[HEAP0].w).at == at
    {
      TimerHeap.DelayRoot(heap, timercnt, at, members);
    }

    lemma RootFirst()
      requires Valid()
      ensures timercnt == 0 ==> members == {}
      ensures timercnt > 0 ==> heap[HEAP0].w in members && heap[HEAP0].at == heap[HEAP0].w.at
      ensures timercnt > 0 ==> forall w :: w in members ==> heap[HEAP0].at <= w.at
    {
      TimerHeap.RootFirst(heap, timercnt, members);
    }
  }
}
