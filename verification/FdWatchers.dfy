/**
 The io watchers of an event loop (ev.c: wlist_add, wlist_del, fd_change, fd_reify, ev_io_start,
 ev_io_stop), which tell the backend of their changes only when the loop next polls.
*/
module FdWatchers {
  import opened EventHistory
  import opened Backends

  /** The flag of `reify` that says that the watchers changed; EV_IOFDSET says that the descriptor was set anew. */
  const EV_ANFD_REIFY: nat := 0

  class IoWatcher {
    const fd: nat
    var events: Events
    var next: IoWatcher?
    var active: bool

    /** ev_io_init. */
    constructor (fd: nat, events: Events)
      ensures this.fd == fd && this.events == events + {EV_IOFDSET} && !active
    {
      this.fd, this.events := fd, events + {EV_IOFDSET};
      next, active := null, false;
    }
  }

  datatype Anfd = Anfd(head: IoWatcher?, events: Events, reify: Events)

  const ANFD_ZERO := Anfd(null, {}, {})

  datatype Kind = POLL | SELECT

  /** Following `next` from `from` visits `ws`, each watcher once, and then arrives at `to`. */
  ghost predicate Seg(from: IoWatcher?, ws: seq<IoWatcher>, to: IoWatcher?)
    reads ws`next
  {
    if ws == [] then from == to
    else from == ws[0] && ws[0] !in ws[1..] && Seg(ws[0].next, ws[1..], to)
  }

  /** The bitwise or of the events of some watchers. */
  ghost function Union(ws: seq<IoWatcher>): Events
    reads ws`events
  {
    if ws == [] then {} else ws[0].events + Union(ws[1..])
  }

  lemma {:induction false} UnionIs(ws: seq<IoWatcher>, e: nat)
    ensures e in Union(ws) <==> exists w :: w in ws && e in w.events
  {
    if ws != [] {
      UnionIs(ws[1..], e);
      assert ws == [ws[0]] + ws[1..];
    }
  }

  /** The loop of fd_reify over the watchers of a descriptor. */
  method Collect(head: IoWatcher?, ghost ws: seq<IoWatcher>) returns (events: Events)
    requires Seg(head, ws, null)
    ensures events == Union(ws)
  {
    events := {};
    var w := head;
    ghost var rest := ws;
    while w != null
      invariant Seg(w, rest, null) && Union(ws) == events + Union(rest)
      decreases rest
    {
      events := events + w.events;
      w, rest := w.next, rest[1..];
    }
  }

  lemma {:induction false} SegSplit(from: IoWatcher?, a: seq<IoWatcher>, b: seq<IoWatcher>, to: IoWatcher?)
    requires Seg(from, a + b, to) && b != []
    ensures Seg(from, a, b[0]) && Seg(b[0], b, to)
    ensures forall w :: w in a ==> w !in b
    ensures a != [] ==> a[|a| - 1].next == b[0]
  {
    if a == [] {
      assert a + b == b;
    } else {
      assert (a + b)[1..] == a[1..] + b;
      SegSplit(a[0].next, a[1..], b, to);
    }
  }

  lemma {:induction false} SegConcat(from: IoWatcher?, a: seq<IoWatcher>, mid: IoWatcher?, b: seq<IoWatcher>, to: IoWatcher?)
    requires Seg(from, a, mid) && Seg(mid, b, to)
    requires forall w :: w in a ==> w !in b
    ensures Seg(from, a + b, to)
  {
    if a == [] {
      assert a + b == b;
    } else {
      assert (a + b)[1..] == a[1..] + b;
      SegConcat(a[0].next, a[1..], mid, b, to);
    }
  }

  /** A descriptor is in the change list, and then once, exactly when its `reify` is set. */
  ghost predicate Queued(anfds: seq<Anfd>, fdchanges: seq<nat>) {
    && (forall i :: 0 <= i < |fdchanges| ==> fdchanges[i] < |anfds| && anfds[fdchanges[i]].reify != {})
    && (forall i, j :: 0 <= i < j < |fdchanges| ==> fdchanges[i] != fdchanges[j])
    && (forall fd {:trigger fd in fdchanges} :: 0 <= fd < |anfds| && anfds[fd].reify != {} ==> fd in fdchanges)
  }

  lemma StillQueued(anfds: seq<Anfd>, anfds': seq<Anfd>, fdchanges: seq<nat>)
    requires Queued(anfds, fdchanges) && |anfds| <= |anfds'|
    requires forall fd :: 0 <= fd < |anfds'| ==> anfds'[fd].reify == if fd < |anfds| then anfds[fd].reify else {}
    ensures Queued(anfds', fdchanges)
  {
  }

  lemma AllReified(anfds: seq<Anfd>, fdchanges: seq<nat>, anfds': seq<Anfd>)
    requires Queued(anfds, fdchanges) && |anfds'| == |anfds|
    requires forall fd :: 0 <= fd < |anfds| ==> anfds'[fd].reify == if fd in fdchanges then {} else anfds[fd].reify
    ensures Queued(anfds', []) && forall fd :: 0 <= fd < |anfds'| ==> anfds'[fd].reify == {}
    ensures forall fd :: 0 <= fd < |anfds| && fd !in fdchanges ==> anfds[fd].reify == {}
  {
  }

  lemma OneMoreQueued(anfds: seq<Anfd>, fdchanges: seq<nat>, fd: nat, flags: Events)
    requires Queued(anfds, fdchanges) && fd < |anfds| && flags != {}
    ensures Queued(anfds[fd := anfds[fd].(reify := anfds[fd].reify + flags)],
                   if anfds[fd].reify == {} then fdchanges + [fd] else fdchanges)
  {
    assert fd in [fd];
  }

  /** Leaving out one watcher, once the link before it leads past it. */
  lemma SegWithout(from: IoWatcher?, a: seq<IoWatcher>, w: IoWatcher, b: seq<IoWatcher>)
    requires Seg(from, a, w.next) && Seg(w.next, b, null) && forall x :: x in a ==> x !in b
    ensures Seg(from, a + b, null)
  {
    SegConcat(from, a, w.next, b, null);
  }

  /** The list around one of its watchers. */
  lemma SegAround(from: IoWatcher?, a: seq<IoWatcher>, w: IoWatcher, b: seq<IoWatcher>)
    requires Seg(from, a + [w] + b, null)
    ensures Seg(from, a, w) && Seg(w.next, b, null) && w !in a && w !in b && forall x :: x in a ==> x !in b
    ensures a != [] ==> a[|a| - 1].next == w && a[|a| - 1] !in a[..|a| - 1] && Seg(from, a[..|a| - 1], a[|a| - 1])
  {
    assert a + [w] + b == a + ([w] + b) && ([w] + b)[1..] == b;
    SegSplit(from, a, [w] + b, null);
    if a != [] {
      var l := a[|a| - 1];
      assert a + [w] + b == a[..|a| - 1] + ([l] + ([w] + b)) && a == a[..|a| - 1] + [l];
      SegSplit(from, a[..|a| - 1], [l] + ([w] + b), null);
      assert ([l] + ([w] + b))[0] == l && l in [l] + ([w] + b);
    }
  }

  /** A list whose last watcher got another successor. */
  lemma SegRelinked(from: IoWatcher?, init: seq<IoWatcher>, l: IoWatcher)
    requires Seg(from, init, l) && l !in init
    ensures Seg(from, init + [l], l.next)
  {
    assert Seg(l, [l], l.next);
    SegConcat(from, init, l, [l], l.next);
  }

  lemma SegCons(w: IoWatcher, ws: seq<IoWatcher>)
    requires Seg(w.next, ws, null) && w !in ws
    ensures Seg(w, [w] + ws, null)
  {
    assert ([w] + ws)[1..] == ws;
  }

  class Fds {
    var anfds: seq<Anfd>
    var fdchanges: seq<nat>
    const kind: Kind
    const poll: Poll
    const select: Select

    /** The watchers of each descriptor, the last started first. */
    ghost var lists: seq<seq<IoWatcher>>
    ghost var members: set<IoWatcher>

    constructor (kind: Kind)
      ensures Valid() && this.kind == kind && members == {} && fdchanges == []
    {
      this.kind := kind;
      poll := new Poll();
      select := new Select();
      anfds, fdchanges, lists, members := [], [], [], {};
    }

    /** Each descriptor has its list of active watchers. */
    ghost predicate Linked()
      reads this`anfds, this`lists, this`members, members
    {
      && |lists| == |anfds|
      && (forall fd :: 0 <= fd < |lists| ==> forall w :: w in lists[fd] ==> w in members && w.fd == fd)
      && (forall w :: w in members ==> w.active && w.fd < |lists| && w in lists[w.fd])
      && (forall fd :: 0 <= fd < |lists| ==> Seg(anfds[fd].head, lists[fd], null))
    }

    /** The `events` of the other descriptors are right; of `but` they need not be. */
    ghost predicate UpToDate(but: int)
      requires Linked()
      reads this`anfds, this`lists, this`members, members
    {
      forall fd :: 0 <= fd < |anfds| && fd != but && anfds[fd].reify == {} ==> anfds[fd].events == Union(lists[fd])
    }

    /** No watcher asks for more than reading and writing, except for `but` while it is started. */
    ghost predicate Plain(but: set<IoWatcher>)
      reads this`members, members
    {
      forall w :: w in members - but ==> w.events <= RW
    }

    /** What the backend watches of a descriptor. */
    ghost function Interest(fd: nat): Events
      requires kind == POLL ==> poll.Valid()
      reads poll, select
    {
      if kind == POLL then poll.Interest(fd) else select.Interest(fd)
    }

    ghost predicate BackendValid()
      reads poll, select
    {
      if kind == POLL then poll.Valid() else select.Valid()
    }

    function EventsOf(fd: nat): Events
      reads this`anfds
    {
      if fd < |anfds| then anfds[fd].events else {}
    }

    function ReifyOf(fd: nat): Events
      reads this`anfds
    {
      if fd < |anfds| then anfds[fd].reify else {}
    }

    /** The tables of the backend hold the `events` of every descriptor. */
    ghost predicate Mirrored()
      reads this`anfds, poll, select
    {
      && BackendValid()
      && (forall fd: nat :: Interest(fd) == EventsOf(fd))
      && (forall fd: nat :: EventsOf(fd) <= RW)
    }

    twostate lemma StillMirrored()
      requires old(Mirrored()) && unchanged(poll) && unchanged(select)
      requires forall fd: nat :: EventsOf(fd) == old(EventsOf(fd))
      ensures Mirrored()
    {
    }

    ghost predicate Valid()
      reads this, members, poll, select
    {
      Linked() && Plain({}) && Queued(anfds, fdchanges) && UpToDate(-1) && Mirrored()
    }

    /** Valid, but for a descriptor whose watchers just changed and a watcher that is being started. */
    ghost predicate Changed(fd: int, but: set<IoWatcher>)
      reads this, members, poll, select
    {
      Linked() && Plain(but) && Queued(anfds, fdchanges) && UpToDate(fd) && Mirrored()
    }

    twostate lemma OthersUpToDate(fd: nat)
      requires old(Linked() && UpToDate(-1)) && Linked() && |anfds| == |old(anfds)|
      requires unchanged(old(members)`events)
      requires forall f :: 0 <= f < |anfds| && f != fd ==> lists[f] == old(lists)[f] && anfds[f] == old(anfds)[f]
      ensures UpToDate(fd)
    {
      hide Seg;
      forall f | 0 <= f < |anfds| && f != fd && anfds[f].reify == {} ensures anfds[f].events == Union(lists[f]) {
        assert forall i :: 0 <= i < |lists[f]| ==> lists[f][i] in old(members);
        SameUnion(lists[f]);
      }
    }

    twostate lemma {:induction false} SameUnion(ws: seq<IoWatcher>)
      requires unchanged(ws`events)
      ensures Union(ws) == old(Union(ws))
    {
      if ws != [] { SameUnion(ws[1..]); }
    }

    // ----- fd_change -----

    /** fd_change. */
    method FdChange(fd: nat, flags: Events, ghost but: set<IoWatcher>)
      requires Changed(fd, but) && fd < |anfds| && flags != {}
      modifies this`anfds, this`fdchanges
      ensures Changed(-1, but) && |anfds| == |old(anfds)|
      ensures anfds == old(anfds)[fd := old(anfds[fd]).(reify := old(anfds[fd].reify) + flags)]
    {
      hide Seg, Union, Queued, Fds.Mirrored, Poll.Valid, Select.Valid;
      OneMoreQueued(anfds, fdchanges, fd, flags);
      var reify := anfds[fd].reify;
      anfds := anfds[fd := anfds[fd].(reify := reify + flags)];
      if reify == {} {
        fdchanges := fdchanges + [fd];
      }
      StillMirrored();
    }

    // ----- ev_io_start -----

    /** array_needsize of anfds, up to the choice of the new capacity. */
    method NeedSize(cnt: nat)
      requires Valid()
      modifies this`anfds, this`lists
      ensures Valid() && cnt <= |anfds| == |lists|
      ensures forall fd: nat :: ListOf(fd) == old(ListOf(fd)) && ReifyOf(fd) == old(ReifyOf(fd))
      ensures forall fd: nat :: EventsOf(fd) == old(EventsOf(fd))
    {
      hide Queued, Fds.Mirrored, Poll.Valid, Select.Valid;
      if cnt > |anfds| {
        var ncur := 2 * (|anfds| + 1);
        while cnt > ncur { ncur := 2 * ncur; }
        anfds := anfds + seq(ncur - |anfds|, _ => ANFD_ZERO);
        lists := lists + seq(ncur - |lists|, _ => []);
        StillQueued(old(anfds), anfds, fdchanges);
        StillMirrored();
      }
    }

    ghost function ListOf(fd: nat): seq<IoWatcher>
      reads this`lists
    {
      if fd < |lists| then lists[fd] else []
    }

    /** ev_start and wlist_add: the watcher comes first. */
    method ListAdd(w: IoWatcher)
      requires Valid() && w !in members && w.fd < |anfds|
      modifies this`anfds, this`lists, this`members, w`next, w`active
      ensures members == old(members) + {w} && w.active && |anfds| == |old(anfds)|
      ensures lists == old(lists)[w.fd := [w] + old(lists)[w.fd]]
      ensures anfds == old(anfds)[w.fd := old(anfds[w.fd]).(head := w)]
      ensures Changed(w.fd, {w})
    {
      hide Seg, Union, Queued, Fds.UpToDate, Fds.Mirrored, Poll.Valid, Select.Valid;
      w.active := true;
      w.next := anfds[w.fd].head;
      SegCons(w, lists[w.fd]);
      anfds := anfds[w.fd := anfds[w.fd].(head := w)];
      lists := lists[w.fd := [w] + lists[w.fd]];
      members := members + {w};
      StillQueued(old(anfds), anfds, fdchanges);
      StillMirrored();
      OthersUpToDate(w.fd);
    }

    /** The end of ev_io_start. */
    method ClearIofdset(w: IoWatcher)
      requires Changed(-1, {w}) && w in members && anfds[w.fd].reify != {} && w.events <= RW + {EV_IOFDSET}
      modifies w`events
      ensures Valid() && w.events == old(w.events) - {EV_IOFDSET}
    {
      w.events := w.events - {EV_IOFDSET};
    }

    /** ev_io_start. */
    method Start(w: IoWatcher)
      requires Valid() && (w.active <==> w in members)
      requires !w.active ==> w.events <= RW + {EV_IOFDSET}
      modifies this`anfds, this`lists, this`members, this`fdchanges, w`active, w`next, w`events
      ensures Valid() && w.active && members == old(members) + {w}
      ensures old(w.active) ==> lists == old(lists) && w.events == old(w.events)
      ensures !old(w.active) ==> w.events == old(w.events) - {EV_IOFDSET} && ListOf(w.fd) == [w] + old(ListOf(w.fd))
      ensures forall fd: nat :: fd != w.fd ==> ListOf(fd) == old(ListOf(fd))
      ensures forall fd: nat :: EventsOf(fd) == old(EventsOf(fd))
      ensures forall fd: nat :: ReifyOf(fd) == old(ReifyOf(fd)) +
                if fd == w.fd && !old(w.active) then old(w.events) * {EV_IOFDSET} + {EV_ANFD_REIFY} else {}
    {
      hide Fds.Valid, Fds.Changed;
      if w.active { return; }
      NeedSize(w.fd + 1);
      ListAdd(w);
      FdChange(w.fd, w.events * {EV_IOFDSET} + {EV_ANFD_REIFY}, {w});
      ClearIofdset(w);
    }

    // ----- ev_io_stop -----

    /** The loop of wlist_del: the watcher before `elem` in the list, or null if `elem` comes first. */
    method FindLink(head: IoWatcher?, elem: IoWatcher, ghost ws: seq<IoWatcher>)
      returns (before: IoWatcher?, ghost a: seq<IoWatcher>, ghost b: seq<IoWatcher>)
      requires Seg(head, ws, null) && elem in ws
      ensures ws == a + [elem] + b && before == if a == [] then null else a[|a| - 1]
    {
      var at := head;
      ghost var rest := ws;
      before, a := null, [];
      while at != elem
        invariant ws == a + rest && Seg(at, rest, null) && elem in rest
        invariant before == if a == [] then null else a[|a| - 1]
        decreases rest
      {
        before, a := at, a + [at];
        at, rest := at.next, rest[1..];
      }
      b := rest[1..];
      assert rest == [elem] + b;
    }

    /** wlist_del. */
    method ListDel(w: IoWatcher) returns (ghost a: seq<IoWatcher>, ghost b: seq<IoWatcher>)
      requires Linked() && w in members
      modifies this`anfds, lists[w.fd]`next
      ensures lists[w.fd] == a + [w] + b && w !in a && w !in b
      ensures |anfds| == |old(anfds)| && anfds == old(anfds)[w.fd := old(anfds[w.fd]).(head := anfds[w.fd].head)]
      ensures Seg(anfds[w.fd].head, a + b, null)
      ensures forall fd :: 0 <= fd < |lists| && fd != w.fd ==> Seg(anfds[fd].head, lists[fd], null)
    {
      hide Seg;
      var before;
      before, a, b := FindLink(anfds[w.fd].head, w, lists[w.fd]);
      SegAround(anfds[w.fd].head, a, w, b);
      assert forall i :: 0 <= i < |a| ==> a[i] == lists[w.fd][i];
      if before == null {
        anfds := anfds[w.fd := anfds[w.fd].(head := w.next)];
        SegEmpty(a, w.next);
        SegWithout(w.next, a, w, b);
      } else {
        assert before in lists[w.fd] && before in a && before !in b;
        before.next := w.next;
        assert a == a[..|a| - 1] + [before];
        SegRelinked(anfds[w.fd].head, a[..|a| - 1], before);
        SegWithout(anfds[w.fd].head, a, w, b);
      }
    }

    lemma SegEmpty(a: seq<IoWatcher>, from: IoWatcher?)
      requires a == []
      ensures Seg(from, a, from)
    {
    }

    /** wlist_del and ev_stop. */
    method Leave(w: IoWatcher)
      requires Linked() && w in members
      modifies this`anfds, this`lists, this`members, lists[w.fd]`next, w`active
      ensures Linked() && members == old(members) - {w} && !w.active
      ensures |anfds| == |old(anfds)| && anfds == old(anfds)[w.fd := old(anfds[w.fd]).(head := anfds[w.fd].head)]
      ensures |lists| == |old(lists)| && lists == old(lists)[w.fd := lists[w.fd]]
      ensures Without(old(lists)[w.fd], w, lists[w.fd])
    {
      hide Seg, Without;
      ghost var a, b := ListDel(w);
      IsWithout(a, w, b);
      w.active := false;
      lists := lists[w.fd := a + b];
      members := members - {w};
    }

    /** ev_io_stop, up to fd_change. */
    method Detach(w: IoWatcher)
      requires Valid() && w in members
      modifies this`anfds, this`lists, this`members, lists[w.fd]`next, w`active
      ensures members == old(members) - {w} && !w.active && |anfds| == |old(anfds)|
      ensures |lists| == |old(lists)| && Without(old(lists)[w.fd], w, lists[w.fd])
      ensures lists == old(lists)[w.fd := lists[w.fd]]
      ensures w.fd < |anfds| && anfds == old(anfds)[w.fd := old(anfds[w.fd]).(head := anfds[w.fd].head)]
      ensures Changed(w.fd, {})
    {
      hide Seg, Union, Queued, Without, Fds.UpToDate, Fds.Mirrored, Poll.Valid, Select.Valid;
      Leave(w);
      StillQueued(old(anfds), anfds, fdchanges);
      StillMirrored();
      OthersUpToDate(w.fd);
    }

    /** ev_io_stop, apart from the pending event of the watcher. */
    method Stop(w: IoWatcher)
      requires Valid() && (w.active <==> w in members)
      modifies this`anfds, this`lists, this`members, this`fdchanges, ListOf(w.fd)`next, w`active
      ensures Valid() && !w.active && members == old(members) - {w}
      ensures old(w.active) ==> Without(old(ListOf(w.fd)), w, ListOf(w.fd))
      ensures forall fd: nat :: fd != w.fd || !old(w.active) ==> ListOf(fd) == old(ListOf(fd))
      ensures forall fd: nat :: EventsOf(fd) == old(EventsOf(fd))
      ensures forall fd: nat :: ReifyOf(fd) == old(ReifyOf(fd)) +
                if fd == w.fd && old(w.active) then {EV_ANFD_REIFY} else {}
    {
      if !w.active { return; }
      Detach(w);
      FdChange(w.fd, {EV_ANFD_REIFY}, {});
    }

    // ----- fd_reify -----

    /** backend_modify. */
    method BackendModify(fd: nat, oev: Events, nev: Events)
      requires BackendValid() && oev == Interest(fd) && nev <= RW
      modifies poll, select
      ensures BackendValid() && forall f: nat :: Interest(f) == if f == fd then nev else old(Interest(f))
    {
      match kind
      case POLL => poll.Modify(fd, oev, nev);
      case SELECT => select.Modify(fd, oev, nev);
    }

    /** The first half of the loop body of fd_reify: `events` is computed anew. */
    method Recompute(fd: nat)
      requires Linked() && fd < |anfds|
      modifies this`anfds
      ensures anfds == old(anfds)[fd := Anfd(old(anfds[fd]).head, Union(lists[fd]), {})]
      ensures Linked()
    {
      hide Seg, Union;
      anfds := anfds[fd := anfds[fd].(reify := {})];
      var events := Collect(anfds[fd].head, lists[fd]);
      anfds := anfds[fd := anfds[fd].(events := events)];
    }

    /** The second half: the backend is told, unless there is nothing new. */
    method Tell(fd: nat, o_events: Events, o_reify: Events)
      requires BackendValid() && fd < |anfds| && o_events == Interest(fd)
      requires forall f: nat :: f != fd ==> Interest(f) == EventsOf(f)
      requires forall f: nat :: EventsOf(f) <= RW
      modifies poll, select
      ensures Mirrored()
    {
      var reify := o_reify;
      assert anfds[fd].events == EventsOf(fd);
      if o_events != anfds[fd].events { reify := {EV_IOFDSET}; }
      if EV_IOFDSET in reify {
        BackendModify(fd, o_events, anfds[fd].events);
      }
    }

    /** The loop body of fd_reify. */
    method ReifyFd(fd: nat)
      requires Linked() && Plain({}) && Mirrored() && fd < |anfds|
      modifies this`anfds, poll, select
      ensures anfds == old(anfds)[fd := Anfd(old(anfds[fd]).head, Union(lists[fd]), {})]
      ensures Linked() && Mirrored()
    {
      hide Seg, Union, Poll.Valid, Select.Valid, Poll.Interest, Select.Interest;
      UnionPlain(lists[fd]);
      var o_events, o_reify := anfds[fd].events, anfds[fd].reify;
      Recompute(fd);
      Tell(fd, o_events, o_reify);
    }

    lemma MirrorAll()
      requires Mirrored()
      ensures BackendValid() && forall fd: nat :: Interest(fd) == EventsOf(fd)
    {
    }

    /**
     fd_reify: afterwards the backend watches, of every descriptor, exactly what its active
     watchers ask for, and nothing is left to change.
    */
    method FdReify()
      requires Valid()
      modifies this`anfds, this`fdchanges, poll, select
      ensures Valid() && fdchanges == [] && |anfds| == |old(anfds)|
      ensures forall fd: nat :: Interest(fd) == Union(ListOf(fd))
    {
      hide Seg, Union, Queued, Fds.Mirrored, Poll.Valid, Select.Valid;
      ChangesInRange();
      for i := 0 to |fdchanges|
        invariant Linked() && Plain({}) && Mirrored() && |anfds| == |old(anfds)|
        invariant forall fd :: 0 <= fd < |anfds| ==>
                    anfds[fd] == if fd in fdchanges[..i] then Anfd(old(anfds)[fd].head, Union(lists[fd]), {}) else old(anfds)[fd]
        modifies this`anfds, poll, select
      {
        ReifyFd(fdchanges[i]);
        assert fdchanges[..i + 1] == fdchanges[..i] + [fdchanges[i]];
      }
      assert fdchanges[..|fdchanges|] == fdchanges;
      AllReified(old(anfds), fdchanges, anfds);
      label Done:
      fdchanges := [];
      StillMirrored@Done();
      MirrorAll();
      UnionNone();
      assert forall fd: nat :: EventsOf(fd) == Union(ListOf(fd));
    }

    lemma NothingChanged()
      requires Valid() && fdchanges == []
      ensures BackendValid() && forall fd: nat :: Interest(fd) == Union(ListOf(fd))
    {
      UnionNone();
      forall fd: nat ensures Interest(fd) == Union(ListOf(fd)) {
        if fd < |anfds| { assert anfds[fd].reify == {} || fd in fdchanges; }
        assert Interest(fd) == EventsOf(fd);
      }
    }

    /**
     With the poll backend and nothing left to change, `polls` is exactly the map from descriptors
     to the or of the events of their active watchers, each descriptor once, and `pollidxs` is its inverse.
    */
    lemma PolledExactly()
      requires Valid() && fdchanges == [] && kind == POLL
      ensures forall i, j :: 0 <= i < j < |poll.polls| ==> poll.polls[i].fd != poll.polls[j].fd
      ensures forall i :: 0 <= i < |poll.polls| ==> {} < poll.polls[i].events <= {POLLIN, POLLOUT}
      ensures forall i :: 0 <= i < |poll.polls| ==>
                && (POLLIN in poll.polls[i].events <==> EV_READ in Union(ListOf(poll.polls[i].fd)))
                && (POLLOUT in poll.polls[i].events <==> EV_WRITE in Union(ListOf(poll.polls[i].fd)))
      ensures forall fd: nat :: Union(ListOf(fd)) != {} ==>
                exists i :: 0 <= i < |poll.polls| && poll.polls[i].fd == fd
      ensures forall i :: 0 <= i < |poll.polls| ==>
                poll.polls[i].fd < |poll.pollidxs| && poll.pollidxs[poll.polls[i].fd] == i
    {
      NothingChanged();
      poll.NoDuplicates();
      assert forall fd: nat :: poll.Interest(fd) == Interest(fd);
    }

    /** With the select backend, at any time, the bits of a descriptor are its `events`. */
    lemma SelectedExactly(fd: nat)
      requires Valid() && kind == SELECT
      ensures IsSet(select.vec_ri, fd) <==> EV_READ in EventsOf(fd)
      ensures IsSet(select.vec_wi, fd) <==> EV_WRITE in EventsOf(fd)
      ensures fdchanges == [] ==> EventsOf(fd) == Union(ListOf(fd))
    {
      assert Interest(fd) == EventsOf(fd);
      if fdchanges == [] { NothingChanged(); }
    }

    lemma ChangesInRange()
      requires Queued(anfds, fdchanges)
      ensures forall i :: 0 <= i < |fdchanges| ==> fdchanges[i] < |anfds|
    {
    }

    lemma UnionNone()
      ensures Union([]) == {}
    {
    }

    lemma {:induction false} UnionPlain(ws: seq<IoWatcher>)
      requires forall w :: w in ws ==> w.events <= RW
      ensures Union(ws) <= RW
    {
      if ws != [] { UnionPlain(ws[1..]); }
    }
  }

  lemma IsWithout(a: seq<IoWatcher>, w: IoWatcher, b: seq<IoWatcher>)
    requires w !in a && w !in b
    ensures Without(a + [w] + b, w, a + b)
  {
    var ws := a + [w] + b;
    assert ws[|a|] == w && ws[..|a|] == a && ws[|a| + 1..] == b;
  }

  /** `ws'` is `ws` without `w`, in the same order. */
  ghost predicate Without(ws: seq<IoWatcher>, w: IoWatcher, ws': seq<IoWatcher>) {
    exists k :: 0 <= k < |ws| && ws[k] == w && w !in ws' && ws' == ws[..k] + ws[k + 1..]
  }
}
