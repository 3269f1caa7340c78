/**
 Two backends of the event loop: poll (ev_poll.c) and select without fd_set (ev_select.c).
 Each keeps its own table of which events of which file descriptor it watches.
*/
module Backends {
  import opened EventHistory

  const EV_READ: nat := 0
  const EV_WRITE: nat := 1
  const EV_IOFDSET: nat := 7

  const RW: Events := {EV_READ, EV_WRITE}

  /** What a backend tells the loop: events of a file descriptor (fd_event), or that it is invalid (fd_kill). */
  datatype Report = Happened(fd: nat, events: Events) | Invalid(fd: nat)

  // ----- poll -----

  datatype PollBit = POLLIN | POLLOUT | POLLERR | POLLHUP | POLLNVAL

  datatype PollFd = PollFd(fd: nat, events: set<PollBit>)

  function ToPoll(ev: Events): set<PollBit> {
    (if EV_READ in ev then {POLLIN} else {}) + (if EV_WRITE in ev then {POLLOUT} else {})
  }

  function FromPoll(bits: set<PollBit>): Events {
    (if POLLIN in bits then {EV_READ} else {}) + (if POLLOUT in bits then {EV_WRITE} else {})
  }

  lemma ToAndFrom(ev: Events)
    requires ev <= RW
    ensures FromPoll(ToPoll(ev)) == ev
  {
  }

  /** pollidx_init: -1 in each of `count` entries. */
  method PollidxInit(count: nat) returns (base: seq<int>)
    ensures |base| == count && forall i :: 0 <= i < count ==> base[i] == -1
  {
    base := [];
    while |base| < count
      invariant |base| <= count && forall i :: 0 <= i < |base| ==> base[i] == -1
    {
      base := base + [-1];
    }
  }

  class Poll {
    /** polls [0 .. pollcnt) */
    var polls: seq<PollFd>
    var pollidxs: seq<int>

    constructor ()
      ensures Valid() && polls == [] && forall fd: nat :: Interest(fd) == {}
    {
      polls, pollidxs := [], [];
    }

    /** `pollidxs` is the inverse of `polls`, and nothing is polled for no events. */
    ghost predicate Valid()
      reads this
    {
      && (forall i :: 0 <= i < |polls| ==> polls[i].fd < |pollidxs| && pollidxs[polls[i].fd] == i)
      && (forall i :: 0 <= i < |polls| ==> polls[i].events != {} && polls[i].events <= {POLLIN, POLLOUT})
      && (forall fd :: 0 <= fd < |pollidxs| ==> -1 <= pollidxs[fd] < |polls|)
      && (forall fd :: 0 <= fd < |pollidxs| && pollidxs[fd] >= 0 ==> polls[pollidxs[fd]].fd == fd)
    }

    /** The events that a file descriptor is polled for. */
    ghost function Interest(fd: nat): Events
      requires Valid()
      reads this
    {
      if fd < |pollidxs| && pollidxs[fd] >= 0 then FromPoll(polls[pollidxs[fd]].events) else {}
    }

    /** What poll() is asked is this map, each file descriptor once. */
    lemma NoDuplicates()
      requires Valid()
      ensures forall i, j :: 0 <= i < j < |polls| ==> polls[i].fd != polls[j].fd
      ensures forall i :: 0 <= i < |polls| ==> Interest(polls[i].fd) != {} && {} < polls[i].events <= {POLLIN, POLLOUT}
      ensures forall i :: 0 <= i < |polls| ==> (POLLIN in polls[i].events <==> EV_READ in Interest(polls[i].fd))
      ensures forall i :: 0 <= i < |polls| ==> (POLLOUT in polls[i].events <==> EV_WRITE in Interest(polls[i].fd))
      ensures forall fd: nat :: Interest(fd) != {} ==> fd < |pollidxs| && 0 <= pollidxs[fd] < |polls| && polls[pollidxs[fd]].fd == fd
    {
      forall i, j | 0 <= i < j < |polls| ensures polls[i].fd != polls[j].fd {
        assert pollidxs[polls[i].fd] == i && pollidxs[polls[j].fd] == j;
      }
    }

    /** array_needsize of pollidxs, up to the choice of the new capacity. */
    method NeedSize(cnt: nat)
      requires Valid()
      modifies this`pollidxs
      ensures Valid() && cnt <= |pollidxs|
      ensures forall f: nat :: Interest(f) == old(Interest(f))
    {
      if cnt > |pollidxs| {
        var ncur := 2 * (|pollidxs| + 1);
        while cnt > ncur { ncur := 2 * ncur; }
        var more := PollidxInit(ncur - |pollidxs|);
        pollidxs := pollidxs + more;
      }
    }

    /** poll_modify, the removal: the last entry takes the place of the removed one. */
    method Drop(fd: nat, idx: nat)
      requires Valid() && fd < |pollidxs| && pollidxs[fd] == idx
      modifies this
      ensures Valid() && forall f: nat :: Interest(f) == if f == fd then {} else old(Interest(f))
    {
      pollidxs := pollidxs[fd := -1];
      var pollcnt := |polls| - 1;
      if idx < pollcnt {
        polls := polls[idx := polls[pollcnt]];
        pollidxs := pollidxs[polls[idx].fd := idx];
      }
      polls := polls[..pollcnt];
    }

    /** poll_modify. */
    method Modify(fd: nat, oev: Events, nev: Events)
      requires Valid() && oev == Interest(fd) && nev <= RW
      modifies this
      ensures Valid() && forall f: nat :: Interest(f) == if f == fd then nev else old(Interest(f))
      ensures forall i :: 0 <= i < |polls| && polls[i].fd == fd ==>
                (POLLIN in polls[i].events <==> EV_READ in nev) && (POLLOUT in polls[i].events <==> EV_WRITE in nev)
    {
      if oev == nev { return; }
      NeedSize(fd + 1);
      ToAndFrom(nev);
      var idx := pollidxs[fd];
      if idx < 0 {
        idx := |polls|;
        pollidxs := pollidxs[fd := idx];
        polls := polls + [PollFd(fd, {})];
      }
      if nev != {} {
        polls := polls[idx := polls[idx].(events := ToPoll(nev))];
      } else {
        Drop(fd, idx);
      }
    }

    /** What poll_poll makes of the answer to one entry. */
    function ReportOf(fd: nat, revents: set<PollBit>): Report {
      if POLLNVAL in revents then Invalid(fd)
      else Happened(fd, (if revents * {POLLOUT, POLLERR, POLLHUP} != {} then {EV_WRITE} else {})
                        + (if revents * {POLLIN, POLLERR, POLLHUP} != {} then {EV_READ} else {}))
    }

    /**
     The loop of poll_poll, for the answer `revents` of poll(), which also says how many of
     the entries have something to tell: each of those is reported once.
    */
    method Scan(revents: seq<set<PollBit>>, res: nat) returns (reports: seq<Report>)
      requires Valid() && |revents| == |polls| && res == Count(revents)
      ensures forall i :: 0 <= i < |polls| && revents[i] != {} ==> ReportOf(polls[i].fd, revents[i]) in reports
      ensures forall r :: r in reports && r.Invalid? ==>
                exists i :: 0 <= i < |polls| && polls[i].fd == r.fd && POLLNVAL in revents[i]
      ensures forall r :: r in reports && r.Happened? ==> exists i ::
                && 0 <= i < |polls| && polls[i].fd == r.fd && revents[i] != {} && POLLNVAL !in revents[i] && r.events <= RW
                && (EV_READ in r.events <==> POLLIN in revents[i] || POLLERR in revents[i] || POLLHUP in revents[i])
                && (EV_WRITE in r.events <==> POLLOUT in revents[i] || POLLERR in revents[i] || POLLHUP in revents[i])
      ensures forall a, b :: 0 <= a < b < |reports| ==> reports[a].fd != reports[b].fd
    {
      hide Poll.ReportOf, Poll.Valid;
      reports := [];
      var p: nat, left: nat := 0, res;
      ghost var from: seq<nat> := [];
      assert revents[0..] == revents;
      while left > 0
        invariant p <= |polls| && left == Count(revents[p..]) && |from| == |reports|
        invariant forall i :: 0 <= i < p && revents[i] != {} ==> i in from
        invariant forall a :: 0 <= a < |from| ==>
                    from[a] < p && revents[from[a]] != {} && reports[a] == ReportOf(polls[from[a]].fd, revents[from[a]])
        invariant forall a, b :: 0 <= a < b < |from| ==> from[a] < from[b]
        decreases |polls| - p
      {
        assert revents[p..][1..] == revents[p + 1..];
        if revents[p] != {} {
          left := left - 1;
          reports := reports + [ReportOf(polls[p].fd, revents[p])];
          from := from + [p];
        }
        p := p + 1;
      }
      NothingLeft(revents, p);
      OnlyAnswered(revents, reports, from);
      EachOnce(revents, reports, from);
    }

    lemma EachOnce(revents: seq<set<PollBit>>, reports: seq<Report>, from: seq<nat>)
      requires Valid() && |revents| == |polls| && |from| == |reports|
      requires forall a :: 0 <= a < |from| ==>
                 from[a] < |polls| && revents[from[a]] != {} && reports[a] == ReportOf(polls[from[a]].fd, revents[from[a]])
      requires forall a, b :: 0 <= a < b < |from| ==> from[a] < from[b]
      requires forall i :: 0 <= i < |polls| && revents[i] != {} ==> i in from
      ensures forall i :: 0 <= i < |polls| && revents[i] != {} ==> ReportOf(polls[i].fd, revents[i]) in reports
      ensures forall a, b :: 0 <= a < b < |reports| ==> reports[a].fd != reports[b].fd
    {
      NoDuplicates();
      forall i | 0 <= i < |polls| && revents[i] != {} ensures ReportOf(polls[i].fd, revents[i]) in reports {
        var a :| 0 <= a < |from| && from[a] == i;
        assert reports[a] == ReportOf(polls[i].fd, revents[i]);
      }
    }

    lemma OnlyAnswered(revents: seq<set<PollBit>>, reports: seq<Report>, from: seq<nat>)
      requires |revents| == |polls| && |from| == |reports|
      requires forall a :: 0 <= a < |from| ==>
                 from[a] < |polls| && revents[from[a]] != {} && reports[a] == ReportOf(polls[from[a]].fd, revents[from[a]])
      ensures forall r :: r in reports && r.Invalid? ==>
                exists i :: 0 <= i < |polls| && polls[i].fd == r.fd && POLLNVAL in revents[i]
      ensures forall r :: r in reports && r.Happened? ==> exists i ::
                && 0 <= i < |polls| && polls[i].fd == r.fd && revents[i] != {} && POLLNVAL !in revents[i] && r.events <= RW
                && (EV_READ in r.events <==> POLLIN in revents[i] || POLLERR in revents[i] || POLLHUP in revents[i])
                && (EV_WRITE in r.events <==> POLLOUT in revents[i] || POLLERR in revents[i] || POLLHUP in revents[i])
    {
      forall r | r in reports
        ensures exists i :: 0 <= i < |polls| && revents[i] != {} && r == ReportOf(polls[i].fd, revents[i])
      {
        var a :| 0 <= a < |reports| && reports[a] == r;
        assert revents[from[a]] != {};
      }
      forall i | 0 <= i < |polls|
        ensures revents[i] * {POLLOUT, POLLERR, POLLHUP} != {} <==> POLLOUT in revents[i] || POLLERR in revents[i] || POLLHUP in revents[i]
        ensures revents[i] * {POLLIN, POLLERR, POLLHUP} != {} <==> POLLIN in revents[i] || POLLERR in revents[i] || POLLHUP in revents[i]
      {
        BitsMean(revents[i]);
      }
    }
  }

  lemma BitsMean(bits: set<PollBit>)
    ensures bits * {POLLOUT, POLLERR, POLLHUP} != {} <==> POLLOUT in bits || POLLERR in bits || POLLHUP in bits
    ensures bits * {POLLIN, POLLERR, POLLHUP} != {} <==> POLLIN in bits || POLLERR in bits || POLLHUP in bits
  {
    var out, into := bits * {POLLOUT, POLLERR, POLLHUP}, bits * {POLLIN, POLLERR, POLLHUP};
    assert POLLOUT in bits ==> POLLOUT in out;
    assert POLLERR in bits ==> POLLERR in out && POLLERR in into;
    assert POLLHUP in bits ==> POLLHUP in out && POLLHUP in into;
    assert POLLIN in bits ==> POLLIN in into;
  }

  function Count(revents: seq<set<PollBit>>): nat {
    if revents == [] then 0 else (if revents[0] != {} then 1 else 0) + Count(revents[1..])
  }

  lemma {:induction false} NothingLeft(revents: seq<set<PollBit>>, p: nat)
    requires p <= |revents| && Count(revents[p..]) == 0
    ensures forall i :: p <= i < |revents| ==> revents[i] == {}
    decreases |revents| - p
  {
    if p < |revents| {
      assert revents[p..][1..] == revents[p + 1..];
      NothingLeft(revents, p + 1);
    }
  }

  // ----- select -----

  const NFDBITS: nat := 64

  /** fd_mask, as the set of its bit numbers. */
  type Mask = set<nat>

  ghost predicate Words(ms: seq<Mask>) {
    forall word :: 0 <= word < |ms| ==> forall bit :: bit in ms[word] ==> bit < NFDBITS
  }

  predicate IsSet(ms: seq<Mask>, fd: nat) {
    fd / NFDBITS < |ms| && fd % NFDBITS in ms[fd / NFDBITS]
  }

  /** The events that two bit vectors hold for a file descriptor. */
  function Bits(r: seq<Mask>, w: seq<Mask>, fd: nat): Events {
    (if IsSet(r, fd) then {EV_READ} else {}) + (if IsSet(w, fd) then {EV_WRITE} else {})
  }

  /** The assignments to one word: the bit is set and, unless it is wanted, cleared again. */
  function SetBit(ms: seq<Mask>, fd: nat, wanted: bool): seq<Mask>
    requires fd / NFDBITS < |ms|
  {
    var word, bit := fd / NFDBITS, fd % NFDBITS;
    var on := ms[word := ms[word] + {bit}];
    if !wanted then on[word := on[word] - {bit}] else on
  }

  lemma SetBitSets(ms: seq<Mask>, fd: nat, wanted: bool)
    requires fd / NFDBITS < |ms| && Words(ms)
    ensures Words(SetBit(ms, fd, wanted))
    ensures forall f: nat :: IsSet(SetBit(ms, fd, wanted), f) == if f == fd then wanted else IsSet(ms, f)
  {
    forall f: nat ensures IsSet(SetBit(ms, fd, wanted), f) == if f == fd then wanted else IsSet(ms, f) {
      assert f == NFDBITS * (f / NFDBITS) + f % NFDBITS && fd == NFDBITS * (fd / NFDBITS) + fd % NFDBITS;
    }
  }

  class Select {
    var vec_ri: seq<Mask>
    var vec_wi: seq<Mask>

    constructor ()
      ensures Valid() && vec_ri == [] && forall fd: nat :: Interest(fd) == {}
    {
      vec_ri, vec_wi := [], [];
    }

    ghost predicate Valid()
      reads this
    {
      |vec_ri| == |vec_wi| && Words(vec_ri) && Words(vec_wi)
    }

    ghost function Interest(fd: nat): Events
      reads this
    {
      Bits(vec_ri, vec_wi, fd)
    }

    /** select_modify, the growth of the vectors. */
    method Grow(new_max: nat)
      requires Valid() && |vec_ri| <= new_max
      modifies this
      ensures Valid() && |vec_ri| == new_max && forall f: nat :: Interest(f) == old(Interest(f))
    {
      while |vec_ri| < new_max
        invariant Valid() && |vec_ri| <= new_max && forall f: nat :: Interest(f) == old(Interest(f))
      {
        vec_ri, vec_wi := vec_ri + [{}], vec_wi + [{}];
      }
    }

    /** select_modify. */
    method Modify(fd: nat, oev: Events, nev: Events)
      requires Valid() && oev == Interest(fd) && nev <= RW
      modifies this
      ensures Valid() && forall f: nat :: Interest(f) == if f == fd then nev else old(Interest(f))
    {
      if oev == nev { return; }
      var word := fd / NFDBITS;
      if |vec_ri| <= word { Grow(word + 1); }
      SetBitSets(vec_ri, fd, EV_READ in nev);
      SetBitSets(vec_wi, fd, EV_WRITE in nev);
      vec_ri := SetBit(vec_ri, fd, EV_READ in nev);
      vec_wi := SetBit(vec_wi, fd, EV_WRITE in nev);
    }
  }

  /** What has been reported of the file descriptors from `from` on: each ready one once, the highest first. */
  ghost predicate ReportedFrom(r: seq<Mask>, w: seq<Mask>, from: nat, reports: seq<Report>) {
    && (forall x :: x in reports ==> x.Happened? && from <= x.fd && x.events == Bits(r, w, x.fd) != {})
    && (forall fd: nat :: from <= fd && Bits(r, w, fd) != {} ==> Happened(fd, Bits(r, w, fd)) in reports)
    && (forall a, b :: 0 <= a < b < |reports| ==> reports[a].fd > reports[b].fd)
  }

  /** The scan of select_poll, for the vectors `r` and `w` that select() filled in. */
  method ScanWords(r: seq<Mask>, w: seq<Mask>) returns (reports: seq<Report>)
    requires |r| == |w| && Words(r) && Words(w)
    ensures ReportedFrom(r, w, 0, reports)
  {
    reports := [];
    var word: nat := |r|;
    while word > 0
      invariant word <= |r| && ReportedFrom(r, w, NFDBITS * word, reports)
    {
      word := word - 1;
      if r[word] != {} || w[word] != {} {
        reports := ScanBits(r, w, word, reports);
      } else {
        NoneReady(r, w, word, reports);
      }
    }
  }

  lemma NoneReady(r: seq<Mask>, w: seq<Mask>, word: nat, reports: seq<Report>)
    requires word < |r| == |w| && r[word] == w[word] == {} && ReportedFrom(r, w, NFDBITS * (word + 1), reports)
    ensures ReportedFrom(r, w, NFDBITS * word, reports)
  {
    forall fd: nat | NFDBITS * word <= fd < NFDBITS * (word + 1) ensures Bits(r, w, fd) == {} {
      assert fd / NFDBITS == word;
    }
  }

  /** The inner loop: the bits of one word. */
  method ScanBits(r: seq<Mask>, w: seq<Mask>, word: nat, before: seq<Report>) returns (reports: seq<Report>)
    requires word < |r| == |w| && ReportedFrom(r, w, NFDBITS * (word + 1), before)
    ensures ReportedFrom(r, w, NFDBITS * word, reports)
  {
    reports := before;
    var bit: nat := NFDBITS;
    while bit > 0
      invariant bit <= NFDBITS && ReportedFrom(r, w, NFDBITS * word + bit, reports)
    {
      bit := bit - 1;
      var events: Events := {};
      if bit in r[word] { events := events + {EV_READ}; }
      if bit in w[word] { events := events + {EV_WRITE}; }
      var fd := NFDBITS * word + bit;
      assert fd / NFDBITS == word && fd % NFDBITS == bit;
      assert events == Bits(r, w, fd);
      if events != {} { reports := reports + [Happened(fd, events)]; }
    }
  }
}
