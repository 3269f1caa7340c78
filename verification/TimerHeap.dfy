/**
 The 4-ary heap of timed watchers (ev.c, "EV_USE_4HEAP" branch).

 Entries cache the watcher's deadline, and each watcher stores its own heap index
 in `active`.  The sift loops move a hole instead of swapping, so between two
 assignments one slot of the array is stale: it is named by `k`, and the entry that
 belongs there is held in the local variable `he`.
*/
module TimerHeap {

  /** The fields of libev's watcher base class that the heap and the queues use. */
  class Watcher {
    var active: int
    var pending: int
    var priority: int
    var at: real
    var repeat: real

    constructor (priority: int, at: real, repeat: real)
      ensures active == 0 && pending == 0
      ensures this.priority == priority && this.at == at && this.repeat == repeat
    {
      this.active, this.pending := 0, 0;
      this.priority, this.at, this.repeat := priority, at, repeat;
    }
  }

  datatype HeapEntry = HeapEntry(at: real, w: Watcher)

  const DHEAP := 4
  const HEAP0 := 3

  /** C division truncates, so the root is its own parent. */
  function HParent(k: int): (p: int)
    requires HEAP0 <= k
    ensures HEAP0 <= p <= k
    ensures p == k <==> k == HEAP0
  {
    if k == HEAP0 then HEAP0 else (k - HEAP0 - 1) / DHEAP + HEAP0
  }

  /** The array holds exactly the watchers in `members`, each at the index it stores. */
  ghost predicate Linked(heap: array<HeapEntry>, n: nat, members: set<Watcher>)
    reads heap, members`active, members`at
  {
    && n + HEAP0 <= heap.Length
    && (forall i :: HEAP0 <= i < n + HEAP0 ==>
          heap[i].w in members && heap[i].w.active == i && heap[i].at == heap[i].w.at)
    && (forall w :: w in members ==> HEAP0 <= w.active < n + HEAP0 && heap[w.active].w == w)
  }

  /** No entry is due before its parent. */
  ghost predicate Ordered(s: seq<HeapEntry>, n: nat)
    requires n + HEAP0 <= |s|
  {
    forall i :: HEAP0 <= i < n + HEAP0 && i != HEAP0 ==> s[HParent(i)].at <= s[i].at
  }

  ghost predicate Heap(heap: array<HeapEntry>, n: nat, members: set<Watcher>)
    reads heap, members`active, members`at
  {
    Linked(heap, n, members) && Ordered(heap[..], n)
  }

  // ----- the state between two moves of a sift loop -----

  /** `Linked`, when slot `k` is stale and `he` is the entry in hand. */
  ghost predicate LinkedAround(heap: array<HeapEntry>, n: nat, k: int, he: HeapEntry, members: set<Watcher>)
    reads heap, members`active, members`at
  {
    && n + HEAP0 <= heap.Length
    && HEAP0 <= k < n + HEAP0
    && he.w in members && he.at == he.w.at
    && (forall i :: HEAP0 <= i < n + HEAP0 && i != k ==>
          heap[i].w in members && heap[i].w.active == i && heap[i].at == heap[i].w.at && heap[i].w != he.w)
    && (forall w :: w in members && w != he.w ==>
          HEAP0 <= w.active < n + HEAP0 && w.active != k && heap[w.active].w == w)
  }

  /** The entries above slot `k` are no later than those below it. */
  ghost predicate Bridged(s: seq<HeapEntry>, n: nat, k: int)
    requires n + HEAP0 <= |s| && HEAP0 <= k < n + HEAP0
  {
    forall c :: HEAP0 <= c < n + HEAP0 && c != HEAP0 && HParent(c) == k && k != HEAP0 ==> s[HParent(k)].at <= s[c].at
  }

  /** Every edge is ordered except possibly the one from `k` up. */
  ghost predicate OrderedBelow(s: seq<HeapEntry>, n: nat, k: int)
    requires n + HEAP0 <= |s| && HEAP0 <= k < n + HEAP0
  {
    Bridged(s, n, k) &&
    forall i :: HEAP0 <= i < n + HEAP0 && i != HEAP0 && i != k ==> s[HParent(i)].at <= s[i].at
  }

  /** Every edge is ordered except possibly those from `k` down. */
  ghost predicate OrderedAbove(s: seq<HeapEntry>, n: nat, k: int)
    requires n + HEAP0 <= |s| && HEAP0 <= k < n + HEAP0
  {
    Bridged(s, n, k) &&
    forall i :: HEAP0 <= i < n + HEAP0 && i != HEAP0 && HParent(i) != k ==> s[HParent(i)].at <= s[i].at
  }

  lemma SiftUpStep(s: seq<HeapEntry>, n: nat, k: int, he: HeapEntry)
    requires n + HEAP0 <= |s| && HEAP0 <= k < n + HEAP0 && k != HEAP0
    requires OrderedBelow(s[k := he], n, k)
    requires he.at < s[HParent(k)].at
    ensures OrderedBelow(s[k := s[HParent(k)]][HParent(k) := he], n, HParent(k))
  {
    var p := HParent(k);
    var v, t := s[k := he], s[k := s[p]][p := he];
    forall c | HEAP0 <= c < n + HEAP0 && c != HEAP0 && HParent(c) == p && p != HEAP0
      ensures t[HParent(p)].at <= t[c].at
    {
      assert v[HParent(p)].at <= v[p].at;
      assert c != k ==> v[p].at <= v[c].at;
    }
    forall i | HEAP0 <= i < n + HEAP0 && i != HEAP0 && i != p
      ensures t[HParent(i)].at <= t[i].at
    {
      assert i != k ==> v[HParent(i)].at <= v[i].at;
      assert HParent(i) == k ==> v[p].at <= v[i].at;
    }
  }

  /** Slot `k` takes the entry of slot `m`, which becomes the hole. */
  method MoveEntry(heap: array<HeapEntry>, ghost n: nat, k: int, m: int, ghost he: HeapEntry, ghost members: set<Watcher>)
    requires LinkedAround(heap, n, k, he, members)
    requires HEAP0 <= m < n + HEAP0 && m != k
    modifies heap, members`active
    ensures LinkedAround(heap, n, m, he, members)
    ensures heap[..] == old(heap[..])[k := old(heap[m])]
    ensures heap[n + HEAP0..] == old(heap[n + HEAP0..])
  {
    heap[k] := heap[m];
    heap[k].w.active := k;
  }

  /** The entry in hand goes into the hole. */
  method FillHole(heap: array<HeapEntry>, ghost n: nat, k: int, he: HeapEntry, ghost members: set<Watcher>)
    requires LinkedAround(heap, n, k, he, members)
    modifies heap, members`active
    ensures Linked(heap, n, members)
    ensures heap[..] == old(heap[..])[k := he]
    ensures heap[n + HEAP0..] == old(heap[n + HEAP0..])
  {
    heap[k] := he;
    he.w.active := k;
  }

  ghost predicate IsChild(n: nat, k: int, c: int) { HEAP0 <= c < n + HEAP0 && c != HEAP0 && HParent(c) == k }

  /** `m` is a child of `k` and none of the other children is due before it. */
  ghost predicate LeastChild(s: seq<HeapEntry>, n: nat, k: int, m: int)
    requires n + HEAP0 <= |s|
  {
    IsChild(n, k, m) && forall c :: IsChild(n, k, c) ==> s[m].at <= s[c].at
  }

  function FirstChild(k: int): int { DHEAP * (k - HEAP0) + HEAP0 + 1 }

  lemma ChildRange(n: nat, k: int, c: int)
    requires HEAP0 <= k
    ensures IsChild(n, k, c) <==> FirstChild(k) <= c < FirstChild(k) + DHEAP && c < n + HEAP0
  {
  }

  /**
   The first of the at most four children that has the least deadline.  The slow path of
   the source also guards a fourth comparison, which is never reached there.
   */
  method MinChild(heap: array<HeapEntry>, n: nat, k: int) returns (m: int)
    requires HEAP0 <= k && FirstChild(k) < n + HEAP0 <= heap.Length
    ensures LeastChild(heap[..], n, k, m)
  {
    var e, pos := n + HEAP0, FirstChild(k);
    m := pos;
    if pos + DHEAP - 1 < e {
      if heap[pos + 1].at < heap[m].at { m := pos + 1; }
      if heap[pos + 2].at < heap[m].at { m := pos + 2; }
      if heap[pos + 3].at < heap[m].at { m := pos + 3; }
    } else {
      if pos + 1 < e && heap[pos + 1].at < heap[m].at { m := pos + 1; }
      if pos + 2 < e && heap[pos + 2].at < heap[m].at { m := pos + 2; }
    }
    ChildRange(n, k, m);
    forall c | IsChild(n, k, c) ensures heap[m].at <= heap[c].at {
      ChildRange(n, k, c);
    }
  }

  lemma SiftDownStep(s: seq<HeapEntry>, n: nat, k: int, m: int, he: HeapEntry)
    requires n + HEAP0 <= |s| && HEAP0 <= k < n + HEAP0
    requires OrderedAbove(s[k := he], n, k)
    requires LeastChild(s, n, k, m) && s[m].at < he.at
    ensures OrderedAbove(s[k := s[m]][m := he], n, m)
  {
    var v, t := s[k := he], s[k := s[m]][m := he];
    forall c | HEAP0 <= c < n + HEAP0 && c != HEAP0 && HParent(c) == m
      ensures t[HParent(m)].at <= t[c].at
    {
      assert v[HParent(c)].at <= v[c].at;
    }
    forall i | HEAP0 <= i < n + HEAP0 && i != HEAP0 && HParent(i) != m
      ensures t[HParent(i)].at <= t[i].at
    {
      assert HParent(i) != k ==> v[HParent(i)].at <= v[i].at;
      assert i == k ==> v[HParent(k)].at <= v[m].at;
      assert HParent(i) == k ==> IsChild(n, k, i);
    }
  }

  lemma SiftDownDone(s: seq<HeapEntry>, n: nat, k: int)
    requires n + HEAP0 <= |s| && HEAP0 <= k < n + HEAP0 && OrderedAbove(s, n, k)
    requires forall c :: IsChild(n, k, c) ==> s[k].at <= s[c].at
    ensures Ordered(s, n)
  {
  }

  method Downheap(heap: array<HeapEntry>, n: nat, start: int, ghost members: set<Watcher>)
    requires n + HEAP0 <= heap.Length && HEAP0 <= start < n + HEAP0
    requires LinkedAround(heap, n, start, heap[start], members)
    requires OrderedAbove(heap[..], n, start)
    modifies heap, members`active
    ensures Heap(heap, n, members)
    ensures heap[n + HEAP0..] == old(heap[n + HEAP0..])
  {
    var k := start;
    var he := heap[k];
    assert heap[..][k := he] == heap[..];
    while true
      invariant LinkedAround(heap, n, k, he, members)
      invariant OrderedAbove(heap[..][k := he], n, k)
      invariant heap[n + HEAP0..] == old(heap[n + HEAP0..])
      decreases n + HEAP0 - k
    {
      if FirstChild(k) >= n + HEAP0 {
        forall c ensures !IsChild(n, k, c) { ChildRange(n, k, c); }
        break;
      }
      var minpos := MinChild(heap, n, k);
      if he.at <= heap[minpos].at { break; }
      SiftDownStep(heap[..], n, k, minpos, he);
      ghost var next := heap[..][k := heap[minpos]][minpos := he];
      MoveEntry(heap, n, k, minpos, he, members);
      assert heap[..][minpos := he] == next;
      k := minpos;
    }
    SiftDownDone(heap[..][k := he], n, k);
    FillHole(heap, n, k, he, members);
  }

  lemma SiftUpDone(s: seq<HeapEntry>, n: nat, k: int)
    requires n + HEAP0 <= |s| && HEAP0 <= k < n + HEAP0 && OrderedBelow(s, n, k)
    requires k == HEAP0 || s[HParent(k)].at <= s[k].at
    ensures Ordered(s, n)
  {
  }

  method Upheap(heap: array<HeapEntry>, ghost n: nat, start: int, ghost members: set<Watcher>)
    requires n + HEAP0 <= heap.Length && HEAP0 <= start < n + HEAP0
    requires LinkedAround(heap, n, start, heap[start], members)
    requires OrderedBelow(heap[..], n, start)
    modifies heap, members`active
    ensures Heap(heap, n, members)
    ensures heap[n + HEAP0..] == old(heap[n + HEAP0..])
  {
    var k := start;
    var he := heap[k];
    assert heap[..][k := he] == heap[..];
    while true
      invariant LinkedAround(heap, n, k, he, members)
      invariant OrderedBelow(heap[..][k := he], n, k)
      invariant heap[n + HEAP0..] == old(heap[n + HEAP0..])
      decreases k
    {
      var p := HParent(k);
      if p == k || heap[p].at <= he.at { break; }
      SiftUpStep(heap[..], n, k, he);
      ghost var next := heap[..][k := heap[p]][p := he];
      MoveEntry(heap, n, k, p, he, members);
      assert heap[..][p := he] == next;
      k := p;
    }
    SiftUpDone(heap[..][k := he], n, k);
    FillHole(heap, n, k, he, members);
  }

  /** Only the edges that touch `k` may be out of order. */
  ghost predicate OrderedAround(s: seq<HeapEntry>, n: nat, k: int)
    requires n + HEAP0 <= |s| && HEAP0 <= k < n + HEAP0
  {
    Bridged(s, n, k) &&
    forall i :: HEAP0 <= i < n + HEAP0 && i != HEAP0 && i != k && HParent(i) != k ==> s[HParent(i)].at <= s[i].at
  }

  lemma AroundDirection(s: seq<HeapEntry>, n: nat, k: int)
    requires n + HEAP0 <= |s| && HEAP0 <= k < n + HEAP0 && OrderedAround(s, n, k)
    ensures k != HEAP0 && s[k].at <= s[HParent(k)].at ==> OrderedBelow(s, n, k)
    ensures k == HEAP0 || s[HParent(k)].at <= s[k].at ==> OrderedAbove(s, n, k)
  {
  }

  /** Replacing one entry of a heap leaves only the edges at that entry in doubt. */
  lemma ReplacedAround(s: seq<HeapEntry>, n: nat, k: int, he: HeapEntry)
    requires n + HEAP0 <= |s| && HEAP0 <= k < n + HEAP0 && Ordered(s, n)
    ensures OrderedAround(s[k := he], n, k)
  {
    forall c | HEAP0 <= c < n + HEAP0 && c != HEAP0 && HParent(c) == k && k != HEAP0
      ensures s[k := he][HParent(k)].at <= s[k := he][c].at
    {
      assert s[HParent(k)].at <= s[k].at <= s[c].at;
    }
  }

  method AdjustHeap(heap: array<HeapEntry>, n: nat, k: int, ghost members: set<Watcher>)
    requires n + HEAP0 <= heap.Length && HEAP0 <= k < n + HEAP0
    requires LinkedAround(heap, n, k, heap[k], members)
    requires OrderedAround(heap[..], n, k)
    modifies heap, members`active
    ensures Heap(heap, n, members)
    ensures heap[n + HEAP0..] == old(heap[n + HEAP0..])
  {
    AroundDirection(heap[..], n, k);
    if k > HEAP0 && heap[k].at <= heap[HParent(k)].at {
      Upheap(heap, n, k, members);
    } else {
      Downheap(heap, n, k, members);
    }
  }

  ghost function Watchers(s: seq<HeapEntry>): set<Watcher> { set e | e in s :: e.w }

  ghost predicate Distinct(s: seq<HeapEntry>) {
    forall i, j :: 0 <= i < j < |s| ==> s[i].w != s[j].w
  }

  /**
   Rebuilds a heap whose keys changed arbitrarily.  Nothing is assumed of the order or of
   the stored indices: the result is a heap of exactly the watchers that were in the array.
  */
  method Reheap(heap: array<HeapEntry>, n: nat)
    requires n + HEAP0 <= heap.Length
    requires Distinct(heap[HEAP0..n + HEAP0])
    requires forall i :: HEAP0 <= i < n + HEAP0 ==> heap[i].at == heap[i].w.at
    modifies heap, Watchers(heap[HEAP0..n + HEAP0])`active
    ensures Heap(heap, n, old(Watchers(heap[HEAP0..n + HEAP0])))
    ensures heap[n + HEAP0..] == old(heap[n + HEAP0..])
  {
    ghost var s, rest := heap[HEAP0..n + HEAP0], heap[HEAP0..];
    for i := 0 to n
      invariant Heap(heap, i, Watchers(s[..i]))
      invariant heap[i + HEAP0..] == rest[i..]
    {
      PrefixGrows(s, i);
      assert heap[i + HEAP0] == heap[i + HEAP0..][0] == s[i];
      assert heap[i + 1 + HEAP0..] == heap[i + HEAP0..][1..] == rest[i..][1..] == rest[i + 1..];
      Upheap(heap, i + 1, i + HEAP0, Watchers(s[..i + 1]));
    }
    assert s[..n] == s;
  }

  lemma PrefixGrows(s: seq<HeapEntry>, i: nat)
    requires i < |s| && Distinct(s)
    ensures Watchers(s[..i + 1]) == Watchers(s[..i]) + {s[i].w} && s[i].w !in Watchers(s[..i])
  {
    assert s[..i + 1] == s[..i] + [s[i]];
  }

  // ----- the three ways a watcher enters, leaves or moves -----

  lemma HeapMoved(heap: array<HeapEntry>, other: array<HeapEntry>, n: nat, members: set<Watcher>)
    requires Heap(heap, n, members)
    requires n + HEAP0 <= other.Length && other[..n + HEAP0] == heap[..n + HEAP0]
    ensures Heap(other, n, members)
  {
    assert forall i :: HEAP0 <= i < n + HEAP0 ==> other[i] == other[..n + HEAP0][i] == heap[..n + HEAP0][i] == heap[i];
  }

  method Insert(heap: array<HeapEntry>, n: nat, w: Watcher, ghost members: set<Watcher>)
    requires Heap(heap, n, members) && w !in members
    requires n + 1 + HEAP0 <= heap.Length
    modifies heap, members`active, w`active
    ensures Heap(heap, n + 1, members + {w})
  {
    w.active := n + HEAP0;
    heap[w.active] := HeapEntry(w.at, w);
    Upheap(heap, n + 1, w.active, members + {w});
  }

  /** The last entry takes the place of the one that leaves. */
  method Remove(heap: array<HeapEntry>, n: nat, w: Watcher, ghost members: set<Watcher>)
    requires Heap(heap, n, members) && w in members
    modifies heap, (members - {w})`active
    ensures 0 < n && Heap(heap, n - 1, members - {w})
  {
    var active := w.active;
    var m := n - 1;
    if active < m + HEAP0 {
      ReplacedAround(heap[..], n, active, heap[m + HEAP0]);
      heap[active] := heap[m + HEAP0];
      AdjustHeap(heap, m, active, members - {w});
    }
  }

  /** Restores the order after the deadline of one watcher has changed. */
  method Rekey(heap: array<HeapEntry>, n: nat, w: Watcher, ghost members: set<Watcher>)
    requires n + HEAP0 <= heap.Length && w in members && HEAP0 <= w.active < n + HEAP0 && heap[w.active].w == w
    requires LinkedAround(heap, n, w.active, HeapEntry(w.at, w), members) && Ordered(heap[..], n)
    modifies heap, members`active
    ensures Heap(heap, n, members)
  {
    ReplacedAround(heap[..], n, w.active, HeapEntry(w.at, w));
    heap[w.active] := HeapEntry(w.at, w);
    AdjustHeap(heap, n, w.active, members);
  }

  lemma {:induction false} RootIsEarliest(s: seq<HeapEntry>, n: nat, i: int)
    requires n + HEAP0 <= |s| && Ordered(s, n) && HEAP0 <= i < n + HEAP0
    ensures s[HEAP0].at <= s[i].at
    decreases i
  {
    if i != HEAP0 {
      RootIsEarliest(s, n, HParent(i));
    }
  }

  lemma RootFirst(heap: array<HeapEntry>, n: nat, members: set<Watcher>)
    requires Heap(heap, n, members)
    ensures n == 0 ==> members == {}
    ensures n > 0 ==> heap[HEAP0].w in members && heap[HEAP0].at == heap[HEAP0].w.at
    ensures n > 0 ==> forall w :: w in members ==> heap[HEAP0].at <= w.at && w.active != 0
  {
    if n == 0 {
      if w :| w in members { assert false; }
    } else {
      forall w | w in members ensures heap[HEAP0].at <= w.at {
        RootIsEarliest(heap[..], n, w.active);
      }
    }
  }

  /** The watcher on top of the heap gets a new deadline. */
  method DelayRoot(heap: array<HeapEntry>, n: nat, at: real, ghost members: set<Watcher>)
    requires Heap(heap, n, members) && n > 0
    modifies heap, members`active, heap[HEAP0].w`at
    ensures Heap(heap, n, members) && old(heap[HEAP0].w).at == at
  {
    var w := heap[HEAP0].w;
    w.at := at;
    heap[HEAP0] := HeapEntry(w.at, w);
    Downheap(heap, n, HEAP0, members);
  }

  /** array_needsize, up to the choice of the new capacity. */
  method NeedSize(heap: array<HeapEntry>, n: nat, cnt: nat, filler: HeapEntry, ghost members: set<Watcher>)
    returns (grown: array<HeapEntry>)
    requires Heap(heap, n, members)
    ensures Heap(grown, n, members) && cnt <= grown.Length
    ensures grown == heap || fresh(grown)
  {
    grown := heap;
    if cnt > heap.Length {
      var ncur := 2 * (heap.Length + 1);
      while cnt > ncur { ncur := 2 * ncur; }
      grown := new HeapEntry[ncur](i reads heap => if 0 <= i < heap.Length then heap[i] else filler);
      HeapMoved(heap, grown, n, members);
    }
  }
}
