/**
 What may happen to an evbuffer while an overlapped write of it is under way (buffer.c against
 buffer_iocp.c): the start of the buffer is frozen, and whatever else is called leaves the chains
 that the operating system looks at where they are.
*/
module EvBufferInFlight {
  import opened Chains
  import opened EvBuffer
  import opened EvBufferMove
  import opened EvBufferPullup
  import opened EvBufferIocp
  import EvBufferLines

  /** The chains that a write shows are the same, pinned and with their data in place; no other is pinned. */
  twostate predicate Held(o: Overlapped)
    reads o, o.buf`chains, o.buf.chains`pinned, o.buf.chains`misalign, o.buf.chains`off
  {
    var n, before, now := o.n_buffers, old(o.buf.chains), o.buf.chains;
    && n <= |before| && n <= |now|
    && (forall i :: 0 <= i < n ==> now[i] == before[i])
    && (forall i :: 0 <= i < n ==> now[i].pinned && now[i].misalign == old(before[i].misalign) && now[i].off >= old(before[i].off))
    && (forall i :: 0 <= i < n - 1 ==> now[i].off == old(before[i].off))
    && (forall i :: n <= i < |now| ==> !now[i].pinned)
  }

  /**
   A write is under way, in which the operating system finds the bytes `wire`: it looks at the
   chains `shown`, none of which was freed or has its data elsewhere than it was told.
  */
  ghost predicate Carries(o: Overlapped, wire: seq<byte>, shown: seq<Chain>)
    reads o, o.buf, o.buf.chains, (set c | c in o.buf.chains :: c.buffer), (set b | b in o.buffers :: b.mem)
  {
    && o.InFlight() && Bounded(o.buffers) && Wire(o.buffers) == wire
    && |shown| == o.n_buffers && shown <= o.buf.chains
    && forall i :: 0 <= i < |shown| ==>
         var c := o.buf.chains[i]; !c.freed && o.buffers[i].mem == c.buffer && o.buffers[i].at == c.misalign
  }

  /** The write goes on as if nothing had happened. */
  twostate predicate Undisturbed(o: Overlapped)
    reads o, o.buf, o.buf.chains, (set c | c in o.buf.chains :: c.buffer), (set b | b in o.buffers :: b.mem)
  {
    && unchanged(o) && old(Bounded(o.buffers)) && o.n_buffers <= |old(o.buf.chains)|
    && Carries(o, old(Wire(o.buffers)), old(o.buf.chains)[..o.n_buffers])
  }

  lemma FlightParts(o: Overlapped)
    requires o.InFlight()
    ensures o.buf.Valid() && o.buf.freeze_start && o.buf.Content() != [] && o.buf.total_len > 0
    ensures 0 < o.n_buffers == |o.buffers| <= |o.buf.chains| && o.buf.first == o.buf.chains[0]
    ensures forall i :: 0 <= i < |o.buf.chains| ==> (o.buf.chains[i].pinned <==> i < o.n_buffers)
    ensures forall i :: 0 <= i < o.n_buffers ==>
              o.buffers[i].mem == o.buf.chains[i].buffer && o.buffers[i].at == o.buf.chains[i].misalign
    ensures Bounded(o.buffers) && Wire(o.buffers) <= o.buf.Content() && |Wire(o.buffers)| == Total(o.buffers)
  {
    o.WireIsContent();
    forall i | 0 <= i < o.n_buffers
      ensures o.buf.chains[i].pinned && o.buffers[i].mem == o.buf.chains[i].buffer
      ensures o.buffers[i].at == o.buf.chains[i].misalign
    {
      assert Shows(o.buffers[i], o.buf.chains[i]);
    }
  }

  twostate lemma StillAimed(o: Overlapped)
    requires Held(o) && unchanged(o) && old(Aimed(o.buffers, o.buf.chains)) && |o.buffers| == o.n_buffers
    ensures Aimed(o.buffers, o.buf.chains)
  {
    forall i | 0 <= i < |o.buffers| ensures Shows(o.buffers[i], o.buf.chains[i]) {
      assert old(Shows(o.buffers[i], o.buf.chains[i]));
    }
  }

  /** A write stays under way when its chains were held and the buffer only got more data at its end. */
  twostate lemma StillInFlight(o: Overlapped)
    requires old(o.InFlight()) && unchanged(o) && Held(o)
    requires o.buf.Valid() && o.buf.freeze_start && old(o.buf.Content()) <= o.buf.Content()
    ensures o.InFlight()
  {
    StillAimed(o);
  }

  twostate lemma Conclude(o: Overlapped)
    requires old(o.InFlight()) && unchanged(o) && Held(o)
    requires o.buf.Valid() && o.buf.freeze_start && old(o.buf.Content()) <= o.buf.Content()
    requires old(Bounded(o.buffers) && Wire(o.buffers) <= o.buf.Content() && |Wire(o.buffers)| == Total(o.buffers))
    ensures Undisturbed(o)
  {
    hide Overlapped.InFlight, Buffer.Valid, Buffer.Content, Wire, Bounded, Total;
    StillInFlight(o);
    FlightParts(o);
    o.buf.AllOk();
    assert forall i :: 0 <= i < |o.buf.chains| ==> o.buf.chains[i] in o.buf.chains;
  }

  /** When the list only grew at its end, by chains that are not pinned. */
  twostate lemma HeldByGrowth(o: Overlapped)
    requires unchanged(o) && o.n_buffers <= |old(o.buf.chains)| && o.buf.Grown()
    requires forall i :: 0 <= i < |old(o.buf.chains)| ==> (old(o.buf.chains[i].pinned) <==> i < o.n_buffers)
    requires forall i :: |old(o.buf.chains)| <= i < |o.buf.chains| ==> !o.buf.chains[i].pinned
    ensures Held(o)
  {
  }

  /** Chains that joined the list are not pinned when none of those they come from is. */
  twostate lemma Joiners(b: Buffer, new from: seq<Chain>)
    requires old(b.chains) <= b.chains && b.Valid()
    requires JoinedFrom(old(b.chains), from, b.chains) && forall c :: c in from ==> !c.pinned
    ensures forall i :: |old(b.chains)| <= i < |b.chains| ==> !b.chains[i].pinned
  {
    SegDistinct(b.first, b.chains, null);
    forall i | |old(b.chains)| <= i < |b.chains| ensures !b.chains[i].pinned {
      assert b.chains[i] in b.chains;
      assert forall j :: 0 <= j < |old(b.chains)| ==> old(b.chains)[j] == b.chains[j];
    }
  }

  /** When chains that are not pinned joined the list at its end. */
  twostate lemma ConcludeGrown(o: Overlapped, new from: seq<Chain>)
    requires old(o.InFlight()) && unchanged(o) && 0 < o.n_buffers <= |old(o.buf.chains)|
    requires forall i :: 0 <= i < |old(o.buf.chains)| ==> (old(o.buf.chains[i].pinned) <==> i < o.n_buffers)
    requires old(Bounded(o.buffers) && Wire(o.buffers) <= o.buf.Content() && |Wire(o.buffers)| == Total(o.buffers))
    requires o.buf.Valid() && o.buf.freeze_start && old(o.buf.Content()) <= o.buf.Content() && o.buf.Grown()
    requires JoinedFrom(old(o.buf.chains), from, o.buf.chains) && forall c :: c in from ==> !c.pinned
    ensures Undisturbed(o)
  {
    hide Overlapped.InFlight, Undisturbed, Held, JoinedFrom, Buffer.Valid, Buffer.Content, Wire, Bounded, Total;
    Joiners(o.buf, from);
    HeldByGrowth(o);
    Conclude(o);
  }

  /** evbuffer_add while a write is under way. */
  method AddInFlight(o: Overlapped, data: seq<byte>) returns (result: int)
    requires o.InFlight()
    modifies o.buf`chains, o.buf`first, o.buf`last, o.buf`last_with_datap, o.buf`total_len
    modifies o.buf.LastOne()`freed, o.buf.LastOne()`dangling, o.buf.LastOne()`next, o.buf.LastOne()`off,
             o.buf.LastOne()`misalign
    modifies Memory(o.buf.LastOne())
    ensures result == if o.buf.freeze_end then -1 else 0
    ensures Undisturbed(o) && o.buf.OnlyNew() && old(o.buf.chains) <= o.buf.chains
    ensures o.buf.Content() == old(o.buf.Content()) + if o.buf.freeze_end then [] else data
  {
    hide Overlapped.InFlight, Undisturbed, Held, Buffer.Valid, Buffer.Content, Buffer.LastOne, Buffer.Extended, Wire,
         Bounded, Total;
    FlightParts(o);
    result := o.buf.Add(data);
    ConcludeGrown(o, []);
  }

  // ----- evbuffer_pullup -----

  /** With two chains pinned there is no pulling bytes out of the second. */
  lemma SecondPinned(b: Buffer, n: nat)
    requires b.Valid() && |b.chains| > 1 && b.chains[1].pinned && b.chains[0].off < n
    ensures Obstructed(b, n)
  {
    var rest := b.chains[1..];
    OffsOfNone(rest[..0]);
    assert rest[0].pinned && Offs(rest[..0]) < n - b.chains[0].off;
  }

  twostate lemma HeldByPullup(o: Overlapped)
    requires unchanged(o) && o.n_buffers == 1 && o.buf.Valid() && o.buf.chains != []
    requires old(o.buf.chains) != [] && o.buf.chains[0] == old(o.buf.chains)[0] && o.buf.PinnedStay() && o.buf.OnlyNew()
    requires forall i :: 0 <= i < |old(o.buf.chains)| ==> (old(o.buf.chains[i].pinned) <==> i < 1)
    requires forall i :: 0 <= i < |old(o.buf.chains)| ==> old(o.buf.chains)[i].pinned == old(o.buf.chains[i].pinned)
    ensures Held(o)
  {
    SegDistinct(o.buf.first, o.buf.chains, null);
    forall i | 1 <= i < |o.buf.chains| ensures !o.buf.chains[i].pinned {
      assert o.buf.chains[i] in o.buf.chains;
    }
  }

  twostate lemma ConcludePulled(o: Overlapped)
    requires old(o.InFlight()) && unchanged(o) && o.n_buffers == 1 && o.buf.Valid() && o.buf.chains != []
    requires old(o.buf.chains) != [] && o.buf.chains[0] == old(o.buf.chains)[0] && o.buf.PinnedStay() && o.buf.OnlyNew()
    requires forall i :: 0 <= i < |old(o.buf.chains)| ==> (old(o.buf.chains[i].pinned) <==> i < 1)
    requires forall i :: 0 <= i < |old(o.buf.chains)| ==> old(o.buf.chains)[i].pinned == old(o.buf.chains[i].pinned)
    requires old(Bounded(o.buffers) && Wire(o.buffers) <= o.buf.Content() && |Wire(o.buffers)| == Total(o.buffers))
    requires old(o.buf.Content()) <= o.buf.Content() && o.buf.freeze_start
    ensures Undisturbed(o)
  {
    hide Overlapped.InFlight, Undisturbed, Held, Buffer.Valid, Buffer.Content, Wire, Bounded, Total;
    HeldByPullup(o);
    Conclude(o);
  }

  twostate lemma HeldUntouched(o: Overlapped)
    requires unchanged(o) && o.buf.Untouched() && o.n_buffers <= |old(o.buf.chains)|
    requires forall i :: 0 <= i < |old(o.buf.chains)| ==> (old(o.buf.chains[i].pinned) <==> i < o.n_buffers)
    ensures Held(o)
  {
  }

  twostate lemma ConcludeUntouched(o: Overlapped)
    requires old(o.InFlight()) && unchanged(o) && 0 < o.n_buffers <= |old(o.buf.chains)|
    requires forall i :: 0 <= i < |old(o.buf.chains)| ==> (old(o.buf.chains[i].pinned) <==> i < o.n_buffers)
    requires old(Bounded(o.buffers) && Wire(o.buffers) <= o.buf.Content() && |Wire(o.buffers)| == Total(o.buffers))
    requires o.buf.Valid() && old(o.buf.Content()) <= o.buf.Content() && old(o.buf.freeze_start) && o.buf.Untouched()
    ensures Undisturbed(o)
  {
    hide Overlapped.InFlight, Undisturbed, Held, Buffer.Valid, Buffer.Content, Wire, Bounded, Total;
    HeldUntouched(o);
    Conclude(o);
  }

  /** evbuffer_pullup while a write is under way. */
  method PullupInFlight(o: Overlapped, size: int) returns (result: Chain?)
    requires o.InFlight()
    modifies o.buf`first, o.buf`last, o.buf`last_with_datap, o.buf`chains, Memory(o.buf.chains)
    modifies o.buf.chains`next, o.buf.chains`off, o.buf.chains`misalign, o.buf.chains`freed, o.buf.chains`dangling
    ensures Undisturbed(o) && o.buf.OnlyNew() && o.buf.NoneLost(old(o.buf.chains))
    ensures o.buf.Content() == old(o.buf.Content())
    ensures o.n_buffers > 1 ==> o.buf.Untouched()
  {
    hide Overlapped.InFlight, Undisturbed, Held, Buffer.Valid, Buffer.Content, Wire, Bounded, Total, Obstructed,
         Buffer.PinnedStay, Buffer.OnlyNew, Buffer.NoneLost, Buffer.Untouched;
    FlightParts(o);
    ghost var n := if size < 0 then o.buf.total_len else size;
    if o.n_buffers > 1 && o.buf.chains[0].off < n { SecondPinned(o.buf, n); }
    result := Pullup(o.buf, size);
    if o.n_buffers > 1 {
      ConcludeUntouched(o);
    } else {
      ConcludePulled(o);
    }
  }

  // ----- data from another buffer -----

  /** Another buffer.  When it has pinned chains, for a write of its own, its start is frozen. */
  ghost predicate Beside(o: Overlapped, other: Buffer)
    reads o, o.buf`chains, other, other.chains, set c | c in other.chains :: c.buffer
  {
    other.Valid() && Disjoint(o.buf, other) && (other.freeze_start || forall c :: c in other.chains ==> !c.pinned)
  }

  lemma NotSame(a: Buffer, b: Buffer)
    requires Disjoint(a, b)
    ensures a != b
  {
  }

  /** evbuffer_add_buffer, to the end of the buffer that is being written. */
  method AddBufferInFlight(o: Overlapped, other: Buffer) returns (result: int)
    requires o.InFlight() && Beside(o, other)
    modifies o.buf`first, o.buf`last, o.buf`last_with_datap, o.buf`total_len, o.buf`chains
    modifies o.buf.chains`freed, o.buf.chains`dangling, o.buf.chains`next
    modifies other`first, other`last, other`last_with_datap, other`total_len, other`chains
    ensures Undisturbed(o) && Beside(o, other) && old(o.buf.chains) <= o.buf.chains
    ensures JoinedFrom(old(o.buf.chains), old(other.chains), o.buf.chains)
    ensures forall c :: c in other.chains ==> c in old(other.chains)
    ensures var moves := old(other.Content()) != [] && !o.buf.freeze_end && !other.freeze_start;
            && result == (if moves || old(other.Content()) == [] then 0 else -1)
            && o.buf.Content() == old(o.buf.Content()) + (if moves then old(other.Content()) else [])
            && other.Content() == (if moves then [] else old(other.Content()))
  {
    hide Overlapped.InFlight, Undisturbed, Held, Disjoint, Buffer.Valid, Buffer.Content, Wire, Bounded, Total;
    FlightParts(o);
    SizeIsLength(other);
    NotSame(o.buf, other);
    result := AddBuffer(o.buf, other);
    if o.buf.freeze_end || other.freeze_start {
      ConcludeUntouched(o);
    } else {
      ConcludeGrown(o, old(other.chains));
    }
  }

  /** evbuffer_remove_buffer, to the end of the buffer that is being written. */
  method RemoveBufferInFlight(o: Overlapped, other: Buffer, datlen: nat) returns (result: int)
    requires o.InFlight() && Beside(o, other)
    modifies o.buf`first, o.buf`last, o.buf`last_with_datap, o.buf`total_len, o.buf`chains
    modifies o.buf.chains`next, o.buf.chains`off, o.buf.chains`misalign, o.buf.chains`freed, o.buf.chains`dangling,
             Memory(o.buf.chains)
    modifies other`first, other`last, other`last_with_datap, other`total_len, other`chains
    modifies other.chains`next, other.chains`off, other.chains`misalign, other.chains`freed, other.chains`dangling,
             Memory(other.chains)
    ensures Undisturbed(o) && Beside(o, other) && old(o.buf.chains) <= o.buf.chains
    ensures JoinedFrom(old(o.buf.chains), old(other.chains), o.buf.chains)
    ensures forall c :: c in other.chains ==> c in old(other.chains)
    ensures var size := |old(other.Content())|;
            var n := if o.buf.freeze_end || other.freeze_start then 0 else if datlen >= size then size else datlen;
            && result == (if datlen > 0 && (o.buf.freeze_end || other.freeze_start) then -1 else n)
            && o.buf.Content() == old(o.buf.Content()) + old(other.Content())[..n]
            && other.Content() == old(other.Content())[n..]
  {
    hide Within, Spliced, Behind, Keeps, Buffer.NoneLost, JoinedFrom, Overlapped.InFlight, Undisturbed, Held,
         Disjoint, Buffer.Valid, Buffer.Content, Wire, Bounded, Total;
    FlightParts(o);
    SizeIsLength(other);
    NotSame(o.buf, other);
    ghost var k;
    result, k := RemoveBuffer(other, o.buf, datlen);
    if o.buf.freeze_end || other.freeze_start || datlen == 0 {
      ConcludeUntouched(o);
    } else {
      ConcludeGrown(o, old(other.chains));
    }
  }

  twostate lemma StillUnpinned(b: Buffer)
    requires b.OnlyNew() && forall i :: 0 <= i < |old(b.chains)| ==> old(b.chains)[i].pinned == old(b.chains[i].pinned)
    ensures old(forall c :: c in b.chains ==> !c.pinned) ==> forall c :: c in b.chains ==> !c.pinned
  {
  }

  /** An evbuffer_add leaves another buffer alone. */
  method AddApart(b: Buffer, other: Buffer, data: seq<byte>) returns (result: int)
    requires b.Valid() && other.Valid() && Disjoint(b, other)
    modifies other`chains, other`first, other`last, other`last_with_datap, other`total_len
    modifies other.LastOne()`freed, other.LastOne()`dangling, other.LastOne()`next, other.LastOne()`off,
             other.LastOne()`misalign
    modifies Memory(other.LastOne())
    ensures b.Untouched() && b.Valid() && b.Content() == old(b.Content())
    ensures other.Valid() && Disjoint(b, other) && other.OnlyNew()
    ensures result == if other.freeze_end then -1 else 0
    ensures other.Content() == old(other.Content()) + if other.freeze_end then [] else data
  {
    hide Buffer.Valid, Buffer.Content, Buffer.LastOne, Buffer.Extended, Buffer.Grown;
    LastOneIn(other);
    ApartByIndex(other.LastOne(), b.chains);
    result := other.Add(data);
  }

  /** The other buffer gets more data. */
  method AddToOther(o: Overlapped, other: Buffer, data: seq<byte>) returns (result: int)
    requires o.InFlight() && Beside(o, other)
    modifies other`chains, other`first, other`last, other`last_with_datap, other`total_len
    modifies other.chains`next, other.chains`off, other.chains`misalign, other.chains`freed, other.chains`dangling,
             Memory(other.chains)
    ensures Undisturbed(o) && o.buf.Untouched() && Beside(o, other) && other.OnlyNew()
    ensures result == if other.freeze_end then -1 else 0
    ensures other.Content() == old(other.Content()) + if other.freeze_end then [] else data
  {
    hide Overlapped.InFlight, Undisturbed, Disjoint, Buffer.Valid, Buffer.Content, Buffer.LastOne, Buffer.OnlyNew,
         Wire, Bounded, Total;
    FlightParts(o);
    LastOneIn(other);
    result := AddApart(o.buf, other, data);
    ConcludeUntouched(o);
    StillUnpinned(other);
  }

  // ----- what the frozen start of the buffer refuses -----

  /** Calls that would take data from the start of the buffer, or put data there. */
  datatype FrontCall =
    | Prepend(data: seq<byte>)
    | Drain(len: nat)
    | Remove(len: nat)
    | ReadLine(style: EvBufferLines.EolStyle)
    | PrependOther
    | GiveAll
    | GiveAllInFront
    | Give(len: nat)

  /** Each of them reports that it failed, unless there was nothing to do. */
  predicate Fails(call: FrontCall, other: seq<byte>) {
    match call
    case Remove(len) => len > 0
    case Give(len) => len > 0
    case PrependOther => other != []
    case _ => true
  }

  method FrontAlone(b: Buffer, call: FrontCall) returns (failed: bool)
    requires b.Valid() && b.freeze_start && b.Content() != []
    requires call.Prepend? || call.Drain? || call.Remove? || call.ReadLine?
    modifies b`chains, b`first, b`last, b`last_with_datap, b`total_len
    modifies b.chains`next, b.chains`off, b.chains`misalign, b.chains`freed, b.chains`dangling, Memory(b.chains)
    ensures b.Untouched() && b.Valid() && b.Content() == old(b.Content()) && failed == Fails(call, [])
  {
    hide Buffer.Valid, Buffer.Content, Buffer.Drop;
    SizeIsLength(b);
    match call {
      case Prepend(data) => var r := b.Prepend(data); failed := r < 0;
      case Drain(len) => var r, _ := b.Drain(len); failed := r < 0;
      case Remove(len) => var r, _ := b.Remove(len); failed := r < 0;
      case ReadLine(style) => var line, _ := EvBufferLines.ReadLn(b, style); failed := line.None?;
    }
  }

  method FrontWith(b: Buffer, other: Buffer, call: FrontCall) returns (failed: bool)
    requires b.Valid() && b.freeze_start && b.Content() != [] && other.Valid() && Disjoint(b, other)
    requires call.PrependOther? || call.GiveAll? || call.GiveAllInFront? || call.Give?
    modifies b`chains, b`first, b`last, b`last_with_datap, b`total_len
    modifies b.chains`next, b.chains`off, b.chains`misalign, b.chains`freed, b.chains`dangling, Memory(b.chains)
    modifies other`chains, other`first, other`last, other`last_with_datap, other`total_len
    modifies other.chains`next, other.chains`off, other.chains`misalign, other.chains`freed, other.chains`dangling,
             Memory(other.chains)
    ensures b.Untouched() && b.Valid() && b.Content() == old(b.Content())
    ensures other.Untouched() && other.Valid() && failed == old(Fails(call, other.Content()))
  {
    hide Buffer.Valid, Buffer.Content;
    SizeIsLength(b);
    SizeIsLength(other);
    match call {
      case PrependOther => var r := PrependBuffer(b, other); failed := r < 0;
      case GiveAll => var r := AddBuffer(other, b); failed := r < 0;
      case GiveAllInFront => var r := PrependBuffer(other, b); failed := r < 0;
      case Give(len) => var r, _ := RemoveBuffer(b, other, len); failed := r < 0;
    }
  }

  /** While a write is under way these calls change nothing at all. */
  method FrontInFlight(o: Overlapped, other: Buffer, call: FrontCall) returns (failed: bool)
    requires o.InFlight() && Beside(o, other)
    modifies o.buf`chains, o.buf`first, o.buf`last, o.buf`last_with_datap, o.buf`total_len
    modifies o.buf.chains`next, o.buf.chains`off, o.buf.chains`misalign, o.buf.chains`freed, o.buf.chains`dangling,
             Memory(o.buf.chains)
    modifies other`chains, other`first, other`last, other`last_with_datap, other`total_len
    modifies other.chains`next, other.chains`off, other.chains`misalign, other.chains`freed, other.chains`dangling,
             Memory(other.chains)
    ensures Undisturbed(o) && Beside(o, other) && o.buf.Untouched() && other.Untouched()
    ensures failed == old(Fails(call, other.Content()))
  {
    hide Overlapped.InFlight, Undisturbed, Held, Buffer.Valid, Buffer.Content, Wire, Bounded, Total;
    FlightParts(o);
    if call.Prepend? || call.Drain? || call.Remove? || call.ReadLine? {
      failed := FrontAlone(o.buf, call);
    } else {
      failed := FrontWith(o.buf, other, call);
    }
    ConcludeUntouched(o);
  }

  // ----- any number of calls -----

  /** Whatever the program calls on the buffer, and the calls that move data in from another one. */
  datatype Call =
    | Append(data: seq<byte>)
    | AppendOther
    | AppendFrom(len: nat)
    | PullUp(size: int)
    | FillOther(data: seq<byte>)
    | Front(call: FrontCall)

  /** Which ends are frozen: that of the buffer, and the two of the other buffer. */
  datatype Frozen = Frozen(end: bool, otherStart: bool, otherEnd: bool)

  function FrozenEnds(b: Buffer, other: Buffer): Frozen
    reads b`freeze_end, other`freeze_start, other`freeze_end
  {
    Frozen(b.freeze_end, other.freeze_start, other.freeze_end)
  }

  /** What a call adds to the end of the buffer, and what the other buffer holds afterwards. */
  function Effect(call: Call, other: seq<byte>, f: Frozen): (seq<byte>, seq<byte>) {
    match call
    case Append(data) => (if f.end then [] else data, other)
    case AppendOther => if f.end || f.otherStart then ([], other) else (other, [])
    case AppendFrom(len) =>
      if f.end || f.otherStart then ([], other)
      else if len >= |other| then (other, []) else (other[..len], other[len..])
    case FillOther(data) => ([], if f.otherEnd then other else other + data)
    case _ => ([], other)
  }

  function Effects(calls: seq<Call>, other: seq<byte>, f: Frozen): (seq<byte>, seq<byte>) {
    if calls == [] then ([], other)
    else
      var (added, more) := Effects(calls[..|calls| - 1], other, f);
      var (last, left) := Effect(calls[|calls| - 1], more, f);
      (added + last, left)
  }

  /** The chains come from these two lists, or are new. */
  twostate predicate Among(new a: seq<Chain>, new b: seq<Chain>, new cs: seq<Chain>) {
    forall c :: c in cs ==> c in a || c in b || (fresh(c) && fresh(c.buffer))
  }

  /** Calls that only move data neither lose nor repeat nor reorder a byte of the other buffer. */
  lemma {:induction false} MovesConserve(calls: seq<Call>, other: seq<byte>, f: Frozen)
    requires forall c :: c in calls ==> !c.Append? && !c.FillOther?
    ensures var (added, left) := Effects(calls, other, f);
            added + left == other
  {
    if calls != [] {
      var before := Effects(calls[..|calls| - 1], other, f);
      var last := Effect(calls[|calls| - 1], before.1, f);
      MovesConserve(calls[..|calls| - 1], other, f);
      assert last.0 + last.1 == before.1;
      Assoc(before.0, last.0, last.1);
    }
  }

  /** Two lists without a common chain, of which one stays and the other only got new chains. */
  lemma StillApart(before: seq<Chain>, now: seq<Chain>, others: seq<Chain>)
    requires (forall c :: c in before ==> c !in others) && Memory(before) !! Memory(others)
    requires forall c :: c in now ==> c in before || (c !in others && c.buffer !in Memory(others))
    ensures (forall c :: c in now ==> c !in others) && Memory(now) !! Memory(others)
  {
  }

  method AppendBeside(o: Overlapped, other: Buffer, data: seq<byte>)
    requires o.InFlight() && Beside(o, other)
    modifies o.buf`chains, o.buf`first, o.buf`last, o.buf`last_with_datap, o.buf`total_len
    modifies o.buf.chains`next, o.buf.chains`off, o.buf.chains`misalign, o.buf.chains`freed, o.buf.chains`dangling,
             Memory(o.buf.chains)
    ensures Undisturbed(o) && Beside(o, other) && other.Untouched() && o.buf.OnlyNew() && old(o.buf.chains) <= o.buf.chains
    ensures o.buf.Content() == old(o.buf.Content()) + if o.buf.freeze_end then [] else data
  {
    hide Overlapped.InFlight, Undisturbed, Held, Buffer.Valid, Buffer.Content, Buffer.LastOne, Wire, Bounded, Total;
    LastOneIn(o.buf);
    ApartByIndex(o.buf.LastOne(), other.chains);
    var _ := AddInFlight(o, data);
    StillApart(old(o.buf.chains), o.buf.chains, other.chains);
  }

  method PullUpBeside(o: Overlapped, other: Buffer, size: int)
    requires o.InFlight() && Beside(o, other)
    modifies o.buf`first, o.buf`last, o.buf`last_with_datap, o.buf`chains, Memory(o.buf.chains)
    modifies o.buf.chains`next, o.buf.chains`off, o.buf.chains`misalign, o.buf.chains`freed, o.buf.chains`dangling
    ensures Undisturbed(o) && Beside(o, other) && other.Untouched() && o.buf.OnlyNew() && o.buf.NoneLost(old(o.buf.chains))
    ensures o.buf.Content() == old(o.buf.Content())
  {
    hide Overlapped.InFlight, Undisturbed, Held, Buffer.Valid, Buffer.Content, Wire, Bounded, Total;
    ApartByIndex(o.buf.chains, other.chains);
    var _ := PullupInFlight(o, size);
    StillApart(old(o.buf.chains), o.buf.chains, other.chains);
  }

  method Do(o: Overlapped, other: Buffer, call: Call)
    requires o.InFlight() && Beside(o, other)
    modifies o.buf`chains, o.buf`first, o.buf`last, o.buf`last_with_datap, o.buf`total_len
    modifies o.buf.chains`next, o.buf.chains`off, o.buf.chains`misalign, o.buf.chains`freed, o.buf.chains`dangling,
             Memory(o.buf.chains)
    modifies other`chains, other`first, other`last, other`last_with_datap, other`total_len
    modifies other.chains`next, other.chains`off, other.chains`misalign, other.chains`freed, other.chains`dangling,
             Memory(other.chains)
    ensures Undisturbed(o) && Beside(o, other) && o.buf.NoneLost(old(o.buf.chains))
    ensures Among(old(o.buf.chains), old(other.chains), o.buf.chains)
    ensures Among(old(o.buf.chains), old(other.chains), other.chains)
    ensures var (added, left) := Effect(call, old(other.Content()), FrozenEnds(o.buf, other));
            o.buf.Content() == old(o.buf.Content()) + added && other.Content() == left
    ensures !call.PullUp? ==> old(o.buf.chains) <= o.buf.chains
  {
    hide Overlapped.InFlight, Undisturbed, Held, Buffer.Valid, Buffer.Content, Wire, Bounded, Total, Fails, Disjoint, Memory;
    match call {
      case Append(data) =>
        AppendBeside(o, other, data);
      case AppendOther =>
        var _ := AddBufferInFlight(o, other);
      case AppendFrom(len) =>
        var _ := RemoveBufferInFlight(o, other, len);
      case PullUp(size) =>
        PullUpBeside(o, other, size);
      case FillOther(data) =>
        var _ := AddToOther(o, other, data);
      case Front(front) =>
        var _ := FrontInFlight(o, other, front);
    }
  }

  /** The chains that joined bring no memory but that of the lists they come from. */
  twostate lemma AmongMemory(new a: seq<Chain>, new b: seq<Chain>, new cs: seq<Chain>) returns (added: set<array<byte>>)
    requires Among(a, b, cs)
    ensures Memory(cs) <= Memory(a) + Memory(b) + added && fresh(added)
    ensures forall i :: 0 <= i < |cs| ==> cs[i] in a || cs[i] in b || fresh(cs[i])
  {
    added := set m | m in Memory(cs) && m !in Memory(a) && m !in Memory(b);
    assert forall i :: 0 <= i < |cs| ==> cs[i] in cs;
  }

  predicate NoPullUp(calls: seq<Call>) {
    forall c :: c in calls ==> !c.PullUp?
  }

  /**
   Of the chains `cs` that the buffer had before the calls none is lost, and without
   evbuffer_pullup all stay where they were.
  */
  ghost predicate Kept(b: Buffer, cs: seq<Chain>, calls: seq<Call>)
    reads b`chains, cs`freed
  {
    b.NoneLost(cs) && (NoPullUp(calls) ==> cs <= b.chains)
  }

  /** The last of the calls. */
  method DoLast(o: Overlapped, other: Buffer, calls: seq<Call>, ghost cs: seq<Chain>)
    requires o.InFlight() && Beside(o, other) && calls != [] && Kept(o.buf, cs, calls[..|calls| - 1])
    modifies o.buf`chains, o.buf`first, o.buf`last, o.buf`last_with_datap, o.buf`total_len
    modifies o.buf.chains`next, o.buf.chains`off, o.buf.chains`misalign, o.buf.chains`freed, o.buf.chains`dangling,
             Memory(o.buf.chains)
    modifies other`chains, other`first, other`last, other`last_with_datap, other`total_len
    modifies other.chains`next, other.chains`off, other.chains`misalign, other.chains`freed, other.chains`dangling,
             Memory(other.chains)
    ensures Undisturbed(o) && Beside(o, other) && Kept(o.buf, cs, calls)
    ensures Among(old(o.buf.chains), old(other.chains), o.buf.chains)
    ensures Among(old(o.buf.chains), old(other.chains), other.chains)
    ensures var (added, left) := Effect(calls[|calls| - 1], old(other.Content()), FrozenEnds(o.buf, other));
            o.buf.Content() == old(o.buf.Content()) + added && other.Content() == left
  {
    hide Overlapped.InFlight, Undisturbed, Buffer.Valid, Buffer.Content, Wire, Bounded, Total, Effect, Disjoint, Memory, Among;
    FlightParts(o);
    o.buf.AllOk();
    other.AllOk();
    Do(o, other, calls[|calls| - 1]);
    forall i | 0 <= i < |cs| ensures cs[i] in o.buf.chains || cs[i].freed {
      if old(cs[i].freed) {
        assert cs[i] !in old(o.buf.chains) && cs[i] !in old(other.chains);
      }
    }
  }

  lemma CarriesNow(o: Overlapped)
    requires o.InFlight()
    ensures Bounded(o.buffers) && o.n_buffers <= |o.buf.chains|
    ensures Carries(o, Wire(o.buffers), o.buf.chains[..o.n_buffers])
  {
    FlightParts(o);
    o.buf.AllOk();
    assert forall i :: 0 <= i < o.n_buffers ==> o.buf.chains[i] in o.buf.chains;
  }

  lemma CarriesOnly(o: Overlapped, wire: seq<byte>, shown: seq<Chain>)
    requires Carries(o, wire, shown)
    ensures o.InFlight() && o.buf.Valid() && Bounded(o.buffers) && Wire(o.buffers) == wire
    ensures o.n_buffers <= |o.buf.chains| && o.buf.chains[..o.n_buffers] == shown
  {
  }

  lemma EffectsOfNone(other: seq<byte>, f: Frozen)
    ensures Effects([], other, f) == ([], other)
  {
  }

  lemma OneMoreEffect(start: seq<byte>, calls: seq<Call>, other: seq<byte>, f: Frozen)
    requires calls != []
    ensures var (added, more) := Effects(calls[..|calls| - 1], other, f);
            var (last, left) := Effect(calls[|calls| - 1], more, f);
            Effects(calls, other, f) == (added + last, left) && start + added + last == start + (added + last)
  {
    hide Effect;
    var (added, more) := Effects(calls[..|calls| - 1], other, f);
    Assoc(start, added, Effect(calls[|calls| - 1], more, f).0);
  }

  lemma AllKept(b: Buffer, calls: seq<Call>)
    ensures Kept(b, b.chains, calls)
  {
  }

  /** Any number of calls while a write is under way. */
  method DoAll(o: Overlapped, other: Buffer, calls: seq<Call>)
    requires o.InFlight() && Beside(o, other)
    modifies o.buf`chains, o.buf`first, o.buf`last, o.buf`last_with_datap, o.buf`total_len
    modifies o.buf.chains`next, o.buf.chains`off, o.buf.chains`misalign, o.buf.chains`freed, o.buf.chains`dangling,
             Memory(o.buf.chains)
    modifies other`chains, other`first, other`last, other`last_with_datap, other`total_len
    modifies other.chains`next, other.chains`off, other.chains`misalign, other.chains`freed, other.chains`dangling,
             Memory(other.chains)
    ensures Undisturbed(o) && Beside(o, other) && Kept(o.buf, old(o.buf.chains), calls)
    ensures Among(old(o.buf.chains), old(other.chains), o.buf.chains)
    ensures Among(old(o.buf.chains), old(other.chains), other.chains)
    ensures var (added, left) := Effects(calls, old(other.Content()), FrozenEnds(o.buf, other));
            o.buf.Content() == old(o.buf.Content()) + added && other.Content() == left
    decreases |calls|
  {
    hide Overlapped.InFlight, Carries, Buffer.Valid, Buffer.Content, Wire, Bounded, Total, Effect, Effects, Disjoint, Memory,
         Kept;
    FlightParts(o);
    EffectsOfNone(other.Content(), FrozenEnds(o.buf, other));
    if calls == [] {
      CarriesNow(o);
      AllKept(o.buf, calls);
      assert o.buf.Content() + [] == o.buf.Content();
    } else {
      OneMoreEffect(o.buf.Content(), calls, other.Content(), FrozenEnds(o.buf, other));
      DoAll(o, other, calls[..|calls| - 1]);
      CarriesOnly(o, old(Wire(o.buffers)), old(o.buf.chains)[..o.n_buffers]);
      var _ := AmongMemory(old(o.buf.chains), old(other.chains), o.buf.chains);
      var _ := AmongMemory(old(o.buf.chains), old(other.chains), other.chains);
      DoLast(o, other, calls, old(o.buf.chains));
    }
  }

  // ----- a whole write -----

  lemma DropOfBoth(content: seq<byte>, more: seq<byte>, n: nat)
    requires n <= |content|
    ensures n < |content + more| ==> (content + more)[n..] == content[n..] + more
    ensures n >= |content + more| ==> content[n..] + more == []
  {
  }

  lemma IdleIsValid(o: Overlapped)
    requires o.Idle()
    ensures o.Valid() && !o.write_in_progress && o.buf.Valid()
  {
  }

  /** evbuffer_launch_write leaves another buffer alone. */
  method LaunchBeside(o: Overlapped, other: Buffer, at_most: int)
    requires o.Idle() && !o.buf.freeze_start && o.buf.Content() != [] && Beside(o, other)
    modifies o`write_in_progress, o`first_pinned, o`n_buffers, o`buffers
    modifies o.buf`freeze_start, o.buf.chains`pinned, o.buf.chains`freed, o.buf.chains`dangling
    ensures o.InFlight() && o.buf.Content() == old(o.buf.Content()) && o.buf.chains == old(o.buf.chains)
    ensures Beside(o, other) && other.Untouched()
  {
    hide Overlapped.InFlight, Overlapped.Idle, Buffer.Valid, Buffer.Content;
    IdleIsValid(o);
    ApartByIndex(o.buf.chains, other.chains);
    var _ := o.LaunchWrite(at_most, false);
  }

  twostate lemma OffsOfGone(cs: seq<Chain>, new nBytes: nat, new gone: seq<Chain>)
    requires gone <= cs && old(Within(cs, nBytes, |gone|)) && forall i :: 0 <= i < |gone| ==> gone[i].off == old(cs[i].off)
    ensures Offs(gone) <= nBytes
  {
    if gone != [] {
      assert old(EndOf(cs, |gone| - 1)) <= nBytes;
      assert cs[..|gone| - 1 + 1] == gone;
      SameOffs(gone);
    }
  }

  /** And so does evbuffer_commit_write. */
  method CommitBeside(o: Overlapped, other: Buffer, nBytes: nat, ghost cs: seq<Chain>) returns (ghost gone: seq<Chain>)
    requires o.InFlight() && Beside(o, other) && o.buf.NoneLost(cs)
    modifies o`write_in_progress
    modifies o.buf`freeze_start, o.buf`chains, o.buf`first, o.buf`last, o.buf`last_with_datap, o.buf`total_len
    modifies o.buf.chains`freed, o.buf.chains`dangling, o.buf.chains`off, o.buf.chains`misalign, o.buf.chains`pinned
    ensures o.Idle() && !o.buf.freeze_start && o.buf.Content() == old(o.buf.Drop(nBytes))
    ensures old(o.buf.chains) == gone + o.buf.chains && Offs(gone) <= nBytes
    ensures (forall c :: c in gone ==> c.freed) && forall c :: c in o.buf.chains ==> !c.freed && c.off > 0
    ensures Beside(o, other) && other.Untouched() && o.buf.NoneLost(cs)
  {
    hide Within, Offs, Overlapped.InFlight, Overlapped.Idle, Buffer.Valid, Buffer.Content, Buffer.Drop;
    FlightParts(o);
    o.buf.AllOk();
    ApartByIndex(o.buf.chains, other.chains);
    ghost var listed := o.buf.chains;
    gone := o.CommitWrite(nBytes);
    assert gone == listed[..|gone|];
    OffsOfGone(listed, nBytes, gone);
    MemorySplit(gone, o.buf.chains);
    forall i | 0 <= i < |cs| ensures cs[i] in o.buf.chains || cs[i].freed {
      if old(cs[i].freed) { assert cs[i] !in old(o.buf.chains); }
    }
  }

  /** A write is launched, and anything is called while it is under way. */
  method LaunchAndDo(o: Overlapped, other: Buffer, at_most: int, calls: seq<Call>)
    requires o.Idle() && !o.buf.freeze_start && o.buf.Content() != [] && Beside(o, other)
    modifies o`write_in_progress, o`first_pinned, o`n_buffers, o`buffers
    modifies o.buf`freeze_start, o.buf`chains, o.buf`first, o.buf`last, o.buf`last_with_datap, o.buf`total_len
    modifies o.buf.chains, Memory(o.buf.chains)
    modifies other`chains, other`first, other`last, other`last_with_datap, other`total_len, other.chains,
             Memory(other.chains)
    ensures o.InFlight() && Beside(o, other) && Kept(o.buf, old(o.buf.chains), calls)
    ensures Among(old(o.buf.chains), old(other.chains), o.buf.chains)
    ensures o.n_buffers <= |old(o.buf.chains)| && old(o.buf.chains)[..o.n_buffers] <= o.buf.chains
    ensures var (added, left) := Effects(calls, old(other.Content()), FrozenEnds(o.buf, other));
            o.buf.Content() == old(o.buf.Content()) + added && other.Content() == left
  {
    hide Overlapped.InFlight, Overlapped.Idle, Carries, Buffer.Valid, Buffer.Content, Wire, Bounded, Effects,
         Disjoint, Memory, Kept;
    IdleIsValid(o);
    LaunchBeside(o, other, at_most);
    CarriesNow(o);
    ghost var wire, shown := Wire(o.buffers), o.buf.chains[..o.n_buffers];
    DoAll(o, other, calls);
    CarriesOnly(o, wire, shown);
  }

  /**
   One overlapped write: it is launched, anything is called while it is under way, and it is
   completed with `nBytes` of the bytes that it had.  The chains `gone` are the first of those that
   are listed then: all that lie within the bytes written, and no others, since each that stays
   holds a byte that was not written.
  */
  method Write(o: Overlapped, other: Buffer, at_most: int, calls: seq<Call>, nBytes: nat) returns (ghost gone: seq<Chain>)
    requires o.Idle() && !o.buf.freeze_start && o.buf.Content() != [] && nBytes <= |o.buf.Content()| && Beside(o, other)
    modifies o`write_in_progress, o`first_pinned, o`n_buffers, o`buffers
    modifies o.buf`freeze_start, o.buf`chains, o.buf`first, o.buf`last, o.buf`last_with_datap, o.buf`total_len
    modifies o.buf.chains, Memory(o.buf.chains)
    modifies other`chains, other`first, other`last, other`last_with_datap, other`total_len, other.chains,
             Memory(other.chains)
    ensures o.Idle() && !o.buf.freeze_start && Beside(o, other)
    ensures var (added, left) := Effects(calls, old(other.Content()), FrozenEnds(o.buf, other));
            o.buf.Content() == old(o.buf.Content())[nBytes..] + added && other.Content() == left
    ensures Offs(gone) <= nBytes && forall c :: c in gone ==> c.freed
    ensures forall c :: c in o.buf.chains ==> !c.freed && c.off > 0
    ensures o.n_buffers <= |old(o.buf.chains)| && old(o.buf.chains)[..o.n_buffers] <= gone + o.buf.chains
    ensures NoPullUp(calls) ==> old(o.buf.chains) <= gone + o.buf.chains
    ensures o.buf.NoneLost(old(o.buf.chains))
  {
    hide Overlapped.InFlight, Overlapped.Idle, Buffer.Valid, Buffer.Content, Effects, Disjoint, Memory, Among,
         Offs, NoPullUp, Buffer.NoneLost;
    IdleIsValid(o);
    ghost var content := o.buf.Content();
    LaunchAndDo(o, other, at_most, calls);
    FlightParts(o);
    var _ := AmongMemory(old(o.buf.chains), old(other.chains), o.buf.chains);
    DropOfBoth(content, Effects(calls, old(other.Content()), FrozenEnds(o.buf, other)).0, nBytes);
    gone := CommitBeside(o, other, nBytes, old(o.buf.chains));
  }
}
