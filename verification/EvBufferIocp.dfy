/**
 Overlapped writes (buffer_iocp.c, the write half): the operating system reads the chains of an
 evbuffer while the program goes on appending to it.
*/
module EvBufferIocp {
  import opened Chains
  import opened EvBuffer
  import opened EvBufferMove

  const MAX_WSABUFS := 16

  /** WSABUF: `len` bytes of memory from `at` on. */
  datatype WsaBuf = WsaBuf(mem: array<byte>, at: nat, len: nat)

  ghost predicate Bounded(bs: seq<WsaBuf>) {
    forall b :: b in bs ==> b.at + b.len <= b.mem.Length
  }

  /** The bytes that the operating system finds when it looks at the buffers. */
  ghost function Wire(bs: seq<WsaBuf>): seq<byte>
    requires Bounded(bs)
    reads set b | b in bs :: b.mem
  {
    if bs == [] then [] else bs[0].mem[bs[0].at..bs[0].at + bs[0].len] + Wire(bs[1..])
  }

  ghost function Total(bs: seq<WsaBuf>): nat {
    if bs == [] then 0 else bs[0].len + Total(bs[1..])
  }

  /** The buffer shows the start of the data of a pinned chain. */
  ghost predicate Shows(b: WsaBuf, c: Chain)
    reads c`pinned, c`misalign, c`off
  {
    c.pinned && b.mem == c.buffer && b.at == c.misalign && b.len <= c.off
  }

  /** Only the last buffer may show less than the whole of its chain. */
  ghost predicate Aimed(bs: seq<WsaBuf>, cs: seq<Chain>)
    reads cs`pinned, cs`misalign, cs`off
  {
    && |bs| <= |cs|
    && (forall i :: 0 <= i < |bs| ==> Shows(bs[i], cs[i]))
    && (forall i :: 0 <= i < |bs| - 1 ==> bs[i].len == cs[i].off)
  }

  lemma {:induction false} WireShowsBytes(bs: seq<WsaBuf>, cs: seq<Chain>)
    requires Sound(cs) && Aimed(bs, cs)
    ensures Bounded(bs) && Wire(bs) <= Bytes(cs) && |Wire(bs)| == Total(bs)
  {
    hide Shows, Chain.Data;
    if bs != [] {
      var b, more := bs[0], bs[1..];
      assert bs == [b] + more && Shows(b, cs[0]);
      assert forall i :: 0 <= i < |more| ==> more[i] == bs[i + 1] && cs[1..][i] == cs[i + 1];
      WireShowsBytes(more, cs[1..]);
      ShowsData(b, cs[0]);
      WireCons(b, more);
      var shown, d, rest := b.mem[b.at..b.at + b.len], cs[0].Data(), Bytes(cs[1..]);
      if more == [] {
        assert Wire(more) == [] && shown + [] == shown;
        assert (d + rest)[..b.len] == shown;
      } else {
        assert b.len == cs[0].off && shown == d;
        assert (d + rest)[..|d| + |Wire(more)|] == d + Wire(more);
      }
    }
  }

  lemma ShowsData(b: WsaBuf, c: Chain)
    requires Shows(b, c) && c.Ok()
    ensures b.at + b.len <= b.mem.Length && b.mem[b.at..b.at + b.len] == c.Data()[..b.len]
    ensures b.len <= c.off == |c.Data()|
  {
    var d := c.Peek(0, b.len);
    assert forall i :: 0 <= i < b.len ==> c.Data()[i] == c.buffer[c.misalign + i];
  }

  lemma WireCons(b: WsaBuf, more: seq<WsaBuf>)
    requires b.at + b.len <= b.mem.Length && Bounded(more)
    ensures Bounded([b] + more) && Wire([b] + more) == b.mem[b.at..b.at + b.len] + Wire(more)
    ensures Total([b] + more) == b.len + Total(more)
  {
    assert forall x :: x in [b] + more ==> x == b || x in more;
    assert ([b] + more)[1..] == more;
  }

  lemma {:induction false} TotalMore(bs: seq<WsaBuf>, b: WsaBuf)
    ensures Total(bs + [b]) == Total(bs) + b.len
  {
    if bs == [] {
      assert [b][1..] == [] && bs + [b] == [b];
    } else {
      assert (bs + [b])[1..] == bs[1..] + [b];
      TotalMore(bs[1..], b);
    }
  }

  class Overlapped {
    const buf: Buffer
    var write_in_progress: bool
    var first_pinned: Chain?
    var n_buffers: nat
    var buffers: seq<WsaBuf>

    constructor (b: Buffer)
      requires b.Valid() && forall c :: c in b.chains ==> !c.pinned
      ensures buf == b && Idle()
    {
      buf, write_in_progress := b, false;
      first_pinned, n_buffers, buffers := null, 0, [];
    }

    ghost predicate Idle()
      reads this, buf, buf.chains, set c | c in buf.chains :: c.buffer
    {
      buf.Valid() && !write_in_progress && forall c :: c in buf.chains ==> !c.pinned
    }

    /**
     The buffers show the start of the content, in chains that are pinned and still in the list,
     and the start of the buffer is frozen.
    */
    ghost predicate Submitted()
      reads this, buf, buf.chains, set c | c in buf.chains :: c.buffer
    {
      && buf.Valid() && buf.freeze_start && buf.Content() != []
      && 0 < n_buffers == |buffers| && first_pinned == buf.first
      && Aimed(buffers, buf.chains)
      && forall i :: n_buffers <= i < |buf.chains| ==> !buf.chains[i].pinned
    }

    /** A write is under way. */
    ghost predicate InFlight()
      reads this, buf, buf.chains, set c | c in buf.chains :: c.buffer
    {
      write_in_progress && Submitted()
    }

    /** Until the write is over the operating system finds the start of the content. */
    lemma WireIsContent()
      requires InFlight()
      ensures Bounded(buffers) && Wire(buffers) <= buf.Content() && |Wire(buffers)| == Total(buffers)
    {
      WireShowsBytes(buffers, buf.chains);
    }

    // ----- evbuffer_launch_write -----

    /** Pinning a chain changes nothing that matters to the list. */
    lemma Repinned()
      requires buf.Ends() && buf.Filled() && Sound(buf.chains) && buf.total_len == |Bytes(buf.chains)|
      ensures buf.Valid() && buf.Content() == Bytes(buf.chains)
    {
    }

    lemma Unpacked()
      requires buf.Valid() && buf.total_len > 0
      ensures buf.chains != [] && buf.first == buf.chains[0]
      ensures buf.Ends() && Full(buf.chains) && Sound(buf.chains) && Seg(buf.first, buf.chains, null)
      ensures buf.total_len == |Bytes(buf.chains)| && buf.Content() == Bytes(buf.chains)
    {
      ListOf(buf);
    }

    lemma OneMore(k: nat)
      requires Sound(buf.chains) && k < |buf.chains| && Seg(buf.first, buf.chains, null)
      ensures buf.chains[k].Ok() && buf.chains[k].next == if k + 1 < |buf.chains| then buf.chains[k + 1] else null
    {
      SegAt(buf.first, buf.chains, null, k);
      SoundMeansOk(buf.chains);
      assert buf.chains[k] in buf.chains;
    }

    /** The first `k` chains are pinned and shown, all but the last `part` of them whole. */
    ghost predicate Shown(k: nat, part: nat)
      reads this`buffers, buf`chains, buf.chains`pinned, buf.chains`misalign, buf.chains`off
    {
      && |buffers| == k <= |buf.chains|
      && (forall j :: 0 <= j < k ==> Shows(buffers[j], buf.chains[j]))
      && (forall j :: 0 <= j < k - part ==> buffers[j].len == buf.chains[j].off)
      && (forall j :: k <= j < |buf.chains| ==> !buf.chains[j].pinned)
    }

    /** One turn of the loop of evbuffer_launch_write: up to `left` bytes of the next chain. */
    method PinChain(chain: Chain, left: nat, ghost k: nat) returns (next: Chain?)
      requires Sound(buf.chains) && Seg(buf.first, buf.chains, null)
      requires Shown(k, 0) && k < |buf.chains| && chain == buf.chains[k]
      modifies this`buffers, chain`pinned
      ensures Shown(k + 1, if left < chain.off then 1 else 0)
      ensures Total(buffers) == old(Total(buffers)) + if left > chain.off then chain.off else left
      ensures next == if k + 1 < |buf.chains| then buf.chains[k + 1] else null
      ensures Offs(buf.chains[..k + 1]) == Offs(buf.chains[..k]) + chain.off
    {
      hide Seg, Sound, Bytes, Chain.Data, Total, Offs;
      SegDistinct(buf.first, buf.chains, null);
      OneMore(k);
      OffsMore(buf.chains, k);
      next := chain.next;
      var b := WsaBuf(chain.buffer, chain.misalign, if left > chain.off then chain.off else left);
      TotalMore(buffers, b);
      buffers := buffers + [b];
      chain.pinned := true;
    }

    /** The loop of evbuffer_launch_write: as many chains as hold `at_most` bytes, but no more than MAX_WSABUFS. */
    method PinChains(at_most: nat)
      requires buf.Ends() && Sound(buf.chains) && Seg(buf.first, buf.chains, null) && buf.chains != []
      requires buf.first == buf.chains[0] && at_most <= Offs(buf.chains)
      requires forall c :: c in buf.chains ==> !c.pinned
      modifies this`first_pinned, this`n_buffers, this`buffers, buf.chains`pinned
      ensures 0 < n_buffers <= MAX_WSABUFS && first_pinned == buf.first && Shown(n_buffers, 1)
      ensures Enough(at_most, n_buffers)
    {
      hide Seg, Sound, Bytes, Chain.Data, Total, Buffer.Ends, Shown, Shows, Enough, Offs;
      var chain, left: nat, i: nat := buf.first, at_most, 0;
      first_pinned, n_buffers, buffers := buf.first, 0, [];
      NothingYet();
      while i < MAX_WSABUFS && chain != null
        invariant i <= |buf.chains| && i <= MAX_WSABUFS && Shown(i, 0)
        invariant chain == if i < |buf.chains| then buf.chains[i] else null
        invariant (i > 0 ==> left > 0) && Total(buffers) + left == at_most
        invariant Total(buffers) == Offs(buf.chains[..i])
        decreases MAX_WSABUFS - i
        modifies this`buffers, buf.chains`pinned
      {
        var next := PinChain(chain, left, i);
        i := i + 1;
        if left <= chain.off { break; }
        left, chain := left - chain.off, next;
      }
      n_buffers := i;
      LessShown(n_buffers);
      AllShown(at_most, n_buffers);
    }

    /** All bytes that were asked for are shown, or else all bytes of MAX_WSABUFS chains. */
    ghost predicate Enough(at_most: int, n: nat)
      reads this`buffers, buf`chains, buf.chains`off
    {
      Total(buffers) == at_most
      || (n == MAX_WSABUFS <= |buf.chains| && Total(buffers) < at_most && Total(buffers) == Offs(buf.chains[..MAX_WSABUFS]))
    }

    lemma AllShown(at_most: int, n: nat)
      requires at_most <= Offs(buf.chains) && n <= |buf.chains|
      requires Total(buffers) == at_most || Total(buffers) == Offs(buf.chains[..n]) <= at_most
      requires Total(buffers) == at_most || n == |buf.chains| || n == MAX_WSABUFS
      ensures Enough(at_most, n)
    {
      assert buf.chains[..|buf.chains|] == buf.chains;
    }

    lemma LessShown(k: nat)
      ensures Shown(k, 0) ==> Shown(k, 1)
    {
    }

    lemma NothingYet()
      ensures buffers == [] && (forall c :: c in buf.chains ==> !c.pinned) ==> Shown(0, 0)
      ensures Total([]) == 0 && Offs(buf.chains[..0]) == 0
    {
    }

    // ----- pin_release -----

    /** _evbuffer_chain_unpin: a dangling chain is freed at last. */
    method Unpin(chain: Chain, ghost kept: seq<Chain>)
      requires chain.pinned && !chain.freed && Sound(kept)
      modifies chain`pinned, chain`freed, chain`dangling
      ensures !chain.pinned && (chain.freed <==> old(chain.dangling))
      ensures Sound(kept) && Bytes(kept) == old(Bytes(kept))
    {
      hide Sound, Bytes;
      chain.pinned := false;
      SoundIsOk(kept);
      if chain.dangling {
        assert forall i :: 0 <= i < |kept| ==> kept[i] != chain;
        chain.Free();
      }
    }

    lemma SoundIsOk(cs: seq<Chain>)
      requires Sound(cs)
      ensures forall i :: 0 <= i < |cs| ==> cs[i].Ok()
    {
      SoundMeansOk(cs);
      assert forall i :: 0 <= i < |cs| ==> cs[i] in cs;
    }

    /** pin_release: unpins the chains of the write, which still hang together, in the list or not. */
    method PinRelease(ghost ps: seq<Chain>, ghost tail: Chain?, ghost kept: seq<Chain>)
      requires Seg(first_pinned, ps, tail) && |ps| == n_buffers
      requires forall c :: c in ps ==> c.pinned && !c.freed
      requires Sound(kept)
      modifies ps`pinned, ps`freed, ps`dangling
      ensures forall c :: c in ps ==> !c.pinned && (c.freed <==> old(c.dangling))
      ensures Sound(kept) && Bytes(kept) == old(Bytes(kept))
    {
      hide Sound, Bytes;
      var chain := first_pinned;
      ghost var rest := ps;
      for i := 0 to n_buffers
        invariant Seg(chain, rest, tail) && |rest| == n_buffers - i
        invariant forall c :: c in rest ==> c in ps && c.pinned && !c.freed && c.dangling == old(c.dangling)
        invariant forall c :: c in ps && c !in rest ==> !c.pinned && (c.freed <==> old(c.dangling))
        invariant Sound(kept) && Bytes(kept) == old(Bytes(kept))
      {
        assert chain == rest[0] && chain in rest;
        var next := chain.next;
        Unpin(chain, kept);
        chain, rest := next, rest[1..];
      }
    }

    /** The pinned chains, as pin_release finds them. */
    lemma Front(k: nat)
      requires Seg(buf.first, buf.chains, null) && 0 < k <= |buf.chains|
      ensures Seg(buf.first, buf.chains[..k], if k < |buf.chains| then buf.chains[k] else null)
      ensures forall i, j :: 0 <= i < k <= j < |buf.chains| ==> buf.chains[..k][i] != buf.chains[j]
    {
      SegDistinct(buf.first, buf.chains, null);
      var cs := buf.chains;
      if k < |cs| {
        assert cs == cs[..k] + cs[k..];
        SegSplit(buf.first, cs[..k], cs[k..], null);
      } else {
        assert cs[..k] == cs;
      }
    }

    ghost predicate Valid()
      reads this, buf, buf.chains, set c | c in buf.chains :: c.buffer
    {
      InFlight() || Idle()
    }

    /**
     evbuffer_launch_write.  `failed` says that WSASend returned an error other than that the
     write is pending.
    */
    method LaunchWrite(at_most: int, failed: bool) returns (result: int)
      requires Valid()
      modifies this`write_in_progress, this`first_pinned, this`n_buffers, this`buffers
      modifies buf`freeze_start, buf.chains`pinned, buf.chains`freed, buf.chains`dangling
      ensures Valid() && buf.Content() == old(buf.Content()) && buf.chains == old(buf.chains)
      ensures var refused := old(buf.freeze_start || write_in_progress);
              && (refused ==> result == -1 && unchanged(this) && buf.Untouched())
              && (!refused && buf.Content() == [] ==> result == 0 && Idle() && !buf.freeze_start)
              && (!refused && buf.Content() != [] && failed ==> result == -1 && Idle() && !buf.freeze_start)
              && (!refused && buf.Content() != [] && !failed ==> result == 0 && InFlight() && WireHolds(at_most))
    {
      hide Seg, Sound, Bytes, Full, Buffer.Valid, Buffer.Ends, Aimed;
      result := -1;
      SizeIsLength(buf);
      if buf.freeze_start || write_in_progress { return; }
      if buf.total_len == 0 { return 0; }
      var all := if at_most < 0 || at_most > buf.total_len then buf.total_len else at_most;
      Launch(all);
      if failed {
        Withdraw();
        return;
      }
      write_in_progress := true;
      result := 0;
    }

    method Launch(at_most: nat)
      requires Idle() && !buf.freeze_start && 0 < buf.total_len && at_most <= buf.total_len
      modifies this`first_pinned, this`n_buffers, this`buffers, buf`freeze_start, buf.chains`pinned
      ensures !write_in_progress && Submitted() && buf.Content() == old(buf.Content()) && WireHolds(at_most)
    {
      hide Seg, Sound, Bytes, Full, Buffer.Valid, Buffer.Ends, Buffer.Filled, Total, Shown, Aimed, Enough;
      SizeIsLength(buf);
      Unpacked();
      OffsAreBytes(buf.chains);
      buf.freeze_start := true;
      PinChains(at_most);
      FullIsFilled();
      Repinned();
      ShownIsAimed(n_buffers);
    }

    lemma ShownIsAimed(k: nat)
      requires Shown(k, 1)
      ensures |buffers| == k && Aimed(buffers, buf.chains)
      ensures forall i :: k <= i < |buf.chains| ==> !buf.chains[i].pinned
    {
    }

    lemma FullIsFilled()
      requires Full(buf.chains)
      ensures buf.Filled()
    {
    }

    lemma FrontPinned()
      requires Sound(buf.chains) && n_buffers == |buffers| && Aimed(buffers, buf.chains)
      ensures forall c :: c in buf.chains[..n_buffers] ==> c.pinned && c in buf.chains
      ensures forall c :: c in buf.chains ==> c.Ok()
    {
      SoundMeansOk(buf.chains);
      forall i | 0 <= i < n_buffers ensures buf.chains[i].pinned { assert Shows(buffers[i], buf.chains[i]); }
    }

    /** The error branch of evbuffer_launch_write. */
    method Withdraw()
      requires !write_in_progress && Submitted()
      modifies buf`freeze_start, buf.chains`pinned, buf.chains`freed, buf.chains`dangling
      ensures Idle() && !buf.freeze_start && buf.Content() == old(buf.Content())
    {
      hide Seg, Sound, Bytes, Full, Buffer.Valid, Total, Shows;
      SizeIsLength(buf);
      Unpacked();
      Front(n_buffers);
      FrontPinned();
      ghost var k := n_buffers;
      PinRelease(buf.chains[..k], if k < |buf.chains| then buf.chains[k] else null, buf.chains);
      buf.freeze_start := false;
      AllUnpinned(k);
      FullIsFilled();
      Repinned();
    }

    lemma AllUnpinned(k: nat)
      requires k <= |buf.chains|
      requires forall c :: c in buf.chains[..k] ==> !c.pinned
      requires forall i :: k <= i < |buf.chains| ==> !buf.chains[i].pinned
      ensures forall c :: c in buf.chains ==> !c.pinned
    {
      forall i | 0 <= i < |buf.chains| ensures !buf.chains[i].pinned {
        if i < k { assert buf.chains[..k][i] in buf.chains[..k]; }
      }
    }

    /** How much of the content a write shows: what was asked for, unless that needs too many buffers. */
    ghost predicate WireHolds(at_most: int)
      requires Sound(buf.chains)
      reads this, buf, buf.chains, set c | c in buf.chains :: c.buffer
    {
      var all := if at_most < 0 || at_most > |buf.Content()| then |buf.Content()| else at_most;
      Enough(all, n_buffers)
    }

    // ----- evbuffer_commit_write -----

    /**
     evbuffer_commit_write: the first `nBytes` bytes leave the buffer.  The chains `gone`, those
     that held only such bytes and no others, are freed, each once: those that were pinned when
     evbuffer_drain gave them back, by pin_release.
    */
    method CommitWrite(nBytes: nat) returns (ghost gone: seq<Chain>)
      requires InFlight()
      modifies this`write_in_progress
      modifies buf`freeze_start, buf`chains, buf`first, buf`last, buf`last_with_datap, buf`total_len
      modifies buf.chains`freed, buf.chains`dangling, buf.chains`off, buf.chains`misalign, buf.chains`pinned
      ensures Idle() && !buf.freeze_start && buf.Content() == old(buf.Drop(nBytes))
      ensures old(buf.chains) == gone + buf.chains && old(Within(buf.chains, nBytes, |gone|))
      ensures forall i :: 0 <= i < |gone| ==> gone[i].freed && gone[i].off == old(buf.chains[i].off)
      ensures forall c :: c in buf.chains ==> !c.freed && c.off > 0
    {
      hide Within, Seg, Sound, Bytes, Full, Buffer.Valid, Buffer.Content, Buffer.Drop, Buffer.Ends, Buffer.Filled, Aimed, Shows;
      Taken();
      ghost var ps, tail := buf.chains[..n_buffers], if n_buffers < |buf.chains| then buf.chains[n_buffers] else null;
      Unfreeze();
      gone := DrainAndRelease(nBytes, ps, tail);
      write_in_progress := false;
    }

    /** The evbuffer_drain and the pin_release of evbuffer_commit_write. */
    method DrainAndRelease(nBytes: nat, ghost ps: seq<Chain>, ghost tail: Chain?) returns (ghost gone: seq<Chain>)
      requires buf.Valid() && !buf.freeze_start && buf.Content() != []
      requires forall c :: c in buf.chains ==> c.Ok() && (c.pinned <==> c in ps)
      requires forall c :: c in ps ==> c in buf.chains
      requires Seg(first_pinned, ps, tail) && |ps| == n_buffers
      modifies buf`chains, buf`first, buf`last, buf`last_with_datap, buf`total_len
      modifies buf.chains`freed, buf.chains`dangling, buf.chains`off, buf.chains`misalign, buf.chains`pinned
      ensures buf.Valid() && buf.Content() == old(buf.Drop(nBytes))
      ensures old(buf.chains) == gone + buf.chains && old(Within(buf.chains, nBytes, |gone|))
      ensures forall i :: 0 <= i < |gone| ==> gone[i].freed && gone[i].off == old(buf.chains[i].off)
      ensures forall c :: c in buf.chains ==> !c.freed && !c.pinned && c.off > 0
    {
      hide Within, Seg, Sound, Bytes, Full, Buffer.Valid, Buffer.Content, Buffer.Drop, Buffer.Ends, Buffer.Filled;
      assert forall i :: 0 <= i < |ps| ==> ps[i] in ps;
      gone := DrainPinned(nBytes, ps);
      Release(ps, tail, gone);
    }

    /** evbuffer_unfreeze, at the start. */
    method Unfreeze()
      requires buf.Valid()
      modifies buf`freeze_start
      ensures buf.Valid() && !buf.freeze_start && buf.Content() == old(buf.Content())
    {
      hide Seg, Sound, Bytes, Full, Buffer.Valid, Buffer.Content, Buffer.Ends, Buffer.Filled;
      Parts();
      buf.freeze_start := false;
      Repinned();
    }

    /** The pin_release of evbuffer_commit_write. */
    method Release(ghost ps: seq<Chain>, ghost tail: Chain?, ghost gone: seq<Chain>)
      requires buf.Ends() && buf.Filled() && Sound(buf.chains) && buf.total_len == |Bytes(buf.chains)|
      requires buf.Content() == Bytes(buf.chains)
      requires Seg(first_pinned, ps, tail) && |ps| == n_buffers
      requires forall c :: c in ps ==> c.pinned && !c.freed
      requires forall c :: c in buf.chains ==> !c.freed && !c.dangling && (c.pinned <==> c in ps)
      requires forall c :: c in gone ==> c.freed == (c !in ps) && (c in ps ==> c.dangling)
      modifies ps`pinned, ps`freed, ps`dangling
      ensures buf.Valid() && buf.Content() == old(buf.Content())
      ensures forall c :: c in buf.chains ==> !c.freed && !c.pinned
      ensures forall c :: c in gone ==> c.freed
    {
      hide Seg, Sound, Bytes, Full, Buffer.Valid, Buffer.Content, Buffer.Ends, Buffer.Filled;
      PinRelease(ps, tail, buf.chains);
      Reassembled();
    }

    /** The evbuffer_drain of evbuffer_commit_write: the chains of `ps` stay pinned, so that those given back only dangle. */
    method DrainPinned(nBytes: nat, ghost ps: seq<Chain>) returns (ghost gone: seq<Chain>)
      requires buf.Valid() && !buf.freeze_start && buf.Content() != []
      requires forall c :: c in buf.chains ==> c.Ok() && (c.pinned <==> c in ps)
      requires forall c :: c in ps ==> c in buf.chains
      modifies buf`chains, buf`first, buf`last, buf`last_with_datap, buf`total_len
      modifies buf.chains`freed, buf.chains`dangling, buf.chains`off, buf.chains`misalign
      ensures buf.Valid() && buf.Content() == old(buf.Drop(nBytes)) && old(buf.chains) == gone + buf.chains
      ensures old(Within(buf.chains, nBytes, |gone|)) && forall i :: 0 <= i < |gone| ==> gone[i].off == old(buf.chains[i].off)
      ensures forall c :: c in buf.chains ==> c.off > 0
      ensures buf.Ends() && buf.Filled() && Sound(buf.chains) && buf.total_len == |Bytes(buf.chains)|
      ensures buf.Content() == Bytes(buf.chains)
      ensures forall c :: c in gone ==> c.freed == (c !in ps) && (c in ps ==> c.dangling)
      ensures forall c :: c in buf.chains ==> !c.freed && !c.dangling && (c.pinned <==> c in ps)
      ensures forall c :: c in ps ==> !c.freed && c.pinned
    {
      hide Within, Seg, Sound, Bytes, Full, Buffer.Valid, Buffer.Content, Buffer.Drop, Buffer.Ends, Buffer.Filled;
      SizeIsLength(buf);
      var _, g := buf.Drain(nBytes);
      gone := g;
      Parts();
    }

    lemma Taken()
      requires InFlight()
      ensures buf.chains != [] && n_buffers <= |buf.chains|
      ensures var ps := buf.chains[..n_buffers];
              && Seg(first_pinned, ps, if n_buffers < |buf.chains| then buf.chains[n_buffers] else null)
              && (forall c :: c in ps ==> c.pinned && c in buf.chains)
              && (forall c :: c in buf.chains && c !in ps ==> !c.pinned)
      ensures forall c :: c in buf.chains ==> c.Ok()
    {
      SizeIsLength(buf);
      Unpacked();
      Front(n_buffers);
      FrontPinned();
      forall i | 0 <= i < |buf.chains| ensures buf.chains[i] in buf.chains[..n_buffers] || !buf.chains[i].pinned {
        if i < n_buffers { assert buf.chains[..n_buffers][i] == buf.chains[i]; }
      }
    }

    lemma Parts()
      requires buf.Valid()
      ensures buf.Ends() && buf.Filled() && Sound(buf.chains) && buf.total_len == |Bytes(buf.chains)|
      ensures buf.Content() == Bytes(buf.chains)
      ensures forall c :: c in buf.chains ==> c.Ok()
    {
      SoundMeansOk(buf.chains);
    }

    twostate lemma Reassembled()
      requires old(buf.Filled()) && unchanged(buf`chains) && unchanged(buf.chains`off)
      requires forall c :: c in buf.chains && c.pinned ==> old(c.pinned)
      requires buf.Ends() && Sound(buf.chains) && buf.total_len == |Bytes(buf.chains)|
      ensures buf.Valid() && buf.Content() == Bytes(buf.chains)
    {
      if |buf.chains| != 1 { StillFull(buf.chains); }
    }

    twostate lemma {:induction false} StillFull(cs: seq<Chain>)
      requires old(Full(cs)) && unchanged(cs`off)
      ensures Full(cs)
    {
      if cs != [] { StillFull(cs[1..]); }
    }
  }
}
