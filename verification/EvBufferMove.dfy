/**
 Operations on two evbuffers (buffer.c: evbuffer_add_buffer, evbuffer_prepend_buffer,
 evbuffer_remove_buffer): chains are spliced, not copied, wherever that is possible.
*/
module EvBufferMove {
  import opened Chains
  import opened EvBuffer

  /** Two buffers that share no chain and no memory. */
  ghost predicate Disjoint(a: Buffer, b: Buffer)
    reads a`chains, b`chains
  {
    a != b && (forall c :: c in a.chains ==> c !in b.chains) && Memory(a.chains) !! Memory(b.chains)
  }

  /** A buffer with data, taken apart. */
  lemma WithData(b: Buffer)
    requires b.Valid() && b.total_len > 0
    ensures b.chains != [] && Full(b.chains) && Sound(b.chains) && Seg(b.first, b.chains, null)
    ensures b.first == b.chains[0] && b.last == b.chains[|b.chains| - 1]
    ensures b.last_with_datap == if |b.chains| == 1 then FirstOf(b) else NextOf(b.chains[|b.chains| - 2])
    ensures b.total_len == |Bytes(b.chains)| && b.Content() == Bytes(b.chains)
  {
    b.ToTail();
    assert b.chains == b.chains[..|b.chains| - 1] + [b.last];
    FullConcat(b.chains[..|b.chains| - 1], [b.last]);
  }

  lemma WithLast(b: Buffer)
    requires b.Valid() && b.total_len > 0
    ensures b.last in b.chains && b.last.next == null
    ensures b.last !in b.chains[..|b.chains| - 1] && Seg(b.first, b.chains[..|b.chains| - 1], b.last)
  {
    b.ToTail();
  }

  /** The buffer gets a list of chains that all have data. */
  method SetList(b: Buffer, first: Chain, last: Chain, lwd: Link, total: nat, ghost cs: seq<Chain>)
    requires cs != [] && Full(cs) && Sound(cs) && Seg(first, cs, null) && last == cs[|cs| - 1]
    requires lwd == if |cs| == 1 then FirstOf(b) else NextOf(cs[|cs| - 2])
    requires total == |Bytes(cs)|
    modifies b`first, b`last, b`last_with_datap, b`total_len, b`chains
    ensures b.Valid() && b.chains == cs && b.Content() == Bytes(cs)
  {
    hide Seg, Sound, Full, Bytes, Chain.Data, Buffer.Valid, Buffer.Content;
    b.first, b.last, b.last_with_datap, b.total_len := first, last, lwd, total;
    b.chains := cs;
    ListIsValid(b);
  }

  lemma ListIsValid(b: Buffer)
    requires b.chains != [] && Full(b.chains) && Sound(b.chains) && Seg(b.first, b.chains, null)
    requires b.last == b.chains[|b.chains| - 1]
    requires b.last_with_datap == if |b.chains| == 1 then FirstOf(b) else NextOf(b.chains[|b.chains| - 2])
    requires b.total_len == |Bytes(b.chains)|
    ensures b.Valid() && b.Content() == Bytes(b.chains)
  {
    hide Sound, Seg, Bytes;
  }

  /** COPY_CHAIN, after the receiving buffer gave up the empty chain it may have. */
  method CopyChain(dst: Buffer, src: Buffer)
    requires src.Valid() && dst != src && src.total_len > 0
    modifies dst`first, dst`last, dst`last_with_datap, dst`total_len, dst`chains
    ensures dst.Valid() && dst.Content() == old(src.Content()) && dst.chains == src.chains
  {
    hide Seg, Sound, Full, Bytes, Chain.Data, Buffer.Valid;
    WithData(src);
    var lwd := if src.last_with_datap == FirstOf(src) then FirstOf(dst) else src.last_with_datap;
    SetList(dst, src.first, src.last, lwd, src.total_len, src.chains);
  }

  lemma Join(from: Chain?, a: seq<Chain>, l: Chain, mid: Chain, b: seq<Chain>)
    requires a != [] && l == a[|a| - 1] && l !in a[..|a| - 1]
    requires Seg(from, a[..|a| - 1], l) && l.next == mid && Seg(mid, b, null)
    requires forall c :: c in a ==> c !in b
    ensures Seg(from, a + b, null)
  {
    var init := a[..|a| - 1];
    assert a == init + [l];
    SegConcat(from, init, l, [l], mid);
    SegConcat(from, a, mid, b, null);
  }

  /** The chains of two buffers with data, in a row. */
  lemma TogetherSound(a: Buffer, b: Buffer)
    requires a.Valid() && b.Valid() && Disjoint(a, b) && a.total_len > 0 && b.total_len > 0
    ensures Sound(a.chains + b.chains) && Full(a.chains + b.chains)
    ensures Bytes(a.chains + b.chains) == a.Content() + b.Content()
    ensures a.total_len + b.total_len == |Bytes(a.chains + b.chains)|
    ensures forall c :: c in a.chains ==> c !in b.chains
  {
    WithData(a);
    WithData(b);
    SoundConcat(a.chains, b.chains);
    FullConcat(a.chains, b.chains);
  }

  /** The last chain of `a` gets the first of `b` as its successor. */
  method Link(a: Buffer, b: Buffer)
    requires a.Valid() && b.Valid() && Disjoint(a, b) && a.total_len > 0 && b.total_len > 0
    modifies a.last`next
    ensures Seg(a.first, a.chains + b.chains, null) && Sound(a.chains + b.chains) && Full(a.chains + b.chains)
    ensures Bytes(a.chains + b.chains) == old(a.Content()) + old(b.Content())
    ensures a.total_len + b.total_len == |Bytes(a.chains + b.chains)|
    ensures b.Valid()
  {
    hide Seg, Sound, Full, Bytes, Chain.Data, Buffer.Valid, Buffer.Content;
    WithData(a);
    WithData(b);
    TogetherSound(a, b);
    WithLast(a);
    a.last.next := b.first;
    Join(a.first, a.chains, a.last, b.first, b.chains);
  }

  lemma LastTwo<T>(a: seq<T>, b: seq<T>)
    requires a != [] && b != []
    ensures var c := a + b;
            c[0] == a[0] && c[|c| - 1] == b[|b| - 1] && c[|c| - 2] == if |b| == 1 then a[|a| - 1] else b[|b| - 2]
  {
  }

  /** APPEND_CHAIN. */
  method AppendChains(dst: Buffer, src: Buffer)
    requires dst.Valid() && src.Valid() && Disjoint(dst, src) && dst.total_len > 0 && src.total_len > 0
    modifies dst`first, dst`last, dst`last_with_datap, dst`total_len, dst`chains, dst.last`next
    ensures dst.Valid() && dst.chains == old(dst.chains) + src.chains
    ensures dst.Content() == old(dst.Content()) + old(src.Content())
  {
    hide Seg, Sound, Full, Bytes, Chain.Data, Buffer.Valid, Buffer.Content;
    WithData(dst);
    WithData(src);
    ghost var cs := dst.chains + src.chains;
    LastTwo(dst.chains, src.chains);
    Link(dst, src);
    var lwd := if src.last_with_datap == FirstOf(src) then NextOf(dst.last) else src.last_with_datap;
    SetList(dst, dst.first, src.last, lwd, dst.total_len + src.total_len, cs);
  }

  /** PREPEND_CHAIN. */
  method PrependChains(dst: Buffer, src: Buffer)
    requires dst.Valid() && src.Valid() && Disjoint(dst, src) && dst.total_len > 0 && src.total_len > 0
    modifies dst`first, dst`last, dst`last_with_datap, dst`total_len, dst`chains, src.last`next
    ensures dst.Valid() && dst.chains == src.chains + old(dst.chains)
    ensures dst.Content() == old(src.Content()) + old(dst.Content())
  {
    hide Seg, Sound, Full, Bytes, Chain.Data, Buffer.Valid, Buffer.Content;
    WithData(dst);
    WithData(src);
    ghost var cs := src.chains + dst.chains;
    LastTwo(src.chains, dst.chains);
    Link(src, dst);
    var lwd := if dst.last_with_datap == FirstOf(dst) then NextOf(src.last) else dst.last_with_datap;
    SetList(dst, src.first, dst.last, lwd, dst.total_len + src.total_len, cs);
  }

  /** A buffer without data gives up the empty chain it may have, and takes the chains of the other. */
  method ReplaceEmpty(outbuf: Buffer, inbuf: Buffer)
    requires outbuf.Valid() && inbuf.Valid() && Disjoint(outbuf, inbuf) && outbuf.Content() == [] && inbuf.total_len > 0
    modifies outbuf`first, outbuf`last, outbuf`last_with_datap, outbuf`total_len, outbuf`chains,
             outbuf.chains`freed, outbuf.chains`dangling
    ensures outbuf.Valid() && outbuf.chains == inbuf.chains && outbuf.NoneLost(old(outbuf.chains))
    ensures outbuf.Content() == old(outbuf.Content()) + old(inbuf.Content())
    ensures outbuf.Content() == old(inbuf.Content()) + old(outbuf.Content())
  {
    hide Seg, Sound, Full, Bytes, Chain.Data, Buffer.Valid;
    outbuf.NoContent();
    outbuf.LoneUnpinned();
    outbuf.ChainsOnly();
    ApartByIndex(inbuf.chains, outbuf.chains);
    ghost var content := inbuf.Content();
    assert [] + content == content && content + [] == content;
    FreeAllChains(outbuf.first, outbuf.chains);
    assert inbuf.Valid() && inbuf.Content() == content;
    CopyChain(outbuf, inbuf);
  }

  /** evbuffer_add_buffer. */
  method AddBuffer(outbuf: Buffer, inbuf: Buffer) returns (result: int)
    requires outbuf.Valid() && inbuf.Valid() && (outbuf == inbuf || Disjoint(outbuf, inbuf))
    modifies outbuf`first, outbuf`last, outbuf`last_with_datap, outbuf`total_len, outbuf`chains,
             outbuf.chains`freed, outbuf.chains`dangling, outbuf.chains`next
    modifies inbuf`first, inbuf`last, inbuf`last_with_datap, inbuf`total_len, inbuf`chains
    ensures outbuf.Valid() && inbuf.Valid() && (outbuf != inbuf ==> Disjoint(outbuf, inbuf))
    ensures outbuf.NoneLost(old(outbuf.chains))
    ensures var idle := old(inbuf.total_len) == 0 || outbuf == inbuf;
            var refused := !idle && (outbuf.freeze_end || inbuf.freeze_start);
            && result == (if refused then -1 else 0)
            && (idle || refused ==> outbuf.Content() == old(outbuf.Content()) && inbuf.Content() == old(inbuf.Content()))
            && (idle || refused ==> outbuf.Untouched() && inbuf.Untouched())
            && (!idle && !refused ==> outbuf.Content() == old(outbuf.Content() + inbuf.Content()) && inbuf.Content() == [])
            && (!idle && !refused ==> inbuf.chains == [])
            && (!idle && !refused ==>
                  outbuf.chains == (if old(outbuf.Content()) == [] then [] else old(outbuf.chains)) + old(inbuf.chains))
  {
    hide Seg, Sound, Full, Bytes, Chain.Data, Buffer.Valid, Buffer.Content;
    if inbuf.total_len == 0 || outbuf == inbuf { return 0; }
    if outbuf.freeze_end || inbuf.freeze_start { return -1; }
    SizeIsLength(outbuf);
    if outbuf.total_len == 0 {
      ReplaceEmpty(outbuf, inbuf);
    } else {
      WithLast(outbuf);
      AppendChains(outbuf, inbuf);
    }
    inbuf.ZeroChain();
    return 0;
  }

  /** evbuffer_prepend_buffer. */
  method PrependBuffer(outbuf: Buffer, inbuf: Buffer) returns (result: int)
    requires outbuf.Valid() && inbuf.Valid() && (outbuf == inbuf || Disjoint(outbuf, inbuf))
    modifies outbuf`first, outbuf`last, outbuf`last_with_datap, outbuf`total_len, outbuf`chains,
             outbuf.chains`freed, outbuf.chains`dangling
    modifies inbuf`first, inbuf`last, inbuf`last_with_datap, inbuf`total_len, inbuf`chains, inbuf.chains`next
    ensures outbuf.Valid() && inbuf.Valid() && (outbuf != inbuf ==> Disjoint(outbuf, inbuf))
    ensures outbuf.NoneLost(old(outbuf.chains))
    ensures var idle := old(inbuf.total_len) == 0 || outbuf == inbuf;
            var refused := !idle && (outbuf.freeze_start || inbuf.freeze_start);
            && result == (if refused then -1 else 0)
            && (idle || refused ==> outbuf.Content() == old(outbuf.Content()) && inbuf.Content() == old(inbuf.Content()))
            && (idle || refused ==> outbuf.Untouched() && inbuf.Untouched())
            && (!idle && !refused ==> outbuf.Content() == old(inbuf.Content() + outbuf.Content()) && inbuf.Content() == [])
            && (!idle && !refused ==> inbuf.chains == [])
            && (!idle && !refused ==>
                  outbuf.chains == old(inbuf.chains) + (if old(outbuf.Content()) == [] then [] else old(outbuf.chains)))
  {
    hide Seg, Sound, Full, Bytes, Chain.Data, Buffer.Valid, Buffer.Content;
    if inbuf.total_len == 0 || outbuf == inbuf { return 0; }
    if outbuf.freeze_start || inbuf.freeze_start { return -1; }
    SizeIsLength(outbuf);
    if outbuf.total_len == 0 {
      ReplaceEmpty(outbuf, inbuf);
    } else {
      WithLast(inbuf);
      PrependChains(outbuf, inbuf);
    }
    inbuf.ZeroChain();
    return 0;
  }

  lemma SizeIsLength(b: Buffer)
    requires b.Valid()
    ensures b.total_len == |b.Content()|
  {
  }

  // ----- evbuffer_remove_buffer -----

  /** The link to the chain at position `j` of a list that starts in `b`. */
  ghost function LinkAt(b: Buffer, cs: seq<Chain>, j: nat): Link
    requires j <= |cs|
  {
    if j == 0 then FirstOf(b) else NextOf(cs[j - 1])
  }

  lemma SegAt(from: Chain?, cs: seq<Chain>, to: Chain?, j: nat)
    requires Seg(from, cs, to) && j < |cs|
    ensures cs[j].next == if j + 1 < |cs| then cs[j + 1] else to
    ensures j == 0 ==> from == cs[0]
  {
    assert cs == cs[..j] + cs[j..];
    SegSplit(from, cs[..j], cs[j..], to);
    assert j + 1 < |cs| ==> cs[j..][1..][0] == cs[j + 1];
  }

  lemma {:induction false} FullAt(cs: seq<Chain>, j: nat)
    requires Full(cs) && j < |cs|
    ensures cs[j].off > 0
  {
    if j > 0 { FullAt(cs[1..], j - 1); }
  }

  /** advance_last_with_data, on a list whose chains all have data. */
  method Advance(b: Buffer, ghost cs: seq<Chain>, ghost start: nat)
    requires cs != [] && Seg(b.first, cs, null) && Full(cs)
    requires start < |cs| && b.last_with_datap == LinkAt(b, cs, start)
    modifies b`last_with_datap
    ensures b.last_with_datap == LinkAt(b, cs, |cs| - 1)
  {
    hide Seg, Full;
    ghost var j := start;
    SegAt(b.first, cs, null, 0);
    if j > 0 { SegAt(b.first, cs, null, j - 1); }
    SegAt(b.first, cs, null, j);
    if Deref(b.last_with_datap) == null { return; }
    if j + 1 < |cs| { FullAt(cs, j + 1); }
    while Deref(b.last_with_datap).next != null && Deref(b.last_with_datap).next.off > 0
      invariant j < |cs| && b.last_with_datap == LinkAt(b, cs, j) && Deref(b.last_with_datap) == cs[j]
      invariant cs[j].next == if j + 1 < |cs| then cs[j + 1] else null
      invariant j + 1 < |cs| ==> cs[j + 1].off > 0
      decreases |cs| - j
    {
      b.last_with_datap := NextOf(Deref(b.last_with_datap));
      j := j + 1;
      SegAt(b.first, cs, null, j);
      if j + 1 < |cs| { FullAt(cs, j + 1); }
    }
  }

  /** One turn of the first loop: a chain that will move whole is passed over. */
  method SkipChain(src: Buffer, chain: Chain, ghost rest: seq<Chain>, left: nat, ghost goal: seq<byte>)
    returns (next: Chain, left': nat)
    requires src.Draining(chain, rest, left, goal) && chain.off <= left
    modifies src`last_with_datap
    ensures src.Draining(next, rest[1..], left', goal)
    ensures |rest| > 1 && next == rest[1] && left' == left - chain.off
  {
    hide Chain.Data;
    src.OneLeft(chain, rest, left, goal);
    left' := left - chain.off;
    if src.last_with_datap == NextOf(chain) {
      src.last_with_datap := FirstOf(src);
    }
    assert Seg(chain.next, rest[1..], null) && rest[1..] != [];
    next := chain.next;
  }

  /** The first loop of evbuffer_remove_buffer: the chains before position `k` will move whole. */
  method SkipChains(src: Buffer, datlen: nat)
    returns (chain: Chain, previous: Chain, left: nat, nread: nat, ghost k: nat)
    requires src.Valid() && datlen < src.total_len
    modifies src`last_with_datap
    ensures k < |src.chains| && chain == src.chains[k] && (k > 0 ==> previous == src.chains[k - 1])
    ensures left < chain.off && nread + left == datlen && (nread > 0 <==> k > 0)
    ensures src.Draining(chain, src.chains[k..], left, src.Content()[datlen..])
    ensures Within(src.chains, datlen, k)
  {
    hide Chain.Data, Buffer.Draining, Buffer.Valid, Seg, Sound, Full, Bytes, Within, Offs;
    src.DrainStart(datlen);
    OffsOfNone(src.chains[..0]);
    ghost var goal := src.Content()[datlen..];
    chain, previous, left, nread, k := src.first, src.first, datlen, 0, 0;
    while chain.off <= left
      invariant k < |src.chains| && chain == src.chains[k] && (k > 0 ==> previous == src.chains[k - 1])
      invariant src.Draining(chain, src.chains[k..], left, goal)
      invariant nread + left == datlen && (nread > 0 <==> k > 0) && nread == Offs(src.chains[..k])
      decreases |src.chains| - k
    {
      OffsMore(src.chains, k);
      assert src.chains[k..][1..] == src.chains[k + 1..] && src.chains[k..][0] == src.chains[k];
      src.MoreThanOne(k, chain, left, goal);
      previous, nread := chain, nread + chain.off;
      chain, left := SkipChain(src, chain, src.chains[k..], left, goal);
      k := k + 1;
    }
    OffsMore(src.chains, k);
    WithinUpTo(src.chains, datlen, k);
  }

  /** `previous` becomes the end of its list. */
  method CutAfter(from: Chain?, ghost front: seq<Chain>, previous: Chain, chain: Chain, ghost rest: seq<Chain>)
    requires front != [] && previous == front[|front| - 1] && rest != [] && chain == rest[0]
    requires Seg(from, front + rest, null)
    modifies previous`next
    ensures Seg(from, front, null) && Seg(chain, rest, null)
  {
    hide Seg;
    ghost var init := front[..|front| - 1];
    assert front == init + [previous] && front + rest == init + ([previous] + rest);
    SegSplit(from, front, rest, null);
    SegSplit(from, init, [previous] + rest, null);
    NotIn(init, [previous] + rest, previous);
    assert previous in front && previous !in rest;
    previous.next := null;
    OneSeg(previous);
    SegConcat(from, init, previous, [previous], null);
  }

  lemma NotIn(init: seq<Chain>, rest: seq<Chain>, c: Chain)
    requires (forall x :: x in init ==> x !in rest) && c in rest
    ensures c !in init
  {
  }

  lemma OneSeg(c: Chain)
    ensures Seg(c, [c], c.next)
  {
  }

  /** evbuffer_free_trailing_empty_chains: the link where a chain can be put. */
  method FreeTrailing(dst: Buffer) returns (chp: Link)
    requires dst.Valid()
    modifies dst`first, dst`last, dst`last_with_datap, dst`total_len, dst`chains, dst.chains`freed, dst.chains`dangling
    ensures dst.Valid() && dst.Content() == old(dst.Content())
    ensures dst.chains == (if old(dst.Content()) == [] then [] else old(dst.chains)) && dst.NoneLost(old(dst.chains))
    ensures chp == if dst.chains == [] then FirstOf(dst) else NextOf(dst.last)
    ensures dst.chains != [] ==> dst.last != null && dst.last.off > 0 && dst.last in dst.chains
  {
    hide Seg, Sound, Full, Bytes, Chain.Data;
    if dst.chains != [] { dst.ToTail(); }
    dst.NoContent();
    if dst.Content() == [] { dst.LoneUnpinned(); }
    dst.EmptyLast();
    dst.NoChains();
    ghost var cs := dst.chains;
    chp := dst.last_with_datap;
    ghost var k := 0;
    assert Deref(chp) == dst.last;
    assert dst.last != null && dst.last.off == 0 ==> !dst.last.pinned && dst.last.next == null;
    while Deref(chp) != null && (Deref(chp).off != 0 || Deref(chp).pinned)
      modifies {}
      invariant k <= 1
      invariant k == 1 ==> dst.last != null && dst.last.off != 0
      invariant chp == if k == 0 then dst.last_with_datap else NextOf(dst.last)
      decreases 1 - k
    {
      chp, k := NextOf(Deref(chp)), k + 1;
    }
    if Deref(chp) != null {
      assert chp == dst.last_with_datap && Deref(chp) == dst.first && dst.chains == cs;
      FreeAllChains(Deref(chp), cs);
      dst.ZeroChain();
    }
  }

  lemma ApartByIndex(a: seq<Chain>, b: seq<Chain>)
    requires forall c :: c in b ==> c !in a
    ensures forall i, j :: 0 <= i < |a| && 0 <= j < |b| ==> a[i] != b[j]
  {
    forall i, j | 0 <= i < |a| && 0 <= j < |b| ensures a[i] != b[j] { assert b[j] in b; }
  }

  lemma SplitDisjoint(dst: Buffer, src: Buffer, k: nat)
    requires Disjoint(dst, src) && k <= |src.chains| && Sound(src.chains)
    ensures var moved, rest := src.chains[..k], src.chains[k..];
            && (forall c :: c in dst.chains ==> c !in moved && c !in rest)
            && Memory(dst.chains) !! Memory(moved) && Memory(moved) !! Memory(rest) && Memory(dst.chains) !! Memory(rest)
  {
    var moved, rest := src.chains[..k], src.chains[k..];
    assert src.chains == moved + rest;
    MemorySplit(moved, rest);
    SoundSplit(moved, rest);
  }

  /** The front of the list of `src` is cut off. */
  method DetachFront(src: Buffer, previous: Chain, chain: Chain, ghost k: nat)
    requires 0 < k < |src.chains| && Seg(src.first, src.chains, null) && Full(src.chains) && Sound(src.chains)
    requires previous == src.chains[k - 1] && chain == src.chains[k]
    modifies src`first, src`chains, previous`next
    ensures src.first == chain && src.chains == old(src.chains)[k..]
    ensures Seg(chain, src.chains, null) && Full(src.chains) && Sound(src.chains)
    ensures var moved := old(src.chains)[..k];
            && Seg(old(src.first), moved, null) && Full(moved) && Sound(moved)
            && (forall c :: c in moved ==> c !in src.chains) && Memory(moved) !! Memory(src.chains)
            && Bytes(moved) == old(if Sound(src.chains[..k]) then Bytes(src.chains[..k]) else [])
  {
    hide Seg, Sound, Full, Bytes, Chain.Data;
    ghost var moved, rest := src.chains[..k], src.chains[k..];
    assert src.chains == moved + rest;
    SegSplit(src.first, moved, rest, null);
    SoundSplit(moved, rest);
    FullConcat(moved, rest);
    CutAfter(src.first, moved, previous, chain, rest);
    src.first := chain;
    src.chains := rest;
  }

  /** The chains before position `k` of `src` move to the end of `dst`, and `src` starts at `chain`. */
  method MoveFront(dst: Buffer, src: Buffer, previous: Chain, chain: Chain, nread: nat, ghost k: nat)
    requires dst.Valid() && Disjoint(dst, src) && 0 < k < |src.chains|
    requires previous == src.chains[k - 1] && chain == src.chains[k] && src.first == src.chains[0]
    requires Seg(src.first, src.chains, null) && Full(src.chains) && Sound(src.chains)
    requires Sound(src.chains[..k]) && nread == |Bytes(src.chains[..k])|
    modifies dst`first, dst`last, dst`last_with_datap, dst`total_len, dst`chains, dst.chains`freed, dst.chains`dangling,
             dst.chains`next, src`first, src`chains, previous`next
    ensures dst.Valid() && dst.Content() == old(dst.Content()) + old(Bytes(src.chains[..k]))
    ensures src.first == chain && src.chains == old(src.chains)[k..] && Disjoint(dst, src)
    ensures Seg(chain, src.chains, null) && Full(src.chains) && Sound(src.chains)
    ensures dst.chains == (if old(dst.Content()) == [] then [] else old(dst.chains)) + old(src.chains)[..k]
    ensures dst.NoneLost(old(dst.chains))
  {
    hide Seg, Sound, Full, Bytes, Chain.Data, Buffer.Valid, Buffer.Content;
    ghost var moved, rest, start := src.chains[..k], src.chains[k..], src.first;
    assert previous in src.chains;
    SplitDisjoint(dst, src, k);
    ApartByIndex(src.chains, dst.chains);
    ApartByIndex(moved, dst.chains);
    ghost var bytes := Bytes(moved);
    var from := src.first;
    var chp := FreeTrailing(dst);
    assert Seg(src.first, src.chains, null) && Sound(src.chains) && Full(src.chains) && Bytes(moved) == bytes;
    DetachFront(src, previous, chain, k);
    assert dst.Valid() && dst.Content() == old(dst.Content());
    Attach(dst, chp, from, moved, previous, nread);
    MemorySplit(dst.chains[..|dst.chains| - k], moved);
  }

  /** A list of chains with data goes where `chp` points, at the end of `dst`. */
  method Attach(dst: Buffer, chp: Link, start: Chain, ghost moved: seq<Chain>, previous: Chain, nread: nat)
    requires dst.Valid() && (dst.chains != [] ==> dst.Content() != [])
    requires chp == if dst.chains == [] then FirstOf(dst) else NextOf(dst.last)
    requires moved != [] && start == moved[0] && previous == moved[|moved| - 1]
    requires Seg(start, moved, null) && Full(moved) && Sound(moved) && nread == |Bytes(moved)|
    requires (forall c :: c in dst.chains ==> c !in moved) && Memory(dst.chains) !! Memory(moved)
    modifies dst`first, dst`last, dst`last_with_datap, dst`total_len, dst`chains, dst.chains`next
    ensures dst.Valid() && dst.Content() == old(dst.Content()) + Bytes(moved) && dst.chains == old(dst.chains) + moved
  {
    hide Seg, Sound, Full, Bytes, Chain.Data, Buffer.Valid, Buffer.Content;
    SizeIsLength(dst);
    dst.FirstOk();
    dst.NoChains();
    ghost var cs := dst.chains + moved;
    if dst.first == null {
      assert cs == moved;
      dst.first := start;
      Advance(dst, cs, 0);
      SetList(dst, start, previous, dst.last_with_datap, dst.total_len + nread, cs);
    } else {
      WithData(dst);
      WithLast(dst);
      SoundConcat(dst.chains, moved);
      FullConcat(dst.chains, moved);
      LastTwo(dst.chains, moved);
      dst.last.next := start;
      Join(dst.first, dst.chains, dst.last, start, moved);
      Advance(dst, cs, |dst.chains| - 1);
      SetList(dst, dst.first, previous, dst.last_with_datap, dst.total_len + nread, cs);
    }
  }

  /** What a valid buffer with data offers to the loop. */
  lemma ListOf(src: Buffer)
    requires src.Valid() && src.total_len > 0
    ensures Seg(src.first, src.chains, null) && Sound(src.chains) && Full(src.chains) && src.chains != []
    ensures src.first == src.chains[0] && src.Content() == Bytes(src.chains) && src.total_len == |Bytes(src.chains)|
  {
    WithData(src);
  }

  /** The bytes of the chains that were passed over. */
  lemma Passed(src: Buffer, chain: Chain, left: nat, nread: nat, k: nat, all: seq<byte>)
    requires Sound(src.chains) && all == Bytes(src.chains) && k < |src.chains| && nread + left <= |all|
    requires src.Draining(chain, src.chains[k..], left, all[nread + left..])
    ensures Sound(src.chains[..k]) && Bytes(src.chains[..k]) == all[..nread]
    ensures Sound(src.chains[k..]) && Bytes(src.chains[k..]) == all[nread..]
    ensures k == 0 ==> src.chains[k..] == src.chains
  {
    assert src.chains == src.chains[..k] + src.chains[k..];
    SoundSplit(src.chains[..k], src.chains[k..]);
  }

  /** Where chains go that join a buffer at its end: behind those with data. */
  ghost function Behind(b: Buffer): nat
    requires Sound(b.chains)
    reads b`chains, b.chains`misalign, b.chains`off, b.chains`dangling, b.chains`freed, set c | c in b.chains :: c.buffer
  {
    if b.Content() == [] then 0 else |b.chains|
  }

  /** The chains `moved` stand in the list from position `at` on. */
  ghost predicate Spliced(cs: seq<Chain>, at: nat, moved: seq<Chain>) {
    at + |moved| <= |cs| && forall i :: 0 <= i < |moved| ==> cs[at + i] == moved[i]
  }

  /** The part of evbuffer_remove_buffer that moves whole chains. */
  method MoveWhole(dst: Buffer, src: Buffer, datlen: nat) returns (chain: Chain, left: nat, nread: nat, ghost k: nat)
    requires dst.Valid() && src.Valid() && Disjoint(dst, src) && datlen < src.total_len
    modifies dst`first, dst`last, dst`last_with_datap, dst`total_len, dst`chains, dst.chains`freed, dst.chains`dangling,
             dst.chains`next, src`last_with_datap, src`first, src`chains, src.chains`next
    ensures dst.Valid() && Disjoint(dst, src) && src.chains != [] && src.first == chain && nread + left == datlen
    ensures dst.Content() == old(dst.Content()) + old(src.Content())[..nread]
    ensures left < chain.off && src.Draining(chain, src.chains, left, old(src.Content())[datlen..])
    ensures Sound(src.chains) && Bytes(src.chains) == old(src.Content())[nread..] && chain == src.chains[0]
    ensures old(dst.Content()) != [] ==> old(dst.chains) <= dst.chains
    ensures forall c :: c in dst.chains ==> c in old(dst.chains) || c in old(src.chains)
    ensures k < |old(src.chains)| && src.chains == old(src.chains)[k..] && old(Within(src.chains, datlen, k))
    ensures Spliced(dst.chains, old(Behind(dst)), old(src.chains)[..k]) && (k > 0 ==> dst.Content() != [])
    ensures dst.NoneLost(old(dst.chains))
  {
    hide Seg, Sound, Full, Bytes, Chain.Data, Buffer.Valid, Buffer.Content, Buffer.Draining, Within;
    SizeIsLength(src);
    ghost var all, goal := src.Content(), src.Content()[datlen..];
    var previous;
    chain, previous, left, nread, k := SkipAndTell(src, datlen);
    if nread > 0 {
      SplitDisjoint(dst, src, k);
      ApartByIndex(src.chains[k..], dst.chains);
      ghost var rest := src.chains[k..];
      PreviousNotIn(src, k);
      MoveFront(dst, src, previous, chain, nread, k);
      assert src.Draining(chain, rest, left, goal);
    } else {
      assert all[..0] == [] && dst.Content() + [] == dst.Content();
    }
  }

  lemma PreviousNotIn(src: Buffer, k: nat)
    requires Seg(src.first, src.chains, null) && 0 < k < |src.chains|
    ensures forall i :: 0 <= i < |src.chains[k..]| ==> src.chains[k..][i] != src.chains[k - 1]
  {
    assert src.chains == src.chains[..k] + src.chains[k..];
    SegSplit(src.first, src.chains[..k], src.chains[k..], null);
    assert src.chains[k - 1] in src.chains[..k];
  }

  method SkipAndTell(src: Buffer, datlen: nat)
    returns (chain: Chain, previous: Chain, left: nat, nread: nat, ghost k: nat)
    requires src.Valid() && datlen < src.total_len == |src.Content()|
    modifies src`last_with_datap
    ensures k < |src.chains| && chain == src.chains[k] && (k > 0 ==> previous == src.chains[k - 1])
    ensures left < chain.off && nread + left == datlen && (nread > 0 <==> k > 0)
    ensures src.Draining(chain, src.chains[k..], left, old(src.Content())[datlen..])
    ensures Seg(src.first, src.chains, null) && Sound(src.chains) && src.first == src.chains[0]
    ensures k > 0 ==> Full(src.chains)
    ensures Sound(src.chains[..k]) && Bytes(src.chains[..k]) == old(src.Content())[..nread]
    ensures Sound(src.chains[k..]) && Bytes(src.chains[k..]) == old(src.Content())[nread..]
    ensures k == 0 ==> src.chains[k..] == src.chains && chain == src.first
    ensures Within(src.chains, datlen, k)
  {
    hide Within, Seg, Sound, Full, Bytes, Chain.Data, Buffer.Valid, Buffer.Content, Buffer.Draining;
    ListOf(src);
    ghost var all := Bytes(src.chains);
    chain, previous, left, nread, k := SkipChains(src, datlen);
    Passed(src, chain, left, nread, k, all);
  }

  /** The end of evbuffer_remove_buffer: the first chain of `src` gives up its first `left` bytes. */
  method CutRest(src: Buffer, chain: Chain, left: nat, total: nat, ghost goal: seq<byte>)
    requires src.chains != [] && src.first == chain && left < chain.off && total == |goal|
    requires src.Draining(chain, src.chains, left, goal)
    modifies src`total_len, chain`off, chain`misalign
    ensures src.Valid() && src.Content() == goal && src.chains == old(src.chains)
  {
    hide Seg, Sound, Full, Bytes, Chain.Data, Buffer.Valid, Buffer.Content, Buffer.Draining;
    src.DrainCut(chain, src.chains, left, goal);
    ghost var rest := src.chains[1..];
    assert src.chains == [chain] + rest;
    chain.Consume(left);
    src.total_len := total;
    src.FromHead(chain, rest);
  }

  lemma MemoryWithin(cs: seq<Chain>, a: seq<Chain>, b: seq<Chain>)
    requires forall c :: c in cs ==> c in a || c in b
    ensures Memory(cs) <= Memory(a) + Memory(b)
  {
  }

  lemma PartOf(src: Buffer, chain: Chain, rest: seq<Chain>, left: nat, all: seq<byte>, nread: nat)
    requires nread + left <= |all| && src.Draining(chain, rest, left, all[nread + left..]) && left < chain.off
    requires |Bytes(rest)| == |all| - nread && Bytes(rest) == all[nread..]
    ensures chain.Ok() && chain.Data()[..left] == all[nread..nread + left]
  {
  }

  lemma LastOneIn(b: Buffer)
    ensures forall i :: 0 <= i < |b.LastOne()| ==> b.LastOne()[i] in b.chains
    ensures Memory(b.LastOne()) <= Memory(b.chains)
  {
  }

  /** The chains come from these two lists, or are new. */
  twostate predicate JoinedFrom(new a: seq<Chain>, new b: seq<Chain>, new cs: seq<Chain>)
    reads cs`pinned
  {
    forall c :: c in cs ==> c in a || c in b || (fresh(c) && fresh(c.buffer) && !c.pinned)
  }

  /** The evbuffer_add of evbuffer_remove_buffer: the bytes to take from the first chain that stays. */
  method AddPart(src: Buffer, dst: Buffer, chain: Chain, left: nat, datlen: nat, ghost start: seq<byte>,
      ghost all: seq<byte>, ghost cs: seq<Chain>, ghost ds: seq<Chain>, ghost at: nat, ghost moved: seq<Chain>)
    requires dst.Valid() && Disjoint(dst, src) && !dst.freeze_end && left <= datlen <= |all|
    requires src.chains != [] && chain in src.chains && chain.Ok() && left < chain.off
    requires src.Draining(chain, src.chains, left, all[datlen..])
    requires forall i :: 0 <= i < |dst.chains| ==> dst.chains[i] in cs || dst.chains[i] in ds
    requires dst.NoneLost(cs) && Spliced(dst.chains, at, moved) && (dst.Content() == [] ==> at == 0 && moved == [])
    requires dst.Content() == start + all[..datlen - left] && chain.Data()[..left] == all[datlen - left..datlen]
    modifies dst`first, dst`last, dst`last_with_datap, dst`total_len, dst`chains
    modifies dst.LastOne()`freed, dst.LastOne()`dangling, dst.LastOne()`next, dst.LastOne()`off, dst.LastOne()`misalign
    modifies Memory(dst.LastOne())
    ensures dst.Valid() && Disjoint(dst, src)
    ensures dst.Content() == start + all[..datlen]
    ensures Spliced(dst.chains, at, moved) && dst.NoneLost(cs) && JoinedFrom(cs, ds, dst.chains)
    ensures old(dst.Content()) != [] && cs <= old(dst.chains) ==> cs <= dst.chains && Keeps(cs)
    ensures src.Draining(chain, src.chains, left, all[datlen..]) && left < chain.off
  {
    hide Seg, Sound, Full, Bytes, Chain.Data, Chain.Peek, Buffer.Valid, Buffer.Content, Buffer.Draining,
         Buffer.Extended, Buffer.LastOne;
    var part := chain.Peek(0, left);
    LastOneIn(dst);
    dst.AllOk();
    ApartByIndex(src.chains, dst.LastOne());
    assert all[..datlen - left] + all[datlen - left..datlen] == all[..datlen];
    Assoc(start, all[..datlen - left], part);
    var _ := dst.Add(part);
    forall i | 0 <= i < |cs| ensures cs[i] in dst.chains || cs[i].freed {
      if old(cs[i].freed) { assert cs[i] !in old(dst.chains); }
    }
  }

  /** The bytes arrive in `dst`; `src` has yet to give up the first `left` of those that it has left. */
  method MoveBytes(src: Buffer, dst: Buffer, datlen: nat) returns (chain: Chain, left: nat, nread: nat, ghost k: nat)
    requires dst.Valid() && src.Valid() && Disjoint(dst, src) && datlen < src.total_len == |src.Content()| && !dst.freeze_end
    modifies dst`first, dst`last, dst`last_with_datap, dst`total_len, dst`chains
    modifies dst.chains`next, dst.chains`off, dst.chains`misalign, dst.chains`freed, dst.chains`dangling, Memory(dst.chains)
    modifies src`first, src`last_with_datap, src`chains
    modifies src.chains`next, src.chains`off, src.chains`misalign, src.chains`freed, src.chains`dangling, Memory(src.chains)
    ensures dst.Valid() && Disjoint(dst, src)
    ensures dst.Content() == old(dst.Content()) + old(src.Content())[..datlen]
    ensures src.chains != [] && src.first == chain && nread + left == datlen && left < chain.off && chain in src.chains
    ensures src.Draining(chain, src.chains, left, old(src.Content())[datlen..])
    ensures old(dst.Content()) != [] ==> old(dst.chains) <= dst.chains && Keeps(old(dst.chains))
    ensures JoinedFrom(old(dst.chains), old(src.chains), dst.chains) && dst.NoneLost(old(dst.chains))
    ensures k < |old(src.chains)| && src.chains == old(src.chains)[k..] && old(Within(src.chains, datlen, k))
    ensures Spliced(dst.chains, old(Behind(dst)), old(src.chains)[..k])
  {
    hide Seg, Sound, Full, Bytes, Chain.Data, Chain.Peek, Buffer.Valid, Buffer.Content, Buffer.Draining,
         Buffer.LastOne, Memory, Within, Spliced, Buffer.NoneLost;
    ghost var all, at, moved := src.Content(), Behind(dst), src.chains;
    chain, left, nread, k := MoveWhole(dst, src, datlen);
    moved := moved[..k];
    PartOf(src, chain, src.chains, left, all, nread);
    LastOneIn(dst);
    MemoryWithin(dst.chains, old(dst.chains), old(src.chains));
    assert forall i :: 0 <= i < |dst.chains| ==> dst.chains[i] in old(dst.chains) || dst.chains[i] in old(src.chains);
    assert chain in src.chains;
    AddPart(src, dst, chain, left, datlen, old(dst.Content()), all, old(dst.chains), old(src.chains), at, moved);
  }

  /** evbuffer_remove_buffer, when something stays in `src`. */
  method RemovePart(src: Buffer, dst: Buffer, datlen: nat) returns (result: int, ghost k: nat)
    requires dst.Valid() && src.Valid() && Disjoint(dst, src) && datlen < src.total_len == |src.Content()| && !dst.freeze_end
    modifies dst`first, dst`last, dst`last_with_datap, dst`total_len, dst`chains
    modifies dst.chains`next, dst.chains`off, dst.chains`misalign, dst.chains`freed, dst.chains`dangling, Memory(dst.chains)
    modifies src`first, src`last_with_datap, src`total_len, src`chains
    modifies src.chains`next, src.chains`off, src.chains`misalign, src.chains`freed, src.chains`dangling, Memory(src.chains)
    ensures dst.Valid() && src.Valid() && Disjoint(dst, src) && result == datlen
    ensures dst.Content() == old(dst.Content()) + old(src.Content())[..datlen]
    ensures src.Content() == old(src.Content())[datlen..]
    ensures old(dst.Content()) != [] ==> dst.Grown()
    ensures JoinedFrom(old(dst.chains), old(src.chains), dst.chains) && dst.NoneLost(old(dst.chains))
    ensures k < |old(src.chains)| && src.chains == old(src.chains)[k..] && old(Within(src.chains, datlen, k))
    ensures Spliced(dst.chains, old(Behind(dst)), old(src.chains)[..k])
  {
    hide Within, Spliced, Seg, Sound, Full, Bytes, Chain.Data, Chain.Peek, Buffer.Valid, Buffer.Content, Buffer.Draining;
    ghost var all := src.Content();
    var chain, left, nread;
    chain, left, nread, k := MoveBytes(src, dst, datlen);
    ApartByIndex(src.chains, dst.chains);
    CutRest(src, chain, left, src.total_len - datlen, all[datlen..]);
    result := nread + left;
  }

  /** evbuffer_remove_buffer.  The first `k` chains of `src`, which lie within the bytes to move, move as they are. */
  method RemoveBuffer(src: Buffer, dst: Buffer, datlen: nat) returns (result: int, ghost k: nat)
    requires dst.Valid() && src.Valid() && (dst == src || Disjoint(dst, src))
    modifies dst`first, dst`last, dst`last_with_datap, dst`total_len, dst`chains
    modifies dst.chains`next, dst.chains`off, dst.chains`misalign, dst.chains`freed, dst.chains`dangling, Memory(dst.chains)
    modifies src`first, src`last, src`last_with_datap, src`total_len, src`chains
    modifies src.chains`next, src.chains`off, src.chains`misalign, src.chains`freed, src.chains`dangling, Memory(src.chains)
    ensures dst.Valid() && src.Valid() && (dst != src ==> Disjoint(dst, src))
    ensures var n := if datlen >= old(src.total_len) then old(src.total_len) else datlen;
            var idle := datlen == 0 || dst == src;
            var refused := !idle && (dst.freeze_end || src.freeze_start);
            && result == (if idle then 0 else if refused then -1 else n)
            && (idle || refused ==> dst.Content() == old(dst.Content()) && src.Content() == old(src.Content()))
            && (!idle && !refused ==>
                  dst.Content() == old(dst.Content()) + old(src.Content())[..n] && src.Content() == old(src.Content())[n..])
            && (idle || refused ==> dst.Untouched() && src.Untouched())
            && (!idle && !refused && old(dst.Content()) != [] ==> dst.Grown())
    ensures JoinedFrom(old(dst.chains), old(src.chains), dst.chains) && dst.NoneLost(old(dst.chains))
    ensures k <= |old(src.chains)| && src.chains == old(src.chains)[k..]
    ensures var idle := datlen == 0 || dst == src || old(src.total_len) == 0;
            if idle || dst.freeze_end || src.freeze_start then k == 0
            else old(Within(src.chains, datlen, k)) && Spliced(dst.chains, old(Behind(dst)), old(src.chains)[..k])
  {
    hide Within, Seg, Sound, Full, Bytes, Chain.Data, Chain.Peek, Buffer.Valid, Buffer.Content, Buffer.Draining;
    SizeIsLength(src);
    k := 0;
    if datlen == 0 || dst == src { return 0, k; }
    if dst.freeze_end || src.freeze_start { return -1, k; }
    if datlen >= src.total_len {
      result := src.total_len;
      var all := src.total_len;
      AllOrNothing(src.Content());
      AllOrNothing(dst.Content());
      src.AllWithin(datlen);
      if src.total_len > 0 { k := |src.chains|; }
      var _ := AddBuffer(dst, src);
    } else {
      result, k := RemovePart(src, dst, datlen);
    }
  }

  lemma AllOrNothing(s: seq<byte>)
    ensures s[..|s|] == s && s[|s|..] == [] && s + [] == s
  {
  }
}
