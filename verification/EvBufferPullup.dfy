/**
 evbuffer_pullup (buffer.c): the first bytes of a buffer are gathered in one chain.
*/
module EvBufferPullup {
  import opened Chains
  import opened EvBuffer

  /**
   Bytes still to gather come from `rest`, which starts at `chain`; `tmp` holds those before
   and has room for `left` more.
  */
  ghost predicate Gathering(tmp: Chain, chain: Chain?, rest: seq<Chain>, left: nat, content: seq<byte>)
    reads tmp`misalign, tmp`off, tmp`dangling, tmp`freed, tmp.buffer, rest, set c | c in rest :: c.buffer
  {
    && tmp.Ok() && tmp !in rest && tmp.buffer !in Memory(rest)
    && Seg(chain, rest, null) && Sound(rest) && Full(rest)
    && content == tmp.Data() + Bytes(rest)
    && left <= |Bytes(rest)| && left <= tmp.SpaceLen()
  }

  /** The end of `rest`: the last chain with data is `l`, and the link to it is in `p`. */
  ghost predicate EndsWith(rest: seq<Chain>, l: Chain?, p: Chain) {
    (rest != [] ==> rest[|rest| - 1] == l) && (|rest| > 1 ==> rest[|rest| - 2] == p)
  }

  lemma GatherFirst(tmp: Chain, chain: Chain, rest: seq<Chain>, left: nat, content: seq<byte>)
    requires Gathering(tmp, chain, rest, left, content)
    ensures rest != [] && chain == rest[0] && chain.Ok() && chain !in rest[1..] && chain.off > 0
    ensures chain.buffer != tmp.buffer && chain != tmp && chain.buffer !in Memory(rest[1..])
    ensures tmp !in rest[1..] && tmp.buffer !in Memory(rest[1..])
    ensures Seg(chain.next, rest[1..], null) && Sound(rest[1..]) && Full(rest[1..])
    ensures Bytes(rest) == chain.Data() + Bytes(rest[1..])
    ensures chain.next == if |rest| > 1 then rest[1] else null
  {
    if |rest| > 1 { assert rest[1..][0] == rest[1]; }
  }

  lemma GatherList(tmp: Chain, chain: Chain?, rest: seq<Chain>, left: nat, content: seq<byte>)
    requires Gathering(tmp, chain, rest, left, content)
    ensures tmp !in rest && (rest != [] ==> chain == rest[0]) && (rest == [] ==> chain == null)
    ensures forall i, j :: 0 <= i < j < |rest| ==> rest[i] != rest[j]
  {
    SegDistinct(chain, rest, null);
  }

  /** One turn of the copying loop. */
  method GatherChain(tmp: Chain, chain: Chain, ghost rest: seq<Chain>, left: nat, ghost content: seq<byte>)
    returns (next: Chain?, left': nat)
    requires Gathering(tmp, chain, rest, left, content) && chain.off <= left
    modifies tmp`off, tmp.buffer, chain`freed, chain`dangling
    ensures Gathering(tmp, next, rest[1..], left', content)
    ensures left' == left - chain.off && tmp.off == old(tmp.off) + chain.off
    ensures rest != [] && next == if |rest| > 1 then rest[1] else null
    ensures if chain.pinned then chain.dangling && !chain.freed else chain.freed
  {
    hide Chain.Data, Chain.Peek, Seg, Sound, Full, Bytes;
    GatherFirst(tmp, chain, rest, left, content);
    Assoc(tmp.Data(), chain.Data(), Bytes(rest[1..]));
    PeekAll(chain);
    tmp.Append(chain.Peek(0, chain.off));
    left' := left - chain.off;
    next := chain.next;
    chain.Free();
  }

  lemma PeekAll(c: Chain)
    requires c.Ok()
    ensures c.Peek(0, c.off) == c.Data()
  {
  }

  /** One of the chains that hold the next `remaining` bytes is pinned. */
  ghost predicate PinnedBefore(cs: seq<Chain>, remaining: int)
    reads cs`pinned, cs`off
  {
    exists k :: 0 <= k < |cs| && cs[k].pinned && Offs(cs[..k]) < remaining
  }

  lemma OffsFromFirst(cs: seq<Chain>, k: nat)
    requires 0 < k <= |cs|
    ensures Offs(cs[..k]) == cs[0].off + Offs(cs[1..][..k - 1])
  {
    assert cs[..k][1..] == cs[1..][..k - 1];
  }

  lemma PinnedFromFirst(cs: seq<Chain>, remaining: int)
    requires cs != [] && remaining > 0
    ensures PinnedBefore(cs, remaining) <==> cs[0].pinned || PinnedBefore(cs[1..], remaining - cs[0].off)
  {
    assert cs[..0] == [];
    forall k | 0 < k < |cs| ensures Offs(cs[..k]) == cs[0].off + Offs(cs[1..][..k - 1]) && cs[k] == cs[1..][k - 1] {
      OffsFromFirst(cs, k);
    }
    if PinnedBefore(cs[1..], remaining - cs[0].off) {
      var k :| 0 <= k < |cs[1..]| && cs[1..][k].pinned && Offs(cs[1..][..k]) < remaining - cs[0].off;
      assert cs[k + 1].pinned;
    }
  }

  lemma NoneTooFar(cs: seq<Chain>, remaining: int)
    requires remaining <= 0
    ensures !PinnedBefore(cs, remaining)
  {
  }

  /** The loop of evbuffer_pullup that looks for pinned chains. */
  method PinnedAhead(chain: Chain?, ghost rest: seq<Chain>, remaining: nat) returns (pinned: bool)
    requires Seg(chain, rest, null) && remaining > 0
    ensures pinned <==> exists k :: 0 <= k < |rest| && rest[k].pinned && Offs(rest[..k]) < remaining
  {
    hide PinnedBefore;
    var tmp, left := chain, remaining;
    ghost var cs := rest;
    while tmp != null
      invariant Seg(tmp, cs, null) && left > 0 && PinnedBefore(rest, remaining) == PinnedBefore(cs, left)
      decreases cs
    {
      PinnedFromFirst(cs, left);
      if tmp.pinned { break; }
      if tmp.off >= left {
        NoneTooFar(cs[1..], left - tmp.off);
        break;
      }
      left := left - tmp.off;
      tmp, cs := tmp.next, cs[1..];
    }
    pinned := tmp != null && tmp.pinned;
    PinnedMeans(rest, remaining);
    PinnedMeans(cs, left);
  }

  lemma PinnedMeans(cs: seq<Chain>, remaining: int)
    ensures PinnedBefore(cs, remaining) <==> exists k :: 0 <= k < |cs| && cs[k].pinned && Offs(cs[..k]) < remaining
  {
  }

  /** Whether evbuffer_pullup fails because a chain must not be moved. */
  ghost predicate Obstructed(b: Buffer, n: nat)
    requires b.Valid() && b.chains != []
    reads b, b.chains, set c | c in b.chains :: c.buffer
  {
    var f := b.chains[0];
    f.off < n && (PinnedBefore(b.chains[1..], n - f.off) || (f.pinned && f.buffer.Length - f.misalign - f.off < n - f.off))
  }

  /** The copying loop: afterwards `tmp` lacks only bytes of one chain. */
  method Gather(b: Buffer, tmp: Chain, start: Chain, ghost cs: seq<Chain>, size: nat, ghost content: seq<byte>)
    returns (chain: Chain?, left: nat, lost: bool, lostLink: bool, ghost k: nat)
    requires Gathering(tmp, start, cs, size, content) && cs != []
    requires b.last_with_datap.NextOf? && EndsWith(cs, Deref(b.last_with_datap), b.last_with_datap.c)
    requires |cs| == 1 ==> b.last_with_datap.c == tmp
    modifies tmp`off, tmp.buffer, cs`freed, cs`dangling
    ensures k <= |cs| && Gathering(tmp, chain, cs[k..], left, content)
    ensures chain == (if k == |cs| then null else cs[k]) && (chain != null ==> left < chain.off)
    ensures tmp.off + left == old(tmp.off) + size && Offs(cs[..k]) + left == size
    ensures lost <==> k == |cs|
    ensures lostLink <==> k + 1 >= |cs| && b.last_with_datap.c != tmp
    ensures forall j :: 0 <= j < k ==> cs[j].freed || cs[j].pinned
  {
    hide Gathering, Seg, Sound, Full, Bytes, Chain.Data, Offs;
    OffsOfNone(cs[..0]);
    chain, left, k := start, size, 0;
    lost, lostLink := false, false;
    var lastWithData := Deref(b.last_with_datap);
    assert cs[0..] == cs;
    GatherList(tmp, start, cs, size, content);
    while chain != null && left >= chain.off
      modifies tmp`off, tmp.buffer, cs`freed, cs`dangling
      invariant k <= |cs| && Gathering(tmp, chain, cs[k..], left, content)
      invariant chain == (if k == |cs| then null else cs[k])
      invariant tmp.off + left == old(tmp.off) + size && Offs(cs[..k]) + left == size
      invariant lost <==> k == |cs|
      invariant forall j :: 0 <= j < k ==> cs[j].freed || cs[j].pinned
      invariant lostLink <==> k + 1 >= |cs| && b.last_with_datap.c != tmp
      decreases |cs| - k
    {
      assert cs[k..][1..] == cs[k + 1..] && cs[k..][0] == cs[k];
      OffsMore(cs, k);
      if chain == lastWithData { lost := true; }
      if NextOf(chain) == b.last_with_datap { lostLink := true; }
      chain, left := GatherChain(tmp, chain, cs[k..], left, content);
      k := k + 1;
    }
  }

  /** The part of a chain that is needed is copied, the rest of it stays. */
  method GatherPart(tmp: Chain, chain: Chain, ghost rest: seq<Chain>, left: nat, ghost content: seq<byte>)
    requires Gathering(tmp, chain, rest, left, content) && left < chain.off
    modifies tmp`off, tmp.buffer, chain`off, chain`misalign
    ensures Gathering(tmp, chain, rest, 0, content) && tmp.off == old(tmp.off) + left && chain.off > 0
    ensures chain.misalign == old(chain.misalign) + left && chain.off == old(chain.off) - left
  {
    hide Chain.Data, Chain.Peek, Seg, Sound, Full, Bytes;
    GatherFirst(tmp, chain, rest, left, content);
    ghost var d, more, part := chain.Data(), Bytes(rest[1..]), chain.Peek(0, left);
    Assoc(tmp.Data(), part, d[left..] + more);
    Assoc(part, d[left..], more);
    assert part + d[left..] == d;
    tmp.Append(chain.Peek(0, left));
    chain.Consume(left);
    GatherAgain(tmp, chain, rest, content);
  }

  lemma GatherAgain(tmp: Chain, chain: Chain, rest: seq<Chain>, content: seq<byte>)
    requires tmp.Ok() && tmp !in rest && tmp.buffer !in Memory(rest)
    requires rest != [] && chain == rest[0] && chain !in rest[1..] && chain.Ok() && chain.off > 0
    requires chain.buffer !in Memory(rest[1..])
    requires Seg(chain.next, rest[1..], null) && Sound(rest[1..]) && Full(rest[1..])
    requires content == tmp.Data() + (chain.Data() + Bytes(rest[1..]))
    ensures Gathering(tmp, chain, rest, 0, content)
  {
  }

  lemma {:induction false} OffsGrow(cs: seq<Chain>, j: nat, k: nat)
    requires j < k <= |cs| && Full(cs)
    ensures Offs(cs[..j]) < Offs(cs[..k])
  {
    OffsFromFirst(cs, k);
    if j > 0 {
      OffsFromFirst(cs, j);
      OffsGrow(cs[1..], j - 1, k - 1);
    } else {
      assert cs[..j] == [];
    }
  }

  /** A pinned chain is not among those that hold the next `size` bytes: no more than these leave it alone. */
  lemma PinnedBeyond(cs: seq<Chain>, size: nat)
    requires Full(cs) && !PinnedBefore(cs, size)
    ensures forall j, k :: 0 <= j < |cs| && cs[j].pinned && 0 <= k <= |cs| && Offs(cs[..k]) <= size ==>
              k <= j && (k == j ==> Offs(cs[..k]) == size)
  {
    forall j, k | 0 <= j < |cs| && cs[j].pinned && 0 <= k <= |cs| && Offs(cs[..k]) <= size
      ensures k <= j && (k == j ==> Offs(cs[..k]) == size)
    {
      assert Offs(cs[..j]) >= size;
      if j < k { OffsGrow(cs, j, k); }
    }
  }

  lemma GatherFull(tmp: Chain, chain: Chain?, rest: seq<Chain>, left: nat, content: seq<byte>)
    requires Gathering(tmp, chain, rest, left, content)
    ensures Full(rest)
  {
  }

  /** Gathers `size` bytes, none of them in a pinned chain, behind those in `tmp`, the first chain of `b`. */
  method PullInto(b: Buffer, tmp: Chain, start: Chain, ghost cs: seq<Chain>, size: nat, ghost content: seq<byte>)
    returns (ghost k: nat)
    requires Gathering(tmp, start, cs, size, content) && cs != [] && b.first == tmp && b.last == cs[|cs| - 1]
    requires size > 0 && b.total_len == |content| && !PinnedBefore(cs, size)
    requires b.last_with_datap.NextOf? && EndsWith(cs, Deref(b.last_with_datap), b.last_with_datap.c)
    requires |cs| == 1 ==> b.last_with_datap.c == tmp
    modifies b`last, b`last_with_datap, b`chains, tmp`off, tmp.buffer, tmp`next,
             cs`freed, cs`dangling, cs`off, cs`misalign
    ensures b.Valid() && b.Content() == content && b.first == tmp && tmp.off == old(tmp.off) + size
    ensures k <= |cs| && b.chains == [tmp] + cs[k..]
    ensures forall j :: 0 <= j < k ==> cs[j].freed
    ensures forall j :: 0 <= j < |cs| && cs[j].pinned ==> k <= j && cs[j].misalign == old(cs[j].misalign) && cs[j].off == old(cs[j].off)
  {
    hide Gathering, Seg, Sound, Full, Bytes, Chain.Data, Buffer.Valid, Buffer.Content, Offs, PinnedBefore;
    GatherFull(tmp, start, cs, size, content);
    PinnedBeyond(cs, size);
    ghost var p := b.last_with_datap.c;
    var chain, left, lost, lostLink;
    GatherList(tmp, start, cs, size, content);
    chain, left, lost, lostLink, k := Gather(b, tmp, start, cs, size, content);
    TmpNotIn(tmp, chain, cs[k..], left, content);
    if chain != null {
      GatherPart(tmp, chain, cs[k..], left, content);
    } else {
      NothingLeft(tmp, chain, cs[k..], left, content);
      b.last := tmp;
    }
    tmp.next := chain;
    if lost {
      b.last_with_datap := FirstOf(b);
    } else if lostLink {
      // The source falls back to the first link when there is no next chain or it is empty;
      // neither can be, because the last chain with data has not been removed.
      assert b.first.next != null && b.first.next.off > 0;
      b.last_with_datap := NextOf(b.first);
    }
    b.chains := [tmp] + cs[k..];
    PulledList(b, tmp, chain, cs[k..], content);
  }

  lemma TmpNotIn(tmp: Chain, chain: Chain?, rest: seq<Chain>, left: nat, content: seq<byte>)
    requires Gathering(tmp, chain, rest, left, content)
    ensures forall i :: 0 <= i < |rest| ==> rest[i] != tmp
  {
  }

  lemma NothingLeft(tmp: Chain, chain: Chain?, rest: seq<Chain>, left: nat, content: seq<byte>)
    requires Gathering(tmp, chain, rest, left, content) && chain == null
    ensures rest == [] && left == 0
  {
  }

  lemma PulledList(b: Buffer, tmp: Chain, chain: Chain?, rest: seq<Chain>, content: seq<byte>)
    requires Gathering(tmp, chain, rest, 0, content) && b.chains == [tmp] + rest && b.first == tmp && tmp.next == chain
    requires tmp.off > 0 && b.total_len == |content|
    requires b.last == if rest == [] then tmp else rest[|rest| - 1]
    requires b.last_with_datap == if rest == [] then FirstOf(b) else if |rest| == 1 then NextOf(tmp) else NextOf(rest[|rest| - 2])
    ensures b.Valid() && b.Content() == content
  {
    b.FromHead(tmp, rest);
  }

  lemma HasData(b: Buffer, n: nat)
    requires b.Valid() && 0 < n <= b.total_len
    ensures b.chains != [] && b.first == b.chains[0] && b.first.Ok() && b.total_len == |b.Content()|
    ensures n <= b.first.off ==> b.first.Data()[..n] == b.Content()[..n]
  {
    b.ToHead();
  }

  /** A buffer whose first chain does not hold all the bytes that are wanted. */
  lemma NeedsMore(b: Buffer, n: nat)
    requires b.Valid() && 0 < n <= b.total_len && b.chains != [] && b.first == b.chains[0] && b.first.off < n
    ensures |b.chains| > 1 && Seg(b.first.next, b.chains[1..], null) && b.first.next == b.chains[1]
    ensures b.last == b.chains[|b.chains| - 1] && b.last_with_datap == NextOf(b.chains[|b.chains| - 2])
    ensures Deref(b.last_with_datap) == b.last && b.first in b.chains
    ensures b.first.Ok() && n - b.first.off <= b.first.SpaceLen() ==>
              Gathering(b.first, b.first.next, b.chains[1..], n - b.first.off, b.Content())
    ensures Seg(b.first, b.chains, null) && Sound(b.chains) && Full(b.chains) && b.Content() == Bytes(b.chains)
  {
    b.ToHead();
    b.ToTail();
    assert b.chains[1..][0] == b.chains[1];
  }

  /** The chains of `cs` from `k` on are in the list. */
  lemma StillListed(b: Buffer, before: seq<Chain>, cs: seq<Chain>, k: nat)
    requires before != [] && cs == before[1..] && k <= |cs| && b.chains == [before[0]] + cs[k..]
    ensures forall i :: 0 <= i < |before| && (i == 0 || k < i) ==> before[i] in b.chains
  {
    forall i | 0 <= i < |before| && (i == 0 || k < i) ensures before[i] in b.chains {
      if i > 0 { assert b.chains[i - k] == cs[i - 1]; }
    }
  }

  /** The first chain has the space. */
  method PullFirst(b: Buffer, n: nat)
    requires b.Valid() && 0 < n <= b.total_len && b.chains != [] && b.first == b.chains[0]
    requires b.first.Ok() && b.first.off < n && n - b.first.off <= b.first.SpaceLen()
    requires !PinnedBefore(b.chains[1..], n - b.first.off)
    modifies b`last, b`last_with_datap, b`chains, Memory(b.chains)
    modifies b.chains`next, b.chains`off, b.chains`misalign, b.chains`freed, b.chains`dangling
    ensures b.Valid() && b.Content() == old(b.Content()) && b.chains != [] && b.first == b.chains[0] && b.first.off == n
    ensures b.OnlyNew() && b.PinnedStay() && b.NoneLost(old(b.chains)) && b.chains[0] == old(b.chains[0])
  {
    hide Gathering, Chain.Data, Seg, Sound, Full, Bytes, Buffer.Valid, Buffer.Content, PinnedBefore, Offs;
    HasData(b, n);
    NeedsMore(b, n);
    ghost var cs := b.chains[1..];
    ghost var k := PullInto(b, b.first, b.first.next, cs, n - b.first.off, b.Content());
    StillListed(b, old(b.chains), cs, k);
    b.AllOk();
  }

  method FreshChain(start: Chain, ghost cs: seq<Chain>, n: nat, ghost content: seq<byte>) returns (tmp: Chain)
    requires Seg(start, cs, null) && Sound(cs) && Full(cs) && content == Bytes(cs) && n <= |content|
    ensures fresh(tmp) && fresh(tmp.buffer) && !tmp.pinned && tmp.off == 0 && Gathering(tmp, start, cs, n, content)
  {
    hide Gathering, Seg, Sound, Full, Bytes;
    tmp := new Chain(n);
    FreshGathering(tmp, start, cs, n, content);
  }

  /** The bytes move to a new first chain. */
  method PullFresh(b: Buffer, n: nat)
    requires b.Valid() && 0 < n <= b.total_len && b.chains != [] && b.first == b.chains[0] && b.first.off < n
    requires !b.first.pinned && !PinnedBefore(b.chains[1..], n - b.first.off)
    modifies b`first, b`last, b`last_with_datap, b`chains, Memory(b.chains)
    modifies b.chains`next, b.chains`off, b.chains`misalign, b.chains`freed, b.chains`dangling
    ensures b.Valid() && b.Content() == old(b.Content()) && b.chains != [] && b.first == b.chains[0] && b.first.off == n
    ensures b.OnlyNew() && b.PinnedStay() && b.NoneLost(old(b.chains))
  {
    hide Gathering, Chain.Data, Seg, Sound, Full, Bytes, Buffer.Valid, Buffer.Content, PinnedBefore, Offs;
    HasData(b, n);
    NeedsMore(b, n);
    PinnedFromFirst(b.chains, n);
    var start := b.first;
    var tmp := FreshChain(start, b.chains, n, b.Content());
    b.first := tmp;
    ghost var cs := b.chains;
    ghost var k := PullInto(b, tmp, start, cs, n, old(b.Content()));
    b.AllOk();
    forall i | 0 <= i < |cs| && old(cs[i].pinned) ensures b.Stays(cs[i]) {
      assert b.chains[i - k + 1] == cs[i] && b.chains[i - k + 1] in b.chains;
    }
  }

  lemma FreshGathering(tmp: Chain, start: Chain, cs: seq<Chain>, n: nat, content: seq<byte>)
    requires tmp.Ok() && tmp.off == 0 && n <= tmp.SpaceLen() && tmp !in cs && tmp.buffer !in Memory(cs)
    requires Seg(start, cs, null) && Sound(cs) && Full(cs) && content == Bytes(cs) && n <= |content|
    ensures Gathering(tmp, start, cs, n, content)
  {
    assert tmp.Data() == [];
  }

  /** evbuffer_pullup, when the first chain does not hold all the bytes. */
  method PullMore(b: Buffer, n: nat) returns (done: bool)
    requires b.Valid() && 0 < n <= b.total_len && b.chains != [] && b.first == b.chains[0] && b.first.off < n
    modifies b`first, b`last, b`last_with_datap, b`chains, Memory(b.chains)
    modifies b.chains`next, b.chains`off, b.chains`misalign, b.chains`freed, b.chains`dangling
    ensures b.Valid() && b.Content() == old(b.Content()) && done == !old(Obstructed(b, n))
    ensures if done
            then b.chains != [] && b.first == b.chains[0] && b.first.off == n
                 && b.OnlyNew() && b.PinnedStay() && b.NoneLost(old(b.chains))
            else b.Untouched()
    ensures old(b.chains[0].pinned) ==> b.chains != [] && b.chains[0] == old(b.chains[0])
  {
    hide Chain.Data, Chain.Peek, Seg, Sound, Full, Bytes, Buffer.Valid, Buffer.Content, PinnedBefore;
    var chain := b.first;
    NeedsMore(b, n);
    var pinned := PinnedAhead(chain.next, b.chains[1..], n - chain.off);
    PinnedMeans(b.chains[1..], n - chain.off);
    if pinned { return false; }
    if chain.pinned {
      if chain.SpaceLen() < n - chain.off { return false; }
      PullFirst(b, n);
    } else if chain.buffer.Length - chain.misalign >= n {
      PullFirst(b, n);
    } else {
      PullFresh(b, n);
    }
    return true;
  }

  /**
   evbuffer_pullup.  The result stands for the address of the data of the first chain; the
   content never changes.
  */
  method Pullup(b: Buffer, size: int) returns (result: Chain?)
    requires b.Valid()
    modifies b`first, b`last, b`last_with_datap, b`chains, Memory(b.chains)
    modifies b.chains`next, b.chains`off, b.chains`misalign, b.chains`freed, b.chains`dangling
    ensures b.Valid() && b.Content() == old(b.Content()) && b.OnlyNew() && b.PinnedStay() && b.NoneLost(old(b.chains))
    ensures old(b.chains != [] && b.chains[0].pinned) ==> b.chains != [] && b.chains[0] == old(b.chains[0])
    ensures result == null || old(b.chains != [] && b.chains[0].off >= if size < 0 then b.total_len else size) ==> b.Untouched()
    ensures var n := if size < 0 then b.total_len else size;
            && (result == null <==>
                  n == 0 || n > b.total_len || old(b.chains != [] && Obstructed(b, if size < 0 then b.total_len else size)))
            && (result != null ==> result == b.first && result.Ok() && n <= result.off && result.Data()[..n] == b.Content()[..n])
  {
    hide Chain.Data, Chain.Peek, Seg, Sound, Full, Bytes, Buffer.Valid, Buffer.Content, PinnedBefore;
    b.AllOk();
    var n := if size < 0 then b.total_len else size;
    if n == 0 || n > b.total_len { return null; }
    HasData(b, n);
    if b.first.off < n {
      var done := PullMore(b, n);
      if !done { return null; }
    }
    HasData(b, n);
    return b.first;
  }
}
