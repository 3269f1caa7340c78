/**
 evbuffer (buffer.c): a byte sequence kept in a linked list of chains.
*/
module EvBuffer {
  import opened Chains

  /** A pointer to a link: the `first` field of a buffer or the `next` field of a chain. */
  datatype Link = FirstOf(b: Buffer) | NextOf(c: Chain)

  function Deref(l: Link): Chain?
    reads match l { case FirstOf(b) => {b as object} case NextOf(c) => {c as object} }
  {
    match l
    case FirstOf(b) => b.first
    case NextOf(c) => c.next
  }

  const EVBUFFER_CHAIN_MAX_AUTO_SIZE := 4096
  const MAX_TO_REALIGN_IN_EXPAND := 2048

  /** evbuffer_chain_should_realign. */
  predicate ShouldRealign(chain: Chain, datalen: nat)
    reads chain
  {
    && chain.buffer.Length - chain.off >= datalen
    && chain.off < chain.buffer.Length / 2
    && chain.off <= MAX_TO_REALIGN_IN_EXPAND
  }

  /** evbuffer_free_all_chains. */
  method FreeAllChains(c: Chain?, ghost cs: seq<Chain>)
    requires Seg(c, cs, null) && forall x :: x in cs ==> !x.freed
    modifies cs`freed, cs`dangling
    ensures forall x :: x in cs ==> if x.pinned then x.dangling && !x.freed else x.freed
  {
    var chain := c;
    ghost var rest := cs;
    while chain != null
      invariant Seg(chain, rest, null)
      invariant forall x :: x in rest ==> x in cs && !x.freed
      invariant forall x :: x in cs && x !in rest ==> if x.pinned then x.dangling && !x.freed else x.freed
      decreases rest
    {
      assert chain == rest[0] && chain in rest;
      var next := chain.next;
      chain.Free();
      chain, rest := next, rest[1..];
    }
  }

  lemma Assoc(a: seq<byte>, b: seq<byte>, c: seq<byte>)
    ensures a + b + c == a + (b + c)
  {
  }

  lemma TakeWhole(all: seq<byte>, a: seq<byte>, b: seq<byte>)
    requires all == a + b
    ensures all[..|a|] == a
  {
  }

  lemma TakePart(all: seq<byte>, a: seq<byte>, b: seq<byte>, c: seq<byte>, n: nat)
    requires all == a + (b + c) && n <= |b|
    ensures all[..|a| + n] == a + b[..n]
  {
  }

  /** The chains of `cs` stay as they are, but the last of them may take more data. */
  twostate predicate Keeps(cs: seq<Chain>)
    reads cs`pinned, cs`off, cs`misalign
  {
    && (forall i :: 0 <= i < |cs| ==> cs[i].pinned == old(cs[i].pinned) && cs[i].off >= old(cs[i].off))
    && (forall i :: 0 <= i < |cs| && cs[i].pinned ==> cs[i].misalign == old(cs[i].misalign))
    && (forall i :: 0 <= i < |cs| - 1 ==> cs[i].off == old(cs[i].off))
  }

  class Buffer {
    var first: Chain?
    var last: Chain?
    var last_with_datap: Link
    var total_len: nat
    var freeze_start: bool
    var freeze_end: bool

    ghost var chains: seq<Chain>

    /** The list runs from `first` to `last`, and `last_with_datap` is the link to its last chain. */
    ghost predicate Ends()
      reads this`first, this`last, this`last_with_datap, this`chains, chains`next
    {
      && Seg(first, chains, null)
      && last == (if chains == [] then null else chains[|chains| - 1])
      && last_with_datap == (if |chains| <= 1 then FirstOf(this) else NextOf(chains[|chains| - 2]))
    }

    /** Only a lone chain may be empty, and then it is not pinned. */
    ghost predicate Filled()
      reads this`chains, chains`off, chains`pinned
    {
      if |chains| == 1 then chains[0].off > 0 || !chains[0].pinned else Full(chains)
    }

    ghost predicate Valid()
      ensures Valid() ==> Sound(chains)
      reads this, chains, set c | c in chains :: c.buffer
    {
      Ends() && Filled() && Sound(chains) && total_len == |Bytes(chains)|
    }

    /** The bytes the buffer stands for. */
    ghost function Content(): seq<byte>
      requires Sound(chains)
      reads this`chains, chains`misalign, chains`off, chains`dangling, chains`freed, set c | c in chains :: c.buffer
    {
      Bytes(chains)
    }

    constructor ()
      ensures Valid() && chains == [] && !freeze_start && !freeze_end
    {
      first, last, total_len := null, null, 0;
      freeze_start, freeze_end := false, false;
      chains := [];
      last_with_datap := FirstOf(this);
    }

    /** Chains are only ever added by allocation. */
    twostate predicate OnlyNew()
      reads this`chains, chains`pinned
    {
      forall c :: c in chains ==> c in old(chains) || (fresh(c) && fresh(c.buffer) && !c.pinned)
    }

    /** The list only grew at its end; the data of what was the last chain may have grown too, in place if it is pinned. */
    twostate predicate Extended()
      reads this`chains, chains, set c | c in chains :: c.buffer
    {
      && old(chains) != [] && old(chains) <= chains
      && var l := old(chains[|chains| - 1]);
      && l.Ok() && old(l.Ok()) && old(l.Data()) <= l.Data()
      && (l.pinned ==> l.misalign == old(l.misalign))
    }

    /** A pinned chain is still in the list, intact, with its data where it was, and no shorter. */
    twostate predicate Stays(c: Chain)
      reads this`chains, c`misalign, c`off, c`freed, c`dangling
    {
      c in chains && !c.freed && !c.dangling && c.misalign == old(c.misalign) && old(c.off) <= c.off
    }

    twostate predicate PinnedStay()
      reads this`chains, chains`misalign, chains`off, chains`freed, chains`dangling
    {
      forall i :: 0 <= i < |old(chains)| && old(chains[i].pinned) ==> old(chains)[i] in chains && Stays(old(chains)[i])
    }

    /** The list only grew at its end. */
    twostate predicate Grown()
      reads this`chains, chains`pinned, chains`off, chains`misalign
    {
      old(chains) <= chains && Keeps(old(chains))
    }

    twostate lemma GrownByAdd()
      requires Extended() && Valid()
      requires forall i :: 0 <= i < |old(chains)| ==> old(chains)[i].pinned == old(chains[i].pinned)
      requires forall i :: 0 <= i < |old(chains)| - 1 ==>
                 var c := old(chains[i]); c.off == old(c.off) && c.misalign == old(c.misalign)
      ensures Grown()
    {
      var cs := old(chains);
      assert |chains[|cs| - 1].Data()| >= |old(chains[|cs| - 1].Data())|;
    }

    /** The chains of `cs` are in the list, or were freed. */
    ghost predicate NoneLost(cs: seq<Chain>)
      reads this`chains, cs`freed
    {
      forall i :: 0 <= i < |cs| ==> cs[i] in chains || cs[i].freed
    }

    /** Nothing of the buffer and its chains has changed. */
    twostate predicate Untouched()
      reads this, chains, set c | c in chains :: c.buffer
    {
      unchanged(this) && unchanged(chains) && unchanged(set c | c in chains :: c.buffer)
    }

    ghost function LastOne(): seq<Chain>
      reads this`chains
    {
      if chains == [] then [] else [chains[|chains| - 1]]
    }

    // ----- the list seen from its last chain -----

    ghost predicate Tail(init: seq<Chain>, l: Chain)
      reads this, init, l, l.buffer, set c | c in init :: c.buffer
    {
      && chains == init + [l] && last == l
      && Seg(first, init, l) && l !in init && l.next == null
      && Sound(init) && l.Ok() && l.buffer !in Memory(init)
      && Full(init) && (l.off > 0 || (init == [] && !l.pinned))
      && last_with_datap == (if init == [] then FirstOf(this) else NextOf(init[|init| - 1]))
      && total_len == |Bytes(init)| + l.off
    }

    lemma ToTail()
      requires Valid() && chains != []
      ensures last != null && Tail(chains[..|chains| - 1], last)
      ensures Content() == Bytes(chains[..|chains| - 1]) + last.Data()
      ensures Deref(last_with_datap) == last
    {
      var init := chains[..|chains| - 1];
      assert chains == init + [last];
      SegSplit(first, init, [last], null);
      SoundSplit(init, [last]);
      FullConcat(init, [last]);
      assert last.buffer in Memory([last]);
      assert Bytes([last]) == last.Data();
      if init != [] {
        assert init == init[..|init| - 1] + [init[|init| - 1]];
        SegSplit(first, init[..|init| - 1], [init[|init| - 1]], last);
      }
    }

    lemma FromTail(init: seq<Chain>, l: Chain)
      requires Tail(init, l)
      ensures Valid() && Content() == Bytes(init) + l.Data()
    {
      assert Memory([l]) == {l.buffer};
      SegConcat(first, init, l, [l], null);
      SoundConcat(init, [l]);
      FullConcat(init, [l]);
      assert Bytes([l]) == l.Data();
    }

    // ----- the list seen from its first chain -----

    ghost predicate Head(h: Chain, rest: seq<Chain>)
      reads this, rest, h, h.buffer, set c | c in rest :: c.buffer
    {
      && chains == [h] + rest && first == h
      && h !in rest && Seg(h.next, rest, null)
      && h.Ok() && h.buffer !in Memory(rest) && Sound(rest)
      && Full(rest) && (h.off > 0 || (rest == [] && !h.pinned))
      && last == (if rest == [] then h else rest[|rest| - 1])
      && last_with_datap == (if rest == [] then FirstOf(this) else if |rest| == 1 then NextOf(h) else NextOf(rest[|rest| - 2]))
      && total_len == h.off + |Bytes(rest)|
    }

    lemma ToHead()
      requires Valid() && chains != []
      ensures first != null && Head(first, chains[1..])
      ensures Content() == first.Data() + Bytes(chains[1..])
    {
      assert chains == [first] + chains[1..];
    }

    lemma FromHead(h: Chain, rest: seq<Chain>)
      requires Head(h, rest)
      ensures Valid() && Content() == h.Data() + Bytes(rest)
    {
      assert chains[1..] == rest;
    }

    // ----- adding at the end -----

    /** Whether `c` can join the list. */
    ghost predicate Foreign(c: Chain)
      reads this`chains, c
    {
      c.Ok() && c.next == null && c !in chains && c.buffer !in Memory(chains) && !c.pinned
    }

    /** evbuffer_chain_insert, when there is no empty chain to replace. */
    method AppendChain(chain: Chain)
      requires Valid() && chains != [] && last.off > 0 && Foreign(chain) && chain.off > 0
      modifies this`chains, this`last, this`last_with_datap, this`total_len, last`next
      ensures Valid() && chains == old(chains) + [chain] && Content() == old(Content()) + chain.Data()
    {
      hide Chain.Data, Seg, Sound, Full, Bytes, Buffer.Valid;
      ToTail();
      ghost var init, l, content := chains[..|chains| - 1], last, Content();
      last.next := chain;
      last_with_datap := NextOf(last);
      last := chain;
      total_len := total_len + chain.off;
      chains := chains + [chain];
      GrownInit(first, init, l, chain);
      FromTail(init + [l], chain);
    }

    /** A chain that got a successor belongs to the chains before the last one. */
    lemma GrownInit(from: Chain?, init: seq<Chain>, l: Chain, next: Chain)
      requires Seg(from, init, l) && l !in init && l.next == next
      requires Sound(init) && l.Ok() && l.buffer !in Memory(init) && Full(init) && l.off > 0
      ensures Seg(from, init + [l], next) && Sound(init + [l]) && Full(init + [l])
      ensures Bytes(init + [l]) == Bytes(init) + l.Data()
      ensures Memory(init + [l]) == Memory(init) + {l.buffer}
    {
      assert Memory([l]) == {l.buffer} && Bytes([l]) == l.Data();
      MemorySplit(init, [l]);
      SegConcat(from, init, l, [l], next);
      SoundConcat(init, [l]);
      FullConcat(init, [l]);
    }

    lemma LoneUnpinned()
      requires Valid() && Content() == []
      ensures forall i :: 0 <= i < |chains| ==> chains[i] in chains && !chains[i].pinned
    {
      NoContent();
    }

    /** evbuffer_chain_insert, when the buffer has no chain or only an empty one. */
    method PlaceChain(chain: Chain)
      requires Valid() && Content() == [] && Foreign(chain)
      modifies this`chains, this`first, this`last, this`total_len, LastOne()`freed, LastOne()`dangling
      ensures Valid() && chains == [chain] && Content() == chain.Data() && NoneLost(old(chains))
    {
      NoContent();
      LoneUnpinned();
      assert chains == LastOne();
      FreeAllChains(first, chains);
      first, last := chain, chain;
      total_len := total_len + chain.off;
      chains := [chain];
      FromTail([], chain);
    }

    lemma NoContent()
      requires Valid()
      ensures Content() == [] ==> |chains| <= 1
      ensures forall c :: c in chains ==> !c.freed
    {
      if |chains| > 1 { FullBytes(chains); }
      SoundMeansOk(chains);
    }

    /**
     evbuffer_chain_insert: the chain goes behind the last one with data, in place of an empty
     chain there may be.
    */
    method ChainInsert(chain: Chain)
      requires Valid() && Foreign(chain) && (chain.off > 0 || chains == [])
      modifies this`chains, this`first, this`last, this`last_with_datap, this`total_len,
               LastOne()`freed, LastOne()`dangling, LastOne()`next
      ensures Valid() && Content() == old(Content()) + chain.Data()
      ensures chains == (if old(Content()) == [] then [] else old(chains)) + [chain] && last == chain
      ensures NoneLost(old(chains))
    {
      if chains != [] { ToTail(); }
      if Deref(last_with_datap) == null {
        PlaceChain(chain);
      } else {
        var ch := last_with_datap;
        ghost var k := 0;
        while Deref(ch) != null && (Deref(ch).off != 0 || Deref(ch).pinned)
          invariant k <= 1
          invariant ch == if k == 0 then last_with_datap else NextOf(last)
          invariant k == 1 ==> last.off != 0
          decreases 1 - k
        {
          ch, k := NextOf(Deref(ch)), k + 1;
        }
        if Deref(ch) == null {
          AppendChain(chain);
        } else {
          PlaceChain(chain);
        }
      }
    }

    /** The last chain takes more data, in its tail or after it was realigned. */
    method GrowLast(data: seq<byte>, align: bool)
      requires Valid() && chains != [] && last.Ok() && (align ==> !last.pinned)
      requires |data| <= if align then last.buffer.Length - last.off else last.SpaceLen()
      modifies this`total_len, last`off, last`misalign, last.buffer
      ensures Valid() && Content() == old(Content()) + data
      ensures !align ==> last.misalign == old(last.misalign)
      ensures last.Ok() && last.Data() == old(last.Data()) + data
      ensures last.off == old(last.off) + |data|
    {
      hide Chain.Data, Seg, Sound, Full, Bytes, Buffer.Valid;
      ToTail();
      ghost var init := chains[..|chains| - 1];
      Assoc(Bytes(init), last.Data(), data);
      if align { last.Align(); }
      last.Append(data);
      total_len := total_len + |data|;
      FromTail(init, last);
    }

    /** The chain that evbuffer_add allocates for data that does not fit: at least twice the size of a small last one. */
    method NewLast(all: nat, data: seq<byte>) returns (tmp: Chain)
      requires Valid() && last != null && |data| <= all
      ensures fresh(tmp) && fresh(tmp.buffer) && Foreign(tmp) && tmp.Data() == data && tmp.off == |data|
      ensures var size := last.buffer.Length;
              tmp.buffer.Length >= all && tmp.buffer.Length >= if size <= 2048 then 2 * size else size
    {
      LastOk();
      var to_alloc := last.buffer.Length;
      if to_alloc <= EVBUFFER_CHAIN_MAX_AUTO_SIZE / 2 { to_alloc := 2 * to_alloc; }
      if all > to_alloc { to_alloc := all; }
      tmp := new Chain(to_alloc);
      tmp.Append(data);
    }

    /** The last chain is filled up with `front`, and `tmp` comes behind it. */
    method FillAndInsert(front: seq<byte>, tmp: Chain)
      requires Valid() && chains != [] && last.Ok() && |front| == last.SpaceLen() && Foreign(tmp) && tmp.off > 0
      modifies this`chains, this`first, this`last, this`last_with_datap, this`total_len,
               LastOne()`freed, LastOne()`dangling, LastOne()`next, LastOne()`off, LastOne()`misalign, Memory(LastOne())
      ensures Valid() && Content() == old(Content()) + front + tmp.Data()
      ensures (chains == [tmp] || chains == old(chains) + [tmp]) && NoneLost(old(chains))
      ensures old(Content()) != [] ==> Extended()
    {
      hide Chain.Data, Buffer.Valid, Buffer.Content, Bytes, Sound;
      LastOk();
      assert front == [] ==> Content() + front == Content();
      if |front| != 0 {
        GrowLast(front, false);
      }
      ChainInsert(tmp);
      AllOk();
    }

    /** evbuffer_add, when the data fits neither behind nor into the last chain: it is split. */
    method AddInNewChain(data: seq<byte>, remain: nat)
      requires Valid() && chains != [] && last.Ok() && remain == last.SpaceLen() < |data|
      modifies this`chains, this`first, this`last, this`last_with_datap, this`total_len,
               LastOne()`freed, LastOne()`dangling, LastOne()`next, LastOne()`off, LastOne()`misalign, Memory(LastOne())
      ensures Valid() && OnlyNew() && NoneLost(old(chains)) && Content() == old(Content()) + data
      ensures old(Content()) != [] ==> Extended()
    {
      hide Chain.Data, Buffer.Valid, Buffer.Content, Bytes, Sound;
      LastOk();
      assert data == data[..remain] + data[remain..];
      Assoc(Content(), data[..remain], data[remain..]);
      var tmp := NewLast(|data|, data[remain..]);
      FillAndInsert(data[..remain], tmp);
    }

    lemma AllOk()
      requires Valid()
      ensures forall c :: c in chains ==> c.Ok()
    {
      SoundMeansOk(chains);
    }

    lemma AllButLast()
      requires Valid()
      ensures forall i, j :: 0 <= i < |chains| - 1 && 0 <= j < |LastOne()| ==> LastOne()[j] != chains[i]
    {
      SegDistinct(first, chains, null);
    }

    /** evbuffer_add, when there is a chain. */
    method AddToLast(data: seq<byte>)
      requires Valid() && chains != []
      modifies this`chains, this`first, this`last, this`last_with_datap, this`total_len,
               LastOne()`freed, LastOne()`dangling, LastOne()`next, LastOne()`off, LastOne()`misalign, Memory(LastOne())
      ensures Valid() && OnlyNew() && NoneLost(old(chains)) && (old(Content()) != [] ==> Extended() && Grown())
      ensures Content() == old(Content()) + data
    {
      hide Chain.Data, Buffer.Valid, Buffer.Content, Buffer.Grown, Bytes, Sound;
      LastOk();
      AllButLast();
      var chain := last;
      var remain := chain.buffer.Length - chain.misalign - chain.off;
      if remain >= |data| {
        GrowLast(data, false);
      } else if !chain.pinned && ShouldRealign(chain, |data|) {
        GrowLast(data, true);
      } else {
        AddInNewChain(data, remain);
      }
      AllOk();
      if old(Content()) != [] { GrownByAdd(); }
    }

    /** evbuffer_add.  Memory allocation is taken to succeed. */
    method Add(data: seq<byte>) returns (result: int)
      requires Valid()
      modifies this`chains, this`first, this`last, this`last_with_datap, this`total_len,
               LastOne()`freed, LastOne()`dangling, LastOne()`next, LastOne()`off, LastOne()`misalign, Memory(LastOne())
      ensures Valid() && OnlyNew() && NoneLost(old(chains)) && (old(Content()) != [] ==> Extended() && Grown())
      ensures result == if freeze_end then -1 else 0
      ensures freeze_end ==> Untouched()
      ensures Content() == old(Content()) + if freeze_end then [] else data
    {
      hide Chain.Data, Buffer.Valid, Buffer.Content, Bytes, Sound;
      LastOk();
      EmptyLast();
      if freeze_end { return -1; }
      if last == null {
        var chain := new Chain(|data|);
        ChainInsert(chain);
        assert LastOne() == [chain] && Memory(LastOne()) == {chain.buffer};
      }
      AddToLast(data);
      return 0;
    }

    lemma NoChains()
      requires Valid()
      ensures chains == [] ==>
                first == null && last == null && last_with_datap == FirstOf(this) && total_len == 0 && Content() == []
    {
    }

    lemma EmptyLast()
      requires Valid()
      ensures chains != [] ==> last != null && last in chains && (last.off == 0 <==> Content() == [])
      ensures chains == [] ==> last == null && Content() == []
      ensures last != null && last.off == 0 ==> chains == [last] && last == first
    {
      if chains != [] { ToTail(); }
    }

    lemma LastOk()
      requires Valid()
      ensures last == null <==> chains == []
      ensures last != null ==> last in chains && last.Ok() && last == chains[|chains| - 1]
    {
      if chains != [] { ToTail(); }
    }

    // ----- evbuffer_prepend -----

    /** The first chain takes more data in front; an empty one counts as empty at the beginning. */
    method GrowFirst(data: seq<byte>)
      requires Valid() && chains != [] && first.Ok()
      requires |data| <= if first.off == 0 then first.buffer.Length else first.misalign
      modifies this`total_len, first`off, first`misalign, first.buffer
      ensures Valid() && Content() == data + old(Content())
      ensures first.off == old(first.off) + |data|
      ensures data == [] ==> first.misalign == if first.off == 0 then first.buffer.Length else old(first.misalign)
    {
      hide Chain.Data, Seg, Sound, Full, Bytes, Buffer.Valid;
      ToHead();
      ghost var rest, d := chains[1..], first.Data();
      if first.off == 0 { first.misalign := first.buffer.Length; }
      EmptyData(first, d);
      first.Prepend(data);
      total_len := total_len + |data|;
      FromHead(first, rest);
      Assoc(data, d, Bytes(rest));
    }

    lemma EmptyData(c: Chain, d: seq<byte>)
      requires c.Ok()
      ensures |c.Data()| == c.off
      ensures c.off == 0 && d == [] ==> c.Data() == d
    {
    }

    /** A chain with data becomes the first of a list whose chains all have data. */
    method NewFirst(tmp: Chain)
      requires Valid() && chains != [] && first.off > 0 && Foreign(tmp) && tmp.off > 0
      modifies this`chains, this`first, this`last_with_datap, this`total_len, tmp`next
      ensures Valid() && Content() == tmp.Data() + old(Content()) && chains == [tmp] + old(chains)
    {
      hide Chain.Data, Seg, Sound, Full, Bytes, Buffer.Valid;
      ToHead();
      ghost var h, rest := first, chains[1..];
      tmp.next := first;
      first := tmp;
      if last_with_datap == FirstOf(this) { last_with_datap := NextOf(tmp); }
      total_len := total_len + tmp.off;
      chains := [tmp] + chains;
      NewRest(h, rest);
      FromHead(tmp, [h] + rest);
    }

    lemma NewRest(h: Chain, rest: seq<Chain>)
      requires h !in rest && Seg(h.next, rest, null)
      requires h.Ok() && h.buffer !in Memory(rest) && Sound(rest) && Full(rest) && h.off > 0
      ensures Seg(h, [h] + rest, null) && Sound([h] + rest) && Full([h] + rest)
      ensures Bytes([h] + rest) == h.Data() + Bytes(rest)
      ensures Memory([h] + rest) == {h.buffer} + Memory(rest)
    {
      assert ([h] + rest)[1..] == rest;
    }

    /** evbuffer_prepend, when only `room` bytes fit into the first chain: the data is split. */
    method PrependInNewChain(data: seq<byte>, room: nat)
      requires Valid() && chains != [] && first.Ok()
      requires room == (if first.off == 0 then first.buffer.Length else first.misalign) < |data|
      modifies this`chains, this`first, this`last_with_datap, this`total_len, chains`off, chains`misalign, Memory(chains)
      ensures Valid() && OnlyNew() && NoneLost(old(chains)) && Content() == data + old(Content())
    {
      hide Chain.Data, Buffer.Valid, Buffer.Content, Bytes, Sound;
      FirstOk();
      var k := |data| - room;
      assert data == data[..k] + data[k..];
      Assoc(data[..k], data[k..], Content());
      var tmp := new Chain(k);
      tmp.misalign := tmp.buffer.Length;
      tmp.Prepend(data[..k]);
      ghost var front, back, content := data[..k], data[k..], Content();
      assert room == 0 ==> back + content == content;
      if room > 0 {
        GrowFirst(data[k..]);
      }
      FirstOk();
      assert Content() == back + content && tmp.Data() == front;
      NewFirst(tmp);
    }

    /** evbuffer_prepend. */
    method Prepend(data: seq<byte>) returns (result: int)
      requires Valid()
      modifies this`chains, this`first, this`last, this`last_with_datap, this`total_len, chains`off, chains`misalign,
               Memory(chains)
      ensures Valid() && OnlyNew() && NoneLost(old(chains))
      ensures result == if freeze_start then -1 else 0
      ensures freeze_start ==> Untouched()
      ensures Content() == (if freeze_start then [] else data) + old(Content())
    {
      hide Chain.Data, Buffer.Valid, Buffer.Content, Bytes, Sound;
      if freeze_start { return -1; }
      FirstOk();
      var chain := first;
      if chain == null {
        chain := new Chain(|data|);
        ChainInsert(chain);
      }
      FirstOk();
      var room := if chain.off == 0 then chain.buffer.Length else chain.misalign;
      if room >= |data| {
        GrowFirst(data);
      } else {
        PrependInNewChain(data, room);
      }
      return 0;
    }

    lemma FirstOk()
      requires Valid()
      ensures first == null <==> chains == []
      ensures first != null ==> first in chains && first.Ok() && first == chains[0]
      ensures first != null && first.off > 0 ==> Full(chains)
    {
    }

    // ----- evbuffer_drain -----

    /** Chains that left the buffer were freed, or dangle because they are pinned. */
    ghost predicate Released(gone: seq<Chain>)
      reads gone`freed, gone`dangling, gone`pinned
    {
      forall c :: c in gone ==> if c.pinned then c.dangling && !c.freed else c.freed
    }

    /** The loop of evbuffer_drain: `rest` is what remains of the list, from `chain` on. */
    ghost predicate Draining(chain: Chain?, rest: seq<Chain>, remaining: nat, goal: seq<byte>)
      reads this`last, this`last_with_datap, rest, set c | c in rest :: c.buffer
    {
      && rest != [] && Seg(chain, rest, null) && Sound(rest)
      && remaining < |Bytes(rest)| && Bytes(rest)[remaining..] == goal
      && (|rest| == 1 || Full(rest))
      && last == rest[|rest| - 1]
      && last_with_datap == (if |rest| == 1 then FirstOf(this) else NextOf(rest[|rest| - 2]))
    }

    lemma MoreThanOne(k: nat, chain: Chain, remaining: nat, goal: seq<byte>)
      requires k < |chains| && Draining(chain, chains[k..], remaining, goal) && chain.off <= remaining
      ensures chain.off > 0
    {
      OneLeft(chain, chains[k..], remaining, goal);
    }

    lemma OneLeft(chain: Chain, rest: seq<Chain>, remaining: nat, goal: seq<byte>)
      requires Draining(chain, rest, remaining, goal) && chain.off <= remaining
      ensures |rest| > 1
    {
      assert Bytes(rest) == rest[0].Data() + Bytes(rest[1..]);
    }

    /**
     One turn of the loop: the chain is consumed whole and given back.  The source also asks
     whether it is the chain that `last_with_datap` leads to, which it never is here.
    */
    method DrainChain(chain: Chain, ghost rest: seq<Chain>, remaining: nat, ghost goal: seq<byte>)
      returns (next: Chain?, left: nat)
      requires Draining(chain, rest, remaining, goal) && chain.off <= remaining
      modifies this`last_with_datap, chain`freed, chain`dangling
      ensures Draining(next, rest[1..], left, goal) && left == remaining - chain.off
      ensures |rest| > 1 && next == rest[1] && chain !in rest[1..]
      ensures if chain.pinned then chain.dangling && !chain.freed else chain.freed
    {
      hide Chain.Data;
      next := chain.next;
      left := remaining - chain.off;
      OneLeft(chain, rest, remaining, goal);
      if last_with_datap == NextOf(chain) {
        last_with_datap := FirstOf(this);
      }
      chain.Free();
    }

    /** The loop of evbuffer_drain: chain `k` is the first that is not consumed whole. */
    method DrainWhole(len: nat, ghost goal: seq<byte>) returns (chain: Chain, remaining: nat, ghost k: nat)
      requires first != null && chains != [] && first == chains[0] && Draining(first, chains[0..], len, goal)
      modifies this`last_with_datap, chains`freed, chains`dangling
      ensures k < |chains| && chain == chains[k] && remaining < chain.off
      ensures Draining(chain, chains[k..], remaining, goal) && Released(chains[..k])
      ensures Offs(chains[..k]) + remaining == len
    {
      hide Buffer.Draining, Offs;
      chain, remaining, k := first, len, 0;
      OffsOfNone(chains[..0]);
      while remaining >= chain.off
        invariant k < |chains| && chain == chains[k] && Draining(chain, chains[k..], remaining, goal)
        invariant Released(chains[..k]) && Offs(chains[..k]) + remaining == len
        decreases |chains| - k
      {
        OffsMore(chains, k);
        assert chains[k..][1..] == chains[k + 1..] && chains[k..][0] == chains[k];
        chain, remaining := DrainChain(chain, chains[k..], remaining, goal);
        k := k + 1;
      }
    }

    /** The end of evbuffer_drain: the list begins with `chain`, which gives up its first `remaining` bytes. */
    method CutFirst(chain: Chain, remaining: nat, ghost rest: seq<Chain>, ghost goal: seq<byte>)
      requires Draining(chain, rest, remaining, goal) && remaining < chain.off && total_len == |goal|
      modifies this`chains, this`first, chain`off, chain`misalign
      ensures Valid() && Content() == goal && chains == rest
    {
      hide Chain.Data, Buffer.Draining, Buffer.Valid, Seg, Sound, Full, Bytes;
      DrainCut(chain, rest, remaining, goal);
      assert rest == [chain] + rest[1..];
      first := chain;
      chains := rest;
      chain.Consume(remaining);
      FromHead(chain, rest[1..]);
    }

    /** evbuffer_drain, when it leaves something. */
    method DrainSome(len: nat) returns (ghost k: nat)
      requires Valid() && len < total_len
      modifies this`chains, this`first, this`last_with_datap, this`total_len,
               chains`freed, chains`dangling, chains`off, chains`misalign
      ensures Valid() && Content() == old(Content())[len..]
      ensures k < |old(chains)| && chains == old(chains)[k..] && Released(old(chains)[..k])
      ensures old(Within(chains, len, k)) && forall i :: 0 <= i < k ==> old(chains)[i].off == old(chains[i].off)
    {
      hide Chain.Data, Buffer.Draining, Buffer.Valid, Buffer.Content, Buffer.Released, Seg, Sound, Full, Bytes, Offs, Within;
      DrainStart(len);
      ChainsOnly();
      SegDistinct(first, chains, null);
      ghost var goal := Content()[len..];
      total_len := total_len - len;
      var chain, remaining;
      chain, remaining, k := DrainWhole(len, goal);
      OffsMore(chains, k);
      WithinUpTo(chains, len, k);
      CutFirst(chain, remaining, chains[k..], goal);
    }

    /** What the loop leaves to cut from the first chain. */
    lemma DrainCut(chain: Chain, rest: seq<Chain>, remaining: nat, goal: seq<byte>)
      requires Draining(chain, rest, remaining, goal) && remaining < chain.off
      ensures rest != [] && chain == rest[0] && chain.Ok() && chain.buffer !in Memory(rest[1..]) && chain !in rest[1..]
      ensures Seg(chain.next, rest[1..], null) && Full(rest[1..]) && Sound(rest[1..])
      ensures goal == chain.Data()[remaining..] + Bytes(rest[1..])
      ensures last == rest[|rest| - 1]
      ensures last_with_datap == (if |rest| == 1 then FirstOf(this) else NextOf(rest[|rest| - 2]))
    {
    }

    lemma DrainStart(len: nat)
      requires Valid() && len < total_len
      ensures total_len == |Content()|
      ensures chains != [] && first == chains[0] && Draining(first, chains[0..], len, Content()[len..])
    {
      assert chains[0..] == chains;
    }

    lemma ChainsOnly()
      requires Valid()
      ensures Seg(first, chains, null)
    {
    }

    /** ZERO_CHAIN. */
    method ZeroChain()
      modifies this`first, this`last, this`last_with_datap, this`total_len, this`chains
      ensures Valid() && chains == [] && Content() == []
    {
      first, last, last_with_datap, total_len := null, null, FirstOf(this), 0;
      chains := [];
    }

    lemma AllWithin(len: nat)
      requires Valid() && len >= total_len
      ensures Within(chains, len, |chains|)
    {
      OffsAreBytes(chains);
      assert chains[..|chains|] == chains;
      WithinUpTo(chains, len, |chains|);
    }

    lemma NoneEmpty()
      requires Valid() && Content() != []
      ensures forall c :: c in chains ==> c.off > 0
    {
      if |chains| == 1 {
        EmptyLast();
      } else {
        FullMeans(chains);
      }
    }

    ghost function Drop(len: nat): seq<byte>
      requires Sound(chains)
      reads this`chains, chains`misalign, chains`off, chains`dangling, chains`freed, set c | c in chains :: c.buffer
    {
      if len >= |Content()| then [] else Content()[len..]
    }

    /** evbuffer_drain, when it leaves nothing. */
    method DrainAll()
      requires Valid()
      modifies this`chains, this`first, this`last, this`last_with_datap, this`total_len, chains`freed, chains`dangling
      ensures Valid() && chains == [] && Content() == [] && Released(old(chains))
    {
      hide Chain.Data, Seg, Sound, Full, Bytes;
      NoContent();
      ChainsOnly();
      FreeAllChains(first, chains);
      ZeroChain();
    }

    /**
     evbuffer_drain.  The chains that leave the buffer are the first ones, those that lie within
     the bytes drained and no others, and each is released.
    */
    method Drain(len: nat) returns (result: int, ghost gone: seq<Chain>)
      requires Valid()
      modifies this`chains, this`first, this`last, this`last_with_datap, this`total_len,
               chains`freed, chains`dangling, chains`off, chains`misalign
      ensures Valid()
      ensures result == if freeze_start && old(total_len) > 0 then -1 else 0
      ensures freeze_start ==> Untouched()
      ensures Content() == if freeze_start then old(Content()) else old(Drop(len))
      ensures old(chains) == gone + chains && Released(gone)
      ensures forall i :: 0 <= i < |gone| ==> gone[i].off == old(chains[i].off)
      ensures if freeze_start || old(total_len) == 0 then gone == []
              else old(Within(chains, len, |gone|)) && forall c :: c in chains ==> c.off > 0
    {
      hide Chain.Data, Buffer.Valid, Seg, Sound, Full, Bytes, Within, Buffer.Released;
      SizeKnown();
      gone := [];
      if total_len == 0 { return 0, gone; }
      if freeze_start { return -1, gone; }
      ghost var all := chains;
      if len >= total_len {
        AllWithin(len);
        DrainAll();
        gone := all;
      } else {
        ghost var k := DrainSome(len);
        gone := all[..k];
        NoneEmpty();
      }
      return 0, gone;
    }

    lemma SizeKnown()
      requires Valid()
      ensures total_len == |Content()| && Released([])
    {
    }

    // ----- evbuffer_copyout, evbuffer_remove -----

    /** The loop of evbuffer_copyout. */
    method CopyBytes(n: nat) returns (data: seq<byte>)
      requires Valid() && n <= |Content()|
      ensures |data| == n && data == Content()[..n]
    {
      hide Chain.Data, Chain.Peek;
      data := [];
      var left: nat, chain := n, first;
      ghost var content, rest := Content(), chains;
      while left > 0 && left >= chain.off
        invariant Seg(chain, rest, null) && Sound(rest) && left <= |Bytes(rest)|
        invariant left > 0 ==> rest != []
        invariant content == data + Bytes(rest) && n == |data| + left
        decreases rest
      {
        Assoc(data, chain.Data(), Bytes(rest[1..]));
        data, left := data + chain.Peek(0, chain.off), left - chain.off;
        chain, rest := chain.next, rest[1..];
      }
      if left > 0 {
        TakePart(content, data, chain.Data(), Bytes(rest[1..]), left);
        data := data + chain.Peek(0, left);
      } else {
        TakeWhole(content, data, Bytes(rest));
      }
    }

    /** evbuffer_copyout. */
    method CopyOut(datlen: nat) returns (result: int, data: seq<byte>)
      requires Valid()
      ensures var n := if datlen >= total_len then total_len else datlen;
              if freeze_start && n > 0 then result == -1 else result == n && |data| == n && data == Content()[..n]
    {
      var n := if datlen >= total_len then total_len else datlen;
      if n > 0 && freeze_start { return -1, []; }
      data := CopyBytes(n);
      result := n;
    }

    /** evbuffer_remove. */
    method Remove(datlen: nat) returns (result: int, data: seq<byte>)
      requires Valid()
      modifies this`chains, this`first, this`last, this`last_with_datap, this`total_len,
               chains`freed, chains`dangling, chains`off, chains`misalign
      ensures Valid() && forall c :: c in chains ==> c in old(chains)
      ensures freeze_start ==> Untouched()
      ensures var n := if datlen >= old(total_len) then old(total_len) else datlen;
              if freeze_start && n > 0 then result == -1 && Content() == old(Content())
              else result == n && data == old(Content())[..n] && Content() == old(Content())[n..]
    {
      result, data := CopyOut(datlen);
      if result > 0 {
        var r, _ := Drain(result);
        if r < 0 { result := -1; }
      }
    }
  }
}
