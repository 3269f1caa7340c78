/**
 The chains of an evbuffer (buffer.c, evbuffer-internal.h): fixed blocks of memory whose
 bytes from `misalign` on, `off` of them, are data.
*/
module Chains {
  newtype byte = x: int | 0 <= x < 256

  const MIN_BUFFER_SIZE := 1024
  const EVBUFFER_CHAIN_SIZE := 48

  /** memcpy into a block of memory. */
  method Memcpy(dst: array<byte>, at: nat, src: seq<byte>)
    requires at + |src| <= dst.Length
    modifies dst
    ensures dst[..] == old(dst[..])[..at] + src + old(dst[..])[at + |src|..]
  {
    for i := 0 to |src|
      invariant dst[..] == old(dst[..])[..at] + src[..i] + old(dst[..])[at + i..]
    {
      dst[at + i] := src[i];
    }
  }

  /** What stands before the bytes from `at` on once `src` was copied there. */
  lemma InFront(mem: seq<byte>, at: nat, n: nat, src: seq<byte>)
    requires |src| <= at && at + n <= |mem|
    ensures (mem[..at - |src|] + src + mem[at..])[at - |src|..at + n] == src + mem[at..at + n]
  {
  }

  class Chain {
    var next: Chain?
    const buffer: array<byte>
    var misalign: nat
    var off: nat
    /** EVBUFFER_MEM_PINNED_W and EVBUFFER_DANGLING. */
    var pinned: bool
    var dangling: bool
    /** Whether mm_free was called on the chain. */
    ghost var freed: bool

    ghost predicate Ok()
      reads this`misalign, this`off, this`dangling, this`freed
    {
      misalign + off <= buffer.Length && 0 < buffer.Length && !dangling && !freed
    }

    ghost function Data(): (d: seq<byte>)
      ensures |d| == off
      requires misalign + off <= buffer.Length
      reads this`misalign, this`off, buffer
    {
      buffer[misalign..misalign + off]
    }

    /** evbuffer_chain_new: the next power of two that holds the chain and `size` bytes. */
    constructor (size: nat)
      ensures Ok() && fresh(buffer) && size <= buffer.Length
      ensures next == null && misalign == off == 0 && !pinned
      ensures var len := buffer.Length + EVBUFFER_CHAIN_SIZE;
              len == MIN_BUFFER_SIZE || len < 2 * (size + EVBUFFER_CHAIN_SIZE)
    {
      var to_alloc := MIN_BUFFER_SIZE;
      while to_alloc < size + EVBUFFER_CHAIN_SIZE
        invariant EVBUFFER_CHAIN_SIZE < to_alloc
        invariant to_alloc == MIN_BUFFER_SIZE || to_alloc < 2 * (size + EVBUFFER_CHAIN_SIZE)
      {
        to_alloc := 2 * to_alloc;
      }
      next := null;
      buffer := new byte[to_alloc - EVBUFFER_CHAIN_SIZE];
      misalign, off := 0, 0;
      pinned, dangling, freed := false, false, false;
    }

    /** The bytes that memcpy reads from the data of the chain. */
    function Peek(pos: nat, n: nat): (d: seq<byte>)
      requires Ok() && pos + n <= off
      reads this`misalign, this`off, this`dangling, this`freed, buffer
      ensures d == Data()[pos..pos + n]
      ensures pos == 0 ==> d == Data()[..n]
    {
      var d := buffer[misalign + pos..misalign + pos + n];
      assert forall i :: 0 <= i < n ==> d[i] == Data()[pos + i];
      d
    }

    /** CHAIN_SPACE_LEN, for a chain that is not immutable. */
    function SpaceLen(): nat
      requires misalign + off <= buffer.Length
      reads this`misalign, this`off
    {
      buffer.Length - misalign - off
    }

    method Append(data: seq<byte>)
      requires Ok() && |data| <= SpaceLen()
      modifies this`off, buffer
      ensures Ok() && Data() == old(Data()) + data
    {
      Memcpy(buffer, misalign + off, data);
      off := off + |data|;
    }

    method Prepend(data: seq<byte>)
      requires Ok() && |data| <= misalign
      modifies this`off, this`misalign, buffer
      ensures Ok() && Data() == data + old(Data())
      ensures misalign == old(misalign) - |data|
    {
      InFront(buffer[..], misalign, off, data);
      Memcpy(buffer, misalign - |data|, data);
      off := off + |data|;
      misalign := misalign - |data|;
      assert buffer[misalign..misalign + off] == buffer[..][misalign..misalign + off];
    }

    method Consume(n: nat)
      requires Ok() && n <= off
      modifies this`off, this`misalign
      ensures Ok() && Data() == old(Data())[n..]
      ensures misalign == old(misalign) + n && off == old(off) - n
    {
      misalign := misalign + n;
      off := off - n;
    }

    /** evbuffer_chain_align: memmove the data to the start of the block. */
    method Align()
      requires Ok() && !pinned
      modifies this`misalign, buffer
      ensures Ok() && Data() == old(Data()) && misalign == 0
    {
      Memcpy(buffer, 0, buffer[misalign..misalign + off]);
      misalign := 0;
    }

    /** evbuffer_chain_free: a pinned chain only dangles until it is unpinned. */
    method Free()
      requires !freed
      modifies this`dangling, this`freed
      ensures if pinned then dangling && !freed else freed && dangling == old(dangling)
    {
      if pinned {
        dangling := true;
      } else {
        freed := true;
      }
    }
  }

  // ----- chains in a row -----

  ghost function Memory(cs: seq<Chain>): set<array<byte>> { set c | c in cs :: c.buffer }

  /** Following `next` from `from` visits `cs`, each chain once, and then arrives at `to`. */
  ghost predicate Seg(from: Chain?, cs: seq<Chain>, to: Chain?)
    reads cs`next
  {
    if cs == [] then from == to
    else from == cs[0] && cs[0] !in cs[1..] && Seg(cs[0].next, cs[1..], to)
  }

  /** Every chain is intact and none shares memory with another. */
  ghost predicate Sound(cs: seq<Chain>)
    reads cs`misalign, cs`off, cs`dangling, cs`freed
  {
    cs == [] || (cs[0].Ok() && cs[0].buffer !in Memory(cs[1..]) && Sound(cs[1..]))
  }

  ghost predicate Full(cs: seq<Chain>)
    reads cs`off
  {
    cs == [] || (cs[0].off > 0 && Full(cs[1..]))
  }

  ghost function Bytes(cs: seq<Chain>): seq<byte>
    requires Sound(cs)
    reads cs`misalign, cs`off, cs`dangling, cs`freed, set c | c in cs :: c.buffer
  {
    if cs == [] then [] else cs[0].Data() + Bytes(cs[1..])
  }

  lemma {:induction false} SegConcat(from: Chain?, a: seq<Chain>, mid: Chain?, b: seq<Chain>, to: Chain?)
    requires Seg(from, a, mid) && Seg(mid, b, to)
    requires forall c :: c in a ==> c !in b
    ensures Seg(from, a + b, to)
  {
    if a == [] {
      assert a + b == b;
    } else {
      SegConcat(a[0].next, a[1..], mid, b, to);
      assert (a + b)[1..] == a[1..] + b;
    }
  }

  lemma {:induction false} SegDistinct(from: Chain?, cs: seq<Chain>, to: Chain?)
    requires Seg(from, cs, to)
    ensures forall i, j :: 0 <= i < j < |cs| ==> cs[i] != cs[j]
  {
    if cs != [] {
      SegDistinct(cs[0].next, cs[1..], to);
      forall i, j | 0 <= i < j < |cs| ensures cs[i] != cs[j] {
        assert cs[j] == cs[1..][j - 1];
        if i > 0 { assert cs[i] == cs[1..][i - 1]; }
      }
    }
  }

  lemma {:induction false} SegSplit(from: Chain?, a: seq<Chain>, b: seq<Chain>, to: Chain?)
    requires Seg(from, a + b, to) && b != []
    ensures Seg(from, a, b[0]) && Seg(b[0], b, to)
    ensures forall c :: c in a ==> c !in b
  {
    if a == [] {
      assert a + b == b;
    } else {
      assert (a + b)[1..] == a[1..] + b;
      SegSplit(a[0].next, a[1..], b, to);
    }
  }

  lemma {:induction false} SoundConcat(a: seq<Chain>, b: seq<Chain>)
    requires Memory(a) !! Memory(b)
    requires Sound(a) && Sound(b)
    ensures Sound(a + b) && Bytes(a + b) == Bytes(a) + Bytes(b)
  {
    if a == [] {
      assert a + b == b;
    } else {
      assert (a + b)[1..] == a[1..] + b;
      MemorySplit(a[..1], a[1..]);
      assert a[..1] + a[1..] == a;
      SoundConcat(a[1..], b);
      MemorySplit(a[1..], b);
    }
  }

  lemma MemorySplit(a: seq<Chain>, b: seq<Chain>)
    ensures Memory(a + b) == Memory(a) + Memory(b)
  {
  }

  lemma {:induction false} SoundSplit(a: seq<Chain>, b: seq<Chain>)
    requires Sound(a + b)
    ensures Sound(a) && Sound(b) && Memory(a) !! Memory(b)
    ensures Bytes(a + b) == Bytes(a) + Bytes(b)
  {
    hide Memory;
    if a == [] {
      assert a + b == b;
      NoMemory();
    } else {
      var c, tail := a[0], a[1..];
      assert (a + b)[1..] == tail + b && a == [c] + tail;
      MemorySplit(tail, b);
      MemoryOf(c, tail);
      SoundSplit(tail, b);
      assert c.Data() + (Bytes(tail) + Bytes(b)) == c.Data() + Bytes(tail) + Bytes(b);
    }
  }

  lemma NoMemory()
    ensures Memory([]) == {}
  {
  }

  lemma MemoryOf(c: Chain, cs: seq<Chain>)
    ensures Memory([c] + cs) == {c.buffer} + Memory(cs)
  {
  }

  lemma {:induction false} SoundMeansOk(cs: seq<Chain>)
    requires Sound(cs)
    ensures forall c :: c in cs ==> c.Ok()
  {
    if cs != [] { SoundMeansOk(cs[1..]); }
  }

  lemma {:induction false} FullConcat(a: seq<Chain>, b: seq<Chain>)
    ensures Full(a + b) <==> Full(a) && Full(b)
  {
    if a == [] {
      assert a + b == b;
    } else {
      assert (a + b)[1..] == a[1..] + b;
      FullConcat(a[1..], b);
    }
  }

  lemma {:induction false} FullMeans(cs: seq<Chain>)
    requires Full(cs)
    ensures forall c :: c in cs ==> c.off > 0
  {
    if cs != [] { FullMeans(cs[1..]); }
  }

  lemma {:induction false} FullBytes(cs: seq<Chain>)
    requires Sound(cs) && Full(cs)
    ensures |cs| <= |Bytes(cs)|
  {
    if cs != [] {
      FullBytes(cs[1..]);
    }
  }

  /** How many bytes the chains hold. */
  ghost function Offs(cs: seq<Chain>): nat
    reads cs`off
  {
    if cs == [] then 0 else cs[0].off + Offs(cs[1..])
  }

  lemma {:induction false} OffsMore(cs: seq<Chain>, k: nat)
    requires k < |cs|
    ensures Offs(cs[..k + 1]) == Offs(cs[..k]) + cs[k].off
  {
    if k == 0 {
      assert cs[..1][1..] == [] && cs[..0] == [];
    } else {
      assert cs[..k + 1][1..] == cs[1..][..k] && cs[..k][1..] == cs[1..][..k - 1];
      OffsMore(cs[1..], k - 1);
    }
  }

  lemma {:induction false} OffsAreBytes(cs: seq<Chain>)
    requires Sound(cs)
    ensures Offs(cs) == |Bytes(cs)|
  {
    if cs != [] { OffsAreBytes(cs[1..]); }
  }

  lemma OffsOfNone(cs: seq<Chain>)
    ensures cs == [] ==> Offs(cs) == 0
  {
  }

  lemma {:induction false} OffsUpTo(cs: seq<Chain>, i: nat, j: nat)
    requires i <= j <= |cs|
    ensures Offs(cs[..i]) <= Offs(cs[..j])
    decreases j
  {
    if i < j {
      OffsUpTo(cs, i, j - 1);
      OffsMore(cs, j - 1);
    }
  }

  /** The end of chain `i`, counted in bytes from the start of the list. */
  ghost function EndOf(cs: seq<Chain>, i: int): nat
    requires 0 <= i < |cs|
    reads cs`off
  {
    Offs(cs[..i + 1])
  }

  /** The first `k` chains, and no others, lie within the first `len` bytes. */
  ghost predicate Within(cs: seq<Chain>, len: nat, k: nat)
    reads cs`off
  {
    forall i :: 0 <= i < |cs| ==> (i < k <==> EndOf(cs, i) <= len)
  }

  lemma WithinUpTo(cs: seq<Chain>, len: nat, k: nat)
    requires k <= |cs| && Offs(cs[..k]) <= len && (k < |cs| ==> len < EndOf(cs, k))
    ensures Within(cs, len, k)
  {
    forall i | 0 <= i < |cs| ensures i < k <==> EndOf(cs, i) <= len {
      if i < k {
        OffsUpTo(cs, i + 1, k);
      } else {
        OffsUpTo(cs, k + 1, i + 1);
      }
    }
  }

  twostate lemma {:induction false} SameOffs(cs: seq<Chain>)
    requires forall i :: 0 <= i < |cs| ==> cs[i].off == old(cs[i].off)
    ensures Offs(cs) == old(Offs(cs))
  {
    if cs != [] { SameOffs(cs[1..]); }
  }
}
