/**
 Positions in an evbuffer and searching (buffer.c: evbuffer_ptr_set, evbuffer_ptr_memcmp,
 evbuffer_search_range, evbuffer_search).
*/
module EvBufferSearch {
  import opened Wrappers
  import opened Chains
  import opened EvBuffer

  /** evbuffer_ptr: a position, and where it is in the list. */
  datatype Ptr = Ptr(pos: int, chain: Chain?, posInChain: nat)

  /** The position `p` lies in the first chain of `rest`, the end of the list, and the bytes from it on agree. */
  ghost predicate At(p: Ptr, rest: seq<Chain>, content: seq<byte>)
    reads rest, set c | c in rest :: c.buffer
  {
    && Seg(p.chain, rest, null) && Sound(rest)
    && p.posInChain <= (if rest == [] then 0 else rest[0].off)
    && 0 <= p.pos <= |content|
    && p.posInChain <= |Bytes(rest)| && Bytes(rest)[p.posInChain..] == content[p.pos..]
  }

  /** `what` occurs at position `i`. */
  ghost predicate Occurs(content: seq<byte>, what: seq<byte>, i: int) {
    0 <= i && i + |what| <= |content| && content[i..i + |what|] == what
  }

  ghost predicate NoneBetween(content: seq<byte>, what: seq<byte>, from: int, to: int) {
    forall i :: from <= i < to ==> !Occurs(content, what, i)
  }

  lemma AtFirst(p: Ptr, rest: seq<Chain>, content: seq<byte>)
    requires At(p, rest, content)
    ensures 0 <= p.pos <= |content| && (p.chain == null <==> rest == [])
    ensures p.chain == null ==> p.pos == |content|
    ensures p.chain != null ==> p.chain == rest[0] && p.chain.Ok() && p.posInChain <= p.chain.off
    ensures p.chain != null ==> p.pos + p.chain.off - p.posInChain <= |content|
    ensures p.chain != null ==> p.chain.Data()[p.posInChain..] == content[p.pos..p.pos + p.chain.off - p.posInChain]
  {
    if p.chain != null {
      var d, more := p.chain.Data(), Bytes(rest[1..]);
      assert Bytes(rest) == d + more;
      assert (d + more)[p.posInChain..][..|d| - p.posInChain] == d[p.posInChain..];
    }
  }

  /** The position after `n` bytes of the same chain. */
  lemma AtLater(p: Ptr, rest: seq<Chain>, content: seq<byte>, n: nat)
    requires At(p, rest, content) && p.chain != null && p.posInChain + n <= p.chain.off
    ensures At(p.(pos := p.pos + n, posInChain := p.posInChain + n), rest, content)
  {
    var d, more := p.chain.Data(), Bytes(rest[1..]);
    assert Bytes(rest) == d + more;
    assert content[p.pos..][n..] == content[p.pos + n..];
    assert Bytes(rest)[p.posInChain..][n..] == Bytes(rest)[p.posInChain + n..];
  }

  /** The end of a chain is the start of the next one. */
  lemma AtNext(p: Ptr, rest: seq<Chain>, content: seq<byte>)
    requires At(p, rest, content) && p.chain != null && p.posInChain == p.chain.off
    ensures At(Ptr(p.pos, p.chain.next, 0), rest[1..], content)
  {
    var d, more := p.chain.Data(), Bytes(rest[1..]);
    assert Bytes(rest) == d + more;
    assert (d + more)[|d|..] == more == more[0..];
  }

  /** memchr, for any of several bytes: where the first of them is, or the length when there is none. */
  function FindByte(d: seq<byte>, cs: set<byte>): (i: nat)
    ensures i <= |d| && (i < |d| ==> d[i] in cs) && forall j :: 0 <= j < i ==> d[j] !in cs
  {
    if d == [] then 0 else if d[0] in cs then 0 else
      var i := 1 + FindByte(d[1..], cs);
      assert forall j :: 0 < j < i ==> d[j] == d[1..][j - 1];
      i
  }

  /** The next `n` bytes of a chain are those of the content. */
  lemma AtPiece(p: Ptr, rest: seq<Chain>, content: seq<byte>, n: nat)
    requires At(p, rest, content) && p.chain != null && p.chain.Ok() && p.posInChain + n <= p.chain.off
    ensures p.pos + n <= |content| && p.chain.Peek(p.posInChain, n) == content[p.pos..p.pos + n]
  {
    AtFirst(p, rest, content);
    var d := p.chain.Data();
    assert d[p.posInChain..][..n] == d[p.posInChain..p.posInChain + n];
    assert content[p.pos..p.pos + p.chain.off - p.posInChain][..n] == content[p.pos..p.pos + n];
  }

  lemma SliceOfSlice(s: seq<byte>, a: nat, len: nat, m: nat, n: nat)
    requires m + n <= len && a + len <= |s|
    ensures s[a..a + len][m..m + n] == s[a + m..a + m + n]
  {
    var t := s[a..a + len][m..m + n];
    forall i | 0 <= i < n ensures t[i] == s[a + m..a + m + n][i] {}
  }

  lemma CompareMore(content: seq<byte>, what: seq<byte>, pos: nat, m: nat, n: nat)
    requires pos + |what| <= |content| && m + n <= |what| && content[pos..pos + m] == what[..m]
    ensures content[pos + m..pos + m + n] == what[m..m + n] ==> content[pos..pos + m + n] == what[..m + n]
    ensures content[pos + m..pos + m + n] != what[m..m + n] ==> !Occurs(content, what, pos)
  {
    assert content[pos..pos + m + n] == content[pos..pos + m] + content[pos + m..pos + m + n];
    assert what[..m + n] == what[..m] + what[m..m + n];
    if Occurs(content, what, pos) {
      SliceOfSlice(content, pos, |what|, m, n);
    }
  }

  /** The position `n` bytes on, in the next chain when it would be the end of this one and more bytes are wanted. */
  lemma AtStep(p: Ptr, rest: seq<Chain>, content: seq<byte>, n: nat)
    requires At(p, rest, content) && p.chain != null && p.chain.Ok() && p.posInChain + n == p.chain.off
    ensures rest != [] && At(Ptr(p.pos + n, p.chain.next, 0), rest[1..], content)
  {
    AtFirst(p, rest, content);
    AtLater(p, rest, content, n);
    AtNext(p.(pos := p.pos + n, posInChain := p.posInChain + n), rest, content);
  }

  /** evbuffer_ptr_memcmp, told apart only into equal and different. */
  method PtrMemcmp(b: Buffer, p: Ptr, mem: seq<byte>, ghost start: seq<Chain>) returns (equal: bool)
    requires b.Valid() && At(p, start, b.Content())
    ensures equal <==> Occurs(b.Content(), mem, p.pos)
  {
    hide Seg, Sound, Full, Bytes, Chain.Data, Chain.Peek, Buffer.Valid, Buffer.Content, At;
    ghost var content := b.Content();
    LengthOf(b);
    AtFirst(p, start, content);
    if p.pos + |mem| > b.total_len { return false; }
    equal := CompareFrom(p, mem, start, content);
  }

  /** The comparing loop. */
  method CompareFrom(p: Ptr, mem: seq<byte>, ghost start: seq<Chain>, ghost content: seq<byte>) returns (equal: bool)
    requires At(p, start, content) && 0 <= p.pos && p.pos + |mem| <= |content|
    ensures equal <==> Occurs(content, mem, p.pos)
  {
    hide Seg, Sound, Full, Bytes, Chain.Data, Chain.Peek, At;
    ghost var rest := start;
    var q, m: nat := p, 0;
    assert content[p.pos..p.pos] == [] == mem[..0];
    while m < |mem| && q.chain != null
      invariant m <= |mem| && content[p.pos..p.pos + m] == mem[..m]
      invariant m < |mem| ==> q.pos == p.pos + m && At(q, rest, content)
      decreases |mem| - m, rest
    {
      AtFirst(q, rest, content);
      var n := if |mem| - m + q.posInChain > q.chain.off then q.chain.off - q.posInChain else |mem| - m;
      AtPiece(q, rest, content, n);
      CompareMore(content, mem, p.pos, m, n);
      if q.chain.Peek(q.posInChain, n) != mem[m..m + n] { return false; }
      m := m + n;
      if m < |mem| {
        AtStep(q, rest, content, n);
      }
      q, rest := Ptr(q.pos + n, q.chain.next, 0), rest[1..];
    }
    if m < |mem| { AtFirst(q, rest, content); }
    assert mem[..|mem|] == mem;
    return true;
  }

  lemma LengthOf(b: Buffer)
    requires b.Valid()
    ensures b.total_len == |b.Content()|
  {
  }

  // ----- evbuffer_search_range -----

  lemma {:induction false} SegUnique(from: Chain?, a: seq<Chain>, b: seq<Chain>)
    requires Seg(from, a, null) && Seg(from, b, null)
    ensures a == b
  {
    if a != [] && b != [] {
      SegUnique(a[0].next, a[1..], b[1..]);
    }
  }

  /** A position in the same chain as `p` is not after the end of that chain. */
  lemma EndInChain(p: Ptr, rest: seq<Chain>, q: Ptr, rest': seq<Chain>, content: seq<byte>)
    requires At(p, rest, content) && At(q, rest', content) && p.chain == q.chain != null
    ensures q.pos <= p.pos + p.chain.off - p.posInChain
  {
    SegUnique(p.chain, rest, rest');
  }

  /** An occurrence starts with the first byte of the pattern. */
  lemma NoneWithoutFirst(content: seq<byte>, what: seq<byte>, from: nat, to: nat)
    requires what != [] && from <= to <= |content| && (forall j :: from <= j < to ==> content[j] != what[0])
    ensures NoneBetween(content, what, from, to)
  {
    forall i | from <= i < to ensures !Occurs(content, what, i) {
      assert i + |what| <= |content| ==> content[i..i + |what|][0] == content[i];
    }
  }

  /** No occurrence from `from` on ends at or before `limit`. */
  ghost predicate NoneWithin(content: seq<byte>, what: seq<byte>, from: int, limit: int) {
    forall i :: from <= i && i + |what| <= limit ==> !Occurs(content, what, i)
  }

  /** Where memchr looks: the rest of the chain of `p`. */
  lemma RestOfChain(p: Ptr, rest: seq<Chain>, content: seq<byte>, cs: set<byte>, i: nat)
    requires At(p, rest, content) && p.chain != null && p.chain.Ok() && p.posInChain <= p.chain.off
    requires i == FindByte(p.chain.Peek(p.posInChain, p.chain.off - p.posInChain), cs)
    ensures 0 <= p.pos && p.pos + i <= |content| && forall j :: p.pos <= j < p.pos + i ==> content[j] !in cs
    ensures p.posInChain + i <= p.chain.off && At(p.(pos := p.pos + i, posInChain := p.posInChain + i), rest, content)
    ensures p.posInChain + i < p.chain.off ==> p.pos + i < |content| && content[p.pos + i] in cs
  {
    var d := p.chain.Peek(p.posInChain, p.chain.off - p.posInChain);
    AtFirst(p, rest, content);
    AtPiece(p, rest, content, |d|);
    AtLater(p, rest, content, i);
    assert forall j :: p.pos <= j < p.pos + |d| ==> content[j] == d[j - p.pos];
  }

  /** What evbuffer_search_range looks for, and where it may end. */
  ghost predicate Found(content: seq<byte>, what: seq<byte>, from: int, limit: int, pos: Ptr) {
    if pos.pos >= 0
    then from <= pos.pos && pos.pos + |what| <= limit
         && Occurs(content, what, pos.pos) && NoneBetween(content, what, from, pos.pos)
    else pos == Ptr(-1, null, 0) && NoneWithin(content, what, from, limit)
  }

  ghost function Limit(end: Option<Ptr>, content: seq<byte>): int {
    if end.None? then |content| else end.value.pos
  }

  ghost predicate EndAt(end: Option<Ptr>, last: seq<Chain>, content: seq<byte>)
    reads last, set c | c in last :: c.buffer
  {
    end.Some? ==> At(end.value, last, content)
  }

  lemma EndPassed(p: Ptr, rest: seq<Chain>, end: Option<Ptr>, last: seq<Chain>, content: seq<byte>)
    requires At(p, rest, content) && end.Some? && EndAt(end, last, content) && p.chain == end.value.chain != null
    ensures Limit(end, content) <= p.pos + p.chain.off - p.posInChain
  {
    EndInChain(p, rest, end.value, last, content);
  }

  /** Nothing can be found any more once the search has passed `at`. */
  lemma NotFound(content: seq<byte>, what: seq<byte>, from: int, end: Option<Ptr>, last: seq<Chain>, at: int)
    requires NoneBetween(content, what, from, at) && EndAt(end, last, content)
    requires at + |what| > Limit(end, content) || at == |content| || at >= Limit(end, content)
    requires what != []
    ensures Found(content, what, from, Limit(end, content), Ptr(-1, null, 0))
  {
    if end.Some? { AtFirst(end.value, last, content); }
  }

  /** The place just after the byte that `pos` is at. */
  method NextByte(pos: Ptr, ghost rest: seq<Chain>, ghost content: seq<byte>) returns (next: Ptr, ghost rest': seq<Chain>)
    requires At(pos, rest, content) && pos.chain != null && pos.posInChain < pos.chain.off
    ensures At(next, rest', content) && next.pos == pos.pos + 1
    ensures if next.chain == pos.chain then rest' == rest else rest != [] && rest' == rest[1..]
    ensures next.chain == pos.chain ==> next.posInChain == pos.posInChain + 1
  {
    AtFirst(pos, rest, content);
    if pos.posInChain + 1 == pos.chain.off {
      AtStep(pos, rest, content, 1);
      next, rest' := Ptr(pos.pos + 1, pos.chain.next, 0), rest[1..];
    } else {
      AtLater(pos, rest, content, 1);
      next, rest' := pos.(pos := pos.pos + 1, posInChain := pos.posInChain + 1), rest;
    }
  }

  /** The loop of evbuffer_search_range. */
  method SearchFrom(b: Buffer, what: seq<byte>, start: Ptr, end: Option<Ptr>, ghost first: seq<Chain>, ghost last: seq<Chain>)
    returns (pos: Ptr, ghost rest: seq<Chain>)
    requires b.Valid() && what != [] && At(start, first, b.Content()) && EndAt(end, last, b.Content())
    ensures Found(b.Content(), what, start.pos, Limit(end, b.Content()), pos)
    ensures pos.pos >= 0 ==> At(pos, rest, b.Content())
  {
    hide Seg, Sound, Full, Bytes, Chain.Data, Chain.Peek, Buffer.Valid, Buffer.Content, At, FindByte, Occurs, EndAt, NoneWithin;
    ghost var content := b.Content();
    pos, rest := start, first;
    while pos.chain != null
      invariant At(pos, rest, content) && start.pos <= pos.pos
      invariant NoneBetween(content, what, start.pos, pos.pos)
      decreases rest, if pos.chain == null then 0 else pos.chain.off - pos.posInChain
    {
      AtFirst(pos, rest, content);
      var chain := pos.chain;
      var i := FindByte(chain.Peek(pos.posInChain, chain.off - pos.posInChain), {what[0]});
      RestOfChain(pos, rest, content, {what[0]}, i);
      NoneWithoutFirst(content, what, pos.pos, pos.pos + i);
      if i < chain.off - pos.posInChain {
        pos := pos.(pos := pos.pos + i, posInChain := pos.posInChain + i);
        var equal := PtrMemcmp(b, pos, what, rest);
        if equal {
          if end.Some? && pos.pos + |what| > end.value.pos {
            NotFound(content, what, start.pos, end, last, pos.pos);
            return Ptr(-1, null, 0), [];
          }
          OccursWithin(content, what, pos.pos);
          return pos, rest;
        }
        pos, rest := NextByte(pos, rest, content);
      } else {
        if end.Some? && chain == end.value.chain {
          EndPassed(pos, rest, end, last, content);
          NotFound(content, what, start.pos, end, last, pos.pos + i);
          return Ptr(-1, null, 0), [];
        }
        AtStep(pos, rest, content, i);
        pos, rest := Ptr(pos.pos + i, chain.next, 0), rest[1..];
      }
    }
    AtFirst(pos, rest, content);
    NotFound(content, what, start.pos, end, last, pos.pos);
    return Ptr(-1, null, 0), [];
  }

  lemma OccursWithin(content: seq<byte>, what: seq<byte>, i: int)
    requires Occurs(content, what, i)
    ensures 0 <= i && i + |what| <= |content|
  {
  }

  /** Where a search begins when no start is given. */
  lemma AtStart(b: Buffer)
    requires b.Valid()
    ensures At(Ptr(0, b.first, 0), b.chains, b.Content())
  {
  }

  ghost function StartOf(start: Option<Ptr>): int {
    if start.None? then 0 else start.value.pos
  }

  /**
   evbuffer_search_range: the first place at or after `start` where `what` is, if it ends at or
   before `end`.  The start is given back when there is nothing to look for.
  */
  method SearchRange(b: Buffer, what: seq<byte>, start: Option<Ptr>, end: Option<Ptr>,
                     ghost first: seq<Chain>, ghost last: seq<Chain>)
    returns (pos: Ptr, ghost rest: seq<Chain>)
    requires b.Valid() && EndAt(start, first, b.Content()) && EndAt(end, last, b.Content())
    ensures what == [] ==> pos.pos == StartOf(start)
    ensures what != [] ==> Found(b.Content(), what, StartOf(start), Limit(end, b.Content()), pos)
    ensures pos.pos >= 0 ==> At(pos, rest, b.Content())
  {
    hide At, Found, Buffer.Valid, Buffer.Content;
    var from: Ptr;
    if start.Some? { from, rest := start.value, first; } else { from, rest := Ptr(0, b.first, 0), b.chains; }
    AtStart(b);
    if what == [] { return from, rest; }
    pos, rest := SearchFrom(b, what, from, end, rest, last);
  }

  /** evbuffer_search: the least position at or after `start` where `what` occurs, or -1 if there is none. */
  method Search(b: Buffer, what: seq<byte>, start: Option<Ptr>, ghost first: seq<Chain>)
    returns (pos: Ptr, ghost rest: seq<Chain>)
    requires b.Valid() && EndAt(start, first, b.Content())
    ensures what == [] ==> pos.pos == StartOf(start)
    ensures what != [] ==>
              if exists i :: StartOf(start) <= i && Occurs(b.Content(), what, i)
              then StartOf(start) <= pos.pos && Occurs(b.Content(), what, pos.pos)
                   && NoneBetween(b.Content(), what, StartOf(start), pos.pos)
              else pos == Ptr(-1, null, 0)
    ensures pos.pos >= 0 ==> At(pos, rest, b.Content())
  {
    hide At, Buffer.Valid, Buffer.Content;
    pos, rest := SearchRange(b, what, start, None, first, []);
  }

  // ----- evbuffer_ptr_set -----

  datatype How = Set | Add

  /** The loop of evbuffer_ptr_set, from a place `left` bytes before the wanted one. */
  method Walk(at: Ptr, left: nat, ghost first: seq<Chain>, ghost content: seq<byte>)
    returns (chain: Chain?, posInChain: nat, ghost rest: seq<Chain>)
    requires At(at, first, content)
    ensures chain == null <==> at.pos + left >= |content|
    ensures chain != null ==> posInChain < chain.off
    ensures chain != null ==> At(Ptr(at.pos + left, chain, posInChain), rest, content)
  {
    hide Seg, Sound, Full, Bytes, Chain.Data, Chain.Peek, At;
    var position: nat, togo: nat;
    chain, position, togo, rest := at.chain, at.posInChain, left, first;
    while chain != null && position + togo >= chain.off
      invariant togo <= left && At(Ptr(at.pos + left - togo, chain, position), rest, content)
      decreases rest
    {
      ghost var here := Ptr(at.pos + left - togo, chain, position);
      AtFirst(here, rest, content);
      AtStep(here, rest, content, chain.off - position);
      togo := togo - (chain.off - position);
      chain, position, rest := chain.next, 0, rest[1..];
    }
    ghost var here := Ptr(at.pos + left - togo, chain, position);
    AtFirst(here, rest, content);
    if chain != null {
      AtLater(here, rest, content, togo);
      posInChain := position + togo;
    } else {
      posInChain := 0;
    }
  }

  /** evbuffer_ptr_set: a position is set exactly when there is a byte at it. */
  method PtrSet(b: Buffer, pos: Ptr, position: nat, how: How, ghost first: seq<Chain>)
    returns (result: int, next: Ptr, ghost rest: seq<Chain>)
    requires b.Valid() && (how == Add ==> At(pos, first, b.Content()))
    ensures var target := if how == Set then position else pos.pos + position;
            && (result == 0 || result == -1)
            && (result == 0 <==> target < |b.Content()|)
            && (result == 0 ==> next.pos == target && next.chain != null)
            && (result == -1 ==> next.pos == -1 && next.chain == null)
    ensures result == 0 ==> At(next, rest, b.Content())
  {
    hide At, Buffer.Valid, Buffer.Content;
    AtStart(b);
    var chain, inChain;
    if how == Set {
      chain, inChain, rest := Walk(Ptr(0, b.first, 0), position, b.chains, b.Content());
      next := Ptr(position, chain, inChain);
    } else {
      chain, inChain, rest := Walk(pos, position, first, b.Content());
      next := Ptr(pos.pos + position, chain, inChain);
    }
    if chain == null { next := Ptr(-1, null, pos.posInChain); }
    result := if chain != null then 0 else -1;
  }
}
