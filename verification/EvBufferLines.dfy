/**
 Reading lines from an evbuffer (buffer.c: evbuffer_strchr, find_eol_char, evbuffer_find_eol_char,
 evbuffer_strspn, evbuffer_search_eol, evbuffer_readln).
*/
module EvBufferLines {
  import opened Wrappers
  import opened Chains
  import opened EvBuffer
  import opened EvBufferSearch

  const CR: byte := 13
  const LF: byte := 10
  const CHUNK_SZ := 128

  datatype EolStyle = EolAny | EolCrlf | EolCrlfStrict | EolLf

  // ----- what a line end is -----

  /** A line end of the style begins at `i`. */
  predicate EolStarts(content: seq<byte>, style: EolStyle, i: int) {
    0 <= i < |content| &&
    match style
    case EolAny => content[i] in {CR, LF}
    case EolCrlf => content[i] == LF || (i + 1 < |content| && content[i] == CR && content[i + 1] == LF)
    case EolCrlfStrict => i + 1 < |content| && content[i] == CR && content[i + 1] == LF
    case EolLf => content[i] == LF
  }

  /** How many bytes from `i` on are CR or LF. */
  function Run(content: seq<byte>, i: nat): (n: nat)
    requires i <= |content|
    ensures i + n <= |content|
    decreases |content| - i
  {
    if i < |content| && content[i] in {CR, LF} then 1 + Run(content, i + 1) else 0
  }

  /** The length of the line end that begins at `i`. */
  function EolLength(content: seq<byte>, style: EolStyle, i: nat): (n: nat)
    requires EolStarts(content, style, i)
    ensures 0 < n && i + n <= |content|
  {
    match style
    case EolAny => Run(content, i)
    case EolCrlf => if content[i] == LF then 1 else 2
    case EolCrlfStrict => 2
    case EolLf => 1
  }

  /** The first line end at or after `from`, or the length when there is none. */
  function LineEnd(content: seq<byte>, style: EolStyle, from: nat): (i: nat)
    requires from <= |content|
    ensures from <= i <= |content| && forall j :: from <= j < i ==> !EolStarts(content, style, j)
    ensures i < |content| ==> EolStarts(content, style, i)
    decreases |content| - from
  {
    if from == |content| || EolStarts(content, style, from) then from else LineEnd(content, style, from + 1)
  }

  lemma {:induction false} LineEndIs(content: seq<byte>, style: EolStyle, from: nat, i: nat)
    requires from <= i <= |content| && forall j :: from <= j < i ==> !EolStarts(content, style, j)
    requires i < |content| ==> EolStarts(content, style, i)
    ensures LineEnd(content, style, from) == i
    decreases i - from
  {
    if from < i { LineEndIs(content, style, from + 1, i); }
  }

  /** No line end of the style is in the text. */
  ghost predicate Unbroken(text: seq<byte>, style: EolStyle) {
    match style
    case EolAny => CR !in text && LF !in text
    case EolCrlf => LF !in text
    case EolCrlfStrict => forall j :: 0 <= j < |text| - 1 ==> !(text[j] == CR && text[j + 1] == LF)
    case EolLf => LF !in text
  }

  /** A line, its line end and what follows: in each style, what the three may hold. */
  ghost predicate Ends(style: EolStyle, line: seq<byte>, eol: seq<byte>, more: seq<byte>) {
    && Unbroken(line, style)
    && match style
       case EolAny => eol != [] && (forall c :: c in eol ==> c == CR || c == LF) && (more == [] || more[0] !in {CR, LF})
       case EolCrlf => eol == [CR, LF] || (eol == [LF] && (line == [] || line[|line| - 1] != CR))
       case EolCrlfStrict => eol == [CR, LF]
       case EolLf => eol == [LF]
  }

  lemma {:induction false} RunIs(content: seq<byte>, i: nat, n: nat)
    requires i + n <= |content|
    ensures Run(content, i) == n
       <==> (forall j :: i <= j < i + n ==> content[j] in {CR, LF}) && (i + n == |content| || content[i + n] !in {CR, LF})
    decreases n
  {
    if n > 0 && content[i] in {CR, LF} {
      RunIs(content, i + 1, n - 1);
    }
  }

  /** `content` from `from` on begins with a line, which ends at `i` with a line end of `n` bytes. */
  ghost predicate CutAt(content: seq<byte>, style: EolStyle, from: int, i: int, n: int) {
    && 0 <= from <= i <= i + n <= |content|
    && Ends(style, content[from..i], content[i..i + n], content[i + n..])
  }

  lemma UnbrokenUpTo(content: seq<byte>, style: EolStyle, from: nat, i: nat)
    requires from <= i <= |content| && forall j :: from <= j < i ==> !EolStarts(content, style, j)
    ensures Unbroken(content[from..i], style)
    ensures style == EolCrlf && from < i < |content| && content[i] == LF ==> content[i - 1] != CR
  {
    var line := content[from..i];
    assert forall j :: 0 <= j < |line| ==> line[j] == content[from + j] && !EolStarts(content, style, from + j);
    assert from < i ==> !EolStarts(content, style, i - 1);
  }

  lemma EolAt(content: seq<byte>, style: EolStyle, i: nat, n: nat)
    requires EolStarts(content, style, i) && n == EolLength(content, style, i)
    ensures var eol := content[i..i + n];
            match style
            case EolAny => (forall c :: c in eol ==> c == CR || c == LF) && (i + n == |content| || content[i + n] !in {CR, LF})
            case EolCrlf => if content[i] == LF then eol == [LF] else eol == [CR, LF]
            case EolCrlfStrict => eol == [CR, LF]
            case EolLf => eol == [LF]
  {
    hide Run;
    RunIs(content, i, n);
    var eol := content[i..i + n];
    assert forall j :: 0 <= j < n ==> eol[j] == content[i + j];
  }

  /** What the first line end is. */
  lemma EolIs(content: seq<byte>, style: EolStyle, from: nat)
    requires from <= |content|
    ensures var i := LineEnd(content, style, from);
            if i == |content| then Unbroken(content[from..], style)
            else CutAt(content, style, from, i, EolLength(content, style, i))
  {
    hide LineEnd, Unbroken, EolStarts, EolLength;
    var i := LineEnd(content, style, from);
    UnbrokenUpTo(content, style, from, i);
    if i == |content| {
      assert content[from..i] == content[from..];
    } else {
      EolAt(content, style, i, EolLength(content, style, i));
    }
  }

  // ----- scanning -----

  /** find_eol_char: in pieces of CHUNK_SZ, the first CR or LF, or the length when there is none. */
  method FindEolChar(s: seq<byte>) returns (i: nat)
    ensures i == FindByte(s, {CR, LF})
  {
    var at: nat := 0;
    while at < |s|
      invariant forall j :: 0 <= j < at && j < |s| ==> s[j] !in {CR, LF}
      decreases |s| - at
    {
      var chunk := if at + CHUNK_SZ < |s| then CHUNK_SZ else |s| - at;
      var piece := s[at..at + chunk];
      var cr, lf := FindByte(piece, {CR}), FindByte(piece, {LF});
      assert forall j :: at <= j < at + chunk ==> s[j] == piece[j - at];
      if cr < chunk {
        return if lf < chunk && lf < cr then at + lf else at + cr;
      } else if lf < chunk {
        return at + lf;
      }
      at := at + CHUNK_SZ;
    }
    i := |s|;
  }

  /**
   evbuffer_strchr and evbuffer_find_eol_char, which differ in how they look through one chain:
   the first LF, or the first CR or LF, from `from` on.
  */
  method Scan(from: Ptr, anyEol: bool, ghost first: seq<Chain>, ghost content: seq<byte>)
    returns (result: int, it: Ptr, ghost rest: seq<Chain>)
    requires At(from, first, content)
    ensures var cs := if anyEol then {CR, LF} else {LF};
            if result >= 0
            then result == it.pos && from.pos <= it.pos < |content| && content[it.pos] in cs
                 && it.chain != null && it.chain.Ok() && it.posInChain < it.chain.off
                 && forall j :: from.pos <= j < it.pos ==> content[j] !in cs
            else result == -1 && forall j :: from.pos <= j < |content| ==> content[j] !in cs
    ensures result >= 0 ==> At(it, rest, content)
  {
    hide Seg, Sound, Full, Bytes, Chain.Data, Chain.Peek, At, FindByte;
    ghost var cs := if anyEol then {CR, LF} else {LF};
    it, rest := from, first;
    AtFirst(it, rest, content);
    while it.chain != null
      invariant At(it, rest, content) && 0 <= from.pos <= it.pos <= |content|
      invariant forall j :: from.pos <= j < it.pos ==> content[j] !in cs
      decreases rest
    {
      AtFirst(it, rest, content);
      var chain := it.chain;
      var d := chain.Peek(it.posInChain, chain.off - it.posInChain);
      var i;
      if anyEol { i := FindEolChar(d); } else { i := FindByte(d, {LF}); }
      RestOfChain(it, rest, content, cs, i);
      if it.posInChain + i < chain.off {
        it := it.(pos := it.pos + i, posInChain := it.posInChain + i);
        return it.pos, it, rest;
      }
      AtStep(it, rest, content, i);
      it, rest := Ptr(it.pos + i, chain.next, 0), rest[1..];
    }
    AtFirst(it, rest, content);
    result := -1;
  }

  /** evbuffer_strspn with the bytes CR and LF: how many of them there are from `from` on. */
  method CountEolChars(from: Ptr, ghost first: seq<Chain>, ghost content: seq<byte>) returns (count: int)
    requires At(from, first, content)
    ensures count == if from.chain == null then -1 else Run(content, from.pos)
  {
    hide Seg, Sound, Full, Bytes, Chain.Data, Chain.Peek, At;
    if from.chain == null { return -1; }
    ghost var rest := first;
    var at := from;
    count := 0;
    AtFirst(at, rest, content);
    while true
      invariant 0 <= from.pos && at.pos == from.pos + count && 0 <= count
      invariant at.chain != null && At(at, rest, content)
      invariant at.pos <= |content| && Run(content, from.pos) == count + Run(content, at.pos)
      decreases rest
    {
      AtFirst(at, rest, content);
      var n := CountInChain(at, rest, content);
      count := count + n;
      if at.posInChain + n < at.chain.off { return count; }
      AtStep(at, rest, content, n);
      if at.chain.next == null {
        AtFirst(Ptr(at.pos + n, null, 0), rest[1..], content);
        return count;
      }
      at, rest := Ptr(at.pos + n, at.chain.next, 0), rest[1..];
    }
  }

  /** The inner loop of evbuffer_strspn: the bytes of one chain. */
  method CountInChain(at: Ptr, ghost rest: seq<Chain>, ghost content: seq<byte>) returns (n: nat)
    requires At(at, rest, content) && at.chain != null && at.posInChain <= at.chain.off
    ensures at.posInChain + n <= at.chain.off && 0 <= at.pos && at.pos + n <= |content|
    ensures Run(content, at.pos) == n + Run(content, at.pos + n)
    ensures at.posInChain + n < at.chain.off ==> Run(content, at.pos + n) == 0
  {
    hide Seg, Sound, Full, Bytes, Chain.Data, Chain.Peek, At;
    AtFirst(at, rest, content);
    n := 0;
    while at.posInChain + n < at.chain.off
      invariant at.posInChain + n <= at.chain.off
      invariant Run(content, at.pos) == n + Run(content, at.pos + n)
    {
      AtLater(at, rest, content, n);
      AtPiece(at.(pos := at.pos + n, posInChain := at.posInChain + n), rest, content, 1);
      var c := at.chain.Peek(at.posInChain + n, 1)[0];
      assert c == content[at.pos + n..at.pos + n + 1][0] == content[at.pos + n];
      if c !in {CR, LF} { return n; }
      n := n + 1;
    }
  }

  // ----- evbuffer_search_eol -----

  /** What evbuffer_search_eol gives back: the first line end from `from` on, and its length. */
  ghost predicate EolFound(content: seq<byte>, style: EolStyle, from: int, it: Ptr, n: int) {
    && 0 <= from <= |content|
    && if LineEnd(content, style, from) < |content|
       then it.pos == LineEnd(content, style, from) && n == EolLength(content, style, it.pos)
       else it.pos == -1 && n == 0
  }

  lemma FoundAt(content: seq<byte>, style: EolStyle, from: int, it: Ptr)
    requires 0 <= from <= it.pos <= |content|
    requires EolStarts(content, style, it.pos) && forall j :: from <= j < it.pos ==> !EolStarts(content, style, j)
    ensures EolFound(content, style, from, it, EolLength(content, style, it.pos))
  {
    LineEndIs(content, style, from, it.pos);
  }

  lemma NotFoundFrom(content: seq<byte>, style: EolStyle, from: int, it: Ptr)
    requires 0 <= from <= |content| && it.pos == -1
    requires forall j :: from <= j < |content| ==> !EolStarts(content, style, j)
    ensures EolFound(content, style, from, it, 0)
  {
    LineEndIs(content, style, from, |content|);
  }

  lemma CrlfOccurs(content: seq<byte>, i: int)
    ensures Occurs(content, [CR, LF], i) <==> EolStarts(content, EolCrlfStrict, i)
  {
    if 0 <= i && i + 2 <= |content| {
      assert content[i..i + 2] == [content[i], content[i + 1]];
    }
  }

  method SearchAny(from: Ptr, ghost first: seq<Chain>, ghost content: seq<byte>)
    returns (it: Ptr, n: int, ghost rest: seq<Chain>)
    requires At(from, first, content)
    ensures EolFound(content, EolAny, from.pos, it, n)
    ensures it.pos >= 0 ==> At(it, rest, content)
  {
    hide At;
    AtFirst(from, first, content);
    var r;
    r, it, rest := Scan(from, true, first, content);
    if r < 0 {
      it, n := it.(pos := -1), 0;
      NotFoundFrom(content, EolAny, from.pos, it);
    } else {
      n := CountEolChars(it, rest, content);
      FoundAt(content, EolAny, from.pos, it);
    }
  }

  method SearchLf(from: Ptr, ghost first: seq<Chain>, ghost content: seq<byte>)
    returns (it: Ptr, n: int, ghost rest: seq<Chain>)
    requires At(from, first, content)
    ensures EolFound(content, EolLf, from.pos, it, n)
    ensures it.pos >= 0 ==> At(it, rest, content)
  {
    hide At;
    AtFirst(from, first, content);
    var r;
    r, it, rest := Scan(from, false, first, content);
    if r < 0 {
      it, n := it.(pos := -1), 0;
      NotFoundFrom(content, EolLf, from.pos, it);
    } else {
      n := 1;
      FoundAt(content, EolLf, from.pos, it);
    }
  }

  method SearchCrlfStrict(b: Buffer, from: Ptr, ghost first: seq<Chain>)
    returns (it: Ptr, n: int, ghost rest: seq<Chain>)
    requires b.Valid() && At(from, first, b.Content())
    ensures EolFound(b.Content(), EolCrlfStrict, from.pos, it, n)
    ensures it.pos >= 0 ==> At(it, rest, b.Content())
  {
    hide At, Occurs, Buffer.Valid, Buffer.Content, EolStarts;
    ghost var content := b.Content();
    AtFirst(from, first, content);
    it, rest := Search(b, [CR, LF], Some(from), first);
    forall i ensures Occurs(content, [CR, LF], i) <==> EolStarts(content, EolCrlfStrict, i) { CrlfOccurs(content, i); }
    if it.pos < 0 {
      n := 0;
      NotFoundFrom(content, EolCrlfStrict, from.pos, it);
    } else {
      n := 2;
      AtFirst(it, rest, content);
      FoundAt(content, EolCrlfStrict, from.pos, it);
    }
  }

  method SearchCrlf(b: Buffer, from: Ptr, ghost first: seq<Chain>)
    returns (it: Ptr, n: int, ghost rest: seq<Chain>)
    requires b.Valid() && At(from, first, b.Content())
    ensures EolFound(b.Content(), EolCrlf, from.pos, it, n)
    ensures it.pos >= 0 ==> At(it, rest, b.Content())
  {
    hide At, Occurs, Buffer.Valid, Buffer.Content, Seg, Sound, Bytes, Chain.Peek, Chain.Data;
    ghost var content := b.Content();
    it, rest := from, first;
    AtFirst(it, rest, content);
    while true
      invariant from.pos <= it.pos <= |content| && At(it, rest, content)
      invariant forall j :: from.pos <= j < it.pos ==> !EolStarts(content, EolCrlf, j)
      decreases |content| - it.pos
    {
      var r;
      r, it, rest := Scan(it, true, rest, content);
      if r < 0 { break; }
      AtPiece(it, rest, content, 1);
      var c := it.chain.Peek(it.posInChain, 1)[0];
      assert c == content[it.pos..it.pos + 1][0] == content[it.pos];
      CrlfOccurs(content, it.pos);
      if c == LF {
        FoundAt(content, EolCrlf, from.pos, it);
        return it, 1, rest;
      }
      var crlf := PtrMemcmp(b, it, [CR, LF], rest);
      if crlf {
        FoundAt(content, EolCrlf, from.pos, it);
        return it, 2, rest;
      }
      r, it, rest := PtrSet(b, it, 1, Add, rest);
      if r < 0 { break; }
    }
    it, n := it.(pos := -1), 0;
    NotFoundFrom(content, EolCrlf, from.pos, it);
  }

  /** evbuffer_search_eol. */
  method SearchEol(b: Buffer, start: Option<Ptr>, style: EolStyle, ghost first: seq<Chain>)
    returns (it: Ptr, n: int, ghost rest: seq<Chain>)
    requires b.Valid() && EndAt(start, first, b.Content())
    ensures EolFound(b.Content(), style, StartOf(start), it, n)
    ensures if it.pos >= 0 then CutAt(b.Content(), style, StartOf(start), it.pos, n)
            else it.pos == -1 && n == 0 && Unbroken(b.Content()[StartOf(start)..], style)
    ensures it.pos >= 0 ==> At(it, rest, b.Content())
  {
    hide At, EolFound, CutAt, Unbroken, Buffer.Valid, Buffer.Content;
    var from;
    if start.Some? { from, rest := start.value, first; } else { from, rest := Ptr(0, b.first, 0), b.chains; }
    AtStart(b);
    match style {
      case EolAny => it, n, rest := SearchAny(from, rest, b.Content());
      case EolCrlf => it, n, rest := SearchCrlf(b, from, rest);
      case EolCrlfStrict => it, n, rest := SearchCrlfStrict(b, from, rest);
      case EolLf => it, n, rest := SearchLf(from, rest, b.Content());
    }
    FoundIsCut(b.Content(), style, from.pos, it, n);
  }

  lemma FoundIsCut(content: seq<byte>, style: EolStyle, from: int, it: Ptr, n: int)
    requires EolFound(content, style, from, it, n)
    ensures 0 <= from <= |content|
    ensures if it.pos >= 0 then CutAt(content, style, from, it.pos, n)
            else it.pos == -1 && n == 0 && Unbroken(content[from..], style)
  {
    hide CutAt, Unbroken, EolLength;
    EolIs(content, style, from);
  }

  // ----- evbuffer_readln -----

  /** The first line and what follows its line end, if the content has a line end. */
  function FirstLine(content: seq<byte>, style: EolStyle): (r: Option<(seq<byte>, seq<byte>)>)
    ensures r.Some? ==> |r.value.0| + |r.value.1| < |content|
  {
    var i := LineEnd(content, style, 0);
    if i == |content| then None else Some((content[..i], content[i + EolLength(content, style, i)..]))
  }

  /** evbuffer_drain of bytes that are there. */
  method Skip(b: Buffer, n: nat)
    requires b.Valid() && !b.freeze_start && n <= |b.Content()|
    modifies b`chains, b`first, b`last, b`last_with_datap, b`total_len,
             b.chains`freed, b.chains`dangling, b.chains`off, b.chains`misalign
    ensures b.Valid() && b.Content() == old(b.Content())[n..]
    ensures forall i :: 0 <= i < |b.chains| ==> b.chains[i] in old(b.chains)
  {
    hide Buffer.Valid, Buffer.Content, Buffer.Released;
    var _, gone := b.Drain(n);
    assert forall i :: 0 <= i < |b.chains| ==> b.chains[i] == old(b.chains)[|gone| + i];
  }

  /** evbuffer_remove of bytes that are there. */
  method Take(b: Buffer, n: nat) returns (data: seq<byte>)
    requires b.Valid() && !b.freeze_start && n <= |b.Content()|
    modifies b`chains, b`first, b`last, b`last_with_datap, b`total_len,
             b.chains`freed, b.chains`dangling, b.chains`off, b.chains`misalign
    ensures b.Valid() && data == old(b.Content())[..n] && b.Content() == old(b.Content())[n..]
    ensures forall i :: 0 <= i < |b.chains| ==> b.chains[i] in old(b.chains)
  {
    hide Buffer.Valid, Buffer.Content;
    LengthOf(b);
    var _, d := b.Remove(n);
    data := d;
  }

  /** The evbuffer_remove and evbuffer_drain of evbuffer_readln. */
  method TakeLine(b: Buffer, n: nat, extra_drain: nat) returns (data: seq<byte>)
    requires b.Valid() && !b.freeze_start && n + extra_drain <= |b.Content()|
    modifies b`chains, b`first, b`last, b`last_with_datap, b`total_len,
             b.chains`freed, b.chains`dangling, b.chains`off, b.chains`misalign
    ensures b.Valid() && forall i :: 0 <= i < |b.chains| ==> b.chains[i] in old(b.chains)
    ensures data == old(b.Content())[..n] && b.Content() == old(b.Content())[n + extra_drain..]
  {
    hide Buffer.Valid, Buffer.Content;
    DropTwice(b.Content(), n, extra_drain);
    data := Take(b, n);
    Skip(b, extra_drain);
  }

  lemma DropTwice(s: seq<byte>, m: nat, n: nat)
    requires m + n <= |s|
    ensures s[m..][n..] == s[m + n..]
  {
  }

  /** evbuffer_readln: takes the first line and its line end out of the buffer. */
  method ReadLn(b: Buffer, style: EolStyle) returns (line: Option<seq<byte>>, nRead: nat)
    requires b.Valid()
    modifies b`chains, b`first, b`last, b`last_with_datap, b`total_len,
             b.chains`freed, b.chains`dangling, b.chains`off, b.chains`misalign
    ensures b.Valid() && forall i :: 0 <= i < |b.chains| ==> b.chains[i] in old(b.chains)
    ensures old(b.freeze_start) ==> b.Untouched()
    ensures var taken := FirstLine(old(b.Content()), style);
            if old(b.freeze_start) || taken.None? then line == None && b.Content() == old(b.Content()) && nRead == 0
            else line == Some(taken.value.0) && b.Content() == taken.value.1 && nRead == |taken.value.0|
    ensures var content := old(b.Content());
            && (line.None? && !old(b.freeze_start) ==> Unbroken(content, style))
            && (line.Some? ==>
                  var i, n := |line.value|, |content| - |b.Content()| - |line.value|;
                  && n > 0 && line.value == content[..i] && b.Content() == content[i + n..]
                  && Ends(style, line.value, content[i..i + n], b.Content()))
  {
    hide At, Buffer.Valid, Buffer.Content, LineEnd, EolLength, Unbroken, Ends;
    line, nRead := None, 0;
    if b.freeze_start { return; }
    var it, extra_drain, _ := SearchEol(b, None, style, []);
    if it.pos < 0 { return; }
    var data := TakeLine(b, it.pos, extra_drain);
    line, nRead := Some(data), it.pos;
  }

  // ----- reading line after line -----

  /** The lines that evbuffer_readln gives one after the other, and what stays in the buffer. */
  function Lines(content: seq<byte>, style: EolStyle): (seq<seq<byte>>, seq<byte>)
    decreases |content|
  {
    match FirstLine(content, style)
    case None => ([], content)
    case Some((line, more)) => var (lines, rest) := Lines(more, style); ([line] + lines, rest)
  }

  /** evbuffer_readln again and again, until it finds no line. */
  method ReadLines(b: Buffer, style: EolStyle) returns (lines: seq<seq<byte>>)
    requires b.Valid() && !b.freeze_start
    modifies b`chains, b`first, b`last, b`last_with_datap, b`total_len,
             b.chains`freed, b.chains`dangling, b.chains`off, b.chains`misalign
    ensures b.Valid() && (lines, b.Content()) == Lines(old(b.Content()), style)
  {
    hide Buffer.Valid, Buffer.Content, FirstLine;
    lines := [];
    ghost var content := b.Content();
    assert [] + Lines(content, style).0 == Lines(content, style).0;
    while true
      invariant b.Valid() && forall i :: 0 <= i < |b.chains| ==> b.chains[i] in old(b.chains)
      invariant Lines(content, style) == (lines + Lines(b.Content(), style).0, Lines(b.Content(), style).1)
      decreases |b.Content()|
    {
      ghost var before := b.Content();
      var line, _ := ReadLn(b, style);
      if line == None {
        assert lines + [] == lines;
        return;
      }
      LinesNext(lines, line.value, before, b.Content(), style);
      lines := lines + [line.value];
    }
  }

  lemma LinesNext(lines: seq<seq<byte>>, line: seq<byte>, content: seq<byte>, more: seq<byte>, style: EolStyle)
    requires FirstLine(content, style) == Some((line, more))
    ensures lines + Lines(content, style).0 == lines + [line] + Lines(more, style).0
    ensures Lines(content, style).1 == Lines(more, style).1
  {
  }

  // ----- the lines and the content -----

  /** What the lines, each with its line end, and a remainder make up. */
  function Text(lines: seq<seq<byte>>, eols: seq<seq<byte>>, rest: seq<byte>): seq<byte>
    requires |eols| == |lines|
  {
    if lines == [] then rest else lines[0] + (eols[0] + Text(lines[1..], eols[1..], rest))
  }

  /** Each line ends as the style has it, and none begins in the remainder that ends. */
  ghost predicate Cut(style: EolStyle, lines: seq<seq<byte>>, eols: seq<seq<byte>>, rest: seq<byte>)
    requires |eols| == |lines|
  {
    if lines == [] then Unbroken(rest, style)
    else Ends(style, lines[0], eols[0], Text(lines[1..], eols[1..], rest)) && Cut(style, lines[1..], eols[1..], rest)
  }

  /** The line ends that evbuffer_readln drains one after the other. */
  function Eols(content: seq<byte>, style: EolStyle): (eols: seq<seq<byte>>)
    ensures |eols| == |Lines(content, style).0|
    decreases |content|
  {
    match FirstLine(content, style)
    case None => []
    case Some((line, more)) => [content[|line|..|content| - |more|]] + Eols(more, style)
  }

  lemma LinesStep(content: seq<byte>, style: EolStyle)
    ensures var first := FirstLine(content, style);
            if first.None? then Unbroken(content, style)
            else
              var line, more := first.value.0, first.value.1;
              |line| + |more| <= |content| &&
              var eol := content[|line|..|content| - |more|];
              content == line + (eol + more) && Ends(style, line, eol, more)
  {
    hide LineEnd, EolStarts, EolLength, Ends, Unbroken;
    EolIs(content, style, 0);
    var i := LineEnd(content, style, 0);
    if i == |content| {
      assert content[0..] == content;
    } else {
      var n := EolLength(content, style, i);
      assert |content| - |content[i + n..]| == i + n;
      assert content[0..i] == content[..i];
      assert content == content[..i] + (content[i..i + n] + content[i + n..]);
    }
  }

  lemma LinesOf(content: seq<byte>, style: EolStyle)
    ensures var first := FirstLine(content, style);
            if first.None? then Lines(content, style) == ([], content) && Eols(content, style) == []
            else
              var line, more := first.value.0, first.value.1;
              && |line| + |more| <= |content|
              && Lines(content, style) == ([line] + Lines(more, style).0, Lines(more, style).1)
              && Eols(content, style) == [content[|line|..|content| - |more|]] + Eols(more, style)
  {
    hide FirstLine;
  }

  lemma TextStep(line: seq<byte>, eol: seq<byte>, lines: seq<seq<byte>>, eols: seq<seq<byte>>, rest: seq<byte>, style: EolStyle)
    requires |eols| == |lines|
    ensures Text([line] + lines, [eol] + eols, rest) == line + (eol + Text(lines, eols, rest))
    ensures Cut(style, [line] + lines, [eol] + eols, rest)
       <==> Ends(style, line, eol, Text(lines, eols, rest)) && Cut(style, lines, eols, rest)
  {
    hide Ends;
    var all, ends := [line] + lines, [eol] + eols;
    assert all[1..] == lines && ends[1..] == eols && all[0] == line && ends[0] == eol;
  }

  /**
   Nothing is lost, in any style: the lines, each with its line end, and the remainder are the
   content; no line and no remainder holds a line end, and what was drained is one.
  */
  lemma {:induction false} LinesAreLossless(content: seq<byte>, style: EolStyle)
    ensures var (lines, rest) := Lines(content, style);
            var eols := Eols(content, style);
            content == Text(lines, eols, rest) && Cut(style, lines, eols, rest)
    decreases |content|
  {
    hide FirstLine, Ends, Unbroken;
    LinesOf(content, style);
    LinesStep(content, style);
    var first := FirstLine(content, style);
    if first.Some? {
      var (line, more) := first.value;
      LinesAreLossless(more, style);
      var (lines, rest) := Lines(more, style);
      TextStep(line, content[|line|..|content| - |more|], lines, Eols(more, style), rest, style);
    }
  }

  /** A line is read as it was written. */
  lemma FirstLineIs(line: seq<byte>, eol: seq<byte>, more: seq<byte>, style: EolStyle)
    requires Ends(style, line, eol, more)
    ensures FirstLine(line + (eol + more), style) == Some((line, more))
    ensures (line + (eol + more))[|line|..|line| + |eol|] == eol
  {
    hide FirstLine, Ends, Unbroken, Run;
    EolStartsAfter(line, eol, more, style);
    hide EolStarts, EolLength;
    var content, i := line + (eol + more), |line|;
    LineEndIs(content, style, 0, i);
    assert content[..i] == line && content[i + |eol|..] == more;
    FirstLineAt(content, style, i);
  }

  lemma FirstLineAt(content: seq<byte>, style: EolStyle, i: nat)
    requires LineEnd(content, style, 0) == i < |content|
    ensures FirstLine(content, style) == Some((content[..i], content[i + EolLength(content, style, i)..]))
  {
    hide LineEnd, EolLength;
  }

  lemma EolStartsAfter(line: seq<byte>, eol: seq<byte>, more: seq<byte>, style: EolStyle)
    requires Ends(style, line, eol, more)
    ensures var content := line + (eol + more);
            && (forall j :: 0 <= j < |line| ==> !EolStarts(content, style, j))
            && EolStarts(content, style, |line|) && EolLength(content, style, |line|) == |eol|
  {
    hide Run;
    var content, i := line + (eol + more), |line|;
    assert forall j :: 0 <= j < |eol| ==> content[i + j] == eol[j] && eol[j] in eol;
    assert content[i] == eol[0] && (|eol| > 1 ==> content[i + 1] == eol[1]);
    assert more != [] ==> content[i + |eol|] == more[0];
    forall j | 0 <= j < i ensures !EolStarts(content, style, j) {
      assert content[j] == line[j] && (j + 1 < i ==> content[j + 1] == line[j + 1]);
    }
    assert style == EolAny ==> forall j :: i <= j < i + |eol| ==> content[j] == eol[j - i];
    RunIs(content, i, |eol|);
  }

  lemma NoLine(content: seq<byte>, style: EolStyle)
    requires Unbroken(content, style)
    ensures FirstLine(content, style) == None
  {
    hide LineEnd;
    LineEndIs(content, style, 0, |content|);
  }

  /**
   Lines come back as they were written, in any style, if each is ended as the style has it.  With
   the lemma before it, `Lines` and `Eols` are the only way to cut the content so.
  */
  lemma {:induction false} LinesComeBack(lines: seq<seq<byte>>, eols: seq<seq<byte>>, rest: seq<byte>, style: EolStyle)
    requires |eols| == |lines| && Cut(style, lines, eols, rest)
    ensures Lines(Text(lines, eols, rest), style) == (lines, rest)
    ensures Eols(Text(lines, eols, rest), style) == eols
  {
    hide FirstLine, Ends, Unbroken, Lines, Eols;
    LinesOf(Text(lines, eols, rest), style);
    if lines == [] {
      NoLine(rest, style);
    } else {
      var more := Text(lines[1..], eols[1..], rest);
      FirstLineIs(lines[0], eols[0], more, style);
      LinesComeBack(lines[1..], eols[1..], rest, style);
      assert |Text(lines, eols, rest)| - |more| == |lines[0]| + |eols[0]|;
      assert lines == [lines[0]] + lines[1..] && eols == [eols[0]] + eols[1..];
    }
  }

  // ----- lines with one and the same line end -----

  function Joined(lines: seq<seq<byte>>, terminator: seq<byte>): seq<byte> {
    if lines == [] then [] else lines[0] + terminator + Joined(lines[1..], terminator)
  }

  lemma {:induction false} JoinedIsText(lines: seq<seq<byte>>, terminator: seq<byte>, rest: seq<byte>)
    ensures Joined(lines, terminator) + rest == Text(lines, seq(|lines|, _ => terminator), rest)
  {
    if lines != [] {
      var eols := seq(|lines|, _ => terminator);
      assert eols[1..] == seq(|lines| - 1, _ => terminator);
      JoinedIsText(lines[1..], terminator, rest);
      assert lines[0] + terminator + Joined(lines[1..], terminator) + rest
          == lines[0] + (terminator + (Joined(lines[1..], terminator) + rest));
    }
  }

  /** The terminator ends a line in the style: for EVBUFFER_EOL_CRLF, a CR before an LF would be taken for a part of it. */
  ghost predicate Terminates(terminator: seq<byte>, style: EolStyle, line: seq<byte>) {
    && Unbroken(line, style)
    && match style
       case EolAny => false
       case EolCrlf => terminator == [CR, LF] || (terminator == [LF] && (line == [] || line[|line| - 1] != CR))
       case EolCrlfStrict => terminator == [CR, LF]
       case EolLf => terminator == [LF]
  }

  /** Lines that do not hold the terminator, joined by it, are read back as they were written. */
  lemma JoinedComeBack(lines: seq<seq<byte>>, rest: seq<byte>, style: EolStyle, terminator: seq<byte>)
    requires forall line :: line in lines ==> Terminates(terminator, style, line)
    requires Unbroken(rest, style)
    ensures Lines(Joined(lines, terminator) + rest, style) == (lines, rest)
  {
    JoinedIsText(lines, terminator, rest);
    JoinedIsCut(lines, rest, style, terminator);
    LinesComeBack(lines, seq(|lines|, _ => terminator), rest, style);
  }

  lemma {:induction false} JoinedIsCut(lines: seq<seq<byte>>, rest: seq<byte>, style: EolStyle, terminator: seq<byte>)
    requires forall line :: line in lines ==> Terminates(terminator, style, line)
    requires Unbroken(rest, style)
    ensures Cut(style, lines, seq(|lines|, _ => terminator), rest)
  {
    hide Unbroken;
    if lines != [] {
      assert seq(|lines|, _ => terminator)[1..] == seq(|lines| - 1, _ => terminator);
      assert lines[0] in lines;
      JoinedIsCut(lines[1..], rest, style, terminator);
    }
  }

  /** The two styles with one line end: the lines joined by it, and the remainder, are the content. */
  lemma LinesAreJoined(content: seq<byte>, style: EolStyle)
    requires style == EolLf || style == EolCrlfStrict
    ensures var (lines, rest) := Lines(content, style);
            && content == Joined(lines, if style == EolLf then [LF] else [CR, LF]) + rest
            && (forall line :: line in lines ==> Unbroken(line, style)) && Unbroken(rest, style)
  {
    var (lines, rest) := Lines(content, style);
    var terminator := if style == EolLf then [LF] else [CR, LF];
    LinesAreLossless(content, style);
    CutIsJoined(lines, Eols(content, style), rest, style);
    JoinedIsText(lines, terminator, rest);
  }

  lemma {:induction false} CutIsJoined(lines: seq<seq<byte>>, eols: seq<seq<byte>>, rest: seq<byte>, style: EolStyle)
    requires style == EolLf || style == EolCrlfStrict
    requires |eols| == |lines| && Cut(style, lines, eols, rest)
    ensures eols == seq(|lines|, _ => if style == EolLf then [LF] else [CR, LF])
    ensures (forall line :: line in lines ==> Unbroken(line, style)) && Unbroken(rest, style)
  {
    hide Unbroken;
    if lines != [] {
      CutIsJoined(lines[1..], eols[1..], rest, style);
      assert eols == [eols[0]] + eols[1..] && lines == [lines[0]] + lines[1..];
    }
  }
}
