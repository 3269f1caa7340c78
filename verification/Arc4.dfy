/**
 The random number generator of libevent (arc4random.c): a stream cipher whose state is a
 permutation of the bytes, and numbers below a bound that are drawn from it without bias.
*/
module Arc4 {
  const BYTES: nat := 256

  type Byte = x: nat | x < 256

  /** arc4_stream. */
  datatype Stream = Stream(i: Byte, j: Byte, s: seq<Byte>)

  /** Each byte occurs once. */
  ghost predicate Permutation(s: seq<Byte>) {
    |s| == BYTES && forall v: Byte :: multiset(s)[v] == 1
  }

  function Swap(s: seq<Byte>, a: Byte, b: Byte): seq<Byte>
    requires |s| == BYTES
  {
    s[a := s[b]][b := s[a]]
  }

  lemma SwapKeeps(s: seq<Byte>, a: Byte, b: Byte)
    requires |s| == BYTES
    ensures multiset(Swap(s, a, b)) == multiset(s) && |Swap(s, a, b)| == BYTES
    ensures Swap(Swap(s, a, b), a, b) == s
  {
  }

  /** One round: `i` goes on, `j` jumps, and the two bytes change places. */
  function Mix(st: Stream, d: Byte): (r: Stream)
    requires |st.s| == BYTES
    ensures |r.s| == BYTES
  {
    var i := (st.i + 1) % BYTES;
    var j := (st.j + st.s[i] + d) % BYTES;
    Stream(i, j, Swap(st.s, i, j))
  }

  /** `n` rounds of the key schedule, over the data again and again. */
  function Mixed(st: Stream, dat: seq<Byte>, n: nat): (r: Stream)
    requires |st.s| == BYTES && dat != []
    ensures |r.s| == BYTES
  {
    if n == 0 then st else Mix(Mixed(st, dat, n - 1), At(dat, n - 1))
  }

  function At(dat: seq<Byte>, n: nat): Byte
    requires dat != []
  {
    dat[n % |dat|]
  }

  lemma {:induction false} MixedAlike(st: Stream, dat: seq<Byte>, dat': seq<Byte>, n: nat)
    requires |st.s| == BYTES && dat != [] && |dat| == |dat'| && n <= |dat| && dat[..n] == dat'[..n]
    ensures Mixed(st, dat, n) == Mixed(st, dat', n)
  {
    hide Mix, At;
    if n > 0 {
      assert dat[..n - 1] == dat[..n][..n - 1] == dat'[..n - 1];
      assert dat[n - 1] == dat[..n][n - 1] == dat'[n - 1];
      FirstTimeAround(st, dat, n - 1);
      FirstTimeAround(st, dat', n - 1);
      MixedAlike(st, dat, dat', n - 1);
    }
  }

  /** The two states are at the same `i`, and their `j` are as far apart as the two bytes. */
  ghost predicate ApartBy(r: Stream, r': Stream, d: Byte, d': Byte) {
    r.i == r'.i && (r'.j - r.j) % BYTES == (d' - d) % BYTES
  }

  /**
   Every byte of the seed matters, and is taken in turn: with the first that differs, the states
   differ, by just as much as the two bytes.
  */
  lemma EachByteMatters(st: Stream, dat: seq<Byte>, dat': seq<Byte>, n: nat)
    requires |st.s| == BYTES && n < |dat| == |dat'| <= BYTES && dat[..n] == dat'[..n] && dat[n] != dat'[n]
    ensures var r, r' := Mixed(st, dat, n + 1), Mixed(st, dat', n + 1);
            r != r' && ApartBy(r, r', dat[n], dat'[n])
  {
    hide Mix, Mixed, ApartBy;
    MixedAlike(st, dat, dat', n);
    FirstTimeAround(st, dat, n);
    FirstTimeAround(st, dat', n);
    MixDiffers(Mixed(st, dat, n), dat[n], dat'[n]);
  }

  lemma FirstTimeAround(st: Stream, dat: seq<Byte>, n: nat)
    requires |st.s| == BYTES && n < |dat|
    ensures Mixed(st, dat, n + 1) == Mix(Mixed(st, dat, n), dat[n])
  {
    hide Mix;
    assert At(dat, n) == dat[n];
  }

  lemma MixDiffers(st: Stream, d: Byte, d': Byte)
    requires |st.s| == BYTES
    ensures var r, r' := Mix(st, d), Mix(st, d');
            ApartBy(r, r', d, d') && (d != d' ==> r != r')
  {
    hide Swap;
    JumpsDiffer(st.j + st.s[(st.i + 1) % BYTES], d, d');
  }

  lemma JumpsDiffer(a: nat, d: Byte, d': Byte)
    ensures ((a + d') % BYTES - (a + d) % BYTES) % BYTES == (d' - d) % BYTES
    ensures d != d' ==> (a + d) % BYTES != (a + d') % BYTES
  {
  }

  lemma MixKeeps(st: Stream, d: Byte)
    requires |st.s| == BYTES
    ensures multiset(Mix(st, d).s) == multiset(st.s) && Mix(st, d).i == (st.i + 1) % BYTES
  {
    SwapKeeps(st.s, Mix(st, d).i, Mix(st, d).j);
  }

  lemma {:induction false} MixedKeeps(st: Stream, dat: seq<Byte>, n: nat)
    requires |st.s| == BYTES && dat != []
    ensures multiset(Mixed(st, dat, n).s) == multiset(st.s)
    ensures Mixed(st, dat, n).i == (st.i + n) % BYTES
  {
    hide Mix, At;
    if n > 0 {
      MixedKeeps(st, dat, n - 1);
      MixKeeps(Mixed(st, dat, n - 1), At(dat, n - 1));
      OneOn(st.i, n - 1);
    }
  }

  lemma OneOn(a: nat, n: nat)
    ensures ((a + n) % BYTES + 1) % BYTES == (a + n + 1) % BYTES
  {
  }

  /** The state before a round, from the state after it. */
  function Unmix(st: Stream, d: Byte): Stream
    requires |st.s| == BYTES
  {
    var s := Swap(st.s, st.i, st.j);
    Stream((st.i + BYTES - 1) % BYTES, (st.j + 2 * BYTES - s[st.i] - d) % BYTES, s)
  }

  /** No two states have the same successor: nothing of the state is ever lost. */
  lemma RoundsAreInvertible(st: Stream, d: Byte)
    requires |st.s| == BYTES
    ensures Unmix(Mix(st, d), d) == st
  {
    SwapKeeps(st.s, Mix(st, d).i, Mix(st, d).j);
  }

  /** The output byte of a state that was just mixed. */
  function Out(st: Stream): Byte
    requires |st.s| == BYTES
  {
    st.s[(st.s[st.i] + st.s[st.j]) % BYTES]
  }

  // ----- the generator -----

  /** arc4_addrandom. */
  function Seeded(st: Stream, dat: seq<Byte>): (r: Stream)
    requires |st.s| == BYTES && dat != []
    ensures |r.s| == BYTES
  {
    var r := Mixed(st.(i := (st.i + BYTES - 1) % BYTES), dat, BYTES);
    r.(j := r.i)
  }

  class Rs {
    var i: Byte
    var j: Byte
    const s: array<Byte>

    /** arc4_init. */
    constructor ()
      ensures Valid() && State().i == State().j == 0 && Permutation(State().s) && fresh(s)
    {
      s := new Byte[BYTES];
      i, j := 0, 0;
      new;
      for n := 0 to BYTES
        invariant i == j == 0 && forall k :: 0 <= k < n ==> s[k] == k
      {
        s[n] := n;
      }
      IdentityIsPermutation(s[..]);
    }

    ghost predicate Valid()
    {
      s.Length == BYTES
    }

    ghost function State(): (st: Stream)
      requires Valid()
      reads this, s
      ensures |st.s| == BYTES
    {
      Stream(i, j, s[..])
    }

    /** The loop body of arc4_addrandom. */
    method Round(d: Byte)
      requires Valid()
      modifies this, s
      ensures State() == Mix(old(State()), d)
      ensures i == (old(i) + 1) % BYTES && j == (old(j) + old(s[..])[i] + d) % BYTES
      ensures s[..] == old(s[..])[i := old(s[..])[j]][j := old(s[..])[i]]
    {
      i := (i + 1) % BYTES;
      var si := s[i];
      j := (j + si + d) % BYTES;
      s[i] := s[j];
      s[j] := si;
    }

    /** arc4_addrandom. */
    method AddRandom(dat: seq<Byte>)
      requires Valid() && dat != []
      modifies this, s
      ensures State() == Seeded(old(State()), dat)
    {
      hide Mix, At;
      i := (i + BYTES - 1) % BYTES;
      ghost var start := State();
      for n := 0 to BYTES
        invariant State() == Mixed(start, dat, n)
      {
        Round(At(dat, n));
      }
      j := i;
    }

    /** arc4_getbyte. */
    method GetByte() returns (b: Byte)
      requires Valid()
      modifies this, s
      ensures State() == Mix(old(State()), 0) && b == Out(State())
      ensures i == (old(i) + 1) % BYTES && j == (old(j) + old(s[..])[i]) % BYTES
      ensures s[..] == old(s[..])[i := old(s[..])[j]][j := old(s[..])[i]] && b == s[(s[i] + s[j]) % BYTES]
    {
      i := (i + 1) % BYTES;
      var si := s[i];
      j := (j + si) % BYTES;
      var sj := s[j];
      s[i] := sj;
      s[j] := si;
      b := s[(si + sj) % BYTES];
    }
  }

  lemma {:induction false} CountOf(s: seq<Byte>, n: nat, v: Byte)
    requires n <= |s| <= BYTES && forall k :: 0 <= k < |s| ==> s[k] == k
    ensures multiset(s[..n])[v] == if v < n then 1 else 0
  {
    if n > 0 {
      CountOf(s, n - 1, v);
      assert s[..n] == s[..n - 1] + [s[n - 1]];
    }
  }

  lemma IdentityIsPermutation(s: seq<Byte>)
    requires |s| == BYTES && forall k :: 0 <= k < |s| ==> s[k] == k
    ensures Permutation(s)
  {
    assert s[..BYTES] == s;
    forall v: Byte ensures multiset(s)[v] == 1 { CountOf(s, BYTES, v); }
  }

  // ----- runs -----

  datatype Op = Seed(dat: seq<Byte>) | Draw

  /** The state after any steps of seeding and output, in any order. */
  function After(st: Stream, ops: seq<Op>): (r: Stream)
    requires |st.s| == BYTES && forall op :: op in ops ==> op.Seed? ==> op.dat != []
    ensures |r.s| == BYTES
  {
    if ops == [] then st
    else
      var before := After(st, ops[..|ops| - 1]);
      match ops[|ops| - 1]
      case Seed(dat) => Seeded(before, dat)
      case Draw => Mix(before, 0)
  }

  /** The state is a permutation for ever. */
  lemma {:induction false} AlwaysAPermutation(st: Stream, ops: seq<Op>)
    requires Permutation(st.s) && forall op :: op in ops ==> op.Seed? ==> op.dat != []
    ensures Permutation(After(st, ops).s)
  {
    hide Mix, Mixed;
    if ops != [] {
      var before := After(st, ops[..|ops| - 1]);
      AlwaysAPermutation(st, ops[..|ops| - 1]);
      match ops[|ops| - 1]
      case Seed(dat) => MixedKeeps(before.(i := (before.i + BYTES - 1) % BYTES), dat, BYTES);
      case Draw => MixKeeps(before, 0);
    }
  }

  /** Seeding leaves both indices just before where the first began. */
  lemma SeededIndices(st: Stream, dat: seq<Byte>)
    requires |st.s| == BYTES && dat != []
    ensures Seeded(st, dat).i == Seeded(st, dat).j == (st.i + BYTES - 1) % BYTES
  {
    MixedKeeps(st.(i := (st.i + BYTES - 1) % BYTES), dat, BYTES);
  }
}
