/**
 arc4random_uniform (arc4random.c): numbers below a bound, drawn without bias from 32-bit numbers.
*/
module Arc4Uniform {
  const TWO32: nat := 0x1_0000_0000

  type Word = x: nat | x < TWO32

  /** Unsigned arithmetic is modulo 2^32. */
  function U32(x: int): Word { x % TWO32 }

  /** min, where unsigned int is wider than 32 bits. */
  function MinWide(upper_bound: Word): nat
    requires upper_bound >= 2
  {
    TWO32 % upper_bound
  }

  /** min, where it is not: the two branches that avoid 64-bit arithmetic. */
  function MinNarrow(upper_bound: Word): nat
    requires upper_bound >= 2
  {
    if upper_bound > 0x8000_0000 then U32(1 + (0xffff_ffff - upper_bound))
    else U32(U32(0xffff_ffff - U32(upper_bound * 2)) + 1) % upper_bound
  }

  lemma ModTwice(x: nat, m: nat)
    requires m > 0 && 2 * m <= x
    ensures (x - 2 * m) % m == x % m
  {
    ModPlus(x - 2 * m, m);
    assert m + (x - 2 * m) == x - m && m + (x - m) == x;
    ModPlus(x - m, m);
  }

  lemma ModPlus(y: nat, m: nat)
    requires m > 0
    ensures (m + y) % m == y % m && (m + y) / m == 1 + y / m
  {
    var q, r := y / m, y % m;
    assert m + y == m * (q + 1) + r;
    ModIs(m + y, m, q + 1, r);
  }

  lemma ModIs(x: nat, m: nat, q: nat, r: nat)
    requires m > 0 && r < m && x == m * q + r
    ensures x % m == r && x / m == q
  {
    var q' := x / m;
    assert x == m * q' + x % m;
    if q' > q {
      AtLeast(m, q, q');
    } else if q' < q {
      AtLeast(m, q', q);
    }
  }

  lemma AtLeast(m: nat, a: nat, b: nat)
    requires m > 0 && a < b
    ensures m * a + m <= m * b
    decreases b
  {
    assert m * b == m * (b - 1) + m;
    if a + 1 < b { AtLeast(m, a, b - 1); }
  }

  lemma Divided(x: nat, m: nat)
    requires m > 0
    ensures x == m * (x / m) + x % m
  {
  }

  /** Every way to compute min gives 2^32 modulo the bound. */
  lemma MinIsRemainder(upper_bound: Word)
    requires upper_bound >= 2
    ensures MinNarrow(upper_bound) == MinWide(upper_bound) == TWO32 % upper_bound < upper_bound
  {
    if upper_bound > 0x8000_0000 {
      InWord(TWO32 - upper_bound);
      ModIs(TWO32, upper_bound, 1, TWO32 - upper_bound);
    } else if upper_bound == 0x8000_0000 {
      ModIs(TWO32, upper_bound, 2, 0);
      ModIs(0, upper_bound, 0, 0);
    } else {
      InWord(upper_bound * 2);
      InWord(0xffff_ffff - upper_bound * 2);
      InWord(TWO32 - upper_bound * 2);
      ModTwice(TWO32, upper_bound);
    }
  }

  lemma InWord(x: nat)
    requires x < TWO32
    ensures U32(x) == x
  {
  }

  /** arc4random_uniform, on the numbers that arc4random gives one after the other; None if they all have to be drawn again. */
  method Uniform(upper_bound: Word, draws: seq<Word>) returns (r: int, used: nat)
    ensures upper_bound < 2 ==> r == 0 && used == 0
    ensures upper_bound >= 2 ==>
              && used <= |draws| && (forall k :: 0 <= k < used - 1 ==> draws[k] < TWO32 % upper_bound)
              && (r >= 0 ==> 0 < used && draws[used - 1] >= TWO32 % upper_bound && r == draws[used - 1] % upper_bound)
              && (r < 0 ==> used == |draws| && forall k :: 0 <= k < used ==> draws[k] < TWO32 % upper_bound)
  {
    r, used := -1, 0;
    if upper_bound < 2 { return 0, 0; }
    MinIsRemainder(upper_bound);
    var min := MinNarrow(upper_bound);
    while used < |draws|
      invariant used <= |draws| && forall k :: 0 <= k < used ==> draws[k] < min
    {
      used := used + 1;
      if draws[used - 1] >= min {
        return draws[used - 1] % upper_bound, used;
      }
    }
  }

  // ----- no bias -----

  /** How many of the numbers from `lo` to below `hi` give the result `v`. */
  function Count(lo: nat, hi: nat, upper_bound: nat, v: nat): nat
    requires upper_bound > 0
    decreases hi
  {
    if hi <= lo then 0 else Count(lo, hi - 1, upper_bound, v) + if (hi - 1) % upper_bound == v then 1 else 0
  }

  lemma {:induction false} CountBelow(n: nat, upper_bound: nat, v: nat)
    requires v < upper_bound
    ensures Count(0, n, upper_bound, v) == n / upper_bound + if v < n % upper_bound then 1 else 0
  {
    if n == 0 {
      ModIs(0, upper_bound, 0, 0);
    } else {
      CountBelow(n - 1, upper_bound, v);
      OneMore(n - 1, upper_bound);
    }
  }

  lemma OneMore(n: nat, m: nat)
    requires m > 0
    ensures if n % m + 1 < m then (n + 1) % m == n % m + 1 && (n + 1) / m == n / m
            else n % m == m - 1 && (n + 1) % m == 0 && (n + 1) / m == n / m + 1
  {
    var q, r := n / m, n % m;
    assert n == m * q + r;
    if r + 1 < m {
      ModIs(n + 1, m, q, r + 1);
    } else {
      assert m * (q + 1) == m * q + m;
      ModIs(n + 1, m, q + 1, 0);
    }
  }

  lemma {:induction false} CountSplit(lo: nat, hi: nat, upper_bound: nat, v: nat)
    requires upper_bound > 0 && lo <= hi
    ensures Count(0, hi, upper_bound, v) == Count(0, lo, upper_bound, v) + Count(lo, hi, upper_bound, v)
    decreases hi
  {
    if lo < hi { CountSplit(lo, hi - 1, upper_bound, v); }
  }

  /** Each result below the bound comes from equally many of the accepted numbers. */
  lemma NoBias(upper_bound: Word, v: nat)
    requires 2 <= upper_bound && v < upper_bound
    ensures Count(TWO32 % upper_bound, TWO32, upper_bound, v) == TWO32 / upper_bound > 0
  {
    var min := TWO32 % upper_bound;
    CountSplit(min, TWO32, upper_bound, v);
    CountBelow(TWO32, upper_bound, v);
    CountBelow(min, upper_bound, v);
    ModIs(min, upper_bound, 0, min);
    var q := TWO32 / upper_bound;
    Divided(TWO32, upper_bound);
    assert q == 0 ==> upper_bound * q == 0;
  }

  /** More than half of all numbers are accepted. */
  lemma MostAreAccepted(upper_bound: Word)
    requires 2 <= upper_bound
    ensures 2 * (TWO32 - TWO32 % upper_bound) > TWO32
  {
    MinIsRemainder(upper_bound);
    if upper_bound > 0x8000_0000 {
      ModIs(TWO32, upper_bound, 1, TWO32 - upper_bound);
    }
  }
}
