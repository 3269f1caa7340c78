/**
 When a periodic watcher is next due (ev.c: periodic_recalc), in exact arithmetic.
*/
module PeriodicTimes {
  import opened Wrappers

  /** 1/8192 */
  const MIN_INTERVAL: real := 0.0001220703125

  /** What ev_periodic_set fixes: an offset and interval, or a callback that tells the next time. */
  datatype Spec = Spec(offset: real, interval: real, reschedule: Option<real -> real>)

  /** The last of the times `offset + k * interval` that is not after `now`. */
  function LastUntil(offset: real, interval: real, now: real): real
    requires interval > 0.0
  {
    offset + interval * ((now - offset) / interval).Floor as real
  }

  /** Where periodic_recalc begins. */
  function StartAt(sp: Spec, now: real): real {
    LastUntil(sp.offset, if sp.interval > MIN_INTERVAL then sp.interval else MIN_INTERVAL, now)
  }

  /** Where `k` further intervals lead. */
  function Later(t: real, sp: Spec, k: int): real {
    t + k as real * sp.interval
  }

  lemma LaterTwice(t: real, sp: Spec, a: int, b: int)
    ensures Later(Later(t, sp, a), sp, b) == Later(t, sp, a + b)
  {
    assert (a + b) as real == a as real + b as real;
  }

  lemma LaterOrder(t: real, sp: Spec, a: int, b: int)
    requires sp.interval > 0.0
    ensures Later(t, sp, a) < Later(t, sp, b) <==> a < b
  {
    if a < b {
      assert (b - a) as real >= 1.0 && (b - a) as real * sp.interval >= sp.interval;
      LaterTwice(t, sp, a, b - a);
    } else {
      assert (a - b) as real >= 0.0 && (a - b) as real * sp.interval >= 0.0;
      LaterTwice(t, sp, b, a - b);
    }
  }

  lemma FloorBounds(sp: Spec, now: real)
    ensures StartAt(sp, now) <= now
    ensures sp.interval >= MIN_INTERVAL ==> now < StartAt(sp, now) + sp.interval
  {
    hide LastUntil;
    LastUntilBounds(sp.offset, if sp.interval > MIN_INTERVAL then sp.interval else MIN_INTERVAL, now);
  }

  lemma LastUntilBounds(offset: real, interval: real, now: real)
    requires interval > 0.0
    ensures LastUntil(offset, interval, now) <= now < LastUntil(offset, interval, now) + interval
  {
    FloorTimes(now - offset, interval);
  }

  lemma EitherWay(x: real, y: real)
    ensures x * y == y * x
  {
  }

  lemma FloorTimes(x: real, y: real)
    requires y > 0.0
    ensures y * (x / y).Floor as real <= x < y * (x / y).Floor as real + y
  {
    var q := (x / y).Floor as real;
    QuotientBelow(x, y, q + 1.0);
    QuotientAtLeast(x, y, q);
    OneMoreTime(q, y);
    EitherWay(q, y);
  }

  lemma QuotientBelow(x: real, y: real, q: real)
    requires y > 0.0 && x / y < q
    ensures x < q * y
  {
  }

  lemma QuotientAtLeast(x: real, y: real, q: real)
    requires y > 0.0 && x / y >= q
    ensures x >= q * y
  {
  }

  lemma OneMoreTime(q: real, y: real)
    ensures (q + 1.0) * y == q * y + y
  {
  }

  /** periodic_recalc finds the first time after `now` that is some intervals after its start. */
  ghost predicate Recalculated(sp: Spec, now: real, at: real) {
    at - sp.interval <= now < at && exists k: nat :: at == Later(StartAt(sp, now), sp, k)
  }

  /** periodic_recalc. */
  method PeriodicRecalc(sp: Spec, now: real) returns (at: real)
    requires sp.interval > 0.0
    ensures Recalculated(sp, now, at)
  {
    at := StartAt(sp, now);
    ghost var k: nat := 0;
    FloorBounds(sp, now);
    while at <= now
      invariant at == Later(StartAt(sp, now), sp, k) && at - sp.interval <= now
      decreases Steps(sp, now, at)
    {
      var next := at + sp.interval;
      // in exact arithmetic an interval always makes a difference
      FewerSteps(sp, now, at);
      LaterTwice(StartAt(sp, now), sp, k, 1);
      at, k := next, k + 1;
    }
  }

  /** How many intervals fit between `at` and `now`. */
  ghost function Steps(sp: Spec, now: real, at: real): nat
    requires sp.interval > 0.0
  {
    if at > now then 0 else
      assert (now - at) / sp.interval >= 0.0;
      ((now - at) / sp.interval).Floor + 1
  }

  lemma FewerSteps(sp: Spec, now: real, at: real)
    requires sp.interval > 0.0 && at <= now
    ensures Steps(sp, now, at + sp.interval) < Steps(sp, now, at)
  {
    assert (now - at) / sp.interval >= 0.0;
    var q := (now - at) / sp.interval;
    assert q * sp.interval == now - at;
    assert (q - 1.0) * sp.interval == q * sp.interval - sp.interval;
    QuotientIs(now - (at + sp.interval), sp.interval, q - 1.0);
  }

  lemma QuotientIs(x: real, y: real, q: real)
    requires y > 0.0 && x == q * y
    ensures x / y == q
  {
    var p := x / y;
    assert p * y == q * y;
    assert (p - q) * y == 0.0;
  }

  // ----- what it finds -----

  /** A time of the watcher: a whole number of intervals from its offset. */
  ghost predicate OnGrid(sp: Spec, t: real) {
    exists k: int :: t == Later(sp.offset, sp, k)
  }

  /** `at` is the least time of the watcher after `now`. */
  ghost predicate IsNext(sp: Spec, now: real, at: real) {
    && OnGrid(sp, at) && now < at
    && forall k: int :: now < Later(sp.offset, sp, k) ==> at <= Later(sp.offset, sp, k)
  }

  /** periodic_recalc finds the next time of the watcher if and only if it begins at one. */
  lemma NextIffStartOnGrid(sp: Spec, now: real, at: real)
    requires sp.interval > 0.0 && Recalculated(sp, now, at)
    ensures IsNext(sp, now, at) <==> OnGrid(sp, StartAt(sp, now))
  {
    var start := StartAt(sp, now);
    var n: nat :| at == Later(start, sp, n);
    if OnGrid(sp, start) {
      var m :| start == Later(sp.offset, sp, m);
      LaterTwice(sp.offset, sp, m, n);
      LaterTwice(sp.offset, sp, m + n, -1);
      assert at - sp.interval == Later(sp.offset, sp, m + n - 1);
      forall k: int | now < Later(sp.offset, sp, k) ensures at <= Later(sp.offset, sp, k) {
        LaterOrder(sp.offset, sp, m + n - 1, k);
        LaterOrder(sp.offset, sp, k, m + n);
      }
    }
    if OnGrid(sp, at) {
      var m :| at == Later(sp.offset, sp, m);
      var back: int := 0 - n;
      LaterTwice(sp.offset, sp, m, back);
      LaterTwice(start, sp, n, back);
      assert start == Later(sp.offset, sp, m + back);
    }
  }

  /** It always does for intervals that are not below MIN_INTERVAL. */
  lemma NextForCoarse(sp: Spec, now: real, at: real)
    requires sp.interval >= MIN_INTERVAL && Recalculated(sp, now, at)
    ensures IsNext(sp, now, at)
  {
    var k := ((now - sp.offset) / sp.interval).Floor;
    assert StartAt(sp, now) == sp.offset + sp.interval * k as real;
    assert StartAt(sp, now) == Later(sp.offset, sp, k);
    NextIffStartOnGrid(sp, now, at);
  }

  /** But not for all shorter ones: here `t + 0.0002` comes before what periodic_recalc finds, at any offset `t`. */
  lemma NotForAllFine(t: real)
    ensures var sp, now, found := Spec(t, 0.0001, None), t + MIN_INTERVAL, t + 0.0002220703125;
            && Recalculated(sp, now, found) && !IsNext(sp, now, found)
            && now < Later(sp.offset, sp, 2) == t + 0.0002 < found
  {
    var sp, now := Spec(t, 0.0001, None), t + MIN_INTERVAL;
    assert now - sp.offset == MIN_INTERVAL && (MIN_INTERVAL / MIN_INTERVAL).Floor == 1;
    assert StartAt(sp, now) == now;
    assert t + 0.0002220703125 == Later(StartAt(sp, now), sp, 1);
    assert Later(sp.offset, sp, 2) == t + 0.0002;
  }
}
