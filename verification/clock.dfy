/**
 The fixed-tick clock of `GameWorld`: a microsecond accumulator
 (`virtual_time`) and the number of the last tick already simulated
 (`last_tick`, a `u32`). Each frame adds the elapsed wall-clock time and runs
 as many ticks as the accumulator has crossed since the previous frame.
 */
module Clock {
  import opened Base

  const MICROS_PER_SECOND: nat := 1_000_000
  const TICKS_PER_SECOND: nat := 30

  /** Integer division, so a tick is 33333 µs and there are slightly more than 30 ticks a second. */
  const MICROS_PER_TICK: nat := MICROS_PER_SECOND / TICKS_PER_SECOND

  /**
   The longest single frame for which the tick count cannot wrap: just
   under `u32::MAX` ticks, about four and a half years.
   */
  const MAX_ELAPSED: nat := (U32_LIMIT - 1) * MICROS_PER_TICK

  datatype Clock = Clock(virtualTime: nat, lastTick: nat)

  lemma MicrosPerTickValue()
    ensures MICROS_PER_TICK == 33333
    ensures MICROS_PER_TICK * TICKS_PER_SECOND < MICROS_PER_SECOND
  {
  }

  /** The clock of `GameWorld::new`. */
  function NewClock(): (c: Clock)
    ensures Synced(c) && c.virtualTime == 0
  {
    Clock(0, 0)
  }

  /** `(virtual_time / MICROS_PER_TICK) as u32`: the cast keeps the low 32 bits. */
  function TickOf(vt: nat): (t: nat)
    ensures t < U32_LIMIT
    ensures vt / MICROS_PER_TICK < U32_LIMIT ==> t == vt / MICROS_PER_TICK
  {
    (vt / MICROS_PER_TICK) % U32_LIMIT
  }

  /** `last_tick` names the tick the accumulator is in. */
  predicate Synced(c: Clock) {
    c.lastTick == TickOf(c.virtualTime)
  }

  /**
   `update_time`: add the elapsed microseconds and return the number of
   ticks to run, `tick - last_tick` in `u32` arithmetic (wrapping, as a
   release build does; a debug build panics where it would wrap). The
   clock is synced afterwards whatever it was before, and a synced clock
   runs exactly the number of tick boundaries crossed, provided the frame
   is shorter than `MAX_ELAPSED`.
   */
  function UpdateTime(c: Clock, elapsed: nat): (r: (Clock, nat))
    ensures r.0.virtualTime == c.virtualTime + elapsed && Synced(r.0)
    ensures r.1 < U32_LIMIT
    ensures Synced(c) && elapsed < MAX_ELAPSED ==>
              r.1 == r.0.virtualTime / MICROS_PER_TICK - c.virtualTime / MICROS_PER_TICK
  {
    var vt := c.virtualTime + elapsed;
    var tick := TickOf(vt);
    var numTick := (tick - c.lastTick) % U32_LIMIT;
    if Synced(c) && elapsed < MAX_ELAPSED then
      CrossedBound(c.virtualTime, elapsed);
      WrappingSub(vt / MICROS_PER_TICK, c.virtualTime / MICROS_PER_TICK);
      (Clock(vt, tick), numTick)
    else
      (Clock(vt, tick), numTick)
  }

  /** A frame shorter than `MAX_ELAPSED` crosses fewer than `u32::MAX + 1` tick boundaries. */
  lemma CrossedBound(vt: nat, elapsed: nat)
    requires elapsed < MAX_ELAPSED
    ensures vt / MICROS_PER_TICK <= (vt + elapsed) / MICROS_PER_TICK
    ensures (vt + elapsed) / MICROS_PER_TICK - vt / MICROS_PER_TICK < U32_LIMIT
  {
    DivShift(vt, elapsed, MICROS_PER_TICK, U32_LIMIT - 1);
  }

  /** Adding less than `k` units of `m` raises the quotient by `m` by at most `k`. */
  lemma DivShift(a: nat, e: nat, m: nat, k: nat)
    requires 0 < m && e < k * m
    ensures a / m <= (a + e) / m <= a / m + k
  {
    QuotientBound(e, m, k);
    QuotientOfSum(a, e, m);
  }

  lemma QuotientBound(e: nat, m: nat, k: nat)
    requires 0 < m && e < k * m
    ensures e / m < k
  {
    var j := e / m;
    assert e == j * m + e % m;
    if j >= k {
      MulMono(k, j, m);
    }
  }

  /** The quotient of a sum, with the carry out of the remainders. */
  lemma QuotientOfSum(a: nat, e: nat, m: nat)
    requires 0 < m
    ensures (a + e) / m == a / m + e / m + (if a % m + e % m < m then 0 else 1)
  {
    var q, r := a / m, a % m;
    var j, s := e / m, e % m;
    assert a == q * m + r && e == j * m + s;
    if r + s < m {
      MulAdd(q, j, m);
      DivModUnique(a + e, m, q + j, r + s);
    } else {
      MulAdd(q, j + 1, m);
      DivModUnique(a + e, m, q + j + 1, r + s - m);
    }
  }

  /**
   Subtracting the low 32 bits of `b` from those of `a` with wrap-around
   gives `a - b` when that difference fits in 32 bits.
   */
  lemma WrappingSub(a: nat, b: nat)
    requires b <= a && a - b < U32_LIMIT
    ensures (a % U32_LIMIT - b % U32_LIMIT) % U32_LIMIT == a - b
  {
    var qb, rb := b / U32_LIMIT, b % U32_LIMIT;
    var d := a - b;
    if rb + d < U32_LIMIT {
      DivModUnique(a, U32_LIMIT, qb, rb + d);
      DivModUnique(d, U32_LIMIT, 0, d);
    } else {
      DivModUnique(a, U32_LIMIT, qb + 1, rb + d - U32_LIMIT);
      assert (d - U32_LIMIT) % U32_LIMIT == d;
    }
  }

  /** Sum of the elapsed times of a run of frames. */
  function Sum(es: seq<nat>): nat
    decreases |es|
  {
    if |es| == 0 then 0 else Sum(es[..|es| - 1]) + es[|es| - 1]
  }

  /** A run of frames: the final clock and the total number of ticks run. */
  function RunFrames(c: Clock, es: seq<nat>): (r: (Clock, nat))
    decreases |es|
  {
    if |es| == 0 then (c, 0)
    else
      var (c1, total) := RunFrames(c, es[..|es| - 1]);
      var (c2, n) := UpdateTime(c1, es[|es| - 1]);
      (c2, total + n)
  }

  /**
   Ticks never get lost or duplicated across frames: however the time is
   split into frames, a synced clock runs exactly as many ticks as tick
   boundaries the accumulated time crosses.
   */
  lemma {:induction false} RunFramesTotal(c: Clock, es: seq<nat>)
    requires Synced(c)
    requires forall i :: 0 <= i < |es| ==> es[i] < MAX_ELAPSED
    ensures RunFrames(c, es).0.virtualTime == c.virtualTime + Sum(es)
    ensures Synced(RunFrames(c, es).0)
    ensures RunFrames(c, es).1
            == (c.virtualTime + Sum(es)) / MICROS_PER_TICK - c.virtualTime / MICROS_PER_TICK
    decreases |es|
  {
    if |es| > 0 {
      var es' := es[..|es| - 1];
      RunFramesTotal(c, es');
      var (c1, total) := RunFrames(c, es');
      assert es[|es| - 1] < MAX_ELAPSED;
      var (c2, n) := UpdateTime(c1, es[|es| - 1]);
      assert n == c2.virtualTime / MICROS_PER_TICK - c1.virtualTime / MICROS_PER_TICK;
    }
  }

  /** From a fresh clock the total is `floor(Σ elapsed / 33333)`. */
  lemma FreshClockTotal(es: seq<nat>)
    requires forall i :: 0 <= i < |es| ==> es[i] < MAX_ELAPSED
    ensures RunFrames(NewClock(), es).1 == Sum(es) / 33333
  {
    RunFramesTotal(NewClock(), es);
  }

  /**
   `get_interp`: how far the accumulator is into the current tick, as a
   fraction of a tick. It lies in `[0, 1)` and is the fractional part of the
   elapsed time measured in ticks.
   */
  function Interp(c: Clock): (r: real)
    ensures 0.0 <= r < 1.0
    ensures (c.virtualTime / MICROS_PER_TICK) as real + r
            == c.virtualTime as real / MICROS_PER_TICK as real
  {
    var rem := c.virtualTime % MICROS_PER_TICK;
    var m := MICROS_PER_TICK as real;
    var q := c.virtualTime / MICROS_PER_TICK;
    assert c.virtualTime == q * MICROS_PER_TICK + rem;
    assert q as real * m + rem as real == c.virtualTime as real;
    FractionOf(q as real, rem as real, m);
    rem as real / m
  }

  /** Dividing `q * m + rem` by `m` leaves `q` and the fraction `rem / m`. */
  lemma FractionOf(q: real, rem: real, m: real)
    requires 0.0 < m && 0.0 <= rem < m
    ensures 0.0 <= rem / m < 1.0
    ensures q + rem / m == (q * m + rem) / m
  {
    var f := rem / m;
    var t := (q * m + rem) / m;
    assert f * m == rem;
    UnitBounds(f, m, rem);
    assert t * m == (q + f) * m;
    ScaleCancel(t, q + f, m);
  }

  lemma UnitBounds(f: real, m: real, p: real)
    requires 0.0 < m && f * m == p && 0.0 <= p < m
    ensures 0.0 <= f < 1.0
  {
  }

  lemma ScaleCancel(a: real, b: real, c: real)
    requires 0.0 < c && a * c == b * c
    ensures a == b
  {
  }
}
