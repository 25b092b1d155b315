/**
 Reproducible randomness: a 64-bit hash of `(seed, value)` is mapped onto an
 integer range, and `get_sequence` hands out a fresh `value` for every draw.
 The hash itself (`DefaultHasher`) is not modelled: callers pass its 64-bit
 output.
 */
module Rng {
  import opened Base

  const U64_LIMIT: nat := 0x1_0000_0000_0000_0000

  /**
   `hash_rand_u32` on a hash value `h`: the hash is truncated to `u32`; an
   empty range yields `start`; otherwise `start + v % (end - start)` in `u32`
   arithmetic (wrapping, as a release build does). For `start < end` the
   result lies in `[start, end)`; for `end < start`, where a debug build
   panics, the subtraction wraps and the result lies in the wrapped-around
   range `[start, u32::MAX] ∪ [0, end)`.
   */
  function HashRandU32(h: nat, start: nat, end: nat): (r: nat)
    requires h < U64_LIMIT && start < U32_LIMIT && end < U32_LIMIT
    ensures r < U32_LIMIT
    ensures start == end ==> r == start
    ensures start < end ==> start <= r < end
    ensures end < start ==> start <= r || r < end
  {
    var v := h % U32_LIMIT;
    if end == start then start
    else
      var n := (end - start) % U32_LIMIT;
      WrappedSpan(start, end, n);
      (start + v % n) % U32_LIMIT
  }

  /** The `u32` width of the range `start..end`, wrapping when `end < start`. */
  lemma WrappedSpan(start: nat, end: nat, n: int)
    requires start < U32_LIMIT && end < U32_LIMIT && start != end
    requires n == (end - start) % U32_LIMIT
    ensures 0 < n && (start < end ==> n == end - start) && (end < start ==> n == end + U32_LIMIT - start)
  {
    if start < end {
      DivModUnique(end - start, U32_LIMIT, 0, end - start);
    } else {
      var m := end + U32_LIMIT - start;
      assert end - start == -1 * U32_LIMIT + m;
    }
  }

  /** Every value of a non-empty range is drawn for some hash value. */
  lemma HashRandU32Onto(start: nat, end: nat, r: nat)
    requires start <= r < end < U32_LIMIT
    ensures HashRandU32(r - start, start, end) == r
  {
    var v, n := r - start, end - start;
    DivModUnique(v, U32_LIMIT, 0, v);
    DivModUnique(n, U32_LIMIT, 0, n);
    DivModUnique(v, n, 0, v);
    DivModUnique(r, U32_LIMIT, 0, r);
  }

  /** The six asteroid shapes of `Resources`, in the order `new_asteroid` numbers them. */
  datatype AsteroidShape = SmallAsteroid1 | SmallAsteroid2 | MediumAsteroid1 | MediumAsteroid2 | LargeAsteroid1 | LargeAsteroid2

  /** The `match asteroid_num` of `new_asteroid`; `None` is its `panic!` arm. */
  function AsteroidShapeOf(num: nat): (r: Option<AsteroidShape>)
    ensures r.None? <==> 6 <= num
  {
    match num
    case 0 => Some(SmallAsteroid1)
    case 1 => Some(SmallAsteroid2)
    case 2 => Some(MediumAsteroid1)
    case 3 => Some(MediumAsteroid2)
    case 4 => Some(LargeAsteroid1)
    case 5 => Some(LargeAsteroid2)
    case _ => None
  }

  /**
   `(0..6).hash_rand(..)` never reaches the `panic!` arm of `new_asteroid`,
   and every shape is chosen for some hash value.
   */
  lemma AsteroidChoiceNeverPanics(h: nat, shape: AsteroidShape)
    requires h < U64_LIMIT
    ensures AsteroidShapeOf(HashRandU32(h, 0, 6)).Some?
    ensures exists h': nat :: h' < 6 && AsteroidShapeOf(HashRandU32(h', 0, 6)) == Some(shape)
  {
    var k := match shape
      case SmallAsteroid1 => 0
      case SmallAsteroid2 => 1
      case MediumAsteroid1 => 2
      case MediumAsteroid2 => 3
      case LargeAsteroid1 => 4
      case LargeAsteroid2 => 5;
    HashRandU32Onto(0, 6, k);
  }

  /**
   `get_sequence`: increment the `u32` counter (wrapping) and return the new
   value, so the first value handed out is 1.
   */
  function GetSequence(sequence: nat): (r: (nat, nat))
    requires sequence < U32_LIMIT
    ensures r.0 == r.1 < U32_LIMIT
    ensures sequence < U32_MAX ==> r.1 == sequence + 1
  {
    var next := (sequence + 1) % U32_LIMIT;
    (next, next)
  }

  /** The values returned by `k` successive `get_sequence` calls. */
  function Draws(sequence: nat, k: nat): (r: (nat, seq<nat>))
    requires sequence < U32_LIMIT
    ensures r.0 < U32_LIMIT && |r.1| == k
    decreases k
  {
    if k == 0 then (sequence, [])
    else
      var (s1, vs) := Draws(sequence, k - 1);
      var (s2, v) := GetSequence(s1);
      (s2, vs + [v])
  }

  /**
   Until the counter wraps, successive draws are `sequence + 1`,
   `sequence + 2`, ...: strictly increasing, so no two draws feed the same
   value to the hash.
   */
  lemma {:induction false} DrawsIncrease(sequence: nat, k: nat)
    requires sequence + k < U32_LIMIT
    ensures Draws(sequence, k).0 == sequence + k
    ensures forall i :: 0 <= i < k ==> Draws(sequence, k).1[i] == sequence + 1 + i
    decreases k
  {
    if k > 0 {
      DrawsIncrease(sequence, k - 1);
    }
  }

  /** The value of draw `j` (counting from 0) after the counter stood at `sequence`. */
  function NthDraw(sequence: nat, j: nat): nat {
    (sequence + 1 + j) % U32_LIMIT
  }

  /** One more `get_sequence` call hands out the next draw. */
  lemma NthDrawStep(sequence: nat, j: nat)
    requires sequence < U32_LIMIT
    ensures GetSequence(sequence).1 == NthDraw(sequence, 0)
    ensures GetSequence(NthDraw(sequence, j)).1 == NthDraw(sequence, j + 1)
  {
    var a := sequence + 1 + j;
    var q, r := a / U32_LIMIT, a % U32_LIMIT;
    if r + 1 < U32_LIMIT {
      DivModUnique(a + 1, U32_LIMIT, q, r + 1);
    } else {
      DivModUnique(a + 1, U32_LIMIT, q + 1, 0);
    }
  }

  /**
   With wrap-around taken into account, `k` calls of `get_sequence` hand out
   `sequence + 1`, `sequence + 2`, ... modulo `2^32` and leave the counter at
   `sequence + k` modulo `2^32`.
   */
  lemma {:induction false} DrawsWrap(sequence: nat, k: nat)
    requires sequence < U32_LIMIT
    ensures 0 < k ==> Draws(sequence, k).0 == NthDraw(sequence, k - 1)
    ensures forall i :: 0 <= i < k ==> Draws(sequence, k).1[i] == NthDraw(sequence, i)
    decreases k
  {
    if k == 1 {
      NthDrawStep(sequence, 0);
    } else if k > 1 {
      DrawsWrap(sequence, k - 1);
      NthDrawStep(sequence, k - 2);
    }
  }

  /** Strict increase of the draws, stated pairwise. */
  lemma DrawsDistinct(sequence: nat, k: nat, i: nat, j: nat)
    requires sequence + k < U32_LIMIT && i < j < k
    ensures Draws(sequence, k).1[i] < Draws(sequence, k).1[j]
  {
    DrawsIncrease(sequence, k);
  }
}
