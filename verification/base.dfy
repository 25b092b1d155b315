/**
 Shared vocabulary of the simulation model: optional values, the 2D vector of
 real coordinates standing in for `Vec2`, and the fixed-width integer facts the
 Rust source relies on (`u32::MAX` as a sentinel, `f64 as u32` casts).
 */
module Base {

  /** The conventional Some/None datatype, standing in for Rust's `Option`. */
  datatype Option<+T> = None | Some(value: T)

  /** The largest `u32`; `SpatialId::new()` uses it as the "no cell" sentinel. */
  const U32_MAX: nat := 0xFFFF_FFFF

  /** Number of distinct `u32` values. */
  const U32_LIMIT: nat := 0x1_0000_0000

  /** A position or velocity; floating-point coordinates are modelled as exact reals. */
  datatype Vec2 = Vec2(x: real, y: real)
  {
    function Add(o: Vec2): Vec2 {
      Vec2(x + o.x, y + o.y)
    }
  }

  /**
   Rust's `f64 as u32`: a saturating cast that truncates toward zero, maps
   every non-positive value to 0 and every value beyond the range to `u32::MAX`.
   (NaN, which also maps to 0, has no counterpart among the reals.)
   */
  function AsU32(v: real): (r: nat)
    ensures r <= U32_MAX
    ensures v <= 0.0 ==> r == 0
    ensures 0.0 <= v < U32_MAX as real ==> r as real <= v < r as real + 1.0
    ensures U32_MAX as real <= v ==> r == U32_MAX
  {
    if v <= 0.0 then 0
    else if v >= U32_MAX as real then U32_MAX
    else v.Floor
  }

  function Min(a: nat, b: nat): nat {
    if a <= b then a else b
  }

  function Max(a: real, b: real): real {
    if a >= b then a else b
  }

  function MinReal(a: real, b: real): real {
    if a <= b then a else b
  }

  /** `u32::saturating_sub` (and `u64::saturating_sub`) on naturals. */
  function SaturatingSub(a: nat, b: nat): (r: nat)
    ensures a >= b ==> r + b == a
    ensures a < b ==> r == 0
  {
    if a >= b then a - b else 0
  }

  /** Multiplication by a natural is monotone. */
  lemma MulMono(a: nat, b: nat, d: nat)
    requires a <= b
    ensures a * d <= b * d
  {
  }

  /** Multiplication distributes over a sum. */
  lemma MulAdd(a: nat, b: nat, m: nat)
    ensures (a + b) * m == a * m + b * m
  {
  }

  /** Euclidean division is determined by any quotient/remainder decomposition. */
  lemma DivModUnique(n: nat, d: nat, q: nat, r: nat)
    requires 0 < d && r < d && n == q * d + r
    ensures n / d == q && n % d == r
  {
    var q' := n / d;
    var r' := n % d;
    assert n == q' * d + r';
    if q' < q {
      MulMono(q' + 1, q, d);
      assert false;
    } else if q' > q {
      MulMono(q + 1, q', d);
      assert false;
    }
  }

  /** Number of occurrences of `x` in `s`. */
  function Count<T(==)>(s: seq<T>, x: T): nat
    decreases |s|
  {
    if |s| == 0 then 0
    else Count(s[..|s| - 1], x) + (if s[|s| - 1] == x then 1 else 0)
  }

  /** Counting an element of a concatenation counts it in each part. */
  lemma {:induction false} CountConcat<T>(a: seq<T>, b: seq<T>, x: T)
    ensures Count(a + b, x) == Count(a, x) + Count(b, x)
    decreases |b|
  {
    if |b| > 0 {
      CountConcat(a, b[..|b| - 1], x);
      assert (a + b)[..|a + b| - 1] == a + b[..|b| - 1];
    } else {
      assert a + b == a;
    }
  }

  /** `Count` is the multiplicity in the multiset of the sequence. */
  lemma {:induction false} CountIsMultiplicity<T>(s: seq<T>, x: T)
    ensures Count(s, x) == multiset(s)[x]
    decreases |s|
  {
    if |s| > 0 {
      CountIsMultiplicity(s[..|s| - 1], x);
      assert s == s[..|s| - 1] + [s[|s| - 1]];
    }
  }

  /**
   The concatenation `f(lo) + f(lo + 1) + ... + f(hi - 1)`: the output of a
   loop over `lo..hi` whose iteration `i` emits `f(i)`.
   */
  function Concat<T>(f: nat -> seq<T>, lo: nat, hi: nat): seq<T>
    decreases hi
  {
    if hi <= lo then [] else Concat(f, lo, hi - 1) + f(hi - 1)
  }

  /**
   If only iteration `k` emits `x`, and does so `m` times, then the whole
   loop emits `x` exactly `m` times when `k` is in range, and never otherwise.
   */
  lemma {:induction false} ConcatCount<T>(f: nat -> seq<T>, lo: nat, hi: nat, x: T, k: nat, m: nat)
    requires forall i: nat :: lo <= i < hi ==> Count(f(i), x) == (if i == k then m else 0)
    ensures Count(Concat(f, lo, hi), x) == if lo <= k < hi then m else 0
    decreases hi
  {
    if hi > lo {
      ConcatCount(f, lo, hi - 1, x, k, m);
      CountConcat(Concat(f, lo, hi - 1), f(hi - 1), x);
    }
  }

  lemma AppendAssoc<T>(a: seq<T>, b: seq<T>, c: seq<T>)
    ensures (a + b) + c == a + (b + c)
  {
  }
}
