/**
 The uniform-grid spatial index (`SpatialDb`): a square arena of half-extent
 `extent`, cut into `dim * dim` cells of side `2 * extent / dim`. Cell `x + y * dim`
 holds the ids of the entities whose position falls in it, and every entity
 keeps a back-reference (`SpatialDbRef`) naming its cell, or `u32::MAX` when it
 is in none.
 */
module Spatial {
  import opened Base

  /** The "no cell" value of `SpatialId::new()`. */
  const INVALID: nat := U32_MAX

  /** `SpatialDb`: resolution, half-extent of the arena and the per-cell id lists. */
  datatype Grid = Grid(dim: nat, extent: real, nodes: seq<seq<nat>>)
  {
    /**
     The grid as `SpatialDb::new` builds it: at least one cell per axis, a
     positive arena, one node per cell, and few enough cells that no cell
     index collides with the `u32::MAX` sentinel.
     */
    predicate Valid() {
      && 1 <= dim
      && dim * dim < U32_LIMIT
      && 0.0 < extent
      && |nodes| == dim * dim
    }

    function NodeSize(): real
      requires Valid()
    {
      2.0 * extent / dim as real
    }
  }

  /** `SpatialDb::new(dim, extent)`: every cell empty. */
  function NewGrid(dim: nat, extent: real): (g: Grid)
    requires 1 <= dim && dim * dim < U32_LIMIT && 0.0 < extent
    ensures g.Valid()
    ensures g.dim == dim && g.extent == extent
    ensures forall c :: 0 <= c < |g.nodes| ==> g.nodes[c] == []
  {
    Grid(dim, extent, seq(dim * dim, _ => []))
  }

  /** A back-reference is either the sentinel or the index of an existing cell. */
  predicate ValidRef(g: Grid, r: nat) {
    r == INVALID || r < |g.nodes|
  }

  lemma NodeSizePositive(g: Grid)
    requires g.Valid()
    ensures 0.0 < g.NodeSize()
    ensures g.NodeSize() * g.dim as real == 2.0 * g.extent
  {
  }

  lemma MulStrict(a: real, b: real, c: real)
    requires a < b && 0.0 < c
    ensures a * c < b * c
  {
  }

  lemma MulWeak(a: real, b: real, c: real)
    requires a <= b && 0.0 < c
    ensures a * c <= b * c
  {
  }

  /** Strictly inside the arena the scaled offset stays below `dim`. */
  lemma ScaledOffsetBelowDim(dim: nat, e: real, p: real)
    requires dim >= 1 && 0.0 < e && -e < p < e
    ensures 0.0 < (p + e) / (2.0 * e / dim as real) < dim as real
  {
    var ns := 2.0 * e / dim as real;
    var q := (p + e) / ns;
    assert q * ns == p + e;
    assert dim as real * ns == 2.0 * e;
    if q >= dim as real {
      MulWeak(dim as real, q, ns);
      assert false;
    }
  }

  /**
   One axis of `get_spatial_id`: positions at or beyond the low edge go to
   column 0, at or beyond the high edge to column `dim - 1`, and positions in
   between to the column whose span contains them.
   */
  function Axis(g: Grid, p: real): (r: nat)
    requires g.Valid()
    ensures r < g.dim
    ensures p <= -g.extent ==> r == 0
    ensures g.extent <= p ==> r == g.dim - 1
    ensures -g.extent < p < g.extent ==>
              r as real * g.NodeSize() <= p + g.extent < (r + 1) as real * g.NodeSize()
  {
    if p <= -g.extent then 0
    else if p >= g.extent then g.dim - 1
    else
      var r := AsU32((p + g.extent) / g.NodeSize());
      AxisInside(g, p, r);
      r
  }

  /** Inside the arena the truncated scaled offset is an in-range column whose span holds `p`. */
  lemma AxisInside(g: Grid, p: real, r: nat)
    requires g.Valid() && -g.extent < p < g.extent
    requires r == AsU32((p + g.extent) / g.NodeSize())
    ensures r < g.dim
    ensures r as real * g.NodeSize() <= p + g.extent < (r + 1) as real * g.NodeSize()
  {
    var ns, x := g.NodeSize(), p + g.extent;
    ScaledOffsetBelowDim(g.dim, g.extent, p);
    DimFitsU32(g.dim);
    assert 0.0 < x / ns < g.dim as real <= U32_MAX as real;
    assert r as real <= x / ns < r as real + 1.0;
    assert r < g.dim;
    NodeSizePositive(g);
    SpanOfFloor(x, ns, r);
  }

  /** A value whose quotient by `ns` has floor `r` lies in the `r`-th span of width `ns`. */
  lemma SpanOfFloor(x: real, ns: real, r: nat)
    requires 0.0 < ns && r as real <= x / ns < r as real + 1.0
    ensures r as real * ns <= x < (r + 1) as real * ns
  {
    var q := x / ns;
    DivTimes(x, ns);
    MulWeak(r as real, q, ns);
    assert (r + 1) as real == r as real + 1.0;
    MulStrict(q, (r + 1) as real, ns);
    assert q * ns == x;
    assert q * ns < (r + 1) as real * ns;
  }

  lemma DivTimes(a: real, b: real)
    requires 0.0 < b
    ensures (a / b) * b == a
  {
  }

  lemma DimFitsU32(d: nat)
    requires d * d < U32_LIMIT
    ensures d <= U32_MAX
  {
    if d > U32_MAX {
      MulMono(U32_LIMIT, d, d);
    }
  }

  /**
   Column and row of a cell index, i.e. `c % dim` and `c / dim`
   (see `ColumnRowAreDivMod`), written as repeated subtraction of whole rows.
   */
  function Column(g: Grid, c: nat): nat
    requires g.Valid()
    decreases c
  {
    if c < g.dim then c else Column(g, c - g.dim)
  }

  function Row(g: Grid, c: nat): nat
    requires g.Valid()
    decreases c
  {
    if c < g.dim then 0 else 1 + Row(g, c - g.dim)
  }

  /** `x + y * dim` for a column and a row of the grid. */
  function CellIndex(g: Grid, x: nat, y: nat): (c: nat)
    requires g.Valid() && x < g.dim && y < g.dim
    ensures c < |g.nodes| && c != INVALID
  {
    CellIndexBounds(g, x, y);
    x + y * g.dim
  }

  lemma CellIndexBounds(g: Grid, x: nat, y: nat)
    requires g.Valid() && x < g.dim && y < g.dim
    ensures x + y * g.dim < g.dim * g.dim
  {
    var d := g.dim;
    MulMono(y, d - 1, d);
    assert (d - 1) * d == d * d - d;
  }

  /** The column and row of `x + y * dim` are `x` and `y`. */
  lemma {:induction false} ColumnRowOf(g: Grid, x: nat, y: nat)
    requires g.Valid() && x < g.dim
    ensures Column(g, x + y * g.dim) == x && Row(g, x + y * g.dim) == y
    decreases y
  {
    if y > 0 {
      ColumnRowOf(g, x, y - 1);
      assert x + y * g.dim - g.dim == x + (y - 1) * g.dim;
    }
  }

  /** The column and row of cell `(x, y)` are `x` and `y`. */
  lemma CellIndexCoords(g: Grid, x: nat, y: nat)
    requires g.Valid() && x < g.dim && y < g.dim
    ensures Column(g, CellIndex(g, x, y)) == x && Row(g, CellIndex(g, x, y)) == y
  {
    ColumnRowOf(g, x, y);
  }

  /** Distinct coordinates name distinct cells. */
  lemma CellIndexInjective(g: Grid, x: nat, y: nat, x': nat, y': nat)
    requires g.Valid() && x < g.dim && y < g.dim && x' < g.dim && y' < g.dim
    ensures CellIndex(g, x, y) == CellIndex(g, x', y') <==> x == x' && y == y'
  {
    CellIndexCoords(g, x, y);
    CellIndexCoords(g, x', y');
  }

  /** Every index decomposes into a column below `dim` and a row. */
  lemma {:induction false} ColumnRowDecompose(g: Grid, c: nat)
    requires g.Valid()
    ensures Column(g, c) < g.dim
    ensures c == Column(g, c) + Row(g, c) * g.dim
    decreases c
  {
    if c >= g.dim {
      ColumnRowDecompose(g, c - g.dim);
      assert (Row(g, c - g.dim) + 1) * g.dim == Row(g, c - g.dim) * g.dim + g.dim;
    }
  }

  /** The column and row are the Euclidean remainder and quotient by `dim`. */
  lemma ColumnRowAreDivMod(g: Grid, c: nat)
    requires g.Valid()
    ensures Column(g, c) == c % g.dim && Row(g, c) == c / g.dim
  {
    ColumnRowDecompose(g, c);
    DivModUnique(c, g.dim, Row(g, c), Column(g, c));
  }

  /** Every cell index decomposes into an in-range column and row. */
  lemma ColumnRowBounds(g: Grid, c: nat)
    requires g.Valid() && c < |g.nodes|
    ensures Column(g, c) < g.dim && Row(g, c) < g.dim
    ensures c == Column(g, c) + Row(g, c) * g.dim
  {
    var d := g.dim;
    ColumnRowDecompose(g, c);
    if Row(g, c) >= d {
      MulMono(d, Row(g, c), d);
      assert false;
    }
  }

  /**
   `get_spatial_id`: every position, including positions off the arena, is
   clamped to a cell `x + y * dim` with both coordinates in `[0, dim - 1]`, so
   the index always addresses an existing node and is never the sentinel.
   */
  function CellOf(g: Grid, pos: Vec2): (c: nat)
    requires g.Valid()
    ensures c < |g.nodes| && c < g.dim * g.dim && c != INVALID
    ensures Column(g, c) == Axis(g, pos.x) && Row(g, c) == Axis(g, pos.y)
  {
    CellIndexCoords(g, Axis(g, pos.x), Axis(g, pos.y));
    CellIndex(g, Axis(g, pos.x), Axis(g, pos.y))
  }

  /** Position of the first occurrence of `id` in `s`, or `|s|` when absent. */
  function IndexOf(s: seq<nat>, id: nat): (i: nat)
    ensures i <= |s|
    ensures i < |s| ==> s[i] == id && id !in s[..i]
    ensures i == |s| ==> id !in s
  {
    if |s| == 0 then 0
    else if s[0] == id then 0
    else
      var i := 1 + IndexOf(s[1..], id);
      assert s[1..][..i - 1] == s[1..i];
      assert s[..i] == [s[0]] + s[1..i];
      i
  }

  /** `SmallVec::swap_remove(i)`: the last element takes slot `i`, the length drops by one. */
  function SwapRemoveAt(s: seq<nat>, i: nat): (r: seq<nat>)
    requires i < |s|
    ensures |r| == |s| - 1
    ensures multiset(r) == multiset(s) - multiset{s[i]}
    ensures i < |r| ==> r[i] == s[|s| - 1]
    ensures forall k :: 0 <= k < |r| && k != i ==> r[k] == s[k]
  {
    SwapRemoveMultiset(s, i);
    s[i := s[|s| - 1]][..|s| - 1]
  }

  lemma SwapRemoveMultiset(s: seq<nat>, i: nat)
    requires i < |s|
    ensures multiset(s[i := s[|s| - 1]][..|s| - 1]) == multiset(s) - multiset{s[i]}
  {
    var r := s[i := s[|s| - 1]][..|s| - 1];
    if i == |s| - 1 {
      assert s == r + [s[i]];
    } else {
      assert s == s[..i] + [s[i]] + s[i + 1..|s| - 1] + [s[|s| - 1]];
      assert r == s[..i] + [s[|s| - 1]] + s[i + 1..|s| - 1];
    }
  }

  /** The scan of `remove`: drop the first occurrence of `id`, if any. */
  function RemoveFirst(s: seq<nat>, id: nat): (r: seq<nat>)
    ensures multiset(r) == multiset(s) - multiset{id}
    ensures id in s ==> |r| == |s| - 1
    ensures id !in s ==> r == s
  {
    var i := IndexOf(s, id);
    if i < |s| then SwapRemoveAt(s, i) else s
  }

  /**
   The removal is a swap-remove: the last id moves into the slot of the
   first occurrence of `id` and every other slot keeps its id.
   */
  lemma RemoveFirstSlots(s: seq<nat>, id: nat)
    requires id in s
    ensures forall k :: 0 <= k < |RemoveFirst(s, id)| ==>
              RemoveFirst(s, id)[k] == (if s[k] == id && id !in s[..k] then s[|s| - 1] else s[k])
  {
    FirstOccurrence(s, id, IndexOf(s, id));
  }

  /** Slot `i` holds the first occurrence of `id` and no other slot does. */
  lemma FirstOccurrence(s: seq<nat>, id: nat, i: nat)
    requires i < |s| && s[i] == id && id !in s[..i]
    ensures forall k :: 0 <= k < |s| ==> (s[k] == id && id !in s[..k] <==> k == i)
  {
    forall k | 0 <= k < |s|
      ensures s[k] == id && id !in s[..k] <==> k == i
    {
      if k < i {
        assert s[..i][k] == s[k];
      } else if i < k {
        assert s[..k][i] == id;
      }
    }
  }

  /**
   `SpatialDb::remove`: a sentinel reference leaves everything as it is;
   otherwise one occurrence of `id` leaves the referenced cell and the
   reference becomes the sentinel. No other cell changes.
   */
  function Remove(g: Grid, id: nat, r: nat): (res: (Grid, nat))
    requires g.Valid() && ValidRef(g, r)
    ensures res.0.Valid() && res.0.dim == g.dim && res.0.extent == g.extent
    ensures res.1 == INVALID
    ensures r == INVALID ==> res.0 == g
    ensures r != INVALID ==>
              && multiset(res.0.nodes[r]) == multiset(g.nodes[r]) - multiset{id}
              && res.0.nodes[r] == RemoveFirst(g.nodes[r], id)
              && forall c :: 0 <= c < |g.nodes| && c != r ==> res.0.nodes[c] == g.nodes[c]
  {
    if r == INVALID then (g, INVALID)
    else (g.(nodes := g.nodes[r := RemoveFirst(g.nodes[r], id)]), INVALID)
  }

  /**
   `SpatialDb::update`: when the position still maps to the referenced cell
   nothing changes; otherwise the id leaves its old cell, is appended to the
   new cell, and the reference names the new cell.
   */
  function Update(g: Grid, id: nat, pos: Vec2, r: nat): (res: (Grid, nat))
    requires g.Valid() && ValidRef(g, r)
    ensures res.0.Valid() && res.0.dim == g.dim && res.0.extent == g.extent
    ensures res.1 == CellOf(g, pos)
    ensures r == CellOf(g, pos) ==> res.0 == g
    ensures r != CellOf(g, pos) ==>
              && multiset(res.0.nodes[res.1]) == multiset(g.nodes[res.1]) + multiset{id}
              && res.0.nodes[res.1] == g.nodes[res.1] + [id]
              && (r != INVALID ==> multiset(res.0.nodes[r]) == multiset(g.nodes[r]) - multiset{id})
              && (r != INVALID ==> res.0.nodes[r] == RemoveFirst(g.nodes[r], id))
              && forall c :: 0 <= c < |g.nodes| && c != r && c != res.1 ==> res.0.nodes[c] == g.nodes[c]
  {
    var c := CellOf(g, pos);
    if c == r then (g, r)
    else
      var (g1, _) := Remove(g, id, r);
      (g1.(nodes := g1.nodes[c := g1.nodes[c] + [id]]), c)
  }

  /**
   The two-sided invariant between cells and back-references (`refs[e]` is
   entity `e`'s `spatial_db_ref`): every reference is the sentinel or a cell,
   and an id occurs in a cell exactly once when its reference names that cell
   and not at all otherwise. So each id is in at most one cell.
   */
  ghost predicate Consistent(g: Grid, refs: seq<nat>) {
    && g.Valid()
    && (forall e :: 0 <= e < |refs| ==> ValidRef(g, refs[e]))
    && (forall c: nat, e: nat {:trigger multiset(g.nodes[c])[e]} :: c < |g.nodes| ==>
          multiset(g.nodes[c])[e] == (if e < |refs| && refs[e] == c then 1 else 0))
  }

  /** Entity `e` is registered in some cell. */
  ghost predicate Registered(refs: seq<nat>, e: nat) {
    e < |refs| && refs[e] != INVALID
  }

  /** Entity `e` is registered in cell `c`. */
  ghost predicate In(refs: seq<nat>, e: nat, c: nat) {
    e < |refs| && refs[e] == c
  }

  /**
   For an entity whose cell, when it is registered, is `(ex, ey)`: it is
   registered in cell `(x, y)` exactly when it is registered and the
   coordinates agree.
   */
  lemma InCellIff(g: Grid, refs: seq<nat>, e: nat, ex: nat, ey: nat, x: nat, y: nat)
    requires g.Valid() && x < g.dim && y < g.dim
    requires ex < g.dim && ey < g.dim && (Registered(refs, e) ==> refs[e] == CellIndex(g, ex, ey))
    ensures In(refs, e, CellIndex(g, x, y)) <==> Registered(refs, e) && ex == x && ey == y
  {
    CellIndexInjective(g, ex, ey, x, y);
  }

  /** A fresh grid with no registered entity is consistent with all-sentinel references. */
  lemma NewGridConsistent(dim: nat, extent: real, refs: seq<nat>)
    requires 1 <= dim && dim * dim < U32_LIMIT && 0.0 < extent
    requires forall e :: 0 <= e < |refs| ==> refs[e] == INVALID
    ensures Consistent(NewGrid(dim, extent), refs)
  {
  }

  /** `remove` keeps the cells and the references in step. */
  lemma RemovePreservesConsistency(g: Grid, refs: seq<nat>, id: nat)
    requires Consistent(g, refs) && id < |refs|
    ensures Consistent(Remove(g, id, refs[id]).0, refs[id := INVALID])
  {
    var r := refs[id];
    var g' := Remove(g, id, r).0;
    var refs' := refs[id := INVALID];
    if r == INVALID {
      assert refs' == refs;
    } else {
      DropPreservesConsistency(g, g', refs, id);
    }
  }

  /** Taking one occurrence of `id` out of its registered cell, and nothing else, unregisters it. */
  lemma DropPreservesConsistency(g: Grid, g': Grid, refs: seq<nat>, id: nat)
    requires Consistent(g, refs) && Registered(refs, id)
    requires g'.Valid() && g'.dim == g.dim
    requires multiset(g'.nodes[refs[id]]) == multiset(g.nodes[refs[id]]) - multiset{id}
    requires forall c :: 0 <= c < |g.nodes| && c != refs[id] ==> g'.nodes[c] == g.nodes[c]
    ensures Consistent(g', refs[id := INVALID])
  {
    var r, refs' := refs[id], refs[id := INVALID];
    assert |g'.nodes| == |g.nodes|;
    assert forall e :: 0 <= e < |refs'| ==> ValidRef(g', refs'[e]);
    forall c: nat, e: nat | c < |g'.nodes|
      ensures multiset(g'.nodes[c])[e] == (if e < |refs'| && refs'[e] == c then 1 else 0)
    {
      assert multiset(g.nodes[c])[e] == (if e < |refs| && refs[e] == c then 1 else 0);
      if c != r {
        assert g'.nodes[c] == g.nodes[c];
      }
    }
  }

  /**
   `update` keeps the cells and the references in step, and afterwards the
   entity is registered in exactly the cell of the position it was given.
   */
  lemma UpdatePreservesConsistency(g: Grid, refs: seq<nat>, id: nat, pos: Vec2)
    requires Consistent(g, refs) && id < |refs|
    ensures var (g', r') := Update(g, id, pos, refs[id]);
            && Consistent(g', refs[id := r'])
            && r' == CellOf(g, pos)
            && multiset(g'.nodes[r'])[id] == 1
  {
    var c := CellOf(g, pos);
    if c == refs[id] {
      assert refs[id := c] == refs;
    } else {
      RemovePreservesConsistency(g, refs, id);
      var g1 := Remove(g, id, refs[id]).0;
      var g' := g1.(nodes := g1.nodes[c := g1.nodes[c] + [id]]);
      assert Update(g, id, pos, refs[id]) == (g', c);
      PushPreservesConsistency(g1, refs[id := INVALID], id, c);
      assert refs[id := INVALID][id := c] == refs[id := c];
      assert multiset(g'.nodes[c])[id] == 1;
    }
  }

  /** Appending an unregistered id to a cell and pointing its reference there keeps the invariant. */
  lemma PushPreservesConsistency(g: Grid, refs: seq<nat>, id: nat, c: nat)
    requires Consistent(g, refs) && id < |refs| && refs[id] == INVALID && c < |g.nodes|
    ensures Consistent(g.(nodes := g.nodes[c := g.nodes[c] + [id]]), refs[id := c])
  {
    var g' := g.(nodes := g.nodes[c := g.nodes[c] + [id]]);
    var refs' := refs[id := c];
    forall c': nat, e: nat | c' < |g'.nodes|
      ensures multiset(g'.nodes[c'])[e] == (if e < |refs'| && refs'[e] == c' then 1 else 0)
    {
      assert multiset(g.nodes[c'])[e] == (if e < |refs| && refs[e] == c' then 1 else 0);
      if c' == c {
        assert multiset(g'.nodes[c']) == multiset(g.nodes[c]) + multiset{id};
      } else {
        assert g'.nodes[c'] == g.nodes[c'];
      }
    }
  }

  /**
   Registering a freshly appended entity (whose reference is still the
   sentinel) keeps the invariant for the grown reference list.
   */
  lemma AppendPreservesConsistency(g: Grid, refs: seq<nat>, pos: Vec2)
    requires Consistent(g, refs)
    ensures var (g', r') := Update(g, |refs|, pos, INVALID);
            Consistent(g', refs + [r'])
  {
    ExtendPreservesConsistency(g, refs);
    UpdatePreservesConsistency(g, refs + [INVALID], |refs|, pos);
    assert (refs + [INVALID])[|refs| := CellOf(g, pos)] == refs + [CellOf(g, pos)];
  }

  /** An extra entity that is not registered anywhere does not disturb the invariant. */
  lemma ExtendPreservesConsistency(g: Grid, refs: seq<nat>)
    requires Consistent(g, refs)
    ensures Consistent(g, refs + [INVALID])
  {
    var refs1 := refs + [INVALID];
    forall c: nat, e: nat | c < |g.nodes|
      ensures multiset(g.nodes[c])[e] == (if e < |refs1| && refs1[e] == c then 1 else 0)
    {
      assert multiset(g.nodes[c])[e] == (if e < |refs| && refs[e] == c then 1 else 0);
      if e < |refs| {
        assert refs1[e] == refs[e];
      }
    }
  }
}
