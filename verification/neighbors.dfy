/**
 `SpatialDb::find_neighbors` and `broad_phase_node_node`: the broad phase that
 enumerates candidate pairs. For every non-empty cell `(x, y)` it visits the
 cells whose column lies in `x..=x+n` and whose row lies in `y-n..=y+n`
 (clamped to the grid), where `n` is the number of cells a body can reach.
 Columns are only scanned rightwards while rows are scanned both ways, so the
 enumeration is exactly-once for pairs in different columns or the same cell,
 but reports a pair in one column and different rows once in each order.
 */
module Neighbors {
  import opened Base
  import opened Spatial

  /** One callback invocation `callback(id1, id2)`. */
  type Pair = (nat, nat)

  /** The inner loop of `broad_phase_node_node` for one id `a` of the first node. */
  function PairsWith(a: nat, t: seq<nat>, same: bool): seq<Pair>
    decreases |t|
  {
    if |t| == 0 then []
    else
      PairsWith(a, t[..|t| - 1], same)
      + (if same && a >= t[|t| - 1] then [] else [(a, t[|t| - 1])])
  }

  /**
   `broad_phase_node_node`: every id of `s` against every id of `t`, except
   that within one node only pairs with a smaller first id are reported.
   */
  function NodePairs(s: seq<nat>, t: seq<nat>, same: bool): seq<Pair>
    decreases |s|
  {
    if |s| == 0 then []
    else NodePairs(s[..|s| - 1], t, same) + PairsWith(s[|s| - 1], t, same)
  }

  lemma {:induction false} PairsWithCount(a: nat, t: seq<nat>, same: bool, u: nat, v: nat)
    ensures Count(PairsWith(a, t, same), (u, v))
            == if u == a && !(same && u >= v) then Count(t, v) else 0
    decreases |t|
  {
    if |t| > 0 {
      var t': seq<nat> := t[..|t| - 1];
      var last := t[|t| - 1];
      PairsWithCount(a, t', same, u, v);
      CountConcat(PairsWith(a, t', same), if same && a >= last then [] else [(a, last)], (u, v));
    }
  }

  /**
   How often `broad_phase_node_node` reports `(u, v)`: once per occurrence of
   `u` in the first node times once per occurrence of `v` in the second, and
   never when the nodes are the same and `u` is not below `v`.
   */
  lemma {:induction false} NodePairsCount(s: seq<nat>, t: seq<nat>, same: bool, u: nat, v: nat)
    ensures Count(NodePairs(s, t, same), (u, v))
            == if same && u >= v then 0 else Count(s, u) * Count(t, v)
    decreases |s|
  {
    if |s| > 0 {
      var s': seq<nat> := s[..|s| - 1];
      var last := s[|s| - 1];
      NodePairsCount(s', t, same, u, v);
      PairsWithCount(last, t, same, u, v);
      CountConcat(NodePairs(s', t, same), PairsWith(last, t, same), (u, v));
      MulSucc(Count(s', u), Count(t, v), last == u);
    }
  }

  lemma MulSucc(a: nat, b: nat, inc: bool)
    ensures (a + (if inc then 1 else 0)) * b == a * b + (if inc then b else 0)
  {
  }

  /** `broad_phase_node_node` as the loops of the source. */
  method BroadPhaseNodeNode(node: seq<nat>, other: seq<nat>, same: bool) returns (pairs: seq<Pair>)
    ensures pairs == NodePairs(node, other, same)
  {
    pairs := [];
    var i := 0;
    while i < |node|
      invariant 0 <= i <= |node|
      invariant pairs == NodePairs(node[..i], other, same)
    {
      var obj := node[i];
      var j := 0;
      while j < |other|
        invariant 0 <= j <= |other|
        invariant pairs == NodePairs(node[..i], other, same) + PairsWith(obj, other[..j], same)
      {
        if !(same && obj >= other[j]) {
          pairs := pairs + [(obj, other[j])];
        }
        j := j + 1;
        assert other[..j][..j - 1] == other[..j - 1];
      }
      assert other[..|other|] == other;
      i := i + 1;
      assert node[..i][..i - 1] == node[..i - 1];
    }
    assert node[..|node|] == node;
  }

  /** Pairs of origin cell `c` against cell `c2`; an empty cell is skipped. */
  function CellPairs(g: Grid, c: nat, c2: nat): seq<Pair>
    requires g.Valid() && c < |g.nodes| && c2 < |g.nodes|
  {
    if |g.nodes[c2]| == 0 then [] else NodePairs(g.nodes[c], g.nodes[c2], c2 == c)
  }

  /** Iteration `x2` of the `x2` loop: origin `c` against cell `(x2, y2)`, nothing off the grid. */
  function Against(g: Grid, c: nat, y2: nat): nat -> seq<Pair>
    requires g.Valid() && c < |g.nodes|
  {
    (x2: nat) => if x2 < g.dim && y2 < g.dim then CellPairs(g, c, CellIndex(g, x2, y2)) else []
  }

  /** Origin `c` against columns `xlo..xhi` (exclusive) of row `y2`, in scan order. */
  function WindowRow(g: Grid, c: nat, y2: nat, xlo: nat, xhi: nat): seq<Pair>
    requires g.Valid() && c < |g.nodes|
  {
    Concat(Against(g, c, y2), xlo, xhi)
  }

  /** Iteration `y2` of the `y2` loop. */
  function WindowRows(g: Grid, c: nat, xlo: nat, xhi: nat): nat -> seq<Pair>
    requires g.Valid() && c < |g.nodes|
  {
    (y2: nat) => WindowRow(g, c, y2, xlo, xhi)
  }

  /**
   The neighbourhood of origin `(x, y)`: rows `y.saturating_sub(n) ..=
   (y + n).min(dim - 1)` and columns `x ..= (x + n).min(dim - 1)`; an empty
   origin cell scans no rows.
   */
  function OriginPairs(g: Grid, n: nat, x: nat, y: nat): seq<Pair>
    requires g.Valid() && x < g.dim && y < g.dim
  {
    var c := CellIndex(g, x, y);
    var xhi := if x + n < g.dim then x + n + 1 else g.dim;
    var ylo := if y >= n then y - n else 0;
    var yhi := if y + n < g.dim then y + n + 1 else g.dim;
    Concat(WindowRows(g, c, x, xhi), ylo, if |g.nodes[c]| == 0 then ylo else yhi)
  }

  /** Iteration `x` of the origin column loop in row `y`. */
  function Origins(g: Grid, n: nat, y: nat): nat -> seq<Pair>
    requires g.Valid()
  {
    (x: nat) => if x < g.dim && y < g.dim then OriginPairs(g, n, x, y) else []
  }

  /** Origins `(0, y) .. (xhi - 1, y)` of one row. */
  function RowScan(g: Grid, n: nat, y: nat, xhi: nat): seq<Pair>
    requires g.Valid()
  {
    Concat(Origins(g, n, y), 0, xhi)
  }

  /** Iteration `y` of the origin row loop. */
  function Lines(g: Grid, n: nat): nat -> seq<Pair>
    requires g.Valid()
  {
    (y: nat) => RowScan(g, n, y, g.dim)
  }

  /** Origins of rows `0 .. yhi - 1`. */
  function GridScan(g: Grid, n: nat, yhi: nat): seq<Pair>
    requires g.Valid()
  {
    Concat(Lines(g, n), 0, yhi)
  }

  /** Every callback invocation of `find_neighbors` with `n` check nodes, in order. */
  function NeighborPairs(g: Grid, n: nat): seq<Pair>
    requires g.Valid()
  {
    GridScan(g, n, g.dim)
  }

  /**
   `num_check_nodes = (2 * max_radius / node_size) as u32 + 1`, in `u32`
   arithmetic: the cast saturates, and the `+ 1` then wraps to 0 (as a
   release build does). Short of that the count exceeds the scaled
   diameter `2 * max_radius / node_size`, which is what makes it enough
   cells (see `AxisWithinCheckNodes`).
   */
  function NumCheckNodes(g: Grid, maxRadius: real): (n: nat)
    requires g.Valid()
    ensures n < U32_LIMIT
    ensures n == 0 <==> U32_MAX as real <= 2.0 * maxRadius / g.NodeSize()
    ensures 0 < n ==> 2.0 * maxRadius / g.NodeSize() < n as real
  {
    var c := AsU32(2.0 * maxRadius / g.NodeSize());
    if c < U32_MAX then
      DivModUnique(c + 1, U32_LIMIT, 0, c + 1);
      (c + 1) % U32_LIMIT
    else
      DivModUnique(c + 1, U32_LIMIT, 1, 0);
      (c + 1) % U32_LIMIT
  }

  /**
   Two positions less than `2 * max_radius` apart on an axis fall in cells
   at most `num_check_nodes` apart on that axis, in either order, as long as
   the scaled diameter is below `u32::MAX` (so the count did not wrap to 0).
   So two bodies of radius at most `max_radius` that overlap are always in
   each other's scanned neighbourhood.
   */
  lemma AxisWithinCheckNodes(g: Grid, maxRadius: real, p: real, q: real)
    requires g.Valid() && 2.0 * maxRadius / g.NodeSize() < U32_MAX as real
    requires p - 2.0 * maxRadius < q < p + 2.0 * maxRadius
    ensures Axis(g, q) <= Axis(g, p) + NumCheckNodes(g, maxRadius)
    ensures Axis(g, p) <= Axis(g, q) + NumCheckNodes(g, maxRadius)
  {
    var n := NumCheckNodes(g, maxRadius);
    NodeSizePositive(g);
    var ns := g.NodeSize();
    DivTimes(2.0 * maxRadius, ns);
    MulStrict(2.0 * maxRadius / ns, n as real, ns);
    AxisReach(g, 2.0 * maxRadius, n, p, q);
    AxisReach(g, 2.0 * maxRadius, n, q, p);
  }

  /** One direction of `AxisWithinCheckNodes`, for a reach `d` narrower than `n` cells. */
  lemma AxisReach(g: Grid, d: real, n: nat, p: real, q: real)
    requires g.Valid() && d < n as real * g.NodeSize() && q < p + d
    ensures Axis(g, q) <= Axis(g, p) + n
  {
    if p < g.extent && -g.extent < q {
      AxisReachInside(g, d, n, p, q);
    }
  }

  lemma AxisReachInside(g: Grid, d: real, n: nat, p: real, q: real)
    requires g.Valid() && d < n as real * g.NodeSize() && q < p + d
    requires p < g.extent && -g.extent < q
    ensures Axis(g, q) <= Axis(g, p) + n
  {
    var ns := g.NodeSize();
    NodeSizePositive(g);
    AxisAbove(g, p);
    AxisBelow(g, q);
    ScaledBelow(d, n as real, ns);
    ScaledSum(q + g.extent, p + g.extent, d, ns);
  }

  /** Below the high edge a position scales to less than one past its column. */
  lemma AxisAbove(g: Grid, p: real)
    requires g.Valid() && p < g.extent
    ensures (p + g.extent) / g.NodeSize() < (Axis(g, p) + 1) as real
  {
    var ns := g.NodeSize();
    NodeSizePositive(g);
    if p <= -g.extent {
      assert (Axis(g, p) + 1) as real == 1.0;
    }
    ScaledBelow(p + g.extent, (Axis(g, p) + 1) as real, ns);
  }

  /** Above the low edge a position scales to at least its column. */
  lemma AxisBelow(g: Grid, q: real)
    requires g.Valid() && -g.extent < q
    ensures Axis(g, q) as real <= (q + g.extent) / g.NodeSize()
  {
    var ns := g.NodeSize();
    NodeSizePositive(g);
    if q >= g.extent {
      MulStrict((g.dim - 1) as real, g.dim as real, ns);
    }
    ScaledAtLeast(q + g.extent, Axis(g, q) as real, ns);
  }

  lemma ScaledBelow(x: real, k: real, ns: real)
    requires 0.0 < ns && x < k * ns
    ensures x / ns < k
  {
    DivTimes(x, ns);
    if x / ns >= k {
      MulWeak(k, x / ns, ns);
    }
  }

  lemma ScaledAtLeast(x: real, k: real, ns: real)
    requires 0.0 < ns && k * ns <= x
    ensures k <= x / ns
  {
    DivTimes(x, ns);
    if x / ns < k {
      MulStrict(x / ns, k, ns);
    }
  }

  lemma ScaledSum(x: real, y: real, z: real, ns: real)
    requires 0.0 < ns && x < y + z
    ensures x / ns < y / ns + z / ns
  {
    DivTimes(x, ns);
    DivTimes(y, ns);
    DivTimes(z, ns);
    var s := y / ns + z / ns;
    assert s * ns == (y / ns) * ns + (z / ns) * ns;
    if x / ns >= s {
      MulWeak(s, x / ns, ns);
    }
  }

  // ---------------------------------------------------------------------------
  // Multiplicity of a pair in the enumeration, given a consistent index.
  // ---------------------------------------------------------------------------

  /**
   Column `vx`, row `vy` lies in the scanned neighbourhood of origin column
   `ux`, row `uy`: the same column or up to `n` to the right, and up to `n`
   rows above or below.
   */
  predicate Near(n: nat, ux: nat, uy: nat, vx: nat, vy: nat) {
    ux <= vx <= ux + n && uy <= vy + n && vy <= uy + n
  }

  /** Cell `cv` lies in the scanned neighbourhood of origin cell `cu`. */
  ghost predicate InWindow(g: Grid, n: nat, cu: nat, cv: nat)
    requires g.Valid()
  {
    Near(n, Column(g, cu), Row(g, cu), Column(g, cv), Row(g, cv))
  }

  /** The occurrences of `e` in the cells are those its reference records. */
  ghost predicate Tracked(g: Grid, refs: seq<nat>, e: nat) {
    forall c: nat :: c < |g.nodes| ==> Count(g.nodes[c], e) == (if In(refs, e, c) then 1 else 0)
  }

  lemma ConsistentTracks(g: Grid, refs: seq<nat>, e: nat)
    requires Consistent(g, refs)
    ensures Tracked(g, refs, e)
  {
    forall c: nat | c < |g.nodes|
      ensures Count(g.nodes[c], e) == (if In(refs, e, c) then 1 else 0)
    {
      CountIsMultiplicity(g.nodes[c], e);
    }
  }

  /*
   In the lemmas below `(ux, uy)` and `(vx, vy)` are the coordinates of the
   cells of `u` and `v` whenever these are registered, and `hit` is the
   condition, other than position, under which the pair is reported.
   */

  lemma CellPairsCount(g: Grid, refs: seq<nat>, c: nat, c2: nat, u: nat, v: nat)
    requires g.Valid() && Tracked(g, refs, u) && Tracked(g, refs, v) && c < |g.nodes| && c2 < |g.nodes|
    ensures Count(CellPairs(g, c, c2), (u, v))
            == if In(refs, u, c) && In(refs, v, c2) && !(c == c2 && u >= v) then 1 else 0
  {
    assert Count(g.nodes[c], u) == (if In(refs, u, c) then 1 else 0);
    assert Count(g.nodes[c2], v) == (if In(refs, v, c2) then 1 else 0);
    if |g.nodes[c2]| > 0 {
      NodePairsCount(g.nodes[c], g.nodes[c2], c2 == c, u, v);
    }
  }

  lemma WindowRowCount(g: Grid, refs: seq<nat>, c: nat, y2: nat, xlo: nat, xhi: nat, u: nat, v: nat, vx: nat, vy: nat, hit: bool)
    requires g.Valid() && Tracked(g, refs, u) && Tracked(g, refs, v) && c < |g.nodes|
    requires vx < g.dim && vy < g.dim && (Registered(refs, v) ==> refs[v] == CellIndex(g, vx, vy))
    requires hit == (In(refs, u, c) && Registered(refs, v) && !(refs[v] == c && u >= v))
    ensures Count(WindowRow(g, c, y2, xlo, xhi), (u, v)) == if hit && vy == y2 && xlo <= vx < xhi then 1 else 0
  {
    var m := if hit && vy == y2 then 1 else 0;
    forall x2: nat | xlo <= x2 < xhi
      ensures Count(Against(g, c, y2)(x2), (u, v)) == if x2 == vx then m else 0
    {
      if x2 < g.dim && y2 < g.dim {
        CellPairsCount(g, refs, c, CellIndex(g, x2, y2), u, v);
        InCellIff(g, refs, v, vx, vy, x2, y2);
      }
    }
    ConcatCount(Against(g, c, y2), xlo, xhi, (u, v), vx, m);
  }

  lemma OriginCount(g: Grid, refs: seq<nat>, n: nat, x: nat, y: nat, u: nat, v: nat, vx: nat, vy: nat, hit: bool)
    requires g.Valid() && Tracked(g, refs, u) && Tracked(g, refs, v) && x < g.dim && y < g.dim
    requires vx < g.dim && vy < g.dim && (Registered(refs, v) ==> refs[v] == CellIndex(g, vx, vy))
    requires hit == (In(refs, u, CellIndex(g, x, y)) && Registered(refs, v) && !(refs[v] == CellIndex(g, x, y) && u >= v))
    ensures Count(OriginPairs(g, n, x, y), (u, v)) == if hit && Near(n, x, y, vx, vy) then 1 else 0
  {
    var c := CellIndex(g, x, y);
    var xhi := if x + n < g.dim then x + n + 1 else g.dim;
    var ylo := if y >= n then y - n else 0;
    var yhi := if |g.nodes[c]| == 0 then ylo else if y + n < g.dim then y + n + 1 else g.dim;
    var m := if hit && x <= vx < xhi then 1 else 0;
    forall y2: nat | ylo <= y2 < yhi
      ensures Count(WindowRows(g, c, x, xhi)(y2), (u, v)) == if y2 == vy then m else 0
    {
      WindowRowCount(g, refs, c, y2, x, xhi, u, v, vx, vy, hit);
    }
    ConcatCount(WindowRows(g, c, x, xhi), ylo, yhi, (u, v), vy, m);
    if |g.nodes[c]| == 0 {
      assert Count(g.nodes[c], u) == (if In(refs, u, c) then 1 else 0);
    }
  }

  lemma RowScanCount(g: Grid, refs: seq<nat>, n: nat, y: nat, u: nat, v: nat, ux: nat, uy: nat, vx: nat, vy: nat, hit: bool)
    requires g.Valid() && Tracked(g, refs, u) && Tracked(g, refs, v)
    requires ux < g.dim && uy < g.dim && (Registered(refs, u) ==> refs[u] == CellIndex(g, ux, uy))
    requires vx < g.dim && vy < g.dim && (Registered(refs, v) ==> refs[v] == CellIndex(g, vx, vy))
    requires hit == (Registered(refs, u) && Registered(refs, v) && Near(n, ux, uy, vx, vy) && !(refs[v] == refs[u] && u >= v))
    ensures Count(RowScan(g, n, y, g.dim), (u, v)) == if hit && uy == y then 1 else 0
  {
    var m := if hit && uy == y then 1 else 0;
    forall x: nat | 0 <= x < g.dim
      ensures Count(Origins(g, n, y)(x), (u, v)) == if x == ux then m else 0
    {
      if y < g.dim {
        var c := CellIndex(g, x, y);
        OriginCount(g, refs, n, x, y, u, v, vx, vy, In(refs, u, c) && Registered(refs, v) && !(refs[v] == c && u >= v));
        InCellIff(g, refs, u, ux, uy, x, y);
      }
    }
    ConcatCount(Origins(g, n, y), 0, g.dim, (u, v), ux, m);
  }

  /** The coordinates of a registered entity's cell, or `(0, 0)` for any other id. */
  ghost function Coords(g: Grid, refs: seq<nat>, e: nat): (xy: (nat, nat))
    requires Consistent(g, refs)
    ensures xy.0 < g.dim && xy.1 < g.dim
    ensures Registered(refs, e) ==> refs[e] == CellIndex(g, xy.0, xy.1)
    ensures Registered(refs, e) ==> xy == (Column(g, refs[e]), Row(g, refs[e]))
  {
    if Registered(refs, e) then
      ColumnRowBounds(g, refs[e]);
      (Column(g, refs[e]), Row(g, refs[e]))
    else (0, 0)
  }

  /**
   The exact multiplicity of `(u, v)` among the callback invocations of
   `find_neighbors`: one when both are registered, `v`'s cell is in the
   forward neighbourhood of `u`'s cell, and (within one cell) `u < v`;
   zero otherwise.
   */
  lemma NeighborPairsCount(g: Grid, refs: seq<nat>, n: nat, u: nat, v: nat)
    requires Consistent(g, refs)
    ensures Count(NeighborPairs(g, n), (u, v))
            == if && Registered(refs, u) && Registered(refs, v)
                  && InWindow(g, n, refs[u], refs[v])
                  && !(refs[v] == refs[u] && u >= v)
               then 1 else 0
  {
    var (ux, uy) := Coords(g, refs, u);
    var (vx, vy) := Coords(g, refs, v);
    ConsistentTracks(g, refs, u);
    ConsistentTracks(g, refs, v);
    var hit := Registered(refs, u) && Registered(refs, v) && Near(n, ux, uy, vx, vy) && !(refs[v] == refs[u] && u >= v);
    forall y: nat | 0 <= y < g.dim
      ensures Count(Lines(g, n)(y), (u, v)) == if y == uy then (if hit then 1 else 0) else 0
    {
      RowScanCount(g, refs, n, y, u, v, ux, uy, vx, vy, hit);
    }
    ConcatCount(Lines(g, n), 0, g.dim, (u, v), uy, if hit then 1 else 0);
  }

  /** `find_neighbors` never reports an entity against itself. */
  lemma NeverSelfPair(g: Grid, refs: seq<nat>, n: nat, a: nat)
    requires Consistent(g, refs)
    ensures (a, a) !in NeighborPairs(g, n)
  {
    NeighborPairsCount(g, refs, n, a, a);
    CountIsMultiplicity(NeighborPairs(g, n), (a, a));
  }

  /** Two entities of one cell are reported exactly once, smaller id first. */
  lemma SameCellReportedOnce(g: Grid, refs: seq<nat>, n: nat, a: nat, b: nat)
    requires Consistent(g, refs)
    requires Registered(refs, a) && Registered(refs, b) && refs[a] == refs[b] && a < b
    ensures Count(NeighborPairs(g, n), (a, b)) == 1
    ensures Count(NeighborPairs(g, n), (b, a)) == 0
  {
    NeighborPairsCount(g, refs, n, a, b);
    NeighborPairsCount(g, refs, n, b, a);
  }

  /**
   Two entities in different columns at most `n` cells apart on both axes
   are reported exactly once, the one in the left column first.
   */
  lemma DifferentColumnsReportedOnce(g: Grid, refs: seq<nat>, n: nat, a: nat, b: nat)
    requires Consistent(g, refs) && Registered(refs, a) && Registered(refs, b)
    requires Column(g, refs[a]) < Column(g, refs[b]) <= Column(g, refs[a]) + n
    requires Row(g, refs[a]) <= Row(g, refs[b]) + n && Row(g, refs[b]) <= Row(g, refs[a]) + n
    ensures Count(NeighborPairs(g, n), (a, b)) == 1
    ensures Count(NeighborPairs(g, n), (b, a)) == 0
  {
    NeighborPairsCount(g, refs, n, a, b);
    NeighborPairsCount(g, refs, n, b, a);
  }

  /**
   Two entities in the same column but different rows at most `n` rows apart
   are reported twice, once in each order: the scan looks both up and down
   from every origin but only rightwards.
   */
  lemma SameColumnReportedTwice(g: Grid, refs: seq<nat>, n: nat, a: nat, b: nat)
    requires Consistent(g, refs) && Registered(refs, a) && Registered(refs, b)
    requires Column(g, refs[a]) == Column(g, refs[b]) && Row(g, refs[a]) != Row(g, refs[b])
    requires Row(g, refs[a]) <= Row(g, refs[b]) + n && Row(g, refs[b]) <= Row(g, refs[a]) + n
    ensures Count(NeighborPairs(g, n), (a, b)) == 1
    ensures Count(NeighborPairs(g, n), (b, a)) == 1
  {
    NeighborPairsCount(g, refs, n, a, b);
    NeighborPairsCount(g, refs, n, b, a);
  }

  /** Entities more than `n` cells apart on either axis are never paired. */
  lemma FarApartNeverReported(g: Grid, refs: seq<nat>, n: nat, a: nat, b: nat)
    requires Consistent(g, refs) && Registered(refs, a) && Registered(refs, b)
    requires || Column(g, refs[a]) > Column(g, refs[b]) + n
             || Column(g, refs[b]) > Column(g, refs[a]) + n
             || Row(g, refs[a]) > Row(g, refs[b]) + n
             || Row(g, refs[b]) > Row(g, refs[a]) + n
    ensures (a, b) !in NeighborPairs(g, n) && (b, a) !in NeighborPairs(g, n)
  {
    NeighborPairsCount(g, refs, n, a, b);
    NeighborPairsCount(g, refs, n, b, a);
    CountIsMultiplicity(NeighborPairs(g, n), (a, b));
    CountIsMultiplicity(NeighborPairs(g, n), (b, a));
  }

  /** Every reported pair names two distinct registered entities (so pairing them never panics). */
  lemma ReportedPairsAreDistinct(g: Grid, refs: seq<nat>, n: nat, p: Pair)
    requires Consistent(g, refs) && p in NeighborPairs(g, n)
    ensures p.0 != p.1 && p.0 < |refs| && p.1 < |refs|
    ensures refs[p.0] != INVALID && refs[p.1] != INVALID
  {
    NeighborPairsCount(g, refs, n, p.0, p.1);
    CountIsMultiplicity(NeighborPairs(g, n), p);
  }

  /**
   Two distinct entities registered at positions less than `2 * max_radius`
   apart on both axes are reported by `find_neighbors` at least once, in one
   order or the other, as long as `num_check_nodes` has not wrapped to 0.
   */
  lemma CloseEntitiesReported(g: Grid, refs: seq<nat>, maxRadius: real, a: nat, b: nat, pa: Vec2, pb: Vec2)
    requires Consistent(g, refs) && Registered(refs, a) && Registered(refs, b) && a != b
    requires refs[a] == CellOf(g, pa) && refs[b] == CellOf(g, pb)
    requires 2.0 * maxRadius / g.NodeSize() < U32_MAX as real
    requires pa.x - 2.0 * maxRadius < pb.x < pa.x + 2.0 * maxRadius
    requires pa.y - 2.0 * maxRadius < pb.y < pa.y + 2.0 * maxRadius
    ensures (a, b) in NeighborPairs(g, NumCheckNodes(g, maxRadius))
            || (b, a) in NeighborPairs(g, NumCheckNodes(g, maxRadius))
  {
    var n := NumCheckNodes(g, maxRadius);
    AxisWithinCheckNodes(g, maxRadius, pa.x, pb.x);
    AxisWithinCheckNodes(g, maxRadius, pa.y, pb.y);
    var (ax, bx) := (Column(g, refs[a]), Column(g, refs[b]));
    if refs[a] == refs[b] {
      if a < b { SameCellReportedOnce(g, refs, n, a, b); }
      else { SameCellReportedOnce(g, refs, n, b, a); }
    } else if ax < bx {
      DifferentColumnsReportedOnce(g, refs, n, a, b);
    } else if bx < ax {
      DifferentColumnsReportedOnce(g, refs, n, b, a);
    } else {
      ColumnRowBounds(g, refs[a]);
      ColumnRowBounds(g, refs[b]);
      SameColumnReportedTwice(g, refs, n, a, b);
    }
    CountIsMultiplicity(NeighborPairs(g, n), (a, b));
    CountIsMultiplicity(NeighborPairs(g, n), (b, a));
  }
}
