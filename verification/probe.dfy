/**
 `SpatialDb::probe_range`: the visitor is called once per stored id in every
 cell of a rectangle of cells, the rectangle being the query window widened by
 the largest body radius and clamped to the grid.
 */
module Probe {
  import opened Base
  import opened Spatial

  /** An inclusive rectangle of cells: columns `minx..=maxx`, rows `miny..=maxy`. */
  datatype CellRect = CellRect(minx: nat, maxx: nat, miny: nat, maxy: nat)

  /** Lower cell bound of one axis: the offset is floored at 0 before scaling. */
  function LowBound(g: Grid, lo: real): nat
    requires g.Valid()
  {
    AsU32(Max(lo + g.extent, 0.0) / g.NodeSize())
  }

  /** Upper cell bound of one axis: the scaled offset is capped at `dim - 1`. */
  function HighBound(g: Grid, hi: real): (b: nat)
    requires g.Valid()
    ensures b < g.dim
  {
    Min(AsU32((hi + g.extent) / g.NodeSize()), g.dim - 1)
  }

  /** Cell `k` of an axis ends beyond coordinate `lo`. */
  ghost predicate EndsAfter(g: Grid, lo: real, k: nat)
    requires g.Valid()
  {
    lo + g.extent < (k + 1) as real * g.NodeSize()
  }

  /** Cell `k` of an axis is the first one or starts no later than coordinate `hi`. */
  ghost predicate StartsBy(g: Grid, hi: real, k: nat)
    requires g.Valid()
  {
    k == 0 || k as real * g.NodeSize() <= hi + g.extent
  }

  /**
   The cell rectangle of `probe_range(start..end, max_radius, _)`: the lower
   bounds are floored at 0 and the upper bounds capped at `dim - 1`, so
   nothing outside the grid is indexed.
   */
  function ProbeBounds(g: Grid, start: Vec2, end: Vec2, maxRadius: real): (b: CellRect)
    requires g.Valid()
    ensures b.maxx < g.dim && b.maxy < g.dim
  {
    CellRect(LowBound(g, start.x - maxRadius), HighBound(g, end.x + maxRadius),
             LowBound(g, start.y - maxRadius), HighBound(g, end.y + maxRadius))
  }

  /**
   A column is covered by the probe exactly when it ends beyond the widened
   window's left edge and is the first column or starts no later than the
   widened window's right edge; rows alike.
   */
  lemma ProbeCoversCell(g: Grid, start: Vec2, end: Vec2, maxRadius: real, x: nat, y: nat)
    requires g.Valid() && x < g.dim && y < g.dim
    ensures var b := ProbeBounds(g, start, end, maxRadius);
            && (b.minx <= x <= b.maxx <==>
                  EndsAfter(g, start.x - maxRadius, x) && StartsBy(g, end.x + maxRadius, x))
            && (b.miny <= y <= b.maxy <==>
                  EndsAfter(g, start.y - maxRadius, y) && StartsBy(g, end.y + maxRadius, y))
  {
    LowBoundMeaning(g, start.x - maxRadius, x);
    LowBoundMeaning(g, start.y - maxRadius, y);
    HighBoundMeaning(g, end.x + maxRadius, x);
    HighBoundMeaning(g, end.y + maxRadius, y);
  }

  lemma LowBoundMeaning(g: Grid, lo: real, k: nat)
    requires g.Valid() && k < g.dim
    ensures LowBound(g, lo) <= k <==> EndsAfter(g, lo, k)
  {
    var ns := g.NodeSize();
    NodeSizePositive(g);
    DimFitsU32(g.dim);
    var off := Max(lo + g.extent, 0.0);
    var q := off / ns;
    DivTimes(off, ns);
    var m := (k + 1) as real;
    MulStrict(0.0, m, ns);
    if q < m {
      MulStrict(q, m, ns);
      assert EndsAfter(g, lo, k);
      assert AsU32(q) <= k;
    } else {
      MulWeak(m, q, ns);
      assert !EndsAfter(g, lo, k);
      assert AsU32(q) > k by {
        if q < U32_MAX as real {
          assert q < AsU32(q) as real + 1.0;
        }
      }
    }
  }

  lemma HighBoundMeaning(g: Grid, hi: real, k: nat)
    requires g.Valid() && k < g.dim
    ensures k <= HighBound(g, hi) <==> StartsBy(g, hi, k)
  {
    var ns := g.NodeSize();
    NodeSizePositive(g);
    DimFitsU32(g.dim);
    var q := (hi + g.extent) / ns;
    assert q * ns == hi + g.extent;
    var m := k as real;
    if k > 0 {
      MulStrict(0.0, m, ns);
      if q < m {
        MulStrict(q, m, ns);
      } else {
        MulWeak(m, q, ns);
      }
    }
  }

  /** Contents of cells `xlo..xhi` (exclusive) of row `y`, in scan order. */
  function RowContents(g: Grid, y: nat, xlo: nat, xhi: nat): seq<nat>
    requires g.Valid() && y < g.dim && xhi <= g.dim
    decreases xhi
  {
    if xhi <= xlo then []
    else RowContents(g, y, xlo, xhi - 1) + g.nodes[CellIndex(g, xhi - 1, y)]
  }

  /** Contents of rows `ylo..yhi` (exclusive) restricted to columns `xlo..xhi`, in scan order. */
  function RectContents(g: Grid, xlo: nat, xhi: nat, ylo: nat, yhi: nat): seq<nat>
    requires g.Valid() && xhi <= g.dim && yhi <= g.dim
    decreases yhi
  {
    if yhi <= ylo then []
    else RectContents(g, xlo, xhi, ylo, yhi - 1) + RowContents(g, yhi - 1, xlo, xhi)
  }

  /**
   How often row `y`, columns `xlo..xhi`, lists entity `e`, whose cell (when
   it is registered) has coordinates `(ex, ey)`.
   */
  lemma {:induction false} RowContentsCount(g: Grid, refs: seq<nat>, y: nat, xlo: nat, xhi: nat, e: nat, ex: nat, ey: nat)
    requires Consistent(g, refs) && y < g.dim && xhi <= g.dim && ex < g.dim && ey < g.dim
    requires Registered(refs, e) ==> refs[e] == CellIndex(g, ex, ey)
    ensures Count(RowContents(g, y, xlo, xhi), e)
            == if Registered(refs, e) && ey == y && xlo <= ex < xhi then 1 else 0
    decreases xhi
  {
    if xhi > xlo {
      RowContentsCount(g, refs, y, xlo, xhi - 1, e, ex, ey);
      var c := CellIndex(g, xhi - 1, y);
      CountConcat(RowContents(g, y, xlo, xhi - 1), g.nodes[c], e);
      CountIsMultiplicity(g.nodes[c], e);
      assert Count(g.nodes[c], e) == (if e < |refs| && refs[e] == c then 1 else 0);
      InCellIff(g, refs, e, ex, ey, xhi - 1, y);
    }
  }

  /** How often rows `ylo..yhi`, columns `xlo..xhi`, list entity `e` located at `(ex, ey)`. */
  lemma {:induction false} RectContentsCount(g: Grid, refs: seq<nat>, xlo: nat, xhi: nat, ylo: nat, yhi: nat, e: nat, ex: nat, ey: nat)
    requires Consistent(g, refs) && xhi <= g.dim && yhi <= g.dim && ex < g.dim && ey < g.dim
    requires Registered(refs, e) ==> refs[e] == CellIndex(g, ex, ey)
    ensures Count(RectContents(g, xlo, xhi, ylo, yhi), e)
            == if Registered(refs, e) && xlo <= ex < xhi && ylo <= ey < yhi then 1 else 0
    decreases yhi
  {
    if yhi > ylo {
      var above, row := RectContents(g, xlo, xhi, ylo, yhi - 1), RowContents(g, yhi - 1, xlo, xhi);
      assert RectContents(g, xlo, xhi, ylo, yhi) == above + row;
      RectContentsCount(g, refs, xlo, xhi, ylo, yhi - 1, e, ex, ey);
      RowContentsCount(g, refs, yhi - 1, xlo, xhi, e, ex, ey);
      CountConcat(above, row, e);
    }
  }

  /** The visits of a probe over a cell rectangle, in the source's row-major order. */
  function ProbeVisits(g: Grid, b: CellRect): seq<nat>
    requires g.Valid() && b.maxx < g.dim && b.maxy < g.dim
  {
    RectContents(g, b.minx, b.maxx + 1, b.miny, b.maxy + 1)
  }

  /**
   `probe_range`: rows `miny..=maxy` in order, in each row columns
   `minx..=maxx` in order, in each cell its ids in stored order.
   */
  method ProbeRange(g: Grid, start: Vec2, end: Vec2, maxRadius: real) returns (visits: seq<nat>)
    requires g.Valid()
    ensures visits == ProbeVisits(g, ProbeBounds(g, start, end, maxRadius))
  {
    var b := ProbeBounds(g, start, end, maxRadius);
    visits := ProbeCells(g, b);
  }

  /** The loops of `probe_range` over an already clamped cell rectangle. */
  method ProbeCells(g: Grid, b: CellRect) returns (visits: seq<nat>)
    requires g.Valid() && b.maxx < g.dim && b.maxy < g.dim
    ensures visits == ProbeVisits(g, b)
  {
    visits := [];
    if b.miny > b.maxy {
      return;
    }
    var y := b.miny;
    while y <= b.maxy
      invariant b.miny <= y <= b.maxy + 1
      invariant visits == RectContents(g, b.minx, b.maxx + 1, b.miny, y)
    {
      var rowStart := visits;
      if b.minx <= b.maxx {
        var x := b.minx;
        while x <= b.maxx
          invariant b.minx <= x <= b.maxx + 1
          invariant visits == rowStart + RowContents(g, y, b.minx, x)
        {
          // every stored id of the cell, in stored order
          visits := visits + g.nodes[CellIndex(g, x, y)];
          x := x + 1;
        }
      }
      y := y + 1;
    }
  }

  lemma ProbeVisitsFromCells(g: Grid, b: CellRect)
    requires g.Valid() && b.maxx < g.dim && b.maxy < g.dim
    ensures forall v :: v in ProbeVisits(g, b) ==>
              exists c :: 0 <= c < |g.nodes| && v in g.nodes[c]
  {
    forall v | v in ProbeVisits(g, b)
      ensures exists c :: 0 <= c < |g.nodes| && v in g.nodes[c]
    {
      RectFromCells(g, b.minx, b.maxx + 1, b.miny, b.maxy + 1, v);
    }
  }

  lemma {:induction false} RectFromCells(g: Grid, xlo: nat, xhi: nat, ylo: nat, yhi: nat, v: nat)
    requires g.Valid() && xhi <= g.dim && yhi <= g.dim
    requires v in RectContents(g, xlo, xhi, ylo, yhi)
    ensures exists c :: 0 <= c < |g.nodes| && v in g.nodes[c]
    decreases yhi
  {
    if v in RectContents(g, xlo, xhi, ylo, yhi - 1) {
      RectFromCells(g, xlo, xhi, ylo, yhi - 1, v);
    } else {
      RowFromCells(g, yhi - 1, xlo, xhi, v);
    }
  }

  lemma {:induction false} RowFromCells(g: Grid, y: nat, xlo: nat, xhi: nat, v: nat)
    requires g.Valid() && y < g.dim && xhi <= g.dim
    requires v in RowContents(g, y, xlo, xhi)
    ensures exists c :: 0 <= c < |g.nodes| && v in g.nodes[c]
    decreases xhi
  {
    if v in RowContents(g, y, xlo, xhi - 1) {
      RowFromCells(g, y, xlo, xhi - 1, v);
    } else {
      var c := CellIndex(g, xhi - 1, y);
      assert v in g.nodes[c];
    }
  }

  /**
   With a consistent index, a probe visits an entity exactly once when it is
   registered in a covered cell and never otherwise.
   */
  lemma ProbeVisitsEachCoveredEntityOnce(g: Grid, refs: seq<nat>, start: Vec2, end: Vec2, maxRadius: real, e: nat)
    requires Consistent(g, refs)
    ensures var b := ProbeBounds(g, start, end, maxRadius);
            Count(ProbeVisits(g, b), e)
            == if e < |refs| && refs[e] != INVALID
                  && b.minx <= Column(g, refs[e]) <= b.maxx
                  && b.miny <= Row(g, refs[e]) <= b.maxy
               then 1 else 0
  {
    CellRectVisitsOnce(g, refs, ProbeBounds(g, start, end, maxRadius), e);
  }

  /** The count of the probe lemma, for any in-range cell rectangle. */
  lemma CellRectVisitsOnce(g: Grid, refs: seq<nat>, b: CellRect, e: nat)
    requires Consistent(g, refs) && b.maxx < g.dim && b.maxy < g.dim
    ensures Count(ProbeVisits(g, b), e)
            == if e < |refs| && refs[e] != INVALID
                  && b.minx <= Column(g, refs[e]) <= b.maxx
                  && b.miny <= Row(g, refs[e]) <= b.maxy
               then 1 else 0
  {
    var visits := RectContents(g, b.minx, b.maxx + 1, b.miny, b.maxy + 1);
    assert ProbeVisits(g, b) == visits;
    if Registered(refs, e) {
      ColumnRowBounds(g, refs[e]);
      var x, y := Column(g, refs[e]), Row(g, refs[e]);
      RectContentsCount(g, refs, b.minx, b.maxx + 1, b.miny, b.maxy + 1, e, x, y);
      assert Count(visits, e) == if b.minx <= x <= b.maxx && b.miny <= y <= b.maxy then 1 else 0;
    } else {
      RectContentsCount(g, refs, b.minx, b.maxx + 1, b.miny, b.maxy + 1, e, 0, 0);
      assert Count(visits, e) == 0;
    }
  }

  /**
   A probe over the whole arena with radius 0 covers every cell, so every
   registered entity is visited exactly once and no other id is visited.
   */
  lemma FullArenaProbeVisitsAllOnce(g: Grid, refs: seq<nat>, e: nat)
    requires Consistent(g, refs)
    ensures var b := ProbeBounds(g, Vec2(-g.extent, -g.extent), Vec2(g.extent, g.extent), 0.0);
            && b == CellRect(0, g.dim - 1, 0, g.dim - 1)
            && Count(ProbeVisits(g, b), e) == if e < |refs| && refs[e] != INVALID then 1 else 0
  {
    var b := ProbeBounds(g, Vec2(-g.extent, -g.extent), Vec2(g.extent, g.extent), 0.0);
    NodeSizePositive(g);
    assert b.minx == 0 && b.miny == 0 by {
      assert 0.0 < 1 as real * g.NodeSize();
    }
    assert b.maxx == g.dim - 1 && b.maxy == g.dim - 1 by {
      ArenaSpansDimCells(g);
      DimFitsU32(g.dim);
    }
    ProbeVisitsEachCoveredEntityOnce(g, refs, Vec2(-g.extent, -g.extent), Vec2(g.extent, g.extent), 0.0, e);
    if e < |refs| && refs[e] != INVALID {
      ColumnRowBounds(g, refs[e]);
    }
  }

  /** The whole arena measures exactly `dim` cells. */
  lemma ArenaSpansDimCells(g: Grid)
    requires g.Valid()
    ensures (g.extent + g.extent) / g.NodeSize() == g.dim as real
  {
    NodeSizePositive(g);
    var q := (g.extent + g.extent) / g.NodeSize();
    assert q * g.NodeSize() == g.dim as real * g.NodeSize();
    MulCancel(q, g.dim as real, g.NodeSize());
  }

  lemma MulCancel(a: real, b: real, c: real)
    requires 0.0 < c && a * c == b * c
    ensures a == b
  {
    if a < b {
      MulStrict(a, b, c);
    } else if b < a {
      MulStrict(b, a, c);
    }
  }

  /**
   With a consistent index every id a probe visits names a registered
   entity, so the visitor's `get(id)` never fails.
   */
  lemma ProbeVisitsRegistered(g: Grid, refs: seq<nat>, b: CellRect)
    requires Consistent(g, refs) && b.maxx < g.dim && b.maxy < g.dim
    ensures forall j :: 0 <= j < |ProbeVisits(g, b)| ==>
              ProbeVisits(g, b)[j] < |refs| && refs[ProbeVisits(g, b)[j]] != INVALID
  {
    var vs := ProbeVisits(g, b);
    ProbeVisitsFromCells(g, b);
    forall j | 0 <= j < |vs| ensures vs[j] < |refs| && refs[vs[j]] != INVALID {
      var v := vs[j];
      assert v in vs;
      var c :| 0 <= c < |g.nodes| && v in g.nodes[c];
      assert multiset(g.nodes[c])[v] == (if v < |refs| && refs[v] == c then 1 else 0);
    }
  }
}
