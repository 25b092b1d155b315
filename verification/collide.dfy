/**
 `detect_collisions`: every pair `find_neighbors` reports whose discs
 overlap becomes a body–body contact, then four probes along the arena's
 walls turn every visited body that crosses a wall into a boundary contact.
 The contact point and normal of a body–body contact (`normalize`) and its
 depth (through `length`) are floating-point geometry supplied by the
 caller; the overlap test and the boundary contacts are exact.
 */
module Collide {
  import opened Base
  import opened Spatial
  import opened Probe
  import opened Neighbors
  import opened Store
  import opened World
  import opened Resolve

  /**
   The point, normal and depth of a contact between two overlapping
   bodies, in `detect_collisions`'s floating-point arithmetic.
   */
  type Geometry = (GameObject, GameObject) -> (Vec2, Vec2, real)

  /** The two ids of every contact, in order. */
  function Parties(cs: seq<Contact>): (r: seq<(nat, Option<nat>)>)
    ensures |r| == |cs|
    ensures forall i :: 0 <= i < |cs| ==> r[i] == (cs[i].id1, cs[i].id2)
  {
    seq(|cs|, i requires 0 <= i < |cs| => (cs[i].id1, cs[i].id2))
  }

  lemma PartiesConcat(a: seq<Contact>, b: seq<Contact>)
    ensures Parties(a + b) == Parties(a) + Parties(b)
  {
  }

  /** Every pair names two distinct entities of the store. */
  predicate PairsIn(s: seq<GameObject>, pairs: seq<Pair>) {
    forall i :: 0 <= i < |pairs| ==> pairs[i].0 < |s| && pairs[i].1 < |s| && pairs[i].0 != pairs[i].1
  }

  /** `dist < min_dist` for two entities. */
  predicate Overlap(a: GameObject, b: GameObject) {
    Touching(a.body.pos, b.body.pos, a.radius + b.radius)
  }

  /** The callback of `find_neighbors` in `detect_collisions`, over the reported pairs in order. */
  function CircleContacts(s: seq<GameObject>, pairs: seq<Pair>, geometry: Geometry): (cs: seq<Contact>)
    requires PairsIn(s, pairs)
    ensures ValidContacts(s, cs)
    decreases |pairs|
  {
    if |pairs| == 0 then []
    else
      var rest := CircleContacts(s, pairs[..|pairs| - 1], geometry);
      var (a, b) := pairs[|pairs| - 1];
      if Overlap(s[a], s[b]) then
        var (pos, normal, depth) := geometry(s[a], s[b]);
        rest + [Contact(a, Some(b), pos, normal, depth)]
      else rest
  }

  /**
   A body–body contact `(a, b)` is produced once for every time the pair is
   reported, when the two discs overlap, and never otherwise.
   */
  lemma {:induction false} CircleContactsCount(s: seq<GameObject>, pairs: seq<Pair>, geometry: Geometry, a: nat, b: nat)
    requires PairsIn(s, pairs) && a < |s| && b < |s|
    ensures Count(Parties(CircleContacts(s, pairs, geometry)), (a, Some(b)))
            == if Overlap(s[a], s[b]) then Count(pairs, (a, b)) else 0
    decreases |pairs|
  {
    if |pairs| > 0 {
      var init := pairs[..|pairs| - 1];
      CircleContactsCount(s, init, geometry, a, b);
      var rest := CircleContacts(s, init, geometry);
      var (x, y) := pairs[|pairs| - 1];
      if Overlap(s[x], s[y]) {
        var (pos, normal, depth) := geometry(s[x], s[y]);
        PartiesConcat(rest, [Contact(x, Some(y), pos, normal, depth)]);
        var ps := Parties(rest) + [(x, Some(y))];
        assert ps[..|ps| - 1] == Parties(rest);
      }
    }
  }

  /** The four walls of the arena, in the order `detect_collisions` probes them. */
  datatype Wall = Top | Bottom | Left | Right

  /** The outward unit normal of a wall. */
  function WallNormal(w: Wall): Vec2 {
    match w
    case Top => Vec2(0.0, -1.0)
    case Bottom => Vec2(0.0, 1.0)
    case Left => Vec2(-1.0, 0.0)
    case Right => Vec2(1.0, 0.0)
  }

  function Dot(p: Vec2, q: Vec2): real {
    p.x * q.x + p.y * q.y
  }

  function Scale(k: real, p: Vec2): Vec2 {
    Vec2(k * p.x, k * p.y)
  }

  /** How far a body reaches in direction `n`: the farthest point of its disc along `n`. */
  function Reach(o: GameObject, n: Vec2): real {
    Dot(o.body.pos, n) + o.radius
  }

  /**
   The test and contact of one wall probe for the body `o` with id `id` in
   the arena `[-extent, extent]^2`. A contact is produced exactly when the
   body reaches past the wall, and its depth, always positive, is how far.
   The contact point lies on the wall
   line, and pushed by the depth along the normal it is the body's farthest
   point beyond the wall.
   */
  function WallContact(o: GameObject, id: nat, extent: real, w: Wall): (r: Option<Contact>)
    ensures r.Some? <==> extent < Reach(o, WallNormal(w))
    ensures r.Some? ==>
              var c := r.value;
              && c.id1 == id && c.id2.None? && c.normal == WallNormal(w)
              && c.depth == Reach(o, WallNormal(w)) - extent && 0.0 < c.depth
              && Dot(c.pos, c.normal) == extent
              && c.pos.Add(Scale(c.depth, c.normal)) == o.body.pos.Add(Scale(o.radius, c.normal))
  {
    var p := o.body.pos;
    var rad := o.radius;
    match w
    case Top =>
      if p.y - rad < -extent
      then Some(Contact(id, None, Vec2(p.x, -extent), Vec2(0.0, -1.0), -extent - (p.y - rad)))
      else None
    case Bottom =>
      if p.y + rad > extent
      then Some(Contact(id, None, Vec2(p.x, extent), Vec2(0.0, 1.0), (p.y + rad) - extent))
      else None
    case Left =>
      if p.x - rad < -extent
      then Some(Contact(id, None, Vec2(-extent, p.y), Vec2(-1.0, 0.0), -extent - (p.x - rad)))
      else None
    case Right =>
      if p.x + rad > extent
      then Some(Contact(id, None, Vec2(extent, p.y), Vec2(1.0, 0.0), (p.x + rad) - extent))
      else None
  }

  /** Every id names an entity of the store. */
  predicate IdsIn(s: seq<GameObject>, ids: seq<nat>) {
    forall i :: 0 <= i < |ids| ==> ids[i] < |s|
  }

  /** The visitor of one wall probe, over the visited ids in order. */
  function WallContacts(s: seq<GameObject>, ids: seq<nat>, extent: real, w: Wall): (cs: seq<Contact>)
    requires IdsIn(s, ids)
    ensures ValidContacts(s, cs)
    decreases |ids|
  {
    if |ids| == 0 then []
    else
      var rest := WallContacts(s, ids[..|ids| - 1], extent, w);
      var id := ids[|ids| - 1];
      match WallContact(s[id], id, extent, w)
      case None => rest
      case Some(c) => rest + [c]
  }

  /** A wall probe produces one boundary contact for `e` per visit of `e`, when `e` crosses that wall. */
  lemma {:induction false} WallContactsCount(s: seq<GameObject>, ids: seq<nat>, extent: real, w: Wall, e: nat)
    requires IdsIn(s, ids) && e < |s|
    ensures Count(Parties(WallContacts(s, ids, extent, w)), (e, None))
            == if extent < Reach(s[e], WallNormal(w)) then Count(ids, e) else 0
    decreases |ids|
  {
    if |ids| > 0 {
      var init := ids[..|ids| - 1];
      WallContactsCount(s, init, extent, w, e);
      var rest := WallContacts(s, init, extent, w);
      var id := ids[|ids| - 1];
      match WallContact(s[id], id, extent, w)
      case None =>
      case Some(c) =>
        PartiesConcat(rest, [c]);
        var ps := Parties(rest) + [(c.id1, c.id2)];
        assert ps[..|ps| - 1] == Parties(rest);
    }
  }

  /** Body–body contacts never look like boundary contacts. */
  lemma {:induction false} CircleContactsNoWall(s: seq<GameObject>, pairs: seq<Pair>, geometry: Geometry, e: nat)
    requires PairsIn(s, pairs)
    ensures Count(Parties(CircleContacts(s, pairs, geometry)), (e, None)) == 0
    decreases |pairs|
  {
    if |pairs| > 0 {
      var init := pairs[..|pairs| - 1];
      CircleContactsNoWall(s, init, geometry, e);
      var rest := CircleContacts(s, init, geometry);
      var (x, y) := pairs[|pairs| - 1];
      if Overlap(s[x], s[y]) {
        var (pos, normal, depth) := geometry(s[x], s[y]);
        PartiesConcat(rest, [Contact(x, Some(y), pos, normal, depth)]);
        var ps := Parties(rest) + [(x, Some(y))];
        assert ps[..|ps| - 1] == Parties(rest);
      }
    }
  }

  /** Boundary contacts never look like body–body contacts. */
  lemma {:induction false} WallContactsNoPair(s: seq<GameObject>, ids: seq<nat>, extent: real, w: Wall, a: nat, b: nat)
    requires IdsIn(s, ids)
    ensures Count(Parties(WallContacts(s, ids, extent, w)), (a, Some(b))) == 0
    decreases |ids|
  {
    if |ids| > 0 {
      var init := ids[..|ids| - 1];
      WallContactsNoPair(s, init, extent, w, a, b);
      var rest := WallContacts(s, init, extent, w);
      var id := ids[|ids| - 1];
      match WallContact(s[id], id, extent, w)
      case None =>
      case Some(c) =>
        PartiesConcat(rest, [c]);
        var ps := Parties(rest) + [(c.id1, c.id2)];
        assert ps[..|ps| - 1] == Parties(rest);
    }
  }

  /**
   The probe range of each wall: the wall's segment between two corners of
   the arena (`ul..ur`, `ll..lr`, `ul..ll`, `ur..lr`).
   */
  function WallSegment(g: Grid, w: Wall): (Vec2, Vec2) {
    var e := g.extent;
    match w
    case Top => (Vec2(-e, -e), Vec2(e, -e))
    case Bottom => (Vec2(-e, e), Vec2(e, e))
    case Left => (Vec2(-e, -e), Vec2(-e, e))
    case Right => (Vec2(e, -e), Vec2(e, e))
  }

  /** The cells a wall probe covers, widened by `max_radius`. */
  function WallBounds(g: Grid, maxRadius: real, w: Wall): (b: CellRect)
    requires g.Valid()
    ensures b.maxx < g.dim && b.maxy < g.dim
  {
    ProbeBounds(g, WallSegment(g, w).0, WallSegment(g, w).1, maxRadius)
  }

  /** The ids one wall probe visits, every one naming an entity of the store. */
  function WallVisits(s: seq<GameObject>, g: Grid, maxRadius: real, w: Wall): (vs: seq<nat>)
    requires Consistent(g, Refs(s))
    ensures IdsIn(s, vs)
  {
    ProbeVisitsRegistered(g, Refs(s), WallBounds(g, maxRadius, w));
    ProbeVisits(g, WallBounds(g, maxRadius, w))
  }

  /** The boundary contacts of one wall. */
  function WallProbe(s: seq<GameObject>, g: Grid, maxRadius: real, w: Wall): (cs: seq<Contact>)
    requires Consistent(g, Refs(s))
    ensures ValidContacts(s, cs)
  {
    WallContacts(s, WallVisits(s, g, maxRadius, w), g.extent, w)
  }

  /** Every pair `find_neighbors` reports names two distinct entities of the store. */
  lemma NeighborPairsIn(s: seq<GameObject>, g: Grid, n: nat)
    requires Consistent(g, Refs(s))
    ensures PairsIn(s, NeighborPairs(g, n))
  {
    var pairs := NeighborPairs(g, n);
    forall i | 0 <= i < |pairs|
      ensures pairs[i].0 < |s| && pairs[i].1 < |s| && pairs[i].0 != pairs[i].1
    {
      ReportedPairsAreDistinct(g, Refs(s), n, pairs[i]);
    }
  }

  /** The body–body contacts of `detect_collisions`. */
  function PairContacts(s: seq<GameObject>, g: Grid, maxRadius: real, geometry: Geometry): (cs: seq<Contact>)
    requires Consistent(g, Refs(s))
    ensures ValidContacts(s, cs)
  {
    NeighborPairsIn(s, g, NumCheckNodes(g, maxRadius));
    CircleContacts(s, NeighborPairs(g, NumCheckNodes(g, maxRadius)), geometry)
  }

  /**
   `detect_collisions`: the body–body contacts, then the boundary contacts
   of the top, bottom, left and right walls. Every contact names entities
   of the store, and a body–body contact two distinct ones, so
   `resolve_collisions` can look all of them up.
   */
  function Contacts(s: seq<GameObject>, g: Grid, maxRadius: real, geometry: Geometry): (cs: seq<Contact>)
    requires Consistent(g, Refs(s))
    ensures ValidContacts(s, cs)
  {
    var pc := PairContacts(s, g, maxRadius, geometry);
    var t, b := WallProbe(s, g, maxRadius, Top), WallProbe(s, g, maxRadius, Bottom);
    var l, r := WallProbe(s, g, maxRadius, Left), WallProbe(s, g, maxRadius, Right);
    ValidContactsConcat(s, pc, t);
    ValidContactsConcat(s, pc + t, b);
    ValidContactsConcat(s, pc + t + b, l);
    ValidContactsConcat(s, pc + t + b + l, r);
    pc + t + b + l + r
  }

  lemma ValidContactsConcat(s: seq<GameObject>, a: seq<Contact>, b: seq<Contact>)
    requires ValidContacts(s, a) && ValidContacts(s, b)
    ensures ValidContacts(s, a + b)
  {
  }

  /** Entity `e` is registered in a cell the probe of wall `w` covers. */
  ghost predicate Covered(s: seq<GameObject>, g: Grid, maxRadius: real, w: Wall, e: nat)
    requires g.Valid()
  {
    var b := WallBounds(g, maxRadius, w);
    && e < |s| && s[e].spatialRef != INVALID && s[e].spatialRef < |g.nodes|
    && b.minx <= Column(g, s[e].spatialRef) <= b.maxx
    && b.miny <= Row(g, s[e].spatialRef) <= b.maxy
  }

  /** 1 when entity `e` crosses wall `w` and the wall's probe visits it, else 0. */
  ghost function Hit(s: seq<GameObject>, g: Grid, maxRadius: real, w: Wall, e: nat): nat
    requires g.Valid() && e < |s|
  {
    if Covered(s, g, maxRadius, w, e) && g.extent < Reach(s[e], WallNormal(w)) then 1 else 0
  }

  /** One wall's share of the boundary contacts of `e`. */
  lemma WallProbeCount(s: seq<GameObject>, g: Grid, maxRadius: real, w: Wall, e: nat)
    requires Consistent(g, Refs(s)) && e < |s|
    ensures Count(Parties(WallProbe(s, g, maxRadius, w)), (e, None)) == Hit(s, g, maxRadius, w, e)
  {
    var seg := WallSegment(g, w);
    WallContactsCount(s, WallVisits(s, g, maxRadius, w), g.extent, w, e);
    ProbeVisitsEachCoveredEntityOnce(g, Refs(s), seg.0, seg.1, maxRadius, e);
  }

  /**
   Boundary contacts of `detect_collisions`: an entity gets one for each
   wall it crosses whose probe covers the cell it is registered in (a body
   in a corner can get two), and none for a wall it does not cross. A body
   registered away from the walls gets none even when it crosses one.
   */
  lemma WallContactsOf(s: seq<GameObject>, g: Grid, maxRadius: real, geometry: Geometry, e: nat)
    requires Consistent(g, Refs(s)) && e < |s|
    ensures Count(Parties(Contacts(s, g, maxRadius, geometry)), (e, None))
            == Hit(s, g, maxRadius, Top, e) + Hit(s, g, maxRadius, Bottom, e)
               + Hit(s, g, maxRadius, Left, e) + Hit(s, g, maxRadius, Right, e)
  {
    var pc := PairContacts(s, g, maxRadius, geometry);
    var t, b := WallProbe(s, g, maxRadius, Top), WallProbe(s, g, maxRadius, Bottom);
    var l, r := WallProbe(s, g, maxRadius, Left), WallProbe(s, g, maxRadius, Right);
    NeighborPairsIn(s, g, NumCheckNodes(g, maxRadius));
    CircleContactsNoWall(s, NeighborPairs(g, NumCheckNodes(g, maxRadius)), geometry, e);
    WallProbeCount(s, g, maxRadius, Top, e);
    WallProbeCount(s, g, maxRadius, Bottom, e);
    WallProbeCount(s, g, maxRadius, Left, e);
    WallProbeCount(s, g, maxRadius, Right, e);
    SplitCount5(pc, t, b, l, r, (e, None));
  }

  /**
   Body–body contacts of `detect_collisions`: `(a, b)` occurs once for every
   time `find_neighbors` reports the pair, when the discs overlap, and
   never otherwise.
   */
  lemma PairContactsOf(s: seq<GameObject>, g: Grid, maxRadius: real, geometry: Geometry, a: nat, b: nat)
    requires Consistent(g, Refs(s)) && a < |s| && b < |s|
    ensures Count(Parties(Contacts(s, g, maxRadius, geometry)), (a, Some(b)))
            == if Overlap(s[a], s[b]) then Count(NeighborPairs(g, NumCheckNodes(g, maxRadius)), (a, b)) else 0
  {
    var pc := PairContacts(s, g, maxRadius, geometry);
    var t, bo := WallProbe(s, g, maxRadius, Top), WallProbe(s, g, maxRadius, Bottom);
    var l, r := WallProbe(s, g, maxRadius, Left), WallProbe(s, g, maxRadius, Right);
    NeighborPairsIn(s, g, NumCheckNodes(g, maxRadius));
    CircleContactsCount(s, NeighborPairs(g, NumCheckNodes(g, maxRadius)), geometry, a, b);
    WallContactsNoPair(s, WallVisits(s, g, maxRadius, Top), g.extent, Top, a, b);
    WallContactsNoPair(s, WallVisits(s, g, maxRadius, Bottom), g.extent, Bottom, a, b);
    WallContactsNoPair(s, WallVisits(s, g, maxRadius, Left), g.extent, Left, a, b);
    WallContactsNoPair(s, WallVisits(s, g, maxRadius, Right), g.extent, Right, a, b);
    SplitCount5(pc, t, bo, l, r, (a, Some(b)));
  }

  /** Counting over the five parts of the contact list. */
  lemma SplitCount5(p: seq<Contact>, t: seq<Contact>, b: seq<Contact>, l: seq<Contact>, r: seq<Contact>, x: (nat, Option<nat>))
    ensures Count(Parties(p + t + b + l + r), x)
            == Count(Parties(p), x) + Count(Parties(t), x) + Count(Parties(b), x)
               + Count(Parties(l), x) + Count(Parties(r), x)
  {
    PartiesConcat(p + t + b + l, r);
    PartiesConcat(p + t + b, l);
    PartiesConcat(p + t, b);
    PartiesConcat(p, t);
    CountConcat(Parties(p + t + b + l), Parties(r), x);
    CountConcat(Parties(p + t + b), Parties(l), x);
    CountConcat(Parties(p + t), Parties(b), x);
    CountConcat(Parties(p), Parties(t), x);
  }

  /**
   Two overlapping bodies registered in one cell meet in exactly one
   contact, the smaller id first.
   */
  lemma SameCellContactOnce(s: seq<GameObject>, g: Grid, maxRadius: real, geometry: Geometry, a: nat, b: nat)
    requires Consistent(g, Refs(s)) && a < b < |s|
    requires s[a].spatialRef != INVALID && s[a].spatialRef == s[b].spatialRef && Overlap(s[a], s[b])
    ensures Count(Parties(Contacts(s, g, maxRadius, geometry)), (a, Some(b))) == 1
    ensures Count(Parties(Contacts(s, g, maxRadius, geometry)), (b, Some(a))) == 0
  {
    PairContactsOf(s, g, maxRadius, geometry, a, b);
    PairContactsOf(s, g, maxRadius, geometry, b, a);
    SameCellReportedOnce(g, Refs(s), NumCheckNodes(g, maxRadius), a, b);
  }

  /**
   Two overlapping bodies registered in one column but different rows, at
   most `num_check_nodes` rows apart, meet in two contacts, one in each
   order: the duplicate contacts `resolve_collisions` has to tolerate.
   */
  lemma SameColumnContactTwice(s: seq<GameObject>, g: Grid, maxRadius: real, geometry: Geometry, a: nat, b: nat)
    requires Consistent(g, Refs(s)) && a < |s| && b < |s|
    requires s[a].spatialRef != INVALID && s[b].spatialRef != INVALID && Overlap(s[a], s[b])
    requires Column(g, s[a].spatialRef) == Column(g, s[b].spatialRef)
    requires Row(g, s[a].spatialRef) < Row(g, s[b].spatialRef) <= Row(g, s[a].spatialRef) + NumCheckNodes(g, maxRadius)
    ensures Count(Parties(Contacts(s, g, maxRadius, geometry)), (a, Some(b))) == 1
    ensures Count(Parties(Contacts(s, g, maxRadius, geometry)), (b, Some(a))) == 1
  {
    PairContactsOf(s, g, maxRadius, geometry, a, b);
    PairContactsOf(s, g, maxRadius, geometry, b, a);
    assert Overlap(s[b], s[a]);
    SameColumnReportedTwice(g, Refs(s), NumCheckNodes(g, maxRadius), a, b);
  }
}
