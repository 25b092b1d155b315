/**
 Placing new objects: `add_object` draws a position, then probes the grid
 for an overlapping body, redrawing up to `retry_checks` times, and inserts
 the object and registers it in the grid; `add_ship`, `add_asteroid` and
 `add_air_pod` build the object first and call it with ten retries.
 */
module Spawn {
  import opened Base
  import opened Spatial
  import opened Probe
  import opened Store
  import opened Clock
  import opened Rng
  import opened World

  /** The air a new ship starts with: one minute of ticks. */
  const SHIP_AIR: nat := TICKS_PER_SECOND * 60

  /** The air of a new pod: fifteen seconds of ticks. */
  const POD_AIR: nat := TICKS_PER_SECOND * 15

  /** `std::f64::consts::PI`, the heading of a new ship. */
  const PI: real := 3.141592653589793

  /**
   `GameObject::new_ship`: a ship at the origin facing `PI`, with one
   minute of air, a zero score and no flame; not yet in the grid. The
   radius comes from the ship shape.
   */
  function NewShip(radius: real): (o: GameObject)
    ensures o.kind == Ship && o.radius == radius && o.spatialRef == INVALID
    ensures o.air == Some(1800) && o.score == Some(0) && !o.animated
    ensures o.body.pos == ORIGIN && o.body.rotation == PI
  {
    GameObject(Ship, Body(ORIGIN, ORIGIN, PI, 0.0), radius, INVALID, Some(SHIP_AIR), Some(0), false)
  }

  /**
   `GameObject::new_air_pod`: a pod at the origin holding fifteen seconds of
   air, animated, without a score; not yet in the grid.
   */
  function NewAirPod(radius: real): (o: GameObject)
    ensures o.kind == AirPod && o.radius == radius && o.spatialRef == INVALID
    ensures o.air == Some(450) && o.score.None? && o.animated
  {
    GameObject(AirPod, Body(ORIGIN, ORIGIN, 0.0, 0.0), radius, INVALID, Some(POD_AIR), None, true)
  }

  /**
   `GameObject::new_asteroid`: the shape is `(0..6).hash_rand(..)` on the
   hash `h`, which always names one of the six shapes, so the `panic!` arm
   is never taken; the radius is that shape's (`radiusOf`) and the
   velocity and spin are the floating-point draws `vel` and `angVel`. No
   air, no score, not yet in the grid.
   */
  function NewAsteroid(h: nat, radiusOf: AsteroidShape -> real, vel: Vec2, angVel: real): (o: GameObject)
    requires h < U64_LIMIT
    ensures o.kind == Asteroid && o.spatialRef == INVALID
    ensures o.air.None? && o.score.None? && !o.animated
    ensures AsteroidShapeOf(HashRandU32(h, 0, 6)).Some?
            && o.radius == radiusOf(AsteroidShapeOf(HashRandU32(h, 0, 6)).value)
    ensures o.body.vel == vel && o.body.angVel == angVel
  {
    AsteroidChoiceNeverPanics(h, SmallAsteroid1);
    var shape := AsteroidShapeOf(HashRandU32(h, 0, 6)).value;
    GameObject(Asteroid, Body(ORIGIN, vel, 0.0, angVel), radiusOf(shape), INVALID, None, None, false)
  }

  /**
   The position range of `add_object`: the requested range intersected with
   the arena `[-extent, extent]^2` shrunk by the object's radius on every
   side, so that a drawn position keeps the whole body inside the arena.
   */
  function SpawnRange(g: Grid, start: Vec2, end: Vec2, radius: real): (r: (Vec2, Vec2))
    ensures r.0.x >= start.x && r.0.x >= radius - g.extent && (r.0.x == start.x || r.0.x == radius - g.extent)
    ensures r.0.y >= start.y && r.0.y >= radius - g.extent && (r.0.y == start.y || r.0.y == radius - g.extent)
    ensures r.1.x <= end.x && r.1.x <= g.extent - radius && (r.1.x == end.x || r.1.x == g.extent - radius)
    ensures r.1.y <= end.y && r.1.y <= g.extent - radius && (r.1.y == end.y || r.1.y == g.extent - radius)
  {
    var lo := radius - g.extent;
    var hi := g.extent - radius;
    (Vec2(Max(start.x, lo), Max(start.y, lo)), Vec2(MinReal(end.x, hi), MinReal(end.y, hi)))
  }

  /** The probe window of the occupancy test: the object's bounding square. */
  function ProbeWindow(g: Grid, o: GameObject, maxRadius: real): (b: CellRect)
    requires g.Valid()
    ensures b.maxx < g.dim && b.maxy < g.dim
  {
    var p := o.body.pos;
    ProbeBounds(g, Vec2(p.x - o.radius, p.y - o.radius), Vec2(p.x + o.radius, p.y + o.radius), maxRadius)
  }

  /**
   The occupancy test of `add_object`: some entity the probe around the
   object's bounding square visits (the window widened by `max_radius`)
   is closer to it than the sum of the two radii.
   */
  predicate Occupied(s: seq<GameObject>, g: Grid, maxRadius: real, o: GameObject)
    requires Consistent(g, Refs(s))
  {
    var vs := ProbeVisits(g, ProbeWindow(g, o, maxRadius));
    ProbeVisitsRegistered(g, Refs(s), ProbeWindow(g, o, maxRadius));
    exists j :: 0 <= j < |vs| && Touching(o.body.pos, s[vs[j]].body.pos, o.radius + s[vs[j]].radius)
  }

  /**
   The probe of `add_object`: the visitor looks every visited id up in the
   store and raises the flag on an overlap; it does not stop early.
   */
  method CheckOccupied(s: seq<GameObject>, g: Grid, maxRadius: real, o: GameObject) returns (occupied: bool)
    requires Consistent(g, Refs(s))
    ensures occupied <==> Occupied(s, g, maxRadius, o)
  {
    var p := o.body.pos;
    var visits := ProbeRange(g, Vec2(p.x - o.radius, p.y - o.radius), Vec2(p.x + o.radius, p.y + o.radius), maxRadius);
    ProbeVisitsRegistered(g, Refs(s), ProbeWindow(g, o, maxRadius));
    occupied := false;
    var i := 0;
    while i < |visits|
      invariant i <= |visits|
      invariant occupied <==> exists j :: 0 <= j < i && Touching(p, s[visits[j]].body.pos, o.radius + s[visits[j]].radius)
    {
      var other := s[visits[i]];
      if Touching(p, other.body.pos, o.radius + other.radius) {
        occupied := true;
      }
      i := i + 1;
    }
  }

  /** The occupancy test reads only the object's position and radius. */
  lemma OccupiedReadsPlace(s: seq<GameObject>, g: Grid, maxRadius: real, o: GameObject, o': GameObject)
    requires Consistent(g, Refs(s)) && o.body.pos == o'.body.pos && o.radius == o'.radius
    ensures Occupied(s, g, maxRadius, o) == Occupied(s, g, maxRadius, o')
  {
  }

  /** A collision test for candidate placements. */
  type Occupancy = GameObject -> bool

  /** The radius bound after `add_object` has seen `obj`. */
  function RaisedRadius(w: World, obj: GameObject): real {
    if obj.radius > w.maxRadius then obj.radius else w.maxRadius
  }

  /**
   The test `add_object` runs for `obj`: `Occupied` against the current
   store and grid, with `max_radius` already raised to `obj`'s radius.
   */
  function ProbeOccupancy(w: World, obj: GameObject): (occ: Occupancy)
    requires Valid(w)
    ensures forall o :: occ(o) == Occupied(w.store, w.grid, RaisedRadius(w, obj), o)
  {
    o => Occupied(w.store, w.grid, RaisedRadius(w, obj), o)
  }

  /** The object as placed by attempt `j`: at the position drawn with the `j`-th sequence number. */
  function Attempt(w: World, obj: GameObject, start: Vec2, end: Vec2, pick: Picker, j: nat): (o: GameObject)
    ensures o.(body := obj.body) == obj
    ensures o.body.(pos := obj.body.pos) == obj.body
  {
    var (lo, hi) := SpawnRange(w.grid, start, end, obj.radius);
    obj.(body := obj.body.(pos := pick(lo, hi, NthDraw(w.sequence, j))))
  }

  /** Attempts `0` to `n - 1` of placing `obj` all collide. */
  ghost predicate AllCollide(w: World, obj: GameObject, start: Vec2, end: Vec2, pick: Picker, occupied: Occupancy, n: nat) {
    forall j :: 0 <= j < n ==> occupied(Attempt(w, obj, start, end, pick, j))
  }

  /** The outcome of the retry loop of `add_object`: give up, or the object at its final position. */
  datatype Placement = Dropped | Placed(o: GameObject)

  /**
   The retry loop of `add_object`: check attempt after attempt until one is
   free; after the last check collides, give up unless `add_anyway`, in
   which case one more position is drawn and kept unchecked. Returns the
   counter after the draws and the attempt `k` the loop ended on.
   */
  method FindPlace(w: World, obj: GameObject, start: Vec2, end: Vec2, retry: nat, addAnyway: bool, pick: Picker,
                   occupied: Occupancy)
      returns (sq: nat, p: Placement, ghost k: nat)
    requires w.sequence < U32_LIMIT
    ensures sq < U32_LIMIT
    ensures p.Dropped? ==> !addAnyway && 1 <= retry
    ensures p.Placed? ==> p.o.(body := obj.body) == obj && p.o.body.(pos := obj.body.pos) == obj.body
    ensures k <= retry && sq == NthDraw(w.sequence, k)
    ensures AllCollide(w, obj, start, end, pick, occupied, k)
    ensures p.Dropped? ==> !addAnyway && 1 <= retry && k == retry - 1 && occupied(Attempt(w, obj, start, end, pick, k))
    ensures p.Placed? ==> p.o == Attempt(w, obj, start, end, pick, k)
    ensures p.Placed? && k < retry ==> !occupied(Attempt(w, obj, start, end, pick, k))
    ensures p.Placed? && k == retry ==> addAnyway || retry == 0
  {
    var (lo, hi) := SpawnRange(w.grid, start, end, obj.radius);
    var (sq0, v) := GetSequence(w.sequence);
    NthDrawStep(w.sequence, 0);
    sq := sq0;
    var o := obj.(body := obj.body.(pos := pick(lo, hi, v)));
    k := 0;
    var i := 1;
    var free := false;
    while i <= retry && !free
      invariant 1 <= i <= retry + 1 && k == i - 1
      invariant sq == NthDraw(w.sequence, k) && o == Attempt(w, obj, start, end, pick, k)
      invariant AllCollide(w, obj, start, end, pick, occupied, k)
      invariant free ==> i <= retry && !occupied(o)
      invariant i == retry + 1 && 1 <= retry ==> addAnyway
      decreases retry + 1 - i, if free then 0 else 1
    {
      if !occupied(o) {
        free := true;
      } else {
        if i == retry && !addAnyway {
          return sq, Dropped, k;
        }
        NthDrawStep(w.sequence, k);
        var (sq', v') := GetSequence(sq);
        sq := sq';
        o := obj.(body := obj.body.(pos := pick(lo, hi, v')));
        k := k + 1;
        i := i + 1;
      }
    }
    p := Placed(o);
  }

  /**
   `add_object`, with `occupied` the probe test it runs (`ProbeOccupancy`).
   `max_radius` is raised to the object's radius before it is known
   whether the object will be added, and every draw advances the sequence
   counter, so both changes survive a `None`. Attempt `k` is the one kept:
   - `None` exactly when `add_anyway` is off, there is at least one check
     and every checked attempt collided; the store and grid are untouched;
   - otherwise the object is appended with the old length as its id and
     registered in the cell of its position; it is either the first
     attempt that did not collide or, when all `retry_checks` attempts
     collided and `add_anyway` is on (or there are no checks at all), one
     more draw that is never checked.
   */
  method AddObject(w: World, obj: GameObject, start: Vec2, end: Vec2, retry: nat, addAnyway: bool, pick: Picker,
                   occupied: Occupancy)
      returns (w': World, id: Option<nat>, ghost k: nat)
    requires Valid(w) && obj.spatialRef == INVALID
    ensures Valid(w')
    ensures w'.maxRadius == Max(w.maxRadius, obj.radius)
    ensures w'.(sequence := w.sequence, maxRadius := w.maxRadius, store := w.store, grid := w.grid) == w
    ensures k <= retry && w'.sequence == NthDraw(w.sequence, k)
    ensures AllCollide(w, obj, start, end, pick, occupied, k)
    ensures id.None? <==> !addAnyway && 1 <= retry && AllCollide(w, obj, start, end, pick, occupied, retry)
    ensures id.None? ==> w'.store == w.store && w'.grid == w.grid
    ensures id.Some? && k < retry ==> !occupied(Attempt(w, obj, start, end, pick, k))
    ensures id.Some? && k == retry ==> addAnyway || retry == 0
    ensures id.Some? ==>
              var o := Attempt(w, obj, start, end, pick, k);
              && id.value == |w.store|
              && w'.store == w.store + [o.(spatialRef := CellOf(w.grid, o.body.pos))]
              && w'.grid == Update(w.grid, |w.store|, o.body.pos, INVALID).0
  {
    var maxRadius := RaisedRadius(w, obj);
    var sq, p;
    sq, p, k := FindPlace(w, obj, start, end, retry, addAnyway, pick, occupied);
    if p.Dropped? {
      w' := w.(sequence := sq, maxRadius := maxRadius);
      id := None;
    } else {
      var o := p.o;
      var (s1, nid) := Insert(w.store, o);
      var (g1, r) := Update(w.grid, nid, o.body.pos, o.spatialRef);
      AppendPreservesConsistency(w.grid, Refs(w.store), o.body.pos);
      var s2 := s1[nid := o.(spatialRef := r)];
      assert Refs(s2) == Refs(w.store) + [r];
      w' := w.(sequence := sq, maxRadius := maxRadius, store := s2, grid := g1);
      id := Some(nid);
    }
  }

  /**
   `add_ship`: one sequence number for the ship itself, then `add_object`
   with ten checks and `add_anyway`, so the `unwrap` never fails: the ship
   always gets the next id, even when all ten positions collide.
   */
  method AddShip(w: World, start: Vec2, end: Vec2, radius: real, pick: Picker) returns (w': World, id: nat)
    requires Valid(w)
    ensures Valid(w') && id == |w.store| && |w'.store| == |w.store| + 1
    ensures w'.store[..id] == w.store
    ensures w'.store[id].kind == Ship && w'.store[id].air == Some(SHIP_AIR) && w'.store[id].score == Some(0)
    ensures w'.maxRadius == Max(w.maxRadius, radius)
  {
    var (sq, _) := GetSequence(w.sequence);
    var w1 := w.(sequence := sq);
    var ship := NewShip(radius);
    var w2, r, k := AddObject(w1, ship, start, end, 10, true, pick, ProbeOccupancy(w1, ship));
    id := r.value;
    w' := w2;
    assert w'.store[..id] == w.store;
  }

  /**
   `add_air_pod`: like `add_ship`, ten checks with `add_anyway`, so the
   `unwrap` never fails.
   */
  method AddAirPod(w: World, start: Vec2, end: Vec2, radius: real, pick: Picker) returns (w': World, id: nat)
    requires Valid(w)
    ensures Valid(w') && id == |w.store| && |w'.store| == |w.store| + 1
    ensures w'.store[..id] == w.store
    ensures w'.store[id].kind == AirPod && w'.store[id].air == Some(POD_AIR)
    ensures w'.maxRadius == Max(w.maxRadius, radius)
  {
    var (sq, _) := GetSequence(w.sequence);
    var w1 := w.(sequence := sq);
    var pod := NewAirPod(radius);
    var w2, r, k := AddObject(w1, pod, start, end, 10, true, pick, ProbeOccupancy(w1, pod));
    id := r.value;
    w' := w2;
    assert w'.store[..id] == w.store;
  }

  /**
   `add_asteroid`: one sequence number `q` for the asteroid, whose shape
   hash, velocity and spin are the draws `shapeHash(q)` and `motion(q)`;
   then `add_object` with ten checks and without `add_anyway`. An asteroid
   is only ever added at a position where the probe found no overlap; it is
   dropped when all ten positions collide.
   */
  method AddAsteroid(w: World, start: Vec2, end: Vec2, shapeHash: nat -> nat, motion: nat -> (Vec2, real),
                     radiusOf: AsteroidShape -> real, pick: Picker) returns (w': World, id: Option<nat>)
    requires Valid(w)
    requires forall q :: shapeHash(q) < U64_LIMIT
    ensures Valid(w')
    ensures id.None? ==> w'.store == w.store
    ensures id.Some? ==>
              && id.value == |w.store| && |w'.store| == |w.store| + 1
              && w'.store[..id.value] == w.store
              && w'.store[id.value].kind == Asteroid
              && !Occupied(w.store, w.grid, w'.maxRadius, w'.store[id.value])
  {
    var (sq, q) := GetSequence(w.sequence);
    var w1 := w.(sequence := sq);
    var (vel, angVel) := motion(q);
    var obj := NewAsteroid(shapeHash(q), radiusOf, vel, angVel);
    var w2, r, k := AddObject(w1, obj, start, end, 10, false, pick, ProbeOccupancy(w1, obj));
    id := r;
    w' := w2;
    if id.Some? {
      assert w'.store[..id.value] == w.store;
      assert k < 10;
      var o := Attempt(w1, obj, start, end, pick, k);
      assert !ProbeOccupancy(w1, obj)(o);
      OccupiedReadsPlace(w.store, w.grid, w'.maxRadius, o, w'.store[id.value]);
    }
  }
}
