/**
 `GameWorld`: the entity store with its spatial index, the largest collision
 radius seen so far, the `u32` sequence counter feeding the random draws, the
 keyboard state, the sticky exit flag, the controlled entity and the
 fixed-tick clock. Resources, wall-clock instants and the render flag are not
 part of this model.
 */
module World {
  import opened Base
  import opened Spatial
  import opened Store
  import opened Input
  import opened Clock
  import opened Rng

  /** Cells per axis of the grid built by `GameWorld::new`. */
  const GRID_DIM: nat := 25

  datatype World = World(
    seed: nat,
    sequence: nat,
    maxRadius: real,
    store: seq<GameObject>,
    grid: Grid,
    input: InputManager,
    exitReady: bool,
    control: Option<nat>,
    clock: Clock)

  /**
   What every operation of the world keeps: the index and the entities'
   back-references agree, the counters fit their Rust widths, the
   controlled entity exists, the clock names its current tick, and
   `max_radius` bounds every collision radius (which the probes of
   `add_object` and `detect_collisions` rely on).
   */
  ghost predicate Valid(w: World) {
    && Consistent(w.grid, Refs(w.store))
    && w.grid.dim == GRID_DIM
    && w.seed < U64_LIMIT
    && w.sequence < U32_LIMIT
    && (w.control.Some? ==> w.control.value < |w.store|)
    && Synced(w.clock)
    && 0.0 <= w.maxRadius
    && forall i :: 0 <= i < |w.store| ==> w.store[i].radius <= w.maxRadius
  }

  /**
   `GameWorld::new(seed, extent)`: an empty store, a fresh 25 x 25 grid over
   `[-extent, extent]^2`, the counter at 0, no key down, no exit request,
   no controlled entity, the clock at 0.
   */
  function NewWorld(seed: nat, extent: real): (w: World)
    requires seed < U64_LIMIT && 0.0 < extent
    ensures Valid(w)
    ensures |w.store| == 0 && w.sequence == 0 && w.maxRadius == 0.0
    ensures w.grid.extent == extent && !w.exitReady && w.control.None?
    ensures forall k :: !IsDown(w.input, k) && !HasMake(w.input, k) && !HasBreak(w.input, k)
  {
    NewGridConsistent(GRID_DIM, extent, []);
    World(seed, 0, 0.0, [], NewGrid(GRID_DIM, extent), NewInput(), false, None, NewClock())
  }

  /**
   `set_control_object`. The source accepts any id and the next tick's
   `get_mut` panics on one past the end; here the id must name an entity.
   */
  function SetControl(w: World, id: nat): (r: World)
    requires Valid(w) && id < |w.store|
    ensures Valid(r) && r.control == Some(id)
    ensures r.(control := w.control) == w
  {
    w.(control := Some(id))
  }

  /** `handle_device_event`: the event goes to the input manager and nothing else changes. */
  function HandleKey(w: World, e: KeyEvent): (r: World)
    requires Valid(w)
    ensures Valid(r)
    ensures r.(input := w.input) == w
    ensures forall k :: IsDown(r.input, k) <==> if k == e.key then e.pressed else IsDown(w.input, k)
  {
    w.(input := Input.Input(w.input, e))
  }

  /**
   `dist < min_dist` with `dist = (p - q).length()`, stated without the
   square root: a length is never negative, so it lies below `m` exactly
   when `m` is positive and the squared distance lies below `m * m`.
   */
  predicate Touching(p: Vec2, q: Vec2, m: real) {
    0.0 < m && (p.x - q.x) * (p.x - q.x) + (p.y - q.y) * (p.y - q.y) < m * m
  }

  /**
   `Range<Vec2>::hash_rand(seed, seq)`: a position drawn from the range
   `start..end` by the hash of the sequence number. The floating-point
   mapping (and the seed it closes over) is supplied by the caller.
   */
  type Picker = (Vec2, Vec2, nat) -> Vec2
}
