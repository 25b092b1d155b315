/**
 The fixed-tick loop of `GameWorld`: one tick steers the controlled ship,
 integrates every body and moves it in the grid, detects and resolves
 contacts, relocates a collected pod, decays the air and drops the key
 events; `update` runs as many ticks as the clock says.
 */
module Tick {
  import opened Base
  import opened Spatial
  import opened Store
  import opened Input
  import opened Clock
  import opened Rng
  import opened World
  import opened Air
  import opened Resolve
  import opened Collide

  /**
   The floating-point parts of a tick, supplied by the caller: the `% TAU`
   of `apply_rotation`, the heading vector `get_y_vector`, the damping and
   ship speed clamp of `apply_physics` (the new velocity and spin of a
   body, from its rigid-body data and type), the contact geometry, the two
   solvers of `resolve_collisions`, the position draw `hash_rand` and the
   refill of a relocated pod.
   */
  datatype Physics = Physics(
    wrap: real -> real,
    heading: real -> Vec2,
    damp: GameObject -> (Vec2, real),
    geometry: Geometry,
    impulse: Solver,
    correct: Solver,
    pick: Picker,
    refill: (Vec2, Vec2) -> nat)

  /** The cell of a position depends only on the grid's resolution and extent, not on its contents. */
  lemma CellOfReadsShape(g: Grid, g': Grid, p: Vec2)
    requires g.Valid() && g'.Valid() && g.dim == g'.dim && g.extent == g'.extent
    ensures CellOf(g, p) == CellOf(g', p)
  {
  }

  /** A body after `apply_translation(velocity)` and `apply_rotation(angular_velocity)`. */
  function Moved(b: Body, wrap: real -> real): (r: Body)
    ensures r.pos == b.pos.Add(b.vel) && r.rotation == wrap(b.rotation + b.angVel)
    ensures r.vel == b.vel && r.angVel == b.angVel
  {
    b.(pos := b.pos.Add(b.vel), rotation := wrap(b.rotation + b.angVel))
  }

  /**
   An entity after the first loop of `apply_physics`: moved, and registered
   in the cell of the position it had before the move.
   */
  function Translated(o: GameObject, g: Grid, wrap: real -> real): (r: GameObject)
    requires g.Valid()
    ensures r.body == Moved(o.body, wrap) && r.spatialRef == CellOf(g, o.body.pos)
    ensures r.(body := o.body, spatialRef := o.spatialRef) == o
  {
    o.(body := Moved(o.body, wrap), spatialRef := CellOf(g, o.body.pos))
  }

  /**
   The first loop of `apply_physics`: each body is moved, then the grid is
   told where it is, but with the position read BEFORE the move. The grid
   and the back-references agree again afterwards.
   */
  method MoveAll(s: seq<GameObject>, g: Grid, wrap: real -> real) returns (s': seq<GameObject>, g': Grid)
    requires Consistent(g, Refs(s))
    ensures Consistent(g', Refs(s')) && g'.dim == g.dim && g'.extent == g.extent
    ensures |s'| == |s|
    ensures forall i :: 0 <= i < |s| ==> s'[i] == Translated(s[i], g, wrap)
  {
    s', g' := s, g;
    var i := 0;
    while i < |s|
      invariant i <= |s| && |s'| == |s|
      invariant Consistent(g', Refs(s')) && g'.dim == g.dim && g'.extent == g.extent
      invariant forall j :: 0 <= j < i ==> s'[j] == Translated(s[j], g, wrap)
      invariant forall j :: i <= j < |s| ==> s'[j] == s[j]
    {
      CellOfReadsShape(g', g, s[i].body.pos);
      s', g' := MoveOne(s', g', i, wrap);
      i := i + 1;
    }
  }

  /** One iteration of the first loop of `apply_physics`, on entity `i`. */
  method MoveOne(s: seq<GameObject>, g: Grid, i: nat, wrap: real -> real) returns (s': seq<GameObject>, g': Grid)
    requires Consistent(g, Refs(s)) && i < |s|
    ensures Consistent(g', Refs(s')) && g'.dim == g.dim && g'.extent == g.extent
    ensures s' == s[i := Translated(s[i], g, wrap)]
  {
    var o := s[i];
    UpdatePreservesConsistency(g, Refs(s), i, o.body.pos);
    var res := Spatial.Update(g, i, o.body.pos, o.spatialRef);
    g' := res.0;
    s' := s[i := o.(body := Moved(o.body, wrap), spatialRef := res.1)];
    assert Refs(s') == Refs(s)[i := res.1];
  }

  /** An entity whose velocity and spin have been replaced by the damped ones. */
  function Damped(o: GameObject, damp: GameObject -> (Vec2, real)): (r: GameObject)
    ensures (r.body.vel, r.body.angVel) == damp(o)
    ensures r.body.(vel := o.body.vel, angVel := o.body.angVel) == o.body
    ensures r.(body := o.body) == o
  {
    o.(body := o.body.(vel := damp(o).0, angVel := damp(o).1))
  }

  /** The second loop of `apply_physics`: every entity damped; the references stay. */
  method DampAll(s: seq<GameObject>, damp: GameObject -> (Vec2, real)) returns (s': seq<GameObject>)
    ensures |s'| == |s| && Refs(s') == Refs(s)
    ensures forall i :: 0 <= i < |s| ==> s'[i] == Damped(s[i], damp)
  {
    s' := s;
    var j := 0;
    while j < |s|
      invariant j <= |s| && |s'| == |s|
      invariant forall k :: 0 <= k < j ==> s'[k] == Damped(s[k], damp)
      invariant forall k :: j <= k < |s| ==> s'[k] == s[k]
    {
      s' := s'[j := Damped(s'[j], damp)];
      j := j + 1;
    }
    assert Refs(s') == Refs(s);
  }

  /**
   `apply_physics`: every body is translated by its velocity and turned by
   its spin, the grid follows one move behind (every entity is registered
   in the cell of where it was before the move), and then velocity and
   spin are damped, reading the entity as the first loop left it. Type,
   radius, air, score and animation are untouched.
   */
  method ApplyPhysics(s: seq<GameObject>, g: Grid, wrap: real -> real, damp: GameObject -> (Vec2, real))
      returns (s': seq<GameObject>, g': Grid)
    requires Consistent(g, Refs(s))
    ensures Consistent(g', Refs(s')) && g'.dim == g.dim && g'.extent == g.extent
    ensures |s'| == |s|
    ensures forall i :: 0 <= i < |s| ==>
              && s'[i].spatialRef == CellOf(g, s[i].body.pos)
              && s'[i].body.pos == s[i].body.pos.Add(s[i].body.vel)
              && s'[i].body.rotation == wrap(s[i].body.rotation + s[i].body.angVel)
              && (s'[i].body.vel, s'[i].body.angVel) == damp(Translated(s[i], g, wrap))
              && s'[i].(body := s[i].body, spatialRef := s[i].spatialRef) == s[i]
  {
    var s1;
    s1, g' := MoveAll(s, g, wrap);
    s' := DampAll(s1, damp);
  }

  /** Steps that keep type, radius, back-reference and animation also keep the references and the radius bound. */
  lemma SameFrameValid(w: World, s: seq<GameObject>)
    requires Valid(w) && SameFrame(s, w.store)
    ensures Refs(s) == Refs(w.store)
    ensures Valid(w.(store := s))
  {
    assert Refs(s) == Refs(w.store);
  }

  /** Relocating a pod and decaying air touch neither type, radius, back-reference nor animation. */
  lemma AfterResolveFrame(s: seq<GameObject>, st: PassState, sequence: nat, pick: nat -> Vec2, refill: (Vec2, Vec2) -> nat)
    requires Sound(st) && sequence < U32_LIMIT
    ensures SameFrame(CheckAir(Relocate(st.store, st.relocate, st.shipLoc, sequence, pick, refill).0), st.store)
  {
    var r := Relocate(st.store, st.relocate, st.shipLoc, sequence, pick, refill).0;
    assert SameFrame(r, st.store);
  }

  /** `pick_position` over `get_min()..get_max()`: a position drawn from the whole arena. */
  function ArenaPick(extent: real, pick: Picker): (f: nat -> Vec2)
    ensures forall v :: f(v) == pick(Vec2(-extent, -extent), Vec2(extent, extent), v)
  {
    (v: nat) => pick(Vec2(-extent, -extent), Vec2(extent, extent), v)
  }

  /** What the tick needs of `resolve_collisions`: a pod to relocate comes with its ship's position, and the frame stays. */
  lemma ResolveSound(s: seq<GameObject>, cs: seq<Contact>, impulse: Solver, correct: Solver)
    requires ValidContacts(s, cs)
    ensures Sound(ResolveContacts(s, cs, impulse, correct))
    ensures SameFrame(ResolveContacts(s, cs, impulse, correct).store, s)
  {
    ResolveCollectsAtMostOnce(s, cs, impulse, correct);
    ResolveKeepsFrame(s, cs, impulse, correct);
  }

  /**
   `detect_collisions`, `resolve_collisions` and `check_air` on the moved
   store: a collected pod is relocated to a position drawn over the whole
   arena (`get_min()..get_max()`), using one sequence number. Only bodies,
   air and scores change.
   */
  method Settle(s: seq<GameObject>, g: Grid, maxRadius: real, sequence: nat, ph: Physics)
      returns (s': seq<GameObject>, sq: nat)
    requires Consistent(g, Refs(s)) && sequence < U32_LIMIT
    ensures SameFrame(s', s)
    ensures sq < U32_LIMIT && (sq == sequence || sq == GetSequence(sequence).1)
  {
    var cs := Contacts(s, g, maxRadius, ph.geometry);
    var st := ResolveContacts(s, cs, ph.impulse, ph.correct);
    ResolveSound(s, cs, ph.impulse, ph.correct);
    var pick := ArenaPick(g.extent, ph.pick);
    var s3;
    s3, sq := Relocate(st.store, st.relocate, st.shipLoc, sequence, pick, ph.refill).0,
              Relocate(st.store, st.relocate, st.shipLoc, sequence, pick, ph.refill).1;
    s' := CheckAir(s3);
    AfterResolveFrame(s, st, sequence, pick, ph.refill);
    SameFrameTrans(s', st.store, s);
  }

  /**
   One iteration of the loop in `update` (`flip_transforms` aside, which
   only feeds rendering): `update_player_controls`, `apply_physics`,
   `detect_collisions`, `resolve_collisions`, `check_air`,
   `clear_events`. The world stays valid; no entity is created or
   destroyed and none changes type or radius; every entity ends up
   registered in the cell of where it was at the start of the tick; the
   key events are gone and the held keys stay; the sequence counter moves
   by at most one draw.
   */
  method Tick(w: World, ph: Physics) returns (w': World)
    requires Valid(w)
    ensures Valid(w')
    ensures w'.(sequence := w.sequence, store := w.store, grid := w.grid, input := w.input) == w
    ensures w'.grid.dim == w.grid.dim && w'.grid.extent == w.grid.extent
    ensures |w'.store| == |w.store|
    ensures forall i :: 0 <= i < |w.store| ==>
              && w'.store[i].kind == w.store[i].kind && w'.store[i].radius == w.store[i].radius
              && w'.store[i].spatialRef == CellOf(w.grid, w.store[i].body.pos)
    ensures w'.sequence == w.sequence || w'.sequence == GetSequence(w.sequence).1
    ensures forall k :: !HasMake(w'.input, k) && !HasBreak(w'.input, k)
    ensures forall k :: IsDown(w'.input, k) <==> IsDown(w.input, k)
  {
    var s0 := UpdatePlayerControls(w.store, w.control, w.input, ph.wrap, ph.heading);
    assert Refs(s0) == Refs(w.store);
    var s1, g1 := ApplyPhysics(s0, w.grid, ph.wrap, ph.damp);
    var s2, sq := Settle(s1, g1, w.maxRadius, w.sequence, ph);
    var w1 := w.(store := s1, grid := g1);
    assert Valid(w1);
    SameFrameValid(w1, s2);
    w' := w.(sequence := sq, store := s2, grid := g1, input := ClearEvents(w.input));
  }

  /**
   `update`: advance the clock by the frame's elapsed time, look once for
   an Escape press or release among the logged events and, if there is
   one, set the exit flag for good, then run the ticks due. The events are
   cleared by each tick, so a frame that runs no tick keeps them for the
   next frame; the held keys always stay. Entities are never created or
   destroyed, and the seed and controlled entity never change.
   */
  method Update(w: World, elapsed: nat, ph: Physics) returns (w': World, ticks: nat)
    requires Valid(w)
    ensures Valid(w')
    ensures (w'.clock, ticks) == UpdateTime(w.clock, elapsed)
    ensures w'.exitReady <==> w.exitReady || HasBreak(w.input, Escape) || HasMake(w.input, Escape)
    ensures w'.seed == w.seed && w'.control == w.control && |w'.store| == |w.store|
    ensures w'.maxRadius == w.maxRadius
    ensures ticks == 0 ==> w'.store == w.store && w'.grid == w.grid && w'.input == w.input && w'.sequence == w.sequence
    ensures 0 < ticks ==> forall k :: !HasMake(w'.input, k) && !HasBreak(w'.input, k)
    ensures forall k :: IsDown(w'.input, k) <==> IsDown(w.input, k)
  {
    var (clock, n) := UpdateTime(w.clock, elapsed);
    var esc := IsBreak(w.input, Escape);
    if !esc {
      esc := IsMake(w.input, Escape);
    }
    w' := w.(clock := clock, exitReady := w.exitReady || esc);
    var i := 0;
    while i < n
      invariant i <= n && Valid(w')
      invariant w'.clock == clock && w'.exitReady == (w.exitReady || esc)
      invariant w'.seed == w.seed && w'.control == w.control && |w'.store| == |w.store|
      invariant w'.maxRadius == w.maxRadius
      invariant i == 0 ==> w'.store == w.store && w'.grid == w.grid && w'.input == w.input && w'.sequence == w.sequence
      invariant 0 < i ==> forall k :: !HasMake(w'.input, k) && !HasBreak(w'.input, k)
      invariant forall k :: IsDown(w'.input, k) <==> IsDown(w.input, k)
    {
      w' := Tick(w', ph);
      i := i + 1;
    }
    ticks := n;
  }

  /**
   A run of frames, one `update` each, with no key events in between. The
   ticks run add up to what the clock alone predicts (`RunFrames`), so
   however the time is split into frames, a world starting from a synced
   clock runs one tick per tick boundary the accumulated time crosses.
   */
  method UpdateFrames(w: World, es: seq<nat>, ph: Physics) returns (w': World, total: nat)
    requires Valid(w)
    ensures Valid(w')
    ensures (w'.clock, total) == RunFrames(w.clock, es)
    ensures w.exitReady ==> w'.exitReady
    ensures w'.seed == w.seed && w'.control == w.control && |w'.store| == |w.store|
  {
    w' := w;
    total := 0;
    var i := 0;
    while i < |es|
      invariant i <= |es| && Valid(w')
      invariant (w'.clock, total) == RunFrames(w.clock, es[..i])
      invariant w.exitReady ==> w'.exitReady
      invariant w'.seed == w.seed && w'.control == w.control && |w'.store| == |w.store|
    {
      var n;
      w', n := Update(w', es[i], ph);
      assert es[..i + 1][..i] == es[..i];
      total := total + n;
      i := i + 1;
    }
    assert es[..i] == es;
  }
}
