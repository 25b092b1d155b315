/**
 The survival rules: every tick each air supply drops by one unit, and the
 controlled ship only responds to the keyboard while it has air left.
 */
module Air {
  import opened Base
  import opened Store
  import opened Input

  /** One tick of decay for one object: `air.saturating_sub(1)` when a supply is present. */
  function Decay(o: GameObject): (r: GameObject)
    ensures r.air.None? <==> o.air.None?
    ensures o.air.Some? ==> r.air.value == SaturatingSub(o.air.value, 1)
    ensures r.(air := o.air) == o
  {
    match o.air
    case None => o
    case Some(a) => o.(air := Some(if a == 0 then 0 else a - 1))
  }

  /** `check_air`: decay every object's air supply; nothing else changes. */
  function CheckAir(s: seq<GameObject>): (r: seq<GameObject>)
    ensures |r| == |s|
    ensures forall i :: 0 <= i < |s| ==> r[i] == Decay(s[i])
  {
    seq(|s|, i requires 0 <= i < |s| => Decay(s[i]))
  }

  /** `k` consecutive ticks of `check_air`. */
  function CheckAirTimes(s: seq<GameObject>, k: nat): (r: seq<GameObject>)
    ensures |r| == |s|
    decreases k
  {
    if k == 0 then s else CheckAir(CheckAirTimes(s, k - 1))
  }

  /**
   After `k` ticks an object that started with `a` units of air has
   `a - k` units, or none once `k >= a`; objects without a supply never get
   one, and the rest of every object is untouched.
   */
  lemma {:induction false} CheckAirTimesLeft(s: seq<GameObject>, k: nat, i: nat)
    requires i < |s|
    ensures CheckAirTimes(s, k)[i].air.None? <==> s[i].air.None?
    ensures s[i].air.Some? ==> CheckAirTimes(s, k)[i].air.value == SaturatingSub(s[i].air.value, k)
    ensures CheckAirTimes(s, k)[i].(air := s[i].air) == s[i]
    decreases k
  {
    if k > 0 {
      CheckAirTimesLeft(s, k - 1, i);
    }
  }

  /** A ship with `a` units of air still has some after `a - 1` ticks and none after `a`. */
  lemma RunsOutAfterExactly(s: seq<GameObject>, i: nat)
    requires i < |s| && s[i].air.Some? && s[i].air.value > 0
    ensures HasAir(CheckAirTimes(s, s[i].air.value - 1)[i])
    ensures !HasAir(CheckAirTimes(s, s[i].air.value)[i])
  {
    CheckAirTimesLeft(s, s[i].air.value - 1, i);
    CheckAirTimesLeft(s, s[i].air.value, i);
  }

  /** `air_suuply.map(|a| a.air).unwrap_or(0) != 0`: the object can still be steered. */
  predicate HasAir(o: GameObject) {
    o.air.Some? && o.air.value != 0
  }

  /** The steering decision of one tick. */
  datatype Turn = TurnLeft | TurnRight | Straight

  /** Radians per tick applied by `apply_rotation` while turning. */
  const TURN_RATE: real := 0.15

  predicate LeftDown(m: InputManager) {
    IsDown(m, ArrowLeft) || IsDown(m, KeyA)
  }

  predicate RightDown(m: InputManager) {
    IsDown(m, ArrowRight) || IsDown(m, KeyD)
  }

  predicate ThrustDown(m: InputManager) {
    IsDown(m, ArrowUp) || IsDown(m, KeyW)
  }

  /**
   The `match (left_down, right_down)` of `update_player_controls`: a
   turn happens only when exactly one direction is held.
   */
  function Steering(m: InputManager): (t: Turn)
    ensures t == TurnLeft <==> LeftDown(m) && !RightDown(m)
    ensures t == TurnRight <==> RightDown(m) && !LeftDown(m)
  {
    match (LeftDown(m), RightDown(m))
    case (true, false) => TurnLeft
    case (false, true) => TurnRight
    case _ => Straight
  }

  /** The key bound to the same action on the other side. */
  function MirrorKey(k: Key): Key {
    match k
    case ArrowLeft => ArrowRight
    case ArrowRight => ArrowLeft
    case KeyA => KeyD
    case KeyD => KeyA
    case _ => k
  }

  /** Holding the mirror-image keys steers the other way and thrusts the same. */
  lemma SteeringMirror(m: InputManager, m': InputManager)
    requires forall k :: IsDown(m', k) <==> IsDown(m, MirrorKey(k))
    ensures Steering(m') == match Steering(m)
                            case TurnLeft => TurnRight
                            case TurnRight => TurnLeft
                            case Straight => Straight
    ensures ThrustDown(m') <==> ThrustDown(m)
  {
    assert IsDown(m', ArrowLeft) <==> IsDown(m, ArrowRight);
    assert IsDown(m', ArrowRight) <==> IsDown(m, ArrowLeft);
    assert IsDown(m', KeyA) <==> IsDown(m, KeyD);
    assert IsDown(m', KeyD) <==> IsDown(m, KeyA);
    assert IsDown(m', ArrowUp) <==> IsDown(m, ArrowUp);
    assert IsDown(m', KeyW) <==> IsDown(m, KeyW);
  }

  /**
   `Transform::apply_rotation`: the angle grows by `delta` and is reduced by
   `% TAU`; the floating-point remainder is supplied as `wrap`.
   */
  function Rotated(b: Body, delta: real, wrap: real -> real): (r: Body)
    ensures r.rotation == wrap(b.rotation + delta)
    ensures r.(rotation := b.rotation) == b
  {
    b.(rotation := wrap(b.rotation + delta))
  }

  /**
   `update_player_controls` on the controlled object. Out of air (or with
   no supply) the flame animation is dropped and nothing else happens.
   Otherwise the body is turned by `-0.15` or `0.15` radians when exactly
   one direction is held, then its velocity grows by the unit vector of its
   new heading (`get_y_vector`, trigonometry supplied as `heading`) when
   thrust is held; the flame is shown exactly while thrusting. Steering
   never moves the body and never changes its spin.
   */
  function Control(o: GameObject, m: InputManager, wrap: real -> real, heading: real -> Vec2): (r: GameObject)
    ensures r.(body := o.body, animated := o.animated) == o
    ensures r.animated <==> HasAir(o) && ThrustDown(m)
    ensures r.body.pos == o.body.pos && r.body.angVel == o.body.angVel
    ensures !HasAir(o) ==> r.body == o.body
    ensures HasAir(o) ==>
              r.body.rotation == match Steering(m)
                                 case TurnLeft => wrap(o.body.rotation - TURN_RATE)
                                 case TurnRight => wrap(o.body.rotation + TURN_RATE)
                                 case Straight => o.body.rotation
    ensures HasAir(o) ==>
              r.body.vel == if ThrustDown(m) then o.body.vel.Add(heading(r.body.rotation)) else o.body.vel
  {
    if !HasAir(o) then o.(animated := false)
    else
      var turned := match Steering(m)
        case TurnLeft => Rotated(o.body, -TURN_RATE, wrap)
        case TurnRight => Rotated(o.body, TURN_RATE, wrap)
        case Straight => o.body;
      if ThrustDown(m) then o.(body := turned.(vel := turned.vel.Add(heading(turned.rotation))), animated := true)
      else o.(body := turned, animated := false)
  }

  /** Without air the keyboard has no effect at all on the controlled object. */
  lemma NoAirNoControl(o: GameObject, m: InputManager, m': InputManager, wrap: real -> real, heading: real -> Vec2)
    requires !HasAir(o)
    ensures Control(o, m, wrap, heading) == Control(o, m', wrap, heading)
  {
  }

  /**
   `update_player_controls`: with no control object nothing changes;
   otherwise only the controlled entity changes (the source's `get_mut`
   panics on an id past the end).
   */
  function UpdatePlayerControls(s: seq<GameObject>, control: Option<nat>, m: InputManager,
                                wrap: real -> real, heading: real -> Vec2): (r: seq<GameObject>)
    requires control.Some? ==> control.value < |s|
    ensures |r| == |s|
    ensures control.None? ==> r == s
    ensures control.Some? ==> r[control.value] == Control(s[control.value], m, wrap, heading)
    ensures forall i :: 0 <= i < |s| && control != Some(i) ==> r[i] == s[i]
  {
    match control
    case None => s
    case Some(id) => s[id := Control(s[id], m, wrap, heading)]
  }
}
