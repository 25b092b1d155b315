/**
 `InputManager`: the set of keys currently held down plus the make (press)
 and break (release) events seen since the events were last cleared.
 Keyboard events arrive as (key, pressed) pairs.
 */
module Input {
  import opened Base

  /** The physical keys the game reacts to; every other key is `OtherKey`. */
  datatype Key = ArrowLeft | ArrowRight | ArrowUp | KeyA | KeyD | KeyW | Escape | OtherKey(code: nat)

  /** A `DeviceEvent::Key`: which key, and whether it was pressed or released. */
  datatype KeyEvent = KeyEvent(key: Key, pressed: bool)

  datatype InputManager = InputManager(makeEvents: seq<Key>, breakEvents: seq<Key>, keyDown: set<Key>)

  /** `InputManager::new`: no key down, no pending event. */
  function NewInput(): (m: InputManager)
    ensures forall k :: !IsDown(m, k) && !HasMake(m, k) && !HasBreak(m, k)
  {
    InputManager([], [], {})
  }

  /** `is_down`. */
  predicate IsDown(m: InputManager, k: Key) {
    k in m.keyDown
  }

  /** What `is_make` answers: some pending make event is for `k`. */
  predicate HasMake(m: InputManager, k: Key) {
    k in m.makeEvents
  }

  /** What `is_break` answers: some pending break event is for `k`. */
  predicate HasBreak(m: InputManager, k: Key) {
    k in m.breakEvents
  }

  /**
   `InputManager::input`: a press is logged as a make event and the key is
   held from then on; a release is logged as a break event and the key is
   no longer held. The other log and every other key's state are untouched.
   */
  function Input(m: InputManager, e: KeyEvent): (r: InputManager)
    ensures forall k :: IsDown(r, k) <==> if k == e.key then e.pressed else IsDown(m, k)
    ensures e.pressed ==> r.makeEvents == m.makeEvents + [e.key] && r.breakEvents == m.breakEvents
    ensures !e.pressed ==> r.breakEvents == m.breakEvents + [e.key] && r.makeEvents == m.makeEvents
  {
    if e.pressed then
      m.(makeEvents := m.makeEvents + [e.key], keyDown := m.keyDown + {e.key})
    else
      m.(breakEvents := m.breakEvents + [e.key], keyDown := m.keyDown - {e.key})
  }

  /** `clear_events`: both event logs empty, the held keys kept. */
  function ClearEvents(m: InputManager): (r: InputManager)
    ensures forall k :: !HasMake(r, k) && !HasBreak(r, k)
    ensures forall k :: IsDown(r, k) <==> IsDown(m, k)
  {
    m.(makeEvents := [], breakEvents := [])
  }

  /** `is_make`: a linear scan of the make events with an early return. */
  method IsMake(m: InputManager, key: Key) returns (found: bool)
    ensures found <==> HasMake(m, key)
  {
    var i := 0;
    while i < |m.makeEvents|
      invariant i <= |m.makeEvents|
      invariant key !in m.makeEvents[..i]
    {
      if m.makeEvents[i] == key {
        return true;
      }
      i := i + 1;
    }
    assert m.makeEvents[..i] == m.makeEvents;
    return false;
  }

  /** `is_break`: a linear scan of the break events with an early return. */
  method IsBreak(m: InputManager, key: Key) returns (found: bool)
    ensures found <==> HasBreak(m, key)
  {
    var i := 0;
    while i < |m.breakEvents|
      invariant i <= |m.breakEvents|
      invariant key !in m.breakEvents[..i]
    {
      if m.breakEvents[i] == key {
        return true;
      }
      i := i + 1;
    }
    assert m.breakEvents[..i] == m.breakEvents;
    return false;
  }

  /** Feeding a sequence of events, oldest first. */
  function InputAll(m: InputManager, evs: seq<KeyEvent>): InputManager
    decreases |evs|
  {
    if |evs| == 0 then m else Input(InputAll(m, evs[..|evs| - 1]), evs[|evs| - 1])
  }

  /** The latest event for `k` in `evs`: `Some(pressed)`, or `None` when `k` never occurs. */
  function LastEventFor(evs: seq<KeyEvent>, k: Key): (r: Option<bool>)
    ensures r.None? <==> forall i :: 0 <= i < |evs| ==> evs[i].key != k
    decreases |evs|
  {
    if |evs| == 0 then None
    else if evs[|evs| - 1].key == k then Some(evs[|evs| - 1].pressed)
    else LastEventFor(evs[..|evs| - 1], k)
  }

  /**
   After a run of events a key is held exactly when its latest event was a
   press, or, if it had no event, when it was held before.
   */
  lemma {:induction false} InputAllKeyDown(m: InputManager, evs: seq<KeyEvent>, k: Key)
    ensures IsDown(InputAll(m, evs), k) <==>
              match LastEventFor(evs, k)
              case None => IsDown(m, k)
              case Some(pressed) => pressed
    decreases |evs|
  {
    if |evs| > 0 {
      InputAllKeyDown(m, evs[..|evs| - 1], k);
    }
  }

  /**
   After a run of events a make (break) event for `k` is pending exactly
   when one was pending before or the run pressed (released) `k`, so a key
   tapped between two frames is still seen both pressed and released.
   */
  lemma {:induction false} InputAllEvents(m: InputManager, evs: seq<KeyEvent>, k: Key)
    ensures HasMake(InputAll(m, evs), k) <==> HasMake(m, k) || KeyEvent(k, true) in evs
    ensures HasBreak(InputAll(m, evs), k) <==> HasBreak(m, k) || KeyEvent(k, false) in evs
    decreases |evs|
  {
    if |evs| > 0 {
      var evs' := evs[..|evs| - 1];
      InputAllEvents(m, evs', k);
      assert evs == evs' + [evs[|evs| - 1]];
    }
  }
}
