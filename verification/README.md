# Asteroid survival game: the bookkeeping core of `GameWorld`

This project is a Dafny model of the discrete core of `src/game.rs`. The
game is a top-down space game: a ship flies among asteroids and collects
air pods before its air runs out.

The model covers the game's bookkeeping and control flow:

- the entity store and its paired mutable access;
- the uniform spatial grid (`SpatialDb`): cell lookup, registration, removal, range probes and the broad-phase neighbour enumeration;
- the placement of new objects, with its retry loop and reproducible random draws;
- the contact lists of `detect_collisions`;
- the air-collection bookkeeping of `resolve_collisions` and the relocation of a collected pod;
- the air countdown and the steering logic;
- the keyboard state of `InputManager`;
- the fixed-tick clock and the frame loop of `update`.

The floating-point physics (impulses, positional correction, damping,
headings, the mapping of a hash onto a float range) enters as function
parameters. The model never computes it, but it states exactly which fields
each of those computations may change. The decisions made inside that maths
(skip a separating contact, apply friction to asteroids in pass 0 only) are
the parameters' business, so the model does not state them.

Module layout, one file each:

| module | models |
|---|---|
| `Base` | `Option`, `u32` limits, the saturating `f64 as u32` cast, counting in sequences |
| `Store` | `GameObject`, `EntityStore::insert`, `get_mut_pair` |
| `Spatial` | `SpatialDb` cells: `get_spatial_id`, `update`, `remove`, the index/back-reference invariant |
| `Probe` | `probe_range` |
| `Neighbors` | `find_neighbors`, `broad_phase_node_node` |
| `Rng` | `hash_rand_u32`, `get_sequence`, the asteroid shape choice |
| `Input` | `InputManager` |
| `Clock` | `update_time`, `get_interp` |
| `World` | `GameWorld` state and its invariant, `new`, `set_control_object`, `handle_device_event` |
| `Spawn` | `new_ship`, `new_air_pod`, `new_asteroid`, `add_object`, `add_ship`, `add_air_pod`, `add_asteroid` |
| `Collide` | `detect_collisions` |
| `Resolve` | `resolve_collisions` |
| `Air` | `check_air`, `update_player_controls` |
| `Tick` | `apply_physics`, one tick of `update`, `update` itself |

Rust's fixed-width integers are modelled as `nat` with their widths written
out:

- the `u32` sequence counter, tick counter and cell ids wrap modulo `2^32`, as a release build does;
- `num_check_nodes` (`as u32 + 1`) wraps to 0 when the cast saturates (`Neighbors.NumCheckNodes`);
- `f64 as u32` saturates (`Base.AsU32`);
- `u64` air and score values are unbounded (see "Left out").

## Model

| member | source | states |
|---|---|---|
| Store.Insert | src/game.rs:1109-1113 | the new object gets id `len()`, sits at that id, and every earlier entity keeps its id and value |
| Store.InsertAllFinds | src/game.rs:1109-1113 | successive inserts hand out strictly increasing ids, and each id finds the object that was inserted under it |
| Store.GetMutPair | src/game.rs:1093-1107 | `get_mut_pair(i, j)` yields references exactly when `i != j` and both are in range (otherwise it panics); `first` is entity `i` and `second` is entity `j`, in either id order |
| Store.WritePairRoundTrip | src/game.rs:1093-1107 | writing through the pair and reading it back gives the written objects; writing back the unchanged objects leaves the store as it was |
| Spatial.Axis | src/game.rs:1367-1387 | one axis of `get_spatial_id`: clamps to 0 at or below the minimum and to `dim - 1` at or above the maximum; otherwise it is the cell whose span contains the position |
| Spatial.AxisInside | src/game.rs:1370-1376 | for a position strictly inside the arena, the computed cell `r` satisfies `min + r * node_size <= p < min + (r + 1) * node_size` |
| Spatial.CellOf | src/game.rs:1367-1387 | the spatial id is a valid cell index (never the `u32::MAX` sentinel), and its column and row are the two axis cells |
| Spatial.CellIndexInjective | src/game.rs:1386 | `x + y * dim` is one-to-one on the grid's coordinates |
| Spatial.ColumnRowAreDivMod | src/game.rs:1386 | the column and row recovered from a cell index are its remainder and quotient by `dim` |
| Spatial.Remove | src/game.rs:1428-1442 | an invalid reference is left alone; otherwise the referenced cell becomes the cell with the first occurrence of the id swap-removed (a multiset difference), the other cells are untouched, and the reference becomes invalid |
| Spatial.RemoveFirstSlots | src/game.rs:1428-1442 | the swap-remove moves the cell's last id into the slot of the first occurrence of the id and leaves every other slot as it was |
| Spatial.Update | src/game.rs:1413-1426 | if the cell is unchanged nothing happens; otherwise the id is swap-removed from the old cell, appended at the end of the new one, and the reference names the new cell |
| Spatial.NewGridConsistent | src/game.rs:1342-1357 | a new grid has `dim * dim` empty cells and is consistent with entities that are all unregistered |
| Spatial.RemovePreservesConsistency | src/game.rs:1428-1442 | removal keeps the invariant "each entity occurs once, in the cell its reference names, or nowhere if invalid" and makes the entity unregistered |
| Spatial.UpdatePreservesConsistency | src/game.rs:1413-1426 | moving an entity keeps the invariant, with the entity now registered in the cell of its new position |
| Spatial.AppendPreservesConsistency | src/game.rs:177-181 | registering a freshly inserted entity at its position keeps the invariant |
| Probe.ProbeBounds | src/game.rs:1395-1400 | the probed rectangle never leaves the grid (`maxx, maxy < dim`) |
| Probe.ProbeCoversCell | src/game.rs:1395-1400 | a cell is probed iff its span overlaps the requested range widened by `max_radius` on every side, clamped to the grid |
| Probe.ProbeCells | src/game.rs:1402-1410 | the nested loops visit the cells row by row, and each cell's ids in order, producing exactly the reference enumeration |
| Probe.ProbeVisitsEachCoveredEntityOnce | src/game.rs:1389-1411 | with a consistent index, every registered entity in a probed cell is visited exactly once, and no other id is visited |
| Probe.FullArenaProbeVisitsAllOnce | src/game.rs:1389-1411 | a probe over the whole arena visits each registered entity exactly once |
| Probe.ProbeVisitsRegistered | src/game.rs:1389-1411 | every visited id is a registered entity, so the callback's store lookup cannot panic |
| Neighbors.BroadPhaseNodeNode | src/game.rs:1476-1492 | the double loop reports every id pair of the two nodes, except that within one node it reports only pairs whose first id is smaller |
| Neighbors.NodePairsCount | src/game.rs:1476-1492 | each pair `(u, v)` occurs (multiplicity of `u` in the first node) times (multiplicity of `v` in the second) times, or 0 when in the same node with `u >= v` |
| Neighbors.NumCheckNodes | src/game.rs:1445 | `num_check_nodes` is a `u32`; it is 0 exactly when the saturating cast of `2 * max_radius / node_size` gives `u32::MAX`, and otherwise it exceeds that scaled diameter |
| Neighbors.AxisWithinCheckNodes | src/game.rs:1445-1460 | two positions less than `2 * max_radius` apart on an axis have grid coordinates at most `num_check_nodes` apart, in both orders, unless the count wrapped to 0 |
| Neighbors.CloseEntitiesReported | src/game.rs:1444-1473 | two distinct registered entities less than `2 * max_radius` apart on both axes are reported at least once, in one order or the other, unless the count wrapped to 0 |
| Neighbors.NeighborPairsCount | src/game.rs:1444-1473 | the exact multiplicity of `(u, v)` among the callback calls: 1 when both are registered, `v`'s cell is in the rightward neighbourhood of `u`'s, and `u < v` within one cell; otherwise 0 |
| Neighbors.NeverSelfPair | src/game.rs:1483-1490 | no entity is paired with itself |
| Neighbors.SameCellReportedOnce | src/game.rs:1460-1468 | two entities in one cell are reported exactly once, smaller id first |
| Neighbors.DifferentColumnsReportedOnce | src/game.rs:1455-1468 | neighbours in different columns are reported exactly once, the left one first |
| Neighbors.SameColumnReportedTwice | src/game.rs:1455-1468 | neighbours in one column but different rows are reported once in each order |
| Neighbors.FarApartNeverReported | src/game.rs:1455-1460 | entities more than `num_check_nodes` cells apart on either axis are never paired |
| Neighbors.ReportedPairsAreDistinct | src/game.rs:1444-1473 | every reported pair names two distinct registered entities |
| Rng.HashRandU32 | src/game.rs:1635-1647 | the result is a `u32`; an empty range gives `start`; a forward range gives a value in `[start, end)`; a reversed range wraps around and gives a value in `[start, u32::MAX]` or `[0, end)` |
| Rng.HashRandU32Onto | src/game.rs:1635-1647 | every value of a non-empty range is produced by some hash |
| Rng.AsteroidChoiceNeverPanics | src/game.rs:992-1001 | `(0..6).hash_rand` never reaches the `panic!` arm, and each of the six shapes can be chosen |
| Rng.GetSequence | src/game.rs:85-88 | the counter is incremented with `u32` wrap-around and the new value is returned |
| Rng.DrawsIncrease | src/game.rs:85-88 | until the counter wraps, `k` draws return `sequence + 1, ..., sequence + k` and leave the counter at `sequence + k` |
| Rng.DrawsWrap | src/game.rs:85-88 | in general the `i`-th draw is `sequence + 1 + i` modulo `2^32` |
| Input.NewInput | src/game.rs:1558-1564 | no key is down and no event is pending |
| Input.Input | src/game.rs:1566-1581 | a press logs a make event and holds the key; a release logs a break event and frees it; all other keys and the other log are unchanged |
| Input.IsMake | src/game.rs:1587-1594 | the scan answers true iff a make event for the key is pending |
| Input.IsBreak | src/game.rs:1596-1603 | the scan answers true iff a break event for the key is pending |
| Input.ClearEvents | src/game.rs:1605-1608 | both logs are emptied and the held keys are kept |
| Input.InputAllKeyDown | src/game.rs:1566-1581 | after a run of events, a key is held iff its latest event was a press, or it has no event and was held before |
| Input.InputAllEvents | src/game.rs:1566-1581 | after a run of events, a make (break) event is pending iff one was pending before or the run pressed (released) the key |
| Clock.MicrosPerTickValue | src/game.rs:27-30 | a tick is 33333 µs, slightly less than a thirtieth of a second |
| Clock.TickOf | src/game.rs:593 | the tick number is `virtual_time / MICROS_PER_TICK` truncated to `u32` |
| Clock.UpdateTime | src/game.rs:585-609 | the accumulator grows by the elapsed time and `last_tick` is resynced; the returned count is a `u32`, and for a synced clock and a frame shorter than `MAX_ELAPSED` it is exactly the number of tick boundaries crossed |
| Clock.WrappingSub | src/game.rs:595 | the `u32` wrapping difference of two truncated tick numbers is their true difference when that fits in 32 bits |
| Clock.RunFramesTotal | src/game.rs:585-609 | over any run of frames, the ticks add up to the tick boundaries crossed by the total time, so none are lost or duplicated |
| Clock.FreshClockTotal | src/game.rs:585-609 | from a fresh clock, the total tick count is `floor(total elapsed / 33333)` |
| Clock.Interp | src/game.rs:611-615 | the interpolation factor lies in `[0, 1)` and is the fractional part of the elapsed time measured in ticks |
| World.NewWorld | src/game.rs:58-79 | a new world satisfies the world invariant, with an empty store, the counter at 0, `max_radius` 0, no keys and no control object |
| World.SetControl | src/game.rs:102-104 | only the controlled entity changes, and the invariant is kept |
| World.HandleKey | src/game.rs:106-108 | only the keyboard state changes, exactly as `InputManager::input` says, and the invariant is kept |
| Spawn.NewShip | src/game.rs:925-948 | a ship at the origin facing `PI`, with 1800 ticks of air, score 0, no flame, not yet in the grid |
| Spawn.NewAirPod | src/game.rs:950-978 | an animated pod with 450 ticks of air and no score, not yet in the grid |
| Spawn.NewAsteroid | src/game.rs:980-1025 | an asteroid whose radius is that of the shape the hash selects (which always exists), with no air or score, carrying the drawn velocity and spin |
| Spawn.SpawnRange | src/game.rs:131-138 | the draw range is the requested range intersected with the arena shrunk by the radius, on each side |
| Spawn.CheckOccupied | src/game.rs:147-162 | the probe callback raises the flag iff some visited entity lies closer than the sum of the radii |
| Spawn.FindPlace | src/game.rs:140-175 | the loop draws one sequence number per attempt; it stops at the first attempt that does not collide; after `retry` colliding checks it gives up, unless `add_anyway` is set, in which case it keeps one more unchecked draw |
| Spawn.AddObject | src/game.rs:120-182 | `max_radius` is raised to the object's radius; the object is dropped iff `add_anyway` is off, `retry >= 1` and every checked attempt collides; otherwise it is appended, at the attempt's position, under id `len()` and registered in that cell; the world invariant is kept |
| Spawn.AddShip | src/game.rs:200-205 | the ship is always added, under the next id, with a full air supply and score 0 |
| Spawn.AddAirPod | src/game.rs:225-229 | the pod is always added, under the next id, with 450 ticks of air |
| Spawn.AddAsteroid | src/game.rs:207-223 | an asteroid is added only at a position whose occupancy probe found no overlap; otherwise the store is unchanged |
| Collide.CircleContactsCount | src/game.rs:292-314 | each reported pair yields exactly one contact if the two circles overlap and none otherwise |
| Collide.WallContact | src/game.rs:320-384 | a wall contact is produced iff the body reaches past the wall; its depth is the overshoot and its normal points outwards |
| Collide.WallProbeCount | src/game.rs:316-384 | each entity gets exactly one contact from a wall whose probe covers it and which it crosses, and none otherwise |
| Collide.WallContactsOf | src/game.rs:289-385 | an entity gets one boundary contact for each wall it crosses whose probe covers its cell, and none for a wall it does not cross |
| Collide.PairContactsOf | src/game.rs:289-385 | the number of pair contacts `(a, b)` is the broad-phase multiplicity if the circles overlap, and 0 otherwise |
| Collide.SameCellContactOnce | src/game.rs:289-314 | two overlapping entities in one cell produce exactly one contact |
| Collide.SameColumnContactTwice | src/game.rs:289-314 | two overlapping entities in one column and nearby rows produce a contact in each order |
| Resolve.Objects | src/game.rs:396-402 | a contact works on its two store entities, or on the entity and the shared dummy |
| Resolve.WriteBack | src/game.rs:396-402 | writes go to exactly the contact's entities and nowhere else |
| Resolve.StepCollects | src/game.rs:404-449 | at the first collectible ship–pod contact of pass 0, the step stores the reference collection and marks the pod for relocation |
| Resolve.StepQuiet | src/game.rs:404-449 | any other step keeps types, air and score and leaves the relocation unchanged |
| Resolve.StepSolves | src/game.rs:451-501 | a non-ship–pod contact gives its two objects (or the entity and the dummy) the bodies the solver returns for that pass, leaves every other entity alone and logs `(pass, k)` as solved |
| Resolve.CollectAtSymmetric | src/game.rs:416-447 | collection does not depend on which side of the contact the ship is on |
| Resolve.ResolveCollectsAtMostOnce | src/game.rs:387-530 | if a contact is collectible, exactly the first such one collects; its pod is relocated; all other types, air and score stay. With no such contact nothing of the kind changes |
| Resolve.HandedMembers | src/game.rs:394-449 | pass `p` hands contact `k` to the solver iff it is not ship–pod |
| Resolve.ResolveTrace | src/game.rs:387-530 | the solver sees the non-ship–pod contacts in order, in each of the five impulse passes and then in the correction pass; no object's frame changes |
| Resolve.ShipPodNeverSolved | src/game.rs:404-449 | `(pass, k)` is solved iff `pass <= 5` and contact `k` is not ship–pod |
| Resolve.ResolveKeepsFrame | src/game.rs:387-530 | resolving never changes an object's type, radius, spatial reference or flame flag |
| Resolve.Relocate | src/game.rs:534-550 | a collected pod uses exactly one sequence number, moves to the drawn position and gets the refilled air; nothing else changes, and with no collection nothing happens at all |
| Air.Decay | src/game.rs:553-559 | an air supply decreases by one and stops at zero; nothing else changes |
| Air.CheckAir | src/game.rs:553-559 | every entity decays, in place |
| Air.CheckAirTimesLeft | src/game.rs:553-559 | after `k` ticks the air is `air - k`, saturating at zero |
| Air.RunsOutAfterExactly | src/game.rs:553-559 | an entity with `a` units of air still has air after `a - 1` ticks and none after `a` ticks |
| Air.Steering | src/game.rs:240-251 | the ship turns left iff only a left key is down, and right iff only a right key is down |
| Air.SteeringMirror | src/game.rs:240-251 | mirroring the keys mirrors the turn and keeps the thrust |
| Air.Control | src/game.rs:231-264 | an object without air only loses its flame; otherwise it turns by -0.15 or 0.15 radians when exactly one direction is held, its velocity grows by its new heading iff a thrust key is down, and the flame is on exactly then; position and spin never change |
| Air.UpdatePlayerControls | src/game.rs:231-264 | only the controlled entity is steered; with no control object the store is unchanged |
| Tick.MoveAll | src/game.rs:267-275 | each body moves by its velocity and is re-registered in the cell of its pre-move position, keeping the index consistent |
| Tick.DampAll | src/game.rs:276-286 | only velocity and spin change, to the damped values |
| Tick.ApplyPhysics | src/game.rs:266-287 | composes both: consistent index, moved bodies, damped velocities, all other fields kept |
| Tick.Tick | src/game.rs:617-640 | one tick keeps the world invariant, never adds or removes entities or changes their type or radius, registers each entity at its pre-tick position, clears the events, keeps the held keys, and uses at most one sequence number |
| Tick.Update | src/game.rs:617-640 | the clock advances as `update_time` says; the exit flag becomes sticky once an Escape press or release is logged; a frame with no tick leaves the world unchanged apart from the clock and exit flag |
| Tick.UpdateFrames | src/game.rs:585-640 | over a run of frames the total ticks match the clock's prediction, and the seed, control object and entity count never change |

## Left out

- Floating-point physics is a parameter (`Tick.Physics`), not computed. This covers `apply_rotation`'s `% TAU`, `get_y_vector`, the damping and speed clamp, the impulse and friction maths (the solver is given the pass index, so friction in pass 0 only is within its reach), the positional correction, the contact normal and point, the refill from the ship distance, and the float side of `hash_rand` for `f64` and `Vec2` ranges. The model states which fields each may change.
- `DefaultHasher` is not modelled. Callers pass the 64-bit hash value, or a function from sequence number to draw.
- Positions are reals, not `f64`. NaN and infinities do not occur, and `f64 as u32` is modelled as a saturating floor (`Base.AsU32`).
- Circle overlap (`dist < min_dist`) is the exact real comparison without a square root (`World.Touching`). Rounding of `length()` is not modelled.
- A debug build panics on `u32` overflow in `get_sequence`, `update_time` and `hash_rand_u32` with `end < start`. The model follows the release build, which wraps.
- Clock.UpdateTime: `virtual_time` is a `u128` and is modelled unbounded, since it cannot overflow in any realistic run.
- Resolve.Collected: the `u64` additions to air and score are modelled unbounded. A `u64` overflow would need more than `2^64` units of air.
- Air.Decay: `saturating_sub` is modelled exactly; the `u64` width of air is not.
- World.SetControl: requires `id < |store|`. The source accepts any id, and the next tick's `get_mut` panics on an out-of-range one; that panic is not modelled.
- `flip_transforms`, `interpolate_transforms`, rendering, the mini map and `Resources` (shapes, scenes) are not modelled: they only feed drawing. Shape radii enter as parameters.
- `winit` events other than keyboard keys, the `Instant` clock (elapsed time is a parameter), `render_ready` and `handle_window_key_event` are not modelled.
- Spawn.AddObject: the occupancy test is a parameter of the retry loop. `Spawn.CheckOccupied` computes the probe-based test that `add_ship`, `add_air_pod` and `add_asteroid` pass in (`Spawn.ProbeOccupancy`).
- `find_neighbors` is modelled as the sequence of its callback calls (`Neighbors.NeighborPairs`). Only its innermost double loop (`broad_phase_node_node`) is written as a loop method.
- Tick.Tick: air and score changes within a tick are stated per phase (`Resolve.ResolveCollectsAtMostOnce`, `Resolve.Relocate`, `Air.CheckAir`), not in the contract of the whole tick.
- The console message that `println!` prints when the ship collects air (src/game.rs:427-430 and 440-443) is output only and is not modelled.
- Neighbors.NeighborPairs: the window bounds `x + num_check_nodes` and `y + num_check_nodes` are `u32` additions that would wrap only for a count above `2^32 - dim`; the model adds them unbounded. `Neighbors.NumCheckNodes` does model the wrap of the `+ 1` itself.
- `iter_mut_entity`, `get`, `get_mut`, and the getters of `GameWorld` and `SpatialDb` are plain sequence and field accesses in the model.
- `game_view.rs`, `render_mgr.rs`, `game_shapes.rs` and `main.rs` are not part of this model.
