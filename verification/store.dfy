/**
 `EntityStore`: an append-only vector of game objects addressed by
 `EntityId(index)`. Every object carries all components; the optional ones
 (air supply, score, animation) are `Option`s or flags.
 */
module Store {
  import opened Base
  import opened Spatial

  /** `GameObjectType` (the source spells the pod variant `AidPod`). */
  datatype ObjectType = Ship | Asteroid | AirPod | Dummy

  /**
   The floating-point state the physics works on: translation, velocity,
   rotation and angular velocity. Only the bookkeeping around it is modelled;
   the arithmetic on it is supplied from outside.
   */
  datatype Body = Body(pos: Vec2, vel: Vec2, rotation: real, angVel: real)

  /**
   `GameObject`: its type, body, collision radius, the spatial back-reference
   (`spatial_db_ref`), the air supply and score when present, and whether an
   animation is attached (the thrust flame on a ship).
   */
  datatype GameObject = GameObject(
    kind: ObjectType,
    body: Body,
    radius: real,
    spatialRef: nat,
    air: Option<nat>,
    score: Option<nat>,
    animated: bool)

  const ORIGIN: Vec2 := Vec2(0.0, 0.0)

  /** `GameObject::new_dummy`: the stand-in second object of a boundary contact. */
  function NewDummy(): (o: GameObject)
    ensures o.kind == Dummy && o.air.None? && o.score.None? && o.spatialRef == INVALID
  {
    GameObject(Dummy, Body(ORIGIN, ORIGIN, 0.0, 0.0), 0.0, INVALID, None, None, false)
  }

  /** The spatial back-references of all entities, in id order. */
  function Refs(s: seq<GameObject>): (refs: seq<nat>)
    ensures |refs| == |s|
    ensures forall i :: 0 <= i < |s| ==> refs[i] == s[i].spatialRef
  {
    seq(|s|, i requires 0 <= i < |s| => s[i].spatialRef)
  }

  /**
   `EntityStore::insert`: the new object gets the id equal to the old
   length, the store grows by one and every earlier entry stays as it was.
   */
  function Insert(s: seq<GameObject>, o: GameObject): (r: (seq<GameObject>, nat))
    ensures r.1 == |s| && |r.0| == |s| + 1
    ensures r.0[r.1] == o
    ensures forall k :: 0 <= k < |s| ==> r.0[k] == s[k]
  {
    (s + [o], |s|)
  }

  /** Inserting several objects one after another, collecting the returned ids. */
  function InsertAll(s: seq<GameObject>, os: seq<GameObject>): (r: (seq<GameObject>, seq<nat>))
    ensures |r.0| == |s| + |os| && |r.1| == |os|
    ensures forall k :: 0 <= k < |os| ==> |s| <= r.1[k] < |r.0|
    decreases |os|
  {
    if |os| == 0 then (s, [])
    else
      var (s1, ids) := InsertAll(s, os[..|os| - 1]);
      var (s2, id) := Insert(s1, os[|os| - 1]);
      (s2, ids + [id])
  }

  /**
   Successive inserts hand out consecutive ids starting at the old length,
   so the ids are strictly increasing (hence distinct) and each id finds the
   object that was inserted with it.
   */
  lemma {:induction false} InsertAllIds(s: seq<GameObject>, os: seq<GameObject>)
    ensures InsertAll(s, os).0 == s + os
    ensures |InsertAll(s, os).1| == |os|
    ensures forall k :: 0 <= k < |os| ==> InsertAll(s, os).1[k] == |s| + k
    decreases |os|
  {
    if |os| > 0 {
      var os' := os[..|os| - 1];
      InsertAllIds(s, os');
      assert s + os' + [os[|os| - 1]] == s + os;
    }
  }

  /** Every id handed out by a run of inserts finds its own object, and the ids increase. */
  lemma InsertAllFinds(s: seq<GameObject>, os: seq<GameObject>, k: nat, l: nat)
    requires k < l < |os|
    ensures InsertAll(s, os).1[k] < InsertAll(s, os).1[l]
    ensures InsertAll(s, os).0[InsertAll(s, os).1[k]] == os[k]
  {
    InsertAllIds(s, os);
  }

  /** The outcome of `get_mut_pair`: a panic, or the two objects in argument order. */
  datatype PairAccess = PairPanic | PairRefs(first: GameObject, second: GameObject)

  /**
   `EntityStore::get_mut_pair`: equal ids panic, and so does an id past the
   end (through `split_at_mut` or the empty second half). Otherwise the
   vector is split at the larger id and the first result is entity `i`, the
   second entity `j`, whichever of the two is larger.
   */
  function GetMutPair(s: seq<GameObject>, i: nat, j: nat): (r: PairAccess)
    ensures r.PairRefs? <==> i != j && i < |s| && j < |s|
    ensures r.PairRefs? ==> r.first == s[i] && r.second == s[j]
  {
    if i < j then
      if |s| <= j then PairPanic
      else
        var split1 := s[..j];
        var split2 := s[j..];
        PairRefs(split1[i], split2[0])
    else if i > j then
      if |s| <= i then PairPanic
      else
        var split1 := s[..i];
        var split2 := s[i..];
        PairRefs(split2[0], split1[j])
    else PairPanic
  }

  /**
   Writing `a` through the first and `b` through the second reference of a
   successful `get_mut_pair(i, j)`: the two halves of the split are updated
   and joined again. Only slots `i` and `j` change.
   */
  function WritePair(s: seq<GameObject>, i: nat, j: nat, a: GameObject, b: GameObject): (r: seq<GameObject>)
    requires GetMutPair(s, i, j).PairRefs?
    ensures |r| == |s| && r[i] == a && r[j] == b
    ensures forall k :: 0 <= k < |s| && k != i && k != j ==> r[k] == s[k]
  {
    if i < j then
      var split1 := s[..j];
      var split2 := s[j..];
      split1[i := a] + split2[0 := b]
    else
      var split1 := s[..i];
      var split2 := s[i..];
      split1[j := b] + split2[0 := a]
  }

  /**
   Reading the pair back after writing through it gives the written objects
   in argument order, and writing back what was read leaves the store as it
   was.
   */
  lemma WritePairRoundTrip(s: seq<GameObject>, i: nat, j: nat, a: GameObject, b: GameObject)
    requires GetMutPair(s, i, j).PairRefs?
    ensures GetMutPair(WritePair(s, i, j, a, b), i, j) == PairRefs(a, b)
    ensures WritePair(s, i, j, s[i], s[j]) == s
  {
    var r := WritePair(s, i, j, s[i], s[j]);
    assert forall k :: 0 <= k < |s| ==> r[k] == s[k];
  }

  /** The argument order decides the result order: swapping the ids swaps the pair. */
  lemma GetMutPairSwap(s: seq<GameObject>, i: nat, j: nat)
    ensures GetMutPair(s, i, j).PairRefs? <==> GetMutPair(s, j, i).PairRefs?
    ensures GetMutPair(s, i, j).PairRefs? ==>
              GetMutPair(s, i, j).first == GetMutPair(s, j, i).second
              && GetMutPair(s, i, j).second == GetMutPair(s, j, i).first
  {
  }
}
