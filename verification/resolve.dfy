/**
 The bookkeeping of `resolve_collisions`: five impulse passes over the
 contacts followed by one positional-correction pass. Contacts between a
 ship and an air pod take no part in either; instead, in the first pass,
 the first such contact whose objects both carry air moves the pod's air
 into the ship and scores it, and the pod is then relocated. The impulse and
 correction maths on the bodies are floating-point and supplied as `Solver`s.
 */
module Resolve {
  import opened Base
  import opened Store
  import opened Rng

  /** `Contact`: the entity, the other entity (or none for a wall), and the contact geometry. */
  datatype Contact = Contact(id1: nat, id2: Option<nat>, pos: Vec2, normal: Vec2, depth: real)

  /**
   What a contact produced by `detect_collisions` satisfies: both ids name
   entities, and a pair never names one entity twice. (Other contacts make
   `get_mut` or `get_mut_pair` panic.)
   */
  predicate ValidContact(s: seq<GameObject>, c: Contact) {
    c.id1 < |s| && (c.id2.Some? ==> c.id2.value < |s| && c.id2.value != c.id1)
  }

  predicate ValidContacts(s: seq<GameObject>, cs: seq<Contact>) {
    forall k :: 0 <= k < |cs| ==> ValidContact(s, cs[k])
  }

  /**
   A float solver: new bodies for the two objects of a contact in a given
   pass. The pass index lets a solver do what only some passes do, such as
   the friction impulse that `resolve_collisions` applies in pass 0 alone.
   */
  type Solver = (nat, GameObject, GameObject, Contact) -> (Body, Body)

  /** The two objects a contact works on: the pair from the store, or the entity and the dummy. */
  function Objects(s: seq<GameObject>, dummy: GameObject, c: Contact): (r: (GameObject, GameObject))
    requires ValidContact(s, c)
    ensures r.0 == s[c.id1]
    ensures r.1 == if c.id2.Some? then s[c.id2.value] else dummy
  {
    if c.id2.Some? then
      var p := GetMutPair(s, c.id1, c.id2.value);
      (p.first, p.second)
    else (s[c.id1], dummy)
  }

  /** Writing the two objects of a contact back through the references they came from. */
  function WriteBack(s: seq<GameObject>, c: Contact, o1: GameObject, o2: GameObject): (r: seq<GameObject>)
    requires ValidContact(s, c)
    ensures |r| == |s| && r[c.id1] == o1
    ensures c.id2.Some? ==> r[c.id2.value] == o2
    ensures forall k :: 0 <= k < |s| && k != c.id1 && c.id2 != Some(k) ==> r[k] == s[k]
  {
    if c.id2.Some? then WritePair(s, c.id1, c.id2.value, o1, o2)
    else s[c.id1 := o1]
  }

  /** The dummy of a boundary contact stays a dummy without air or score. */
  predicate DummyLike(d: GameObject) {
    d.kind == Dummy && d.air.None? && d.score.None?
  }

  /** The object-type test of both passes: one object is a ship and the other an air pod. */
  predicate ShipPod(a: GameObject, b: GameObject) {
    (a.kind == AirPod && b.kind == Ship) || (b.kind == AirPod && a.kind == Ship)
  }

  /** A ship–pod contact; only the object types matter, so a dummy never qualifies. */
  predicate ShipPodContact(s: seq<GameObject>, c: Contact)
    requires ValidContact(s, c)
  {
    c.id2.Some? && ShipPod(s[c.id1], s[c.id2.value])
  }

  /** A ship–pod contact where both objects carry an air supply: collection can happen. */
  predicate Collectible(s: seq<GameObject>, c: Contact)
    requires ValidContact(s, c)
  {
    ShipPodContact(s, c) && s[c.id1].air.Some? && s[c.id2.value].air.Some?
  }

  /** The entity of a ship–pod contact that is the ship. */
  function ShipOf(s: seq<GameObject>, c: Contact): (id: nat)
    requires ValidContact(s, c) && ShipPodContact(s, c)
    ensures id < |s| && s[id].kind == Ship
  {
    if s[c.id1].kind == Ship then c.id1 else c.id2.value
  }

  /** The entity of a ship–pod contact that is the pod. */
  function PodOf(s: seq<GameObject>, c: Contact): (id: nat)
    requires ValidContact(s, c) && ShipPodContact(s, c)
    ensures id < |s| && s[id].kind == AirPod && id != ShipOf(s, c)
  {
    if s[c.id1].kind == Ship then c.id2.value else c.id1
  }

  /** The collecting ship: its air grows by the pod's and its score, if any, by that plus 1000. */
  function Collected(ship: GameObject, podAir: nat): GameObject
    requires ship.air.Some?
  {
    ship.(air := Some(ship.air.value + podAir),
          score := if ship.score.Some? then Some(ship.score.value + podAir + 1000) else None)
  }

  /** The branch of `resolve_collisions` taken when the contact's ship collects. */
  function Collect(o1: GameObject, o2: GameObject): (r: (GameObject, GameObject))
    requires ShipPod(o1, o2) && o1.air.Some? && o2.air.Some?
  {
    if o1.kind == Ship then (Collected(o1, o2.air.value), o2)
    else (o1, Collected(o2, o1.air.value))
  }

  /**
   The store after the collection of contact `c`: the ship's air grows by
   the pod's air and its score by the pod's air plus 1000, whichever side of
   the contact the ship is on; every other entity, the pod included, is as
   it was.
   */
  function CollectAt(s: seq<GameObject>, c: Contact): (r: seq<GameObject>)
    requires ValidContact(s, c) && Collectible(s, c)
    ensures |r| == |s|
  {
    var ship := ShipOf(s, c);
    s[ship := Collected(s[ship], s[PodOf(s, c)].air.value)]
  }

  /** The contact with its two entities swapped collects the same way. */
  lemma CollectAtSymmetric(s: seq<GameObject>, c: Contact)
    requires ValidContact(s, c) && Collectible(s, c)
    ensures var c' := c.(id1 := c.id2.value, id2 := Some(c.id1));
            ValidContact(s, c') && Collectible(s, c') && CollectAt(s, c') == CollectAt(s, c)
  {
    var c' := c.(id1 := c.id2.value, id2 := Some(c.id1));
    assert ShipOf(s, c') == ShipOf(s, c);
    var r, r' := CollectAt(s, c), CollectAt(s, c');
    assert forall k :: 0 <= k < |s| ==> r'[k] == r[k];
  }

  /**
   The loop state of `resolve_collisions`: the store, the pod to relocate
   and where its ship was (set at most once), the dummy object reused by
   every boundary contact, and the `(pass, contact)` indices handed to a
   solver so far.
   */
  datatype PassState = PassState(
    store: seq<GameObject>,
    relocate: Option<nat>,
    shipLoc: Option<Vec2>,
    dummy: GameObject,
    solved: seq<(nat, nat)>)

  /** The loop body for contact `k` in pass `pass` (passes 0-4 are impulses, 5 is the correction). */
  function Step(st: PassState, cs: seq<Contact>, k: nat, pass: nat, solve: Solver): (r: PassState)
    requires k < |cs| && ValidContact(st.store, cs[k])
    ensures |r.store| == |st.store|
  {
    var c := cs[k];
    var (o1, o2) := Objects(st.store, st.dummy, c);
    if ShipPod(o1, o2) then
      if pass == 0 && o1.air.Some? && o2.air.Some? && st.relocate.None? then
        var (n1, n2) := Collect(o1, o2);
        st.(store := WriteBack(st.store, c, n1, n2),
            relocate := if o1.kind == Ship then c.id2 else Some(c.id1),
            shipLoc := Some(if o1.kind == Ship then o1.body.pos else o2.body.pos))
      else st
    else
      var (b1, b2) := solve(pass, o1, o2, c);
      var n2 := o2.(body := b2);
      st.(store := WriteBack(st.store, c, o1.(body := b1), n2),
          dummy := if c.id2.Some? then st.dummy else n2,
          solved := st.solved + [(pass, k)])
  }

  /** One pass over the contacts `cs[k..]`. */
  function Pass(st: PassState, cs: seq<Contact>, k: nat, pass: nat, solve: Solver): (r: PassState)
    requires ValidContacts(st.store, cs)
    ensures |r.store| == |st.store|
    decreases |cs| - k
  {
    if k >= |cs| then st
    else Pass(Step(st, cs, k, pass, solve), cs, k + 1, pass, solve)
  }

  /** The impulse passes `pass..5`. */
  function ImpulsePasses(st: PassState, cs: seq<Contact>, pass: nat, solve: Solver): (r: PassState)
    requires ValidContacts(st.store, cs)
    ensures |r.store| == |st.store|
    decreases 5 - pass
  {
    if pass >= 5 then st
    else ImpulsePasses(Pass(st, cs, 0, pass, solve), cs, pass + 1, solve)
  }

  /** `resolve_collisions` up to the pod relocation: five impulse passes, then the correction pass. */
  function ResolveContacts(s: seq<GameObject>, cs: seq<Contact>, impulse: Solver, correct: Solver): (r: PassState)
    requires ValidContacts(s, cs)
    ensures |r.store| == |s|
  {
    var st := ImpulsePasses(PassState(s, None, None, NewDummy(), []), cs, 0, impulse);
    Pass(st, cs, 0, 5, correct)
  }

  // ----- Books: what the solvers cannot touch -----

  /** Same entities with the same types, air and score; bodies may differ. */
  predicate SameBooks(s: seq<GameObject>, t: seq<GameObject>) {
    |s| == |t|
    && forall i :: 0 <= i < |s| ==> s[i].kind == t[i].kind && s[i].air == t[i].air && s[i].score == t[i].score
  }

  /** Contact classification reads only the books. */
  lemma SameBooksClassify(s: seq<GameObject>, t: seq<GameObject>, c: Contact)
    requires SameBooks(s, t) && ValidContact(s, c)
    ensures ValidContact(t, c)
    ensures ShipPodContact(t, c) <==> ShipPodContact(s, c)
    ensures Collectible(t, c) <==> Collectible(s, c)
    ensures ShipPodContact(s, c) ==> ShipOf(t, c) == ShipOf(s, c) && PodOf(t, c) == PodOf(s, c)
  {
  }

  /** Collection reads only the books, so equal books collect to equal books. */
  lemma SameBooksCollectAt(s: seq<GameObject>, t: seq<GameObject>, c: Contact)
    requires SameBooks(s, t) && ValidContact(s, c) && Collectible(s, c)
    ensures ValidContact(t, c) && Collectible(t, c)
    ensures SameBooks(CollectAt(s, c), CollectAt(t, c))
  {
    SameBooksClassify(s, t, c);
    var ship, pod := ShipOf(s, c), PodOf(s, c);
    assert s[pod].air == t[pod].air;
    assert s[ship].air == t[ship].air && s[ship].score == t[ship].score;
    var rs, rt := CollectAt(s, c), CollectAt(t, c);
    forall k | 0 <= k < |s|
      ensures rs[k].kind == rt[k].kind && rs[k].air == rt[k].air && rs[k].score == rt[k].score
    {
      if k != ship {
        assert rs[k] == s[k] && rt[k] == t[k];
      }
    }
  }

  lemma SameBooksSym(s: seq<GameObject>, t: seq<GameObject>)
    requires SameBooks(s, t)
    ensures SameBooks(t, s)
  {
  }

  lemma SameBooksTrans(a: seq<GameObject>, b: seq<GameObject>, c: seq<GameObject>)
    requires SameBooks(a, b) && SameBooks(b, c)
    ensures SameBooks(a, c)
  {
  }

  /** The first contact at or after `k` at which collection can happen. */
  function FirstCollectible(s: seq<GameObject>, cs: seq<Contact>, k: nat): (r: Option<nat>)
    requires ValidContacts(s, cs)
    ensures r.Some? ==> k <= r.value < |cs| && Collectible(s, cs[r.value])
    ensures r.Some? ==> forall j :: k <= j < r.value ==> !Collectible(s, cs[j])
    ensures r.None? ==> forall j :: k <= j < |cs| ==> !Collectible(s, cs[j])
    decreases |cs| - k
  {
    if k >= |cs| then None
    else if Collectible(s, cs[k]) then Some(k)
    else FirstCollectible(s, cs, k + 1)
  }

  /** The loop invariant of every pass: the dummy stays a dummy and a relocation has its ship position. */
  predicate Sound(st: PassState) {
    DummyLike(st.dummy) && (st.relocate.Some? ==> st.shipLoc.Some? && st.relocate.value < |st.store|)
  }

  /** A step that does not collect keeps the books and the relocation. */
  lemma StepQuiet(st: PassState, cs: seq<Contact>, k: nat, pass: nat, solve: Solver)
    requires k < |cs| && ValidContact(st.store, cs[k]) && Sound(st)
    requires pass != 0 || st.relocate.Some? || !Collectible(st.store, cs[k])
    ensures var r := Step(st, cs, k, pass, solve);
            SameBooks(r.store, st.store) && r.relocate == st.relocate && Sound(r)
  {
  }

  /** A step at a collectible contact of the first pass, before any collection, collects it. */
  lemma StepCollects(st: PassState, cs: seq<Contact>, k: nat, solve: Solver)
    requires k < |cs| && ValidContact(st.store, cs[k]) && Sound(st)
    requires st.relocate.None? && Collectible(st.store, cs[k])
    ensures var r := Step(st, cs, k, 0, solve);
            r.store == CollectAt(st.store, cs[k])
            && r.relocate == Some(PodOf(st.store, cs[k])) && Sound(r)
  {
  }

  /**
   A step at a contact that is not ship–pod hands the contact, with the
   index of its pass, to the solver: the first entity takes the first body,
   and the second entity (or, at a wall, the shared dummy) takes the second.
   Nothing else about the objects changes.
   */
  lemma StepSolves(st: PassState, cs: seq<Contact>, k: nat, pass: nat, solve: Solver)
    requires k < |cs| && ValidContact(st.store, cs[k]) && !ShipPodContact(st.store, cs[k]) && DummyLike(st.dummy)
    ensures var c := cs[k];
            var (o1, o2) := Objects(st.store, st.dummy, c);
            var (b1, b2) := solve(pass, o1, o2, c);
            var r := Step(st, cs, k, pass, solve);
            && r.store[c.id1] == o1.(body := b1)
            && (c.id2.Some? ==> r.store[c.id2.value] == o2.(body := b2) && r.dummy == st.dummy)
            && (c.id2.None? ==> r.dummy == st.dummy.(body := b2))
            && (forall j :: 0 <= j < |st.store| && j != c.id1 && c.id2 != Some(j) ==> r.store[j] == st.store[j])
            && r.solved == st.solved + [(pass, k)]
  {
  }

  /** Passes that cannot collect keep the books and the relocation. */
  lemma {:induction false} PassQuiet(st: PassState, cs: seq<Contact>, k: nat, pass: nat, solve: Solver)
    requires ValidContacts(st.store, cs) && Sound(st)
    requires pass != 0 || st.relocate.Some?
    ensures var r := Pass(st, cs, k, pass, solve);
            SameBooks(r.store, st.store) && r.relocate == st.relocate && Sound(r)
    decreases |cs| - k
  {
    if k < |cs| {
      StepQuiet(st, cs, k, pass, solve);
      var st' := Step(st, cs, k, pass, solve);
      assert ValidContacts(st'.store, cs) by {
        forall j | 0 <= j < |cs| ensures ValidContact(st'.store, cs[j]) {
          SameBooksClassify(st.store, st'.store, cs[j]);
        }
      }
      PassQuiet(st', cs, k + 1, pass, solve);
    }
  }

  /**
   The first pass collects at the first collectible contact and nowhere
   else: the duplicate of a ship–pod contact that `find_neighbors` may
   report, or a second pod touching the ship, collects nothing.
   */
  lemma {:induction false} FirstPassCollectsOnce(st: PassState, cs: seq<Contact>, k: nat, solve: Solver)
    requires ValidContacts(st.store, cs) && Sound(st) && st.relocate.None?
    ensures var r := Pass(st, cs, k, 0, solve);
            Sound(r)
            && match FirstCollectible(st.store, cs, k)
               case None => r.relocate.None? && SameBooks(r.store, st.store)
               case Some(j) =>
                 && r.relocate == Some(PodOf(st.store, cs[j]))
                 && SameBooks(r.store, CollectAt(st.store, cs[j]))
    decreases |cs| - k, 1
  {
    if k < |cs| {
      if Collectible(st.store, cs[k]) {
        StepCollects(st, cs, k, solve);
        var st' := Step(st, cs, k, 0, solve);
        assert ValidContacts(st'.store, cs);
        PassQuiet(st', cs, k + 1, 0, solve);
      } else {
        FirstPassPassesBy(st, cs, k, solve);
      }
    }
  }

  /** A first-pass step at a contact that cannot collect changes nothing the rest of the pass reads. */
  lemma {:induction false} FirstPassPassesBy(st: PassState, cs: seq<Contact>, k: nat, solve: Solver)
    requires ValidContacts(st.store, cs) && Sound(st) && st.relocate.None?
    requires k < |cs| && !Collectible(st.store, cs[k])
    ensures var r := Pass(st, cs, k, 0, solve);
            Sound(r)
            && match FirstCollectible(st.store, cs, k)
               case None => r.relocate.None? && SameBooks(r.store, st.store)
               case Some(j) =>
                 && r.relocate == Some(PodOf(st.store, cs[j]))
                 && SameBooks(r.store, CollectAt(st.store, cs[j]))
    decreases |cs| - k, 0
  {
    StepQuiet(st, cs, k, 0, solve);
    var st' := Step(st, cs, k, 0, solve);
    SameBooksSym(st'.store, st.store);
    FirstCollectibleSameBooks(st.store, st'.store, cs, k + 1);
    FirstPassCollectsOnce(st', cs, k + 1, solve);
    var r := Pass(st', cs, k + 1, 0, solve);
    assert Pass(st, cs, k, 0, solve) == r;
    var f := FirstCollectible(st.store, cs, k + 1);
    assert FirstCollectible(st.store, cs, k) == f;
    match f
    case None =>
      SameBooksTrans(r.store, st'.store, st.store);
    case Some(j) =>
      SameBooksCollectAt(st'.store, st.store, cs[j]);
      SameBooksClassify(st.store, st'.store, cs[j]);
      SameBooksTrans(r.store, CollectAt(st'.store, cs[j]), CollectAt(st.store, cs[j]));
  }

  /** Books decide the first collectible contact. */
  lemma {:induction false} FirstCollectibleSameBooks(s: seq<GameObject>, t: seq<GameObject>, cs: seq<Contact>, k: nat)
    requires SameBooks(s, t) && ValidContacts(s, cs)
    ensures ValidContacts(t, cs) && FirstCollectible(t, cs, k) == FirstCollectible(s, cs, k)
    decreases |cs| - k
  {
    forall j | 0 <= j < |cs| ensures ValidContact(t, cs[j]) && (Collectible(t, cs[j]) <==> Collectible(s, cs[j])) {
      SameBooksClassify(s, t, cs[j]);
    }
    if k < |cs| {
      FirstCollectibleSameBooks(s, t, cs, k + 1);
    }
  }

  /** Passes after the first, and the correction pass, keep the books and the relocation. */
  lemma {:induction false} LaterPassesQuiet(st: PassState, cs: seq<Contact>, pass: nat, solve: Solver)
    requires ValidContacts(st.store, cs) && Sound(st) && 1 <= pass
    ensures var r := ImpulsePasses(st, cs, pass, solve);
            SameBooks(r.store, st.store) && r.relocate == st.relocate && Sound(r)
    decreases 5 - pass
  {
    if pass < 5 {
      PassQuiet(st, cs, 0, pass, solve);
      LaterPassesQuiet(Pass(st, cs, 0, pass, solve), cs, pass + 1, solve);
    }
  }

  /**
   Per `resolve_collisions` call at most one collection happens: at the
   first contact where a ship touches a pod and both carry air. Then the
   ship has gained the pod's air and the pod's air plus 1000 points, that
   pod is the one to relocate, and no other entity's type, air or score has
   changed; without such a contact nothing of the kind has changed and no
   pod is relocated.
   */
  lemma ResolveCollectsAtMostOnce(s: seq<GameObject>, cs: seq<Contact>, impulse: Solver, correct: Solver)
    requires ValidContacts(s, cs)
    ensures var r := ResolveContacts(s, cs, impulse, correct);
            Sound(r)
            && match FirstCollectible(s, cs, 0)
               case None => r.relocate.None? && SameBooks(r.store, s)
               case Some(j) =>
                 && r.relocate == Some(PodOf(s, cs[j]))
                 && SameBooks(r.store, CollectAt(s, cs[j]))
  {
    var st0 := PassState(s, None, None, NewDummy(), []);
    FirstPassCollectsOnce(st0, cs, 0, impulse);
    var st1 := Pass(st0, cs, 0, 0, impulse);
    LaterPassesQuiet(st1, cs, 1, impulse);
    var st5 := ImpulsePasses(st1, cs, 1, impulse);
    assert st5 == ImpulsePasses(st0, cs, 0, impulse);
    PassQuiet(st5, cs, 0, 5, correct);
    var r := Pass(st5, cs, 0, 5, correct);
    assert r == ResolveContacts(s, cs, impulse, correct);
    SameBooksTrans(r.store, st5.store, st1.store);
    match FirstCollectible(s, cs, 0)
    case None =>
      SameBooksTrans(r.store, st1.store, s);
    case Some(j) =>
      SameBooksTrans(r.store, st1.store, CollectAt(s, cs[j]));
  }

  /**
   Same entities with the same object types, radii, spatial back-references
   and animation flags: what resolving contacts never changes.
   */
  predicate SameFrame(s: seq<GameObject>, t: seq<GameObject>) {
    |s| == |t|
    && forall i :: 0 <= i < |s| ==>
         && s[i].kind == t[i].kind && s[i].radius == t[i].radius
         && s[i].spatialRef == t[i].spatialRef && s[i].animated == t[i].animated
  }

  /** Contact validity and the ship–pod test read only what `SameFrame` keeps. */
  lemma SameFrameClassify(s: seq<GameObject>, t: seq<GameObject>, c: Contact)
    requires SameFrame(t, s) && ValidContact(s, c)
    ensures ValidContact(t, c) && (ShipPodContact(t, c) <==> ShipPodContact(s, c))
  {
  }

  /** A whole contact list stays valid across stores with the same frame. */
  lemma SameFrameContacts(s: seq<GameObject>, t: seq<GameObject>, cs: seq<Contact>)
    requires SameFrame(t, s) && ValidContacts(s, cs)
    ensures ValidContacts(t, cs)
  {
  }

  /** A step never changes an object's type, radius, back-reference or animation, and hands the contact to the solver exactly when it is not ship–pod. */
  lemma StepTrace(st: PassState, cs: seq<Contact>, k: nat, pass: nat, solve: Solver)
    requires k < |cs| && ValidContact(st.store, cs[k]) && DummyLike(st.dummy)
    ensures var r := Step(st, cs, k, pass, solve);
            && SameFrame(r.store, st.store) && DummyLike(r.dummy)
            && r.solved == if ShipPodContact(st.store, cs[k]) then st.solved else st.solved + [(pass, k)]
  {
  }

  /** Having the same frame is transitive. */
  lemma SameFrameTrans(a: seq<GameObject>, b: seq<GameObject>, c: seq<GameObject>)
    requires SameFrame(a, b) && SameFrame(b, c)
    ensures SameFrame(a, c)
  {
  }

  /**
   The `(pass, j)` tags one pass hands the solver for the contacts
   `cs[k..]`: every contact that is not between a ship and a pod, in order.
   */
  function Handed(s: seq<GameObject>, cs: seq<Contact>, k: nat, pass: nat): seq<(nat, nat)>
    requires ValidContacts(s, cs)
    decreases |cs| - k
  {
    if k >= |cs| then []
    else (if ShipPodContact(s, cs[k]) then [] else [(pass, k)]) + Handed(s, cs, k + 1, pass)
  }

  /** The tags of the passes `pass..5`, pass after pass. */
  function AllHanded(s: seq<GameObject>, cs: seq<Contact>, pass: nat): seq<(nat, nat)>
    requires ValidContacts(s, cs)
    decreases 5 - pass
  {
    if pass >= 5 then [] else Handed(s, cs, 0, pass) + AllHanded(s, cs, pass + 1)
  }

  /** A tag is handed over by a pass exactly when its contact lies in `cs[k..]` and is not ship–pod. */
  lemma {:induction false} HandedMembers(s: seq<GameObject>, cs: seq<Contact>, k: nat, pass: nat, x: (nat, nat))
    requires ValidContacts(s, cs)
    ensures x in Handed(s, cs, k, pass) <==> x.0 == pass && k <= x.1 < |cs| && !ShipPodContact(s, cs[x.1])
    decreases |cs| - k
  {
    if k < |cs| {
      HandedMembers(s, cs, k + 1, pass, x);
      var head := if ShipPodContact(s, cs[k]) then [] else [(pass, k)];
      assert Handed(s, cs, k, pass) == head + Handed(s, cs, k + 1, pass);
      assert x in head <==> x.0 == pass && x.1 == k && !ShipPodContact(s, cs[k]);
    }
  }

  /** A tag is handed over by the passes `pass..5` exactly when its pass is one of them and its contact is not ship–pod. */
  lemma {:induction false} AllHandedMembers(s: seq<GameObject>, cs: seq<Contact>, pass: nat, x: (nat, nat))
    requires ValidContacts(s, cs)
    ensures x in AllHanded(s, cs, pass) <==> pass <= x.0 < 5 && x.1 < |cs| && !ShipPodContact(s, cs[x.1])
    decreases 5 - pass
  {
    if pass < 5 {
      HandedMembers(s, cs, 0, pass, x);
      AllHandedMembers(s, cs, pass + 1, x);
    }
  }

  /** The tags depend on the frame only. */
  lemma {:induction false} HandedSameFrame(s: seq<GameObject>, t: seq<GameObject>, cs: seq<Contact>, k: nat, pass: nat)
    requires SameFrame(t, s) && ValidContacts(s, cs)
    ensures ValidContacts(t, cs) && Handed(t, cs, k, pass) == Handed(s, cs, k, pass)
    decreases |cs| - k
  {
    SameFrameContacts(s, t, cs);
    if k < |cs| {
      SameFrameClassify(s, t, cs[k]);
      HandedSameFrame(s, t, cs, k + 1, pass);
    }
  }

  lemma {:induction false} AllHandedSameFrame(s: seq<GameObject>, t: seq<GameObject>, cs: seq<Contact>, pass: nat)
    requires SameFrame(t, s) && ValidContacts(s, cs)
    ensures ValidContacts(t, cs) && AllHanded(t, cs, pass) == AllHanded(s, cs, pass)
    decreases 5 - pass
  {
    SameFrameContacts(s, t, cs);
    if pass < 5 {
      HandedSameFrame(s, t, cs, 0, pass);
      AllHandedSameFrame(s, t, cs, pass + 1);
    }
  }

  /**
   A pass keeps the frame and appends to the solver log exactly the tags of
   `cs[k..]` that are not ship–pod, in order.
   */
  lemma {:induction false} PassTrace(st: PassState, cs: seq<Contact>, k: nat, pass: nat, solve: Solver)
    requires ValidContacts(st.store, cs) && DummyLike(st.dummy)
    ensures var r := Pass(st, cs, k, pass, solve);
            && SameFrame(r.store, st.store) && DummyLike(r.dummy)
            && r.solved == st.solved + Handed(st.store, cs, k, pass)
    decreases |cs| - k
  {
    if k < |cs| {
      StepTrace(st, cs, k, pass, solve);
      var st' := Step(st, cs, k, pass, solve);
      SameFrameContacts(st.store, st'.store, cs);
      PassTrace(st', cs, k + 1, pass, solve);
      var r := Pass(st', cs, k + 1, pass, solve);
      TraceExtend(st.store, st'.store, cs, k, pass, st.solved, st'.solved, r.solved);
      SameFrameTrans(r.store, st'.store, st.store);
    }
  }

  /** One step's log entry followed by the rest of the pass's entries is the pass's log from `k`. */
  lemma TraceExtend(s: seq<GameObject>, t: seq<GameObject>, cs: seq<Contact>, k: nat, pass: nat,
                    before: seq<(nat, nat)>, mid: seq<(nat, nat)>, after: seq<(nat, nat)>)
    requires ValidContacts(s, cs) && k < |cs| && SameFrame(t, s)
    requires mid == if ShipPodContact(s, cs[k]) then before else before + [(pass, k)]
    requires ValidContacts(t, cs) && after == mid + Handed(t, cs, k + 1, pass)
    ensures after == before + Handed(s, cs, k, pass)
  {
    HandedSameFrame(s, t, cs, k + 1, pass);
    var head := if ShipPodContact(s, cs[k]) then [] else [(pass, k)];
    assert mid == before + head;
    AppendAssoc(before, head, Handed(s, cs, k + 1, pass));
  }

  /** The impulse passes `pass..5` keep the frame and log their tags pass after pass. */
  lemma {:induction false} ImpulseTrace(st: PassState, cs: seq<Contact>, pass: nat, solve: Solver)
    requires ValidContacts(st.store, cs) && DummyLike(st.dummy)
    ensures var r := ImpulsePasses(st, cs, pass, solve);
            && SameFrame(r.store, st.store) && DummyLike(r.dummy)
            && r.solved == st.solved + AllHanded(st.store, cs, pass)
    decreases 5 - pass
  {
    if pass < 5 {
      PassTrace(st, cs, 0, pass, solve);
      var st' := Pass(st, cs, 0, pass, solve);
      SameFrameContacts(st.store, st'.store, cs);
      ImpulseTrace(st', cs, pass + 1, solve);
      var r := ImpulsePasses(st', cs, pass + 1, solve);
      PassesExtend(st.store, st'.store, cs, pass, st.solved, st'.solved, r.solved);
      SameFrameTrans(r.store, st'.store, st.store);
    }
  }

  /** One pass's log followed by the later passes' logs is the log of the passes from `pass`. */
  lemma PassesExtend(s: seq<GameObject>, t: seq<GameObject>, cs: seq<Contact>, pass: nat,
                     before: seq<(nat, nat)>, mid: seq<(nat, nat)>, after: seq<(nat, nat)>)
    requires ValidContacts(s, cs) && pass < 5 && SameFrame(t, s)
    requires mid == before + Handed(s, cs, 0, pass)
    requires ValidContacts(t, cs) && after == mid + AllHanded(t, cs, pass + 1)
    ensures after == before + AllHanded(s, cs, pass)
  {
    AllHandedSameFrame(s, t, cs, pass + 1);
    AppendAssoc(before, Handed(s, cs, 0, pass), AllHanded(s, cs, pass + 1));
  }

  /**
   The solver log of `resolve_collisions`: the five impulse passes and then
   the correction pass each hand over every contact that is not ship–pod,
   in order; the frame of every object is kept.
   */
  lemma ResolveTrace(s: seq<GameObject>, cs: seq<Contact>, impulse: Solver, correct: Solver)
    requires ValidContacts(s, cs)
    ensures var r := ResolveContacts(s, cs, impulse, correct);
            && SameFrame(r.store, s)
            && r.solved == AllHanded(s, cs, 0) + Handed(s, cs, 0, 5)
  {
    var st0 := PassState(s, None, None, NewDummy(), []);
    ImpulseTrace(st0, cs, 0, impulse);
    var st := ImpulsePasses(st0, cs, 0, impulse);
    SameFrameContacts(s, st.store, cs);
    PassTrace(st, cs, 0, 5, correct);
    HandedSameFrame(s, st.store, cs, 0, 5);
    SameFrameTrans(Pass(st, cs, 0, 5, correct).store, st.store, s);
    assert [] + AllHanded(s, cs, 0) == AllHanded(s, cs, 0);
  }

  /**
   Ship–pod contacts never receive an impulse or a positional correction,
   and every other contact receives one impulse in each of the five passes
   and one correction.
   */
  lemma ShipPodNeverSolved(s: seq<GameObject>, cs: seq<Contact>, impulse: Solver, correct: Solver, pass: nat, k: nat)
    requires ValidContacts(s, cs) && k < |cs|
    ensures (pass, k) in ResolveContacts(s, cs, impulse, correct).solved
            <==> pass <= 5 && !ShipPodContact(s, cs[k])
  {
    ResolveTrace(s, cs, impulse, correct);
    AllHandedMembers(s, cs, 0, (pass, k));
    HandedMembers(s, cs, 0, 5, (pass, k));
  }

  /**
   Resolving contacts changes bodies, air and score only: object types,
   radii, spatial back-references and animation flags stay as they were.
   */
  lemma ResolveKeepsFrame(s: seq<GameObject>, cs: seq<Contact>, impulse: Solver, correct: Solver)
    requires ValidContacts(s, cs)
    ensures SameFrame(ResolveContacts(s, cs, impulse, correct).store, s)
  {
    ResolveTrace(s, cs, impulse, correct);
  }

  /**
   The end of `resolve_collisions`: a collected pod takes a fresh sequence
   number, is placed at the position that number draws (`pick`), and gets a
   new air supply computed from its distance to where the ship was
   (`refill`, floating-point). `ship_loc.unwrap()` cannot fail because the
   ship position is recorded together with the pod.
   */
  function Relocate(s: seq<GameObject>, relocate: Option<nat>, shipLoc: Option<Vec2>, sequence: nat,
                    pick: nat -> Vec2, refill: (Vec2, Vec2) -> nat): (r: (seq<GameObject>, nat))
    requires relocate.Some? ==> relocate.value < |s| && shipLoc.Some?
    requires sequence < U32_LIMIT
    ensures |r.0| == |s| && r.1 < U32_LIMIT
    ensures relocate.None? ==> r == (s, sequence)
    ensures relocate.Some? ==>
              && r.1 == GetSequence(sequence).1
              && r.0[relocate.value].body.pos == pick(r.1)
              && r.0[relocate.value].air == Some(refill(pick(r.1), shipLoc.value))
              && r.0[relocate.value].(body := s[relocate.value].body, air := s[relocate.value].air) == s[relocate.value]
              && forall k :: 0 <= k < |s| && k != relocate.value ==> r.0[k] == s[k]
  {
    match relocate
    case None => (s, sequence)
    case Some(pod) =>
      var (next, v) := GetSequence(sequence);
      var o := s[pod];
      var pos := pick(v);
      (s[pod := o.(body := o.body.(pos := pos), air := Some(refill(pos, shipLoc.value)))], next)
  }
}
