/**
 * The runtime of spark.hpp: entities (`GameObject`) that own components and listeners, and the
 * `World` that issues entity ids, keeps the registry of who listens for which event kind,
 * dispatches events, and holds the blueprint table.
 *
 * References between the two classes follow the source: an entity knows its world, a listener
 * knows the entity that owns it. A component's back-link to its owner is not modelled.
 */
module Spark {
  import opened Wrappers
  import opened Text
  import opened Sequences
  import opened Ordering
  import opened Events
  import opened ComponentIds
  import opened Components
  import opened Blueprints

  /** `Listener`: the entity it notifies and the event kind it listens for. */
  datatype Listener = Listener(owner: GameObject, listensForType: nat)

  /** The world's registry: entity id, then event kind, then the listener registered for the pair. */
  type Registrations = map<nat, map<nat, Listener>>

  /** The keys the source's `find_if` lambdas compare. */
  function ComponentKey(c: Component): nat { c.id }
  function ObjectKey(g: GameObject): nat { g.id }
  function ListenerKey(l: Listener): nat { l.listensForType }

  // ----- the registry -----

  /** The listener registered for entity `o` and kind `t`, if any. */
  function Registered(m: Registrations, o: nat, t: nat): Option<Listener>
  {
    if o in m && t in m[o] then Some(m[o][t]) else None
  }

  /** `listeners[o]`: the inner map of `o`, which `operator[]` creates empty when `o` has none. */
  function Inner(m: Registrations, o: nat): map<nat, Listener>
  {
    if o in m then m[o] else map[]
  }

  /**
   * The registry after `addListener(o, l)`: `l` is registered for `o` and its kind unless a
   * listener already is, which is then kept. `o` gets an inner map either way.
   */
  function WithListener(m: Registrations, o: nat, l: Listener): (r: Registrations)
    ensures o in r
    ensures Registered(r, o, l.listensForType)
         == if Registered(m, o, l.listensForType).Some? then Registered(m, o, l.listensForType) else Some(l)
    ensures forall p, t :: (p != o || t != l.listensForType) ==> Registered(r, p, t) == Registered(m, p, t)
  {
    var inner := Inner(m, o);
    m[o := if l.listensForType in inner then inner else inner[l.listensForType := l]]
  }

  /**
   * The registry after `removeListener(o, t)`: the registration of `o` for `t` is gone and every
   * other one is kept. `o` gets an inner map even when it had none.
   */
  function WithoutListener(m: Registrations, o: nat, t: nat): (r: Registrations)
    ensures o in r && Registered(r, o, t) == None
    ensures forall p, u :: (p != o || u != t) ==> Registered(r, p, u) == Registered(m, p, u)
  {
    m[o := Inner(m, o) - {t}]
  }

  /** The registry after `removeAllListeners(o)`: nothing of `o` is left, every other entity keeps its registrations. */
  function WithoutObject(m: Registrations, o: nat): (r: Registrations)
    ensures o !in r
    ensures forall t :: Registered(r, o, t) == None
    ensures forall p, t :: p != o ==> Registered(r, p, t) == Registered(m, p, t)
  {
    m - {o}
  }

  /** Registering a second listener of the same kind for the same entity changes nothing: the first one stays. */
  lemma {:induction false} ListenTwiceRegistersOnce(m: Registrations, o: nat, first: Listener, second: Listener)
    requires first.listensForType == second.listensForType
    ensures WithListener(WithListener(m, o, first), o, second) == WithListener(m, o, first)
  {
    var r := WithListener(m, o, first);
    assert first.listensForType in r[o];
    assert r[o := r[o]] == r;
  }

  // ----- dispatch -----

  /** The entities that the registry's listeners notify. */
  ghost function Owners(m: Registrations): set<GameObject>
  {
    set o, t | o in m && t in m[o] :: m[o][t].owner
  }

  /** The die values of the components of the entity registered as `o`, by their position. */
  function DiceFor(dice: (nat, nat) -> nat, o: nat): nat -> nat
  {
    j => dice(o, j)
  }

  /**
   * The targeted branch of `World::fireEvent`: when a listener is registered for `target` and
   * the kind `t`, its `onNotify` hands the event to its owner's components; otherwise nobody
   * is notified and the payload stays as it is.
   */
  function Deliver(m: Registrations, target: nat, t: nat, data: Payload, dice: (nat, nat) -> nat): (r: Outcome)
    reads Owners(m)
    ensures Registered(m, target, t).None? ==> r == Handled(data)
  {
    if target in m && t in m[target] then
      var owner := m[target][t].owner;
      assert owner in Owners(m);
      HandleAll(owner.components, t, data, DiceFor(dice, target))
    else Handled(data)
  }

  /** The broadcast branch of `World::fireEvent`: the entities of `keys` in turn, each given the payload the previous left, stopping at a throw. */
  function Broadcast(keys: seq<nat>, m: Registrations, t: nat, data: Payload, dice: (nat, nat) -> nat): (r: Outcome)
    reads Owners(m)
    decreases |keys|
  {
    if keys == [] then Handled(data)
    else
      match Broadcast(keys[..|keys| - 1], m, t, data, dice)
      case Thrown(d) => Thrown(d)
      case Handled(d) => Deliver(m, keys[|keys| - 1], t, d, dice)
  }

  /** One more entity in the walk: it is notified, with the payload the earlier ones left, unless one of them threw. */
  lemma {:induction false} BroadcastStep(keys: seq<nat>, i: nat, m: Registrations, t: nat, data: Payload, dice: (nat, nat) -> nat)
    requires i < |keys| && Broadcast(keys[..i], m, t, data, dice).Handled?
    ensures Broadcast(keys[..i + 1], m, t, data, dice)
         == Deliver(m, keys[i], t, Broadcast(keys[..i], m, t, data, dice).data, dice)
  {
    assert keys[..i + 1][..i] == keys[..i];
  }

  /** Once a notified entity's component has thrown, no later entity is notified. */
  lemma {:induction false} BroadcastThrowStops(keys: seq<nat>, k: nat, m: Registrations, t: nat, data: Payload, dice: (nat, nat) -> nat)
    requires k <= |keys| && Broadcast(keys[..k], m, t, data, dice).Thrown?
    ensures Broadcast(keys, m, t, data, dice) == Broadcast(keys[..k], m, t, data, dice)
    decreases |keys| - k
  {
    if k < |keys| {
      var n := |keys| - 1;
      assert keys[..n][..k] == keys[..k];
      BroadcastThrowStops(keys[..n], k, m, t, data, dice);
    } else {
      assert keys[..k] == keys;
    }
  }

  /** A broadcast reaches only registered entities: when none of `keys` listens for `t`, the payload is untouched. */
  lemma {:induction false} BroadcastUnheard(keys: seq<nat>, m: Registrations, t: nat, data: Payload, dice: (nat, nat) -> nat)
    requires forall i :: 0 <= i < |keys| ==> Registered(m, keys[i], t).None?
    ensures Broadcast(keys, m, t, data, dice) == Handled(data)
    decreases |keys|
  {
    if keys != [] {
      BroadcastUnheard(keys[..|keys| - 1], m, t, data, dice);
    }
  }

  /**
   * A broadcast to entities of which only `target` listens for `t`, and only once, is the same
   * as an event sent to `target` alone.
   */
  lemma {:induction false} BroadcastToOne(keys: seq<nat>, m: Registrations, target: nat, t: nat, data: Payload, dice: (nat, nat) -> nat)
    requires forall i :: 0 <= i < |keys| && keys[i] != target ==> Registered(m, keys[i], t).None?
    requires exists i :: 0 <= i < |keys| && keys[i] == target
    requires forall i, j :: 0 <= i < j < |keys| ==> keys[i] != keys[j]
    ensures Broadcast(keys, m, t, data, dice) == Deliver(m, target, t, data, dice)
    decreases |keys|
  {
    var n := |keys| - 1;
    if keys[n] == target {
      assert forall i :: 0 <= i < n ==> keys[..n][i] != target;
      BroadcastUnheard(keys[..n], m, t, data, dice);
    } else {
      var i :| 0 <= i < |keys| && keys[i] == target;
      assert keys[..n][i] == target;
      BroadcastToOne(keys[..n], m, target, t, data, dice);
      var r := Broadcast(keys[..n], m, t, data, dice);
      assert Deliver(m, keys[n], t, r.data, dice) == Handled(r.data);
    }
  }

  /** The entity ids of the registry in `std::map` order. */
  ghost function IdsInOrder(m: Registrations): (r: seq<nat>)
    ensures Increasing(r, NatLess) && forall o :: o in m <==> o in r
  {
    NatLessTotal();
    Sorted(m.Keys, NatLess)
  }

  /** The blueprint names in `std::map` order. */
  ghost function NamesInOrder(m: map<string, Blueprint>): (r: seq<string>)
    ensures Increasing(r, StringLess) && |r| == |m| && forall n :: n in m <==> n in r
  {
    StringLessTotal();
    Sorted(m.Keys, StringLess)
  }

  /** Walking the blueprint map's keys, which are in the order `NamesInOrder` gives. */
  method BlueprintNames(m: map<string, Blueprint>) returns (r: seq<string>)
    ensures r == NamesInOrder(m)
  {
    StringLessTotal();
    r := AscendingKeys(m.Keys, StringLess);
  }

  /** The loop of `getBlueprints`: the blueprint stored under each name, in the order of the names. */
  method LookUpAll(m: map<string, Blueprint>, names: seq<string>) returns (r: seq<Blueprint>)
    requires forall i :: 0 <= i < |names| ==> names[i] in m
    ensures |r| == |names| && forall i :: 0 <= i < |r| ==> r[i] == m[names[i]]
  {
    r := [];
    var i := 0;
    while i < |names|
      invariant 0 <= i <= |names|
      invariant |r| == i && forall k :: 0 <= k < i ==> r[k] == m[names[k]]
    {
      r := r + [m[names[i]]];
      i := i + 1;
    }
  }

  // ----- the id lifecycle -----

  /**
   * The id bookkeeping of `World`: live ids are distinct, lie in `1..lastID` and are not free;
   * free ids are distinct and lie in the same range; every id issued so far is either live or
   * free (the two counts add up to `lastID`); no id reaches the broadcast target.
   */
  ghost predicate IdsValid(live: seq<GameObject>, free: seq<nat>, lastID: nat)
  {
    && lastID < AllGameObjects
    && DistinctBy(live, ObjectKey)
    && (forall i :: 0 <= i < |live| ==> 1 <= live[i].id <= lastID)
    && (forall i, j :: 0 <= i < j < |free| ==> free[i] != free[j])
    && (forall i :: 0 <= i < |free| ==> 1 <= free[i] <= lastID && !HasKey(live, ObjectKey, free[i]))
    && |live| + |free| == lastID
  }

  /** The registry files every listener under the kind it listens for. */
  ghost predicate RegistryValid(m: Registrations)
  {
    forall o, t :: o in m && t in m[o] ==> m[o][t].listensForType == t
  }

  /** Issuing `++lastID` when no id is free gives an id that no live entity has, and keeps the bookkeeping sound. */
  lemma {:induction false} IssueKeepsValid(live: seq<GameObject>, lastID: nat, g: GameObject)
    requires IdsValid(live, [], lastID) && lastID + 1 < AllGameObjects && g.id == lastID + 1
    ensures !HasKey(live, ObjectKey, g.id)
    ensures IdsValid(live + [g], [], lastID + 1)
  {
    assert forall i :: 0 <= i < |live| ==> (live + [g])[i] == live[i];
  }

  /** Reusing the oldest free id gives an id that no live entity has, and keeps the bookkeeping sound. */
  lemma {:induction false} ReuseKeepsValid(live: seq<GameObject>, free: seq<nat>, lastID: nat, g: GameObject)
    requires IdsValid(live, free, lastID) && free != [] && g.id == free[0]
    ensures !HasKey(live, ObjectKey, g.id)
    ensures IdsValid(live + [g], free[1..], lastID)
  {
    var live' := live + [g];
    assert forall i :: 0 <= i < |live| ==> live'[i] == live[i];
    forall i | 0 <= i < |free| - 1
      ensures !HasKey(live', ObjectKey, free[1..][i])
    {
      assert free[1..][i] == free[i + 1] != free[0];
    }
  }

  /** Destroying the live entity at `i` and freeing its id keeps the bookkeeping sound. */
  lemma {:induction false} ReleaseKeepsValid(live: seq<GameObject>, free: seq<nat>, lastID: nat, i: nat)
    requires IdsValid(live, free, lastID) && i < |live|
    ensures !HasKey(SwapPop(live, i), ObjectKey, live[i].id)
    ensures IdsValid(SwapPop(live, i), free + [live[i].id], lastID)
  {
    SwapPopRemovesOne(live, i);
    SwapPopDistinct(live, i, ObjectKey);
    var live' := SwapPop(live, i);
    var free' := free + [live[i].id];
    assert forall k :: 0 <= k < |live'| ==> live'[k] == live[if k == i then |live| - 1 else k];
    forall k | 0 <= k < |free'|
      ensures !HasKey(live', ObjectKey, free'[k])
    {
      if k < |free| {
        assert free'[k] == free[k];
      }
    }
    assert forall k :: 0 <= k < |free| ==> free[k] != live[i].id by {
      forall k | 0 <= k < |free| ensures free[k] != live[i].id {
        assert ObjectKey(live[i]) == live[i].id;
      }
    }
  }

  /** Swap-and-pop keeps only entities that were there, so all of them still belong to `w`. */
  lemma {:induction false} SwapPopKeepsWorld(live: seq<GameObject>, i: nat, w: World)
    requires i < |live| && forall k :: 0 <= k < |live| ==> live[k].world == w
    ensures forall k :: 0 <= k < |SwapPop(live, i)| ==> SwapPop(live, i)[k].world == w
  {
    SwapPopRemovesOne(live, i);
    forall k | 0 <= k < |SwapPop(live, i)|
      ensures SwapPop(live, i)[k].world == w
    {
      if k == i {
        assert SwapPop(live, i)[k] == live[|live| - 1];
      } else {
        assert SwapPop(live, i)[k] == live[k];
      }
    }
  }

  // ----- entities -----

  class GameObject {
    /** The listeners this entity made, one per `listenForEvent` call. */
    var listeners: seq<Listener>
    /** The components, in the order they were added (and swapped by removal). */
    var components: seq<Component>
    const world: World
    const id: nat

    /** No two components share a component id, as `addComponent` demands. */
    ghost predicate Valid()
      reads this
    {
      DistinctBy(components, ComponentKey)
    }

    /** `GameObject(world, ID)`: no components and no listeners yet. */
    constructor (world: World, id: nat)
      ensures this.world == world && this.id == id
      ensures listeners == [] && components == [] && Valid()
    {
      this.world := world;
      this.id := id;
      listeners := [];
      components := [];
    }

    /**
     * `fireEvent`: every component, in container order, handles the event; a cast that throws
     * ends the walk. `dice(i)` is what the die of the `i`-th component yields.
     */
    method FireEvent(e: Event, dice: nat -> nat) returns (thrown: bool)
      modifies e`data
      ensures var r := HandleAll(components, e.eventType, old(e.data), dice);
        thrown == r.Thrown? && e.data == r.data
    {
      thrown := false;
      var i := 0;
      while i < |components| && !thrown
        invariant 0 <= i <= |components|
        invariant var r := HandleAll(components[..i], e.eventType, old(e.data), dice);
          thrown == r.Thrown? && e.data == r.data
      {
        assert components[..i + 1][..i] == components[..i];
        thrown := Components.FireEvent(components[i], e, dice(i));
        i := i + 1;
      }
      if thrown {
        ThrowStops(components, i, e.eventType, old(e.data), dice);
      } else {
        assert components[..i] == components;
      }
    }

    /**
     * `addComponent<C>(...)`: the entity must not hold a component of the same class; the new one,
     * built by `NewComponent`, goes at the end. The class's id that the asserted `hasComponent<C>()`
     * may draw first is the one the constructor then takes, so the registry ends as `NewComponent` says.
     */
    method AddComponent(c: Component)
      requires Valid() && !HasKey(components, ComponentKey, c.id)
      modifies this`components
      ensures Valid() && components == old(components) + [c]
      ensures HasKey(components, ComponentKey, c.id)
    {
      components := components + [c];
      assert ComponentKey(components[|components| - 1]) == c.id;
    }

    /** The search of the typed queries: where the first component with id `cid` is, or the end when none has it. */
    method FindComponent(cid: nat) returns (i: nat)
      ensures i <= |components|
      ensures i == |components| <==> !HasKey(components, ComponentKey, cid)
      ensures i < |components| ==> IndexOf(components, ComponentKey, cid) == Some(i)
    {
      i := 0;
      while i < |components| && components[i].id != cid
        invariant 0 <= i <= |components|
        invariant forall k :: 0 <= k < i ==> components[k].id != cid
      {
        i := i + 1;
      }
      if i < |components| {
        assert ComponentKey(components[i]) == cid;
      }
    }

    /**
     * The id a typed query compares with: its `find_if` lambda calls `getComponentID<C>()` for
     * the queried class `cls`, so the id is drawn once the lambda runs, that is, when the entity
     * holds a component. A class never asked for before then gets a fresh id. On an entity
     * without components nothing is drawn.
     */
    method QueryId(registry: Registry<ComponentClass>, cls: ComponentClass) returns (cid: Option<nat>)
      requires registry.Valid()
      modifies registry
      ensures registry.Valid()
      ensures DrawnIf(components != [], old(registry.ids), old(registry.lastID), registry.ids, registry.lastID, cls)
      ensures cid.None? <==> components == []
      ensures cid.Some? ==> cls in registry.ids && cid.value == registry.ids[cls]
    {
      if components == [] {
        cid := None;
      } else {
        var id := registry.IdOf(cls);
        cid := Some(id);
      }
    }

    /**
     * `removeComponent<C>()`: the first component with the id of `cls` is swapped with the last
     * and popped, so the others stay (the last one moves into the hole). Without such a
     * component nothing changes. The id is drawn as `QueryId` says.
     */
    method RemoveComponent(registry: Registry<ComponentClass>, cls: ComponentClass)
      requires Valid() && registry.Valid()
      modifies this`components, registry
      ensures Valid() && registry.Valid()
      ensures DrawnIf(old(components) != [], old(registry.ids), old(registry.lastID), registry.ids, registry.lastID, cls)
      ensures cls in registry.ids ==> !HasKey(components, ComponentKey, registry.ids[cls])
      ensures match (if cls in registry.ids then IndexOf(old(components), ComponentKey, registry.ids[cls]) else None)
        case None => components == old(components)
        case Some(i) => (components == SwapPop(old(components), i)
          && multiset(components) + multiset{old(components)[i]} == multiset(old(components)))
    {
      var cid := QueryId(registry, cls);
      if cid.Some? {
        var i := FindComponent(cid.value);
        if i < |components| {
          SwapPopRemovesOne(components, i);
          SwapPopDistinct(components, i, ComponentKey);
          components := SwapPop(components, i);
        }
      }
    }

    /** `getComponent<C>()`: the first component with the id of `cls`, or none (`nullptr`). The id is drawn as `QueryId` says. */
    method GetComponent(registry: Registry<ComponentClass>, cls: ComponentClass) returns (r: Option<Component>)
      requires registry.Valid()
      modifies registry
      ensures registry.Valid()
      ensures DrawnIf(components != [], old(registry.ids), old(registry.lastID), registry.ids, registry.lastID, cls)
      ensures r.None? <==> !(cls in registry.ids && HasKey(components, ComponentKey, registry.ids[cls]))
      ensures r.Some? ==> (cls in registry.ids && r.value.id == registry.ids[cls]
        && r.value == components[IndexOf(components, ComponentKey, registry.ids[cls]).value])
    {
      var cid := QueryId(registry, cls);
      r := None;
      if cid.Some? {
        var i := FindComponent(cid.value);
        if i < |components| {
          r := Some(components[i]);
        }
      }
    }

    /** `hasComponent<C>()`: whether some component has the id of `cls`. The id is drawn as `QueryId` says. */
    method HasComponent(registry: Registry<ComponentClass>, cls: ComponentClass) returns (b: bool)
      requires registry.Valid()
      modifies registry
      ensures registry.Valid()
      ensures DrawnIf(components != [], old(registry.ids), old(registry.lastID), registry.ids, registry.lastID, cls)
      ensures b <==> cls in registry.ids && HasKey(components, ComponentKey, registry.ids[cls])
    {
      var cid := QueryId(registry, cls);
      b := false;
      if cid.Some? {
        var i := FindComponent(cid.value);
        b := i < |components|;
      }
    }

    /**
     * `listenForEvent`: a new listener of this entity for `t` is always kept here, and is offered
     * to the world, which registers it only if this entity has no listener for `t` there yet.
     */
    method ListenForEvent(t: nat)
      requires world.Valid()
      modifies this`listeners, world`listeners
      ensures listeners == old(listeners) + [Listener(this, t)]
      ensures world.Valid() && world.listeners == WithListener(old(world.listeners), id, Listener(this, t))
    {
      listeners := listeners + [Listener(this, t)];
      world.AddListener(id, listeners[|listeners| - 1]);
    }

    /**
     * `stopListeningForEvent`: when this entity has a listener for `t`, the world's registration
     * of the entity for `t` is erased and the first such listener is swapped out and popped;
     * otherwise nothing changes.
     */
    method StopListeningForEvent(t: nat)
      requires world.Valid()
      modifies this`listeners, world`listeners
      ensures world.Valid()
      ensures match IndexOf(old(listeners), ListenerKey, t)
        case None => listeners == old(listeners) && world.listeners == old(world.listeners)
        case Some(i) => (listeners == SwapPop(old(listeners), i)
          && world.listeners == WithoutListener(old(world.listeners), id, t))
    {
      var i := 0;
      while i < |listeners| && listeners[i].listensForType != t
        invariant 0 <= i <= |listeners|
        invariant forall k :: 0 <= k < i ==> listeners[k].listensForType != t
      {
        i := i + 1;
      }
      if i < |listeners| {
        assert ListenerKey(listeners[i]) == t;
        assert IndexOf(listeners, ListenerKey, t) == Some(i);
        world.RemoveListener(id, t);
        listeners := SwapPop(listeners, i);
      }
    }

    /** `destroy`: the world destroys the entity with this entity's id. */
    method Destroy()
      requires world.Valid()
      modifies world`gameObjects, world`freeIDs, world`listeners
      ensures world.Valid() && !HasKey(world.gameObjects, ObjectKey, id)
      ensures match IndexOf(old(world.gameObjects), ObjectKey, id)
        case None => world.gameObjects == old(world.gameObjects) && world.freeIDs == old(world.freeIDs)
          && world.listeners == old(world.listeners)
        case Some(i) => (world.gameObjects == SwapPop(old(world.gameObjects), i)
          && world.freeIDs == old(world.freeIDs) + [id]
          && world.listeners == WithoutObject(old(world.listeners), id))
    {
      world.DestroyGameObject(this);
    }
  }

  // ----- the world -----

  class World {
    var gameObjects: seq<GameObject>
    var listeners: Registrations
    var lastID: nat
    /** Ids given back by destroyed entities, oldest first. */
    var freeIDs: seq<nat>
    var blueprintMap: map<string, Blueprint>

    /** The id bookkeeping is sound, every live entity belongs to this world, and the registry is consistent. */
    ghost predicate Valid()
      reads this
    {
      && IdsValid(gameObjects, freeIDs, lastID)
      && (forall i :: 0 <= i < |gameObjects| ==> gameObjects[i].world == this)
      && RegistryValid(listeners)
    }

    /** `World() = default`. */
    constructor ()
      ensures Valid()
      ensures gameObjects == [] && listeners == map[] && lastID == 0 && freeIDs == [] && blueprintMap == map[]
    {
      gameObjects, listeners, lastID, freeIDs, blueprintMap := [], map[], 0, [], map[];
    }

    /**
     * `fireEvent`: to `ALL_GAMEOBJECTS`, every registered entity in ascending id order; to any
     * other id, that entity alone. `dice(o, i)` is what the die of the `i`-th component of the
     * entity registered as `o` yields. Each entity is reached through its listener's `onNotify`,
     * which is `noexcept`: a cast that throws there ends the program (`std::terminate`), so
     * `thrown` stands for that end, with `e.data` as the handlers before it left it.
     */
    method FireEvent(e: Event, dice: (nat, nat) -> nat) returns (thrown: bool)
      modifies e`data
      ensures var r := old(if e.gameObjectID == AllGameObjects
          then Broadcast(IdsInOrder(listeners), listeners, e.eventType, e.data, dice)
          else Deliver(listeners, e.gameObjectID, e.eventType, e.data, dice));
        thrown == r.Thrown? && e.data == r.data
    {
      if e.gameObjectID == AllGameObjects {
        ghost var t, data := e.eventType, e.data;
        // the steps of the walk, stated while the heap is still the one the contract reads
        forall keys: seq<nat>, i: nat | i < |keys| && Broadcast(keys[..i], listeners, t, data, dice).Handled?
          ensures Broadcast(keys[..i + 1], listeners, t, data, dice)
               == Deliver(listeners, keys[i], t, Broadcast(keys[..i], listeners, t, data, dice).data, dice)
        {
          BroadcastStep(keys, i, listeners, t, data, dice);
        }
        forall keys: seq<nat>, i: nat | i <= |keys| && Broadcast(keys[..i], listeners, t, data, dice).Thrown?
          ensures Broadcast(keys, listeners, t, data, dice) == Broadcast(keys[..i], listeners, t, data, dice)
        {
          BroadcastThrowStops(keys, i, listeners, t, data, dice);
        }
        NatLessTotal();
        var keys := AscendingKeys(listeners.Keys, NatLess);
        thrown := false;
        var i := 0;
        while i < |keys| && !thrown
          invariant 0 <= i <= |keys|
          invariant var r := old(Broadcast(keys[..i], listeners, t, data, dice));
            thrown == r.Thrown? && e.data == r.data
        {
          var o := keys[i];
          if e.eventType in listeners[o] {
            ghost var before := e.data;
            var owner := listeners[o][e.eventType].owner;
            assert old(Deliver(listeners, o, t, before, dice)) == HandleAll(owner.components, t, before, DiceFor(dice, o));
            thrown := owner.FireEvent(e, DiceFor(dice, o));
          }
          i := i + 1;
        }
        if !thrown {
          assert keys[..i] == keys;
        }
      } else if e.gameObjectID in listeners && e.eventType in listeners[e.gameObjectID] {
        thrown := listeners[e.gameObjectID][e.eventType].owner.FireEvent(e, DiceFor(dice, e.gameObjectID));
      } else {
        thrown := false;
      }
    }

    /** `addListener`: registers `l` for entity `o` and `l`'s kind, unless a listener already is. */
    method AddListener(o: nat, l: Listener)
      requires Valid()
      modifies this`listeners
      ensures Valid() && listeners == WithListener(old(listeners), o, l)
    {
      var inner := if o in listeners then listeners[o] else map[];
      if l.listensForType !in inner {
        inner := inner[l.listensForType := l];
      }
      listeners := listeners[o := inner];
    }

    /** `removeListener`: erases the registration of entity `o` for kind `t`. */
    method RemoveListener(o: nat, t: nat)
      requires Valid()
      modifies this`listeners
      ensures Valid() && listeners == WithoutListener(old(listeners), o, t)
    {
      var inner := if o in listeners then listeners[o] else map[];
      if t in inner {
        inner := inner - {t};
      } else {
        assert inner - {t} == inner;
      }
      listeners := listeners[o := inner];
    }

    /** `removeAllListeners`: erases every registration of entity `o`. */
    method RemoveAllListeners(o: nat)
      requires Valid()
      modifies this`listeners
      ensures Valid()
      ensures listeners == WithoutObject(old(listeners), o)
    {
      listeners := listeners - {o};
    }

    /**
     * `createGameObject`: a new entity with the next fresh id when no id is free, otherwise with
     * the oldest free id, which leaves the free list. A fresh id must stay below `ALL_GAMEOBJECTS`.
     */
    method CreateGameObject() returns (g: GameObject)
      requires Valid()
      requires freeIDs == [] ==> lastID + 1 < AllGameObjects
      modifies this`gameObjects, this`lastID, this`freeIDs
      ensures Valid() && fresh(g)
      ensures g.world == this && g.components == [] && g.listeners == []
      ensures gameObjects == old(gameObjects) + [g]
      ensures old(freeIDs) == [] ==> g.id == old(lastID) + 1 && lastID == g.id && freeIDs == []
      ensures old(freeIDs) != [] ==> g.id == old(freeIDs)[0] && freeIDs == old(freeIDs)[1..] && lastID == old(lastID)
      ensures !HasKey(old(gameObjects), ObjectKey, g.id)
    {
      if freeIDs == [] {
        lastID := lastID + 1;
        g := new GameObject(this, lastID);
        IssueKeepsValid(gameObjects, lastID - 1, g);
      } else {
        g := new GameObject(this, freeIDs[0]);
        ReuseKeepsValid(gameObjects, freeIDs, lastID, g);
        freeIDs := freeIDs[1..];
      }
      gameObjects := gameObjects + [g];
    }

    /**
     * `destroyGameObject`: the first entity with `g`'s id is swapped out and popped, its id joins
     * the back of the free list and its registrations are erased. With no such entity nothing changes.
     */
    method DestroyGameObject(g: GameObject)
      requires Valid()
      modifies this`gameObjects, this`freeIDs, this`listeners
      ensures Valid() && !HasKey(gameObjects, ObjectKey, g.id)
      ensures match IndexOf(old(gameObjects), ObjectKey, g.id)
        case None => gameObjects == old(gameObjects) && freeIDs == old(freeIDs) && listeners == old(listeners)
        case Some(i) => (gameObjects == SwapPop(old(gameObjects), i)
          && freeIDs == old(freeIDs) + [g.id]
          && listeners == WithoutObject(old(listeners), g.id))
    {
      var id := g.id;
      var i := 0;
      while i < |gameObjects| && gameObjects[i].id != id
        invariant 0 <= i <= |gameObjects|
        invariant forall k :: 0 <= k < i ==> gameObjects[k].id != id
      {
        i := i + 1;
      }
      if i < |gameObjects| {
        assert ObjectKey(gameObjects[i]) == id;
        assert IndexOf(gameObjects, ObjectKey, id) == Some(i);
        ReleaseKeepsValid(gameObjects, freeIDs, lastID, i);
        SwapPopKeepsWorld(gameObjects, i, this);
        gameObjects := SwapPop(gameObjects, i);
        freeIDs := freeIDs + [id];
        RemoveAllListeners(id);
      } else {
        assert IndexOf(gameObjects, ObjectKey, id) == None;
      }
    }

    /**
     * `parseComponent`: reads the component's name, then walks the `key="value"` pairs with the
     * source's `do ... while` loop. Yields what `Blueprints.ParseComponent` describes.
     */
    method ParseComponent(componentData: string) returns (r: Parse<BlueprintComponent>)
      ensures r == Blueprints.ParseComponent(componentData)
    {
      var d := componentData;
      var open := FindCharFrom(d, '"', FindStr(d, "ComponentName", 0));
      if open.None? {
        return Malformed;
      }
      var start := open.value + 1;
      var end := FindChar(d, '"', start);
      var name := Slice(d, start, end);
      var blank := FindCharFrom(d, ' ', end);
      if blank.None? {
        return Parsed(BlueprintComponent(name, map[]));
      }
      var arguments := ReadArguments(d, blank.value);
      if arguments.Malformed? {
        return Malformed;
      }
      r := Parsed(BlueprintComponent(name, arguments.value));
    }

    /**
     * The `do ... while` loop of `parseComponent`, from the blank after the component's name:
     * each `key="value"` pair is stored under its key, a later pair replacing an earlier one.
     */
    method ReadArguments(d: string, blank: nat) returns (r: Parse<map<string, string>>)
      requires blank <= |d|
      ensures r == ParseArguments(d, blank, map[])
    {
      ghost var target := ParseArguments(d, blank, map[]);
      var start := blank;
      var arguments: map<string, string> := map[];
      while true
        invariant start <= |d|
        invariant ParseArguments(d, start, arguments) == target
        decreases |d| - start
      {
        var equals := FindChar(d, '=', start);
        if equals.None? {
          return Parsed(arguments);
        }
        var key := Slice(d, start + 1, equals);
        var quote := FindChar(d, '"', start);
        if quote.None? {
          return Malformed;
        }
        var valueStart := quote.value + 1;
        var close := FindChar(d, '"', valueStart + 1);
        ghost var before := arguments;
        arguments := arguments[key := Slice(d, valueStart, close)];
        if close.Some? && close.value < |d| - 1 {
          PairPass(d, start, before, arguments, close.value + 1);
          start := close.value + 1;
        } else {
          return Parsed(arguments);
        }
      }
    }

    /**
     * `parseBlueprint`: reads the object's name, then walks its tags up to `</object>`, and stores
     * the result under its name, replacing any blueprint stored there before. The text must be
     * one on which the source never searches on from a wrapped-around position: on other text it
     * does not stop.
     */
    method ParseBlueprint(blueprint: string)
      requires Blueprints.ParseBlueprint(blueprint).Parsed?
      modifies this`blueprintMap
      ensures var b := Blueprints.ParseBlueprint(blueprint).value; blueprintMap == old(blueprintMap)[b.name := b]
    {
      var text := blueprint;
      var blueprintEnd := FindStr(text, ObjectEnd, 0);
      var header := Header(text);
      if header.Malformed? {
        return;
      }
      var start := header.value.1;
      var tags := ReadTags(text, start, FindChar(text, '>', start), blueprintEnd);
      if tags.Parsed? {
        var b := Blueprint(header.value.0, tags.value.0, tags.value.1);
        blueprintMap := blueprintMap[b.name := b];
      }
    }

    /**
     * The `while(end < blueprintEnd)` loop of `parseBlueprint`, from the first tag after the
     * object's own: the components and the events to listen for, in text order.
     */
    method ReadTags(text: string, start: nat, end: Option<nat>, blueprintEnd: Option<nat>)
        returns (r: Parse<(seq<BlueprintComponent>, seq<string>)>)
      requires start <= |text|
      ensures r == ParseTags(text, start, end, blueprintEnd, [], [])
    {
      var walk := Walk(start, end, [], []);
      while Before(walk.end, blueprintEnd)
        invariant walk.start <= |text|
        invariant ParseTags(text, walk.start, walk.end, blueprintEnd, walk.components, walk.events)
               == ParseTags(text, start, end, blueprintEnd, [], [])
        decreases |text| - walk.start
      {
        var step := ReadStep(text, walk);
        StepNext(text, walk, blueprintEnd);
        if step.Malformed? {
          return Malformed;
        }
        walk := step.value;
      }
      r := Parsed((walk.components, walk.events));
    }

    /**
     * One pass of the loop of `parseBlueprint`: the tag at `walk` is read, and the walk moves on
     * to the tag after the next `<`.
     */
    method ReadStep(text: string, walk: Walk) returns (r: Parse<Walk>)
      requires walk.start <= |text|
      ensures r == NextWalk(text, walk)
    {
      var read := ReadTag(text, walk);
      if read.Malformed? {
        return Malformed;
      }
      var (from, components, events) := read.value;
      var open := FindChar(text, '<', from);
      if open.None? {
        return Malformed;
      }
      var next := open.value + 1;
      r := Parsed(Walk(next, FindChar(text, '>', next), components, events));
    }

    /**
     * The `if`/`else` of the loop of `parseBlueprint`: the tag's first word decides whether it
     * is a component, parsed by `parseComponent`, or an event to listen for, whose name is read
     * after `Name`; yields where the search for the next tag starts.
     */
    method ReadTag(text: string, walk: Walk) returns (r: Parse<(nat, seq<BlueprintComponent>, seq<string>)>)
      requires walk.start <= |text|
      ensures r == TagRead(text, walk)
    {
      var start := walk.start;
      var identifier := Slice(text, start, FindChar(text, ' ', start));
      if identifier == "component" {
        var c := ParseComponent(Slice(text, start, walk.end));
        if c.Malformed? {
          return Malformed;
        }
        r := Parsed((start, walk.components + [c.value], walk.events));
      } else {
        var listen := ListenName(text, start);
        if listen.Malformed? {
          return Malformed;
        }
        r := Parsed((listen.value.0, walk.components, walk.events + [listen.value.1]));
      }
    }

    /**
     * `loadBlueprints` on the lines of the file: the kept lines are joined, tabs and newlines are
     * erased, and every block up to and including a `</object>` is parsed and stored, in text
     * order. Every block must parse: on a block that does not the source never stops.
     */
    method LoadBlueprints(lines: seq<string>)
      requires Parses(Chunks(Flatten(lines), 0))
      modifies this`blueprintMap
      ensures blueprintMap == StoreAll(old(blueprintMap), ParseAll(Chunks(Flatten(lines), 0)))
    {
      var fileText := ReadKeptLines(lines);
      fileText := Remove(Remove(fileText, '\t'), '\n');
      assert fileText == Flatten(lines);
      var start := 0;
      var pos := FindStr(fileText, ObjectEnd, start);
      ghost var done: seq<string> := [];
      while pos.Some?
        invariant start <= |fileText| && pos == FindStr(fileText, ObjectEnd, start)
        invariant Chunks(fileText, 0) == done + Chunks(fileText, start)
        invariant Loaded(old(blueprintMap), done, blueprintMap)
        decreases |fileText| - start
      {
        ChunkStep(fileText, start, done);
        var stop := pos.value + |ObjectEnd|;
        var blueprint := fileText[start..stop];
        LoadBlock(old(blueprintMap), done, blueprint);
        done := done + [blueprint];
        start := stop;
        pos := FindStr(fileText, ObjectEnd, start);
      }
      assert done + [] == done;
    }

    /** One pass of the splitting loop of `loadBlueprints`: the block is parsed and stored after those before it. */
    method LoadBlock(ghost table: map<string, Blueprint>, ghost done: seq<string>, blueprint: string)
      requires Blueprints.ParseBlueprint(blueprint).Parsed?
      requires Loaded(table, done, blueprintMap)
      modifies this`blueprintMap
      ensures Loaded(table, done + [blueprint], blueprintMap)
    {
      assert blueprintMap == StoreAll(table, ParseAll(done));
      ParseBlueprint(blueprint);
      StoreNext(table, done, blueprint);
    }

    /** The reading loop of `loadBlueprints`: every line `getline` keeps is appended to the text. */
    method ReadKeptLines(lines: seq<string>) returns (fileText: string)
      ensures fileText == JoinKept(lines)
    {
      fileText := "";
      var n := 0;
      while n < |lines|
        invariant n <= |lines| && fileText == JoinKept(lines[..n])
      {
        assert lines[..n + 1][..n] == lines[..n];
        var line := lines[n];
        if KeptLine(line) {
          fileText := fileText + line;
        }
        n := n + 1;
      }
      assert lines[..n] == lines;
    }

    /** `getBlueprintByName`: the stored blueprint; an unknown name gets an empty blueprint (with an empty name) stored under it. */
    method GetBlueprintByName(name: string) returns (b: Blueprint)
      modifies this`blueprintMap
      ensures name in old(blueprintMap) ==> b == old(blueprintMap)[name] && blueprintMap == old(blueprintMap)
      ensures name !in old(blueprintMap) ==> b == Blueprint("", [], []) && blueprintMap == old(blueprintMap)[name := b]
    {
      if name !in blueprintMap {
        blueprintMap := blueprintMap[name := Blueprint("", [], [])];
      }
      b := blueprintMap[name];
    }

    /** `getBlueprints`: every stored blueprint, in ascending order of the names they are stored under. */
    method GetBlueprints() returns (r: seq<Blueprint>)
      ensures var names := NamesInOrder(blueprintMap);
        |r| == |names| && forall i :: 0 <= i < |r| ==> r[i] == blueprintMap[names[i]]
    {
      var names := BlueprintNames(blueprintMap);
      r := LookUpAll(blueprintMap, names);
    }
  }
}
