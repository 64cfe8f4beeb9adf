/**
 * Worked examples, in the way the example program (example1/src/main.cpp) uses the runtime:
 * the sword's blueprint read back from its text and looked up by name, an entity that listens
 * twice for one kind, ids handed out again in the order they were freed, and an object of a
 * pool handed out and given back.
 */
module Scenarios {
  import opened Wrappers
  import opened Sequences
  import opened Blueprints
  import opened BlueprintText
  import opened Pools
  import opened Events
  import opened ComponentIds
  import opened Components
  import opened Spark

  /**
   * The sword: one six-sided damage die, and it listens for damage requests. Its text is
   * `<object Name="Sword"><component ComponentName="DamageComponent" rolls="1" sides="6"><event Name="EVENT_DEAL_DAMAGE"></object>`.
   */
  const Sword: ObjectDef := ObjectDef("Sword", [
    ComponentTag("DamageComponent", [Attribute("rolls", "1"), Attribute("sides", "6")]),
    ListenTag("event", "EVENT_DEAL_DAMAGE")])

  const SwordBlueprint: Blueprint := Blueprint("Sword",
    [BlueprintComponent("DamageComponent", map["rolls" := "1", "sides" := "6"])],
    ["EVENT_DEAL_DAMAGE"])

  /** The sword's attributes are plain keys with non-empty plain values. */
  lemma {:induction false} SwordAttributes()
    ensures WellFormedAttribute(Attribute("rolls", "1")) && WellFormedAttribute(Attribute("sides", "6"))
  {
    assert Word("rolls") && Plain("1");
    assert Word("sides") && Plain("6");
  }

  /** The sword's damage tag: a plain component name with well-formed attributes. */
  lemma {:induction false} SwordDamageTag()
    ensures WellFormedTag(ComponentTag("DamageComponent", [Attribute("rolls", "1"), Attribute("sides", "6")]))
  {
    SwordAttributes();
    assert Plain("DamageComponent");
  }

  /** The sword's `event` tag: a word without `N` as its name, and a plain event name. */
  lemma {:induction false} SwordListenTag()
    ensures WellFormedTag(ListenTag("event", "EVENT_DEAL_DAMAGE"))
  {
    assert Word("event") && 'N' !in "event" && "event" != "component";
    assert Plain("EVENT_DEAL_DAMAGE");
  }

  /** The sword's definition is one the loader reads back: plain names and non-empty values. */
  lemma {:induction false} SwordWellFormed()
    ensures WellFormed(Sword)
  {
    SwordDamageTag();
    SwordListenTag();
    assert Plain("Sword");
  }

  /** The sword's definition describes the sword's blueprint. */
  lemma {:induction false} SwordMeaning()
    ensures Meaning(Sword) == SwordBlueprint
  {
    var damage, listen := Sword.tags[0], Sword.tags[1];
    assert Assigned(map[], damage.attributes) == map["rolls" := "1", "sides" := "6"];
    assert ComponentsOf(Sword.tags[1..]) == [];
    assert ComponentsOf(Sword.tags) == SwordBlueprint.components;
    assert EventsOf(Sword.tags[1..]) == ["EVENT_DEAL_DAMAGE"];
    assert EventsOf(Sword.tags) == SwordBlueprint.listenForEvents;
  }

  /** `parseBlueprint` reads the sword's blueprint back from the sword's text. */
  lemma {:induction false} SwordReadsBack()
    ensures ParseBlueprint(ObjectText(Sword)) == Parsed(SwordBlueprint)
  {
    SwordWellFormed();
    SwordMeaning();
    ObjectRoundTrip(Sword);
  }

  /**
   * A file whose one line is the sword's text: every block of it parses, and loading it stores
   * the sword under its name over what the table held.
   */
  lemma {:induction false} SwordFileLoads(table: map<string, Blueprint>)
    ensures Parses(Chunks(Flatten([ObjectsText([Sword])]), 0))
    ensures StoreAll(table, ParseAll(Chunks(Flatten([ObjectsText([Sword])]), 0))) == table["Sword" := SwordBlueprint]
  {
    SwordWellFormed();
    SwordMeaning();
    OneLine([Sword]);
    LoadObjects([Sword]);
    StoreOne(table, ParseAll(Chunks(ObjectsText([Sword]), 0)));
  }

  /** `loadBlueprints` on the sword's one-line file, then `getBlueprintByName("Sword")`: the sword's blueprint. */
  method LoadSword(w: World) returns (b: Blueprint)
    modifies w`blueprintMap
    ensures b == SwordBlueprint
    ensures w.blueprintMap == old(w.blueprintMap)["Sword" := SwordBlueprint]
  {
    SwordFileLoads(w.blueprintMap);
    w.LoadBlueprints([ObjectsText([Sword])]);
    b := w.GetBlueprintByName("Sword");
  }

  /**
   * `listenForEvent` twice for one kind, then `stopListeningForEvent` once: the entity keeps one
   * of its two listeners, and the world no longer has the entity registered for that kind.
   */
  method ListenTwiceStopOnce(g: GameObject, t: nat)
    requires g.world.Valid() && g.listeners == []
    modifies g`listeners, g.world`listeners
    ensures g.world.Valid()
    ensures g.listeners == [Listener(g, t)]
    ensures Registered(g.world.listeners, g.id, t) == None
    ensures forall p, u :: (p != g.id || u != t) ==>
      Registered(g.world.listeners, p, u) == Registered(old(g.world.listeners), p, u)
  {
    g.ListenForEvent(t);
    g.ListenForEvent(t);
    assert ListenerKey(g.listeners[0]) == t;
    assert IndexOf(g.listeners, ListenerKey, t) == Some(0);
    g.StopListeningForEvent(t);
  }

  /**
   * Free ids are handed out oldest first, not smallest first: of two new entities, destroying
   * the second and then the first makes the next new entity take the second one's id.
   */
  method IdsReusedInFreedOrder(w: World) returns (a: GameObject, b: GameObject, c: GameObject)
    requires w.Valid() && w.freeIDs == [] && w.lastID + 2 < AllGameObjects
    modifies w`gameObjects, w`lastID, w`freeIDs, w`listeners
    ensures w.Valid()
    ensures a.id == old(w.lastID) + 1 && b.id == old(w.lastID) + 2
    ensures c.id == b.id && w.freeIDs == [a.id] && w.lastID == b.id
  {
    a := w.CreateGameObject();
    b := w.CreateGameObject();
    var n := |w.gameObjects| - 1;
    assert ObjectKey(w.gameObjects[n]) == b.id && ObjectKey(w.gameObjects[n - 1]) == a.id;
    var i := IndexOf(w.gameObjects, ObjectKey, b.id);
    assert i.Some?;
    SwapPopRemovesOne(w.gameObjects, i.value);
    w.DestroyGameObject(b);
    assert ObjectKey(w.gameObjects[n - 1]) == a.id;
    assert IndexOf(w.gameObjects, ObjectKey, a.id).Some?;
    w.DestroyGameObject(a);
    c := w.CreateGameObject();
  }

  /**
   * An object handed out by `getResource` and given back by its handle's deleter: the pool holds
   * the same objects, the one handed out now at the back, and nothing stays handed out.
   */
  method HandOutAndGiveBack<T>(p: Pool<T>) returns (o: T)
    requires p.Valid() && p.objects != []
    modifies p
    ensures p.Valid()
    ensures o == old(p.objects)[0] && p.objects == old(p.objects)[1..] + [o]
    ensures multiset(p.objects) == old(multiset(p.objects)) && p.out == old(p.out) && p.added == old(p.added)
  {
    o := p.GetResource();
    p.Release(o);
    assert old(p.objects) == [o] + old(p.objects)[1..];
  }

  /**
   * `sword->getComponent<IceDamageComponent>()` on an entity whose components all took their ids
   * from the registry, before any ice damage component exists: there is none (`nullptr`). When
   * the entity holds a component, the query itself hands the ice class the next id.
   */
  method AskForIce(g: GameObject, registry: Registry<ComponentClass>) returns (r: Option<Component>)
    requires registry.Valid() && IceDamageComponent !in registry.ids
    requires forall i :: 0 <= i < |g.components| ==> g.components[i].id <= registry.lastID
    modifies registry
    ensures r == None
    ensures g.components != [] ==> (registry.lastID == old(registry.lastID) + 1
      && registry.ids == old(registry.ids)[IceDamageComponent := registry.lastID])
    ensures g.components == [] ==> registry.ids == old(registry.ids) && registry.lastID == old(registry.lastID)
  {
    r := g.GetComponent(registry, IceDamageComponent);
  }
}
