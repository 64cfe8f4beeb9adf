/**
 * The components of the example game (example1/src/components.hpp) and `Spark::Component`:
 * a component carries the id of its class and reacts to an event by changing the event's
 * payload in place. A component that recognises the event's kind casts the payload to the
 * struct it expects; when the payload holds something else the cast throws `bad_any_cast`.
 */
module Components {
  import opened Events
  import opened ComponentIds

  /** `Die`: how many dice to roll and how many sides each has. Rolling is left to the caller. */
  datatype Die = Die(rolls: nat, sides: nat)

  /** The component classes, as the tokens that `getComponentID<T>()` is instantiated with. */
  datatype ComponentClass = RenderComponent | DamageComponent | FireDamageComponent | IceDamageComponent

  /** What a component does with an event: render data to report, or damage of one type to deal. */
  datatype Behaviour =
    | Renders(symbol: char, name: string, description: string)
    | Deals(die: Die, damageType: DamageType)

  /** A component: the id of its class (`getID`) and its behaviour. */
  datatype Component = Component(id: nat, behaviour: Behaviour)

  /** The class a behaviour belongs to: the damage classes differ only in the type of damage they deal. */
  function ClassOf(b: Behaviour): ComponentClass
  {
    match b
    case Renders(_, _, _) => RenderComponent
    case Deals(_, DamageSlash) => DamageComponent
    case Deals(_, DamageFire) => FireDamageComponent
    case Deals(_, DamageIce) => IceDamageComponent
  }

  /** The event kind a behaviour reacts to; every other kind is ignored. */
  function Recognises(b: Behaviour): nat
  {
    if b.Renders? then EventGetRenderData else EventDealDamage
  }

  /** Whether the payload holds the struct that the behaviour's cast expects. */
  predicate Fits(b: Behaviour, data: Payload)
  {
    if b.Renders? then data.RenderEvent? else data.DealDamageEvent?
  }

  /**
   * The outcome of handing an event to components: the payload they leave, and whether a cast
   * threw. A throw leaves the payload as the handlers before it left it.
   */
  datatype Outcome = Handled(data: Payload) | Thrown(data: Payload)

  /**
   * `fireEvent` of one component, `roll` being what its die yields if it rolls. A render
   * component overwrites the render data; a damage component appends one `Damage` of its type.
   */
  function Handle(b: Behaviour, eventType: nat, data: Payload, roll: nat): (r: Outcome)
  {
    if eventType != Recognises(b) then Handled(data)
    else if !Fits(b, data) then Thrown(data)
    else match b
      case Renders(symbol, name, description) => Handled(RenderEvent(name, description, symbol))
      case Deals(_, damageType) => Handled(DealDamageEvent(data.damageVec + [Damage(roll, damageType)]))
  }

  /**
   * `GameObject::fireEvent`: the components in container order, each given the payload the
   * previous one left, stopping at a throw. `dice(i)` is what the die of the `i`-th component yields.
   */
  function HandleAll(components: seq<Component>, eventType: nat, data: Payload, dice: nat -> nat): (r: Outcome)
    decreases |components|
  {
    if components == [] then Handled(data)
    else
      var n := |components| - 1;
      match HandleAll(components[..n], eventType, data, dice)
      case Thrown(d) => Thrown(d)
      case Handled(d) => Handle(components[n].behaviour, eventType, d, dice(n))
  }

  /** Once a handler has thrown, the handlers after it do not run: the outcome of the whole sequence is that throw. */
  lemma {:induction false} ThrowStops(components: seq<Component>, k: nat, eventType: nat, data: Payload, dice: nat -> nat)
    requires k <= |components| && HandleAll(components[..k], eventType, data, dice).Thrown?
    ensures HandleAll(components, eventType, data, dice) == HandleAll(components[..k], eventType, data, dice)
    decreases |components| - k
  {
    if k < |components| {
      var n := |components| - 1;
      assert components[..n][..k] == components[..k];
      ThrowStops(components[..n], k, eventType, data, dice);
    } else {
      assert components[..k] == components;
    }
  }

  /**
   * `fireEvent` of a component of the example game, on the event `e`: the payload becomes what
   * `Handle` says, and nothing else of the event changes.
   */
  method FireEvent(c: Component, e: Event, roll: nat) returns (thrown: bool)
    modifies e`data
    ensures var r := Handle(c.behaviour, e.eventType, old(e.data), roll);
      thrown == r.Thrown? && e.data == r.data
  {
    thrown := false;
    match c.behaviour
    case Renders(symbol, name, description) =>
      if e.eventType == EventGetRenderData {
        if e.data.RenderEvent? {
          e.data := e.data.(symbol := symbol, name := name, description := description);
        } else {
          thrown := true;
        }
      }
    case Deals(_, damageType) =>
      if e.eventType == EventDealDamage {
        if e.data.DealDamageEvent? {
          e.data := e.data.(damageVec := e.data.damageVec + [Damage(roll, damageType)]);
        } else {
          thrown := true;
        }
      }
  }

  /**
   * A component's constructor: `Component(getComponentID<C>())` for its class `C`. Components of
   * one class share an id; components of different classes never do.
   */
  method NewComponent(registry: Registry<ComponentClass>, b: Behaviour) returns (c: Component)
    requires registry.Valid()
    modifies registry
    ensures registry.Valid()
    ensures c.behaviour == b && ClassOf(b) in registry.ids && c.id == registry.ids[ClassOf(b)]
    ensures ClassOf(b) in old(registry.ids) ==> c.id == old(registry.ids)[ClassOf(b)] && registry.ids == old(registry.ids)
    ensures forall k :: k in registry.ids && k != ClassOf(b) ==> registry.ids[k] != c.id
  {
    var id := registry.IdOf(ClassOf(b));
    c := Component(id, b);
  }

  // ----- what the handlers promise -----

  /** A kind a component does not recognise leaves the payload as it was. */
  lemma {:induction false} IgnoresOtherKinds(b: Behaviour, eventType: nat, data: Payload, roll: nat)
    requires eventType != Recognises(b)
    ensures Handle(b, eventType, data, roll) == Handled(data)
  {
  }

  /** A recognised kind with a payload of the wrong struct throws, and changes nothing. */
  lemma {:induction false} ThrowsOnMismatch(b: Behaviour, data: Payload, roll: nat)
    requires !Fits(b, data)
    ensures Handle(b, Recognises(b), data, roll) == Thrown(data)
  {
  }

  /** A render component asked for render data replaces all three fields with its own, whatever they held. */
  lemma {:induction false} RenderOverwrites(symbol: char, name: string, description: string, data: Payload, roll: nat)
    requires data.RenderEvent?
    ensures Handle(Renders(symbol, name, description), EventGetRenderData, data, roll)
         == Handled(RenderEvent(name, description, symbol))
  {
  }

  /** A damage component asked to deal damage appends exactly one entry of its type, after the earlier ones. */
  lemma {:induction false} DamageAppendsOne(die: Die, damageType: DamageType, damageVec: seq<Damage>, roll: nat)
    ensures var r := Handle(Deals(die, damageType), EventDealDamage, DealDamageEvent(damageVec), roll);
      && r.Handled? && r.data.DealDamageEvent?
      && |r.data.damageVec| == |damageVec| + 1
      && r.data.damageVec[..|damageVec|] == damageVec
      && r.data.damageVec[|damageVec|] == Damage(roll, damageType)
  {
  }

  /** The entries that the damage components among `components` contribute to one `EVENT_DEAL_DAMAGE`, in container order. */
  function Contributions(components: seq<Component>, dice: nat -> nat): seq<Damage>
    decreases |components|
  {
    if components == [] then []
    else
      var n := |components| - 1;
      Contributions(components[..n], dice)
        + (if components[n].behaviour.Deals? then [Damage(dice(n), components[n].behaviour.damageType)] else [])
  }

  /**
   * An entity handling one `EVENT_DEAL_DAMAGE` whose payload holds a `DealDamageEvent`: no cast
   * throws, and every damage component appends its entry, in container order, after the earlier ones.
   */
  lemma {:induction false} DamageAccumulates(components: seq<Component>, damageVec: seq<Damage>, dice: nat -> nat)
    ensures HandleAll(components, EventDealDamage, DealDamageEvent(damageVec), dice)
         == Handled(DealDamageEvent(damageVec + Contributions(components, dice)))
    decreases |components|
  {
    if components != [] {
      var n := |components| - 1;
      DamageAccumulates(components[..n], damageVec, dice);
      var b := components[n].behaviour;
      var d := DealDamageEvent(damageVec + Contributions(components[..n], dice));
      assert HandleAll(components, EventDealDamage, DealDamageEvent(damageVec), dice)
          == Handle(b, EventDealDamage, d, dice(n));
      if b.Deals? {
        assert damageVec + Contributions(components, dice)
            == damageVec + Contributions(components[..n], dice) + [Damage(dice(n), b.damageType)];
      } else {
        assert Contributions(components, dice) == Contributions(components[..n], dice);
      }
    } else {
      assert damageVec + [] == damageVec;
    }
  }

  /** The render data of the last render component among `components`, if there is one. */
  function LastRender(components: seq<Component>): (r: Payload)
    ensures r.RenderEvent? || r.NoPayload?
    decreases |components|
  {
    if components == [] then NoPayload
    else
      var b := components[|components| - 1].behaviour;
      if b.Renders? then RenderEvent(b.name, b.description, b.symbol)
      else LastRender(components[..|components| - 1])
  }

  /**
   * An entity handling one `EVENT_GET_RENDER_DATA` whose payload holds a `RenderEvent`: no cast
   * throws, and the last render component's data wins; with none, the payload is unchanged.
   */
  lemma {:induction false} RenderLastWins(components: seq<Component>, data: Payload, dice: nat -> nat)
    requires data.RenderEvent?
    ensures HandleAll(components, EventGetRenderData, data, dice)
         == Handled(if LastRender(components).RenderEvent? then LastRender(components) else data)
    decreases |components|
  {
    if components != [] {
      RenderLastWins(components[..|components| - 1], data, dice);
    }
  }
}
