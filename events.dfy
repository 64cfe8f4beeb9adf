/**
 * Events: the record that the world and the components pass around (`Spark::Event`), the
 * broadcast target `ALL_GAMEOBJECTS`, and the event kinds and payloads of the example game.
 * The type-erased `std::any` payload is a datatype over the payload structs it can hold.
 */
module Events {

  /** `ALL_GAMEOBJECTS`: the largest `unsigned int`, used as the target of a broadcast. */
  const AllGameObjects: nat := 0xFFFF_FFFF

  /** The values of the example game's `EventType` enumeration. */
  const EventDamage: nat := 0
  const EventHeal: nat := 1
  const EventDealDamage: nat := 2
  const EventIncrementPosition: nat := 3
  const EventUpdate: nat := 4
  const EventGetRenderData: nat := 5

  datatype DamageType = DamageFire | DamageIce | DamageSlash

  datatype Damage = Damage(damageDealt: int, damageType: DamageType)

  /**
   * What an event's `std::any` holds: nothing (as in a fresh pooled event), or one of the
   * payload structs of the example game.
   */
  datatype Payload =
    | NoPayload
    | DealDamageEvent(damageVec: seq<Damage>)
    | HealEvent(health: int)
    | PositionIncrementEvent(incAmount: int)
    | RenderEvent(name: string, description: string, symbol: char)

  /** `Spark::Event`: a kind, a target entity and a payload, all of which handlers and callers overwrite in place. */
  class Event {
    var eventType: nat
    var gameObjectID: nat
    var data: Payload

    /** `std::make_unique<Spark::Event>()`: value-initialised, so zeros and an empty payload. */
    constructor ()
      ensures eventType == 0 && gameObjectID == 0 && data == NoPayload
    {
      eventType, gameObjectID, data := 0, 0, NoPayload;
    }
  }
}
