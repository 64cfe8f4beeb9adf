/**
 * Component type identity (`getComponentID` in spark.hpp): one shared counter, bumped by every
 * call of the untyped `getComponentID()`, and a cache that the typed `getComponentID<T>()`
 * fills the first time it is called for `T`. The per-type `static` variables become the
 * `ids` map, keyed by a token `T` that stands for the component class.
 */
module ComponentIds {

  /**
   * What one `getComponentID<T>()` call for `t` does to the cache and the counter: a class with
   * an id keeps both as they were; any other class gets the next counter value, which is cached.
   */
  ghost predicate Drawn<T>(ids: map<T, nat>, lastID: nat, ids': map<T, nat>, lastID': nat, t: T)
  {
    && t in ids'
    && (t in ids ==> ids' == ids && lastID' == lastID)
    && (t !in ids ==> lastID' == lastID + 1 && ids' == ids[t := lastID'])
  }

  /** `Drawn` when the call is made; when it is not, the cache and the counter stay as they were. */
  ghost predicate DrawnIf<T>(called: bool, ids: map<T, nat>, lastID: nat, ids': map<T, nat>, lastID': nat, t: T)
  {
    if called then Drawn(ids, lastID, ids', lastID', t) else ids' == ids && lastID' == lastID
  }

  class Registry<T(==)> {
    /** The shared counter, `static std::size_t lastID`. */
    var lastID: nat
    /** The cached id of every class whose `getComponentID<T>()` has run. */
    var ids: map<T, nat>

    /** Every cached id was drawn from the counter, and no two classes share one. */
    ghost predicate Valid()
      reads this
    {
      && (forall t :: t in ids ==> 1 <= ids[t] <= lastID)
      && (forall s, t :: s in ids && t in ids && s != t ==> ids[s] != ids[t])
    }

    /** Program start: the counter is 0 and no class has an id yet. */
    constructor ()
      ensures Valid() && lastID == 0 && ids == map[]
    {
      lastID, ids := 0, map[];
    }

    /** `getComponentID()`: `++lastID`. */
    method NextID() returns (id: nat)
      requires Valid()
      modifies this`lastID
      ensures Valid()
      ensures lastID == old(lastID) + 1 && id == lastID
    {
      lastID := lastID + 1;
      id := lastID;
    }

    /**
     * `getComponentID<T>()`: the cached id of `t`; on the first call for `t`, a fresh id from
     * the counter, which is then cached. The id differs from that of every other class.
     */
    method IdOf(t: T) returns (id: nat)
      requires Valid()
      modifies this
      ensures Valid()
      ensures t in old(ids) ==> id == old(ids)[t] && ids == old(ids) && lastID == old(lastID)
      ensures t !in old(ids) ==> id == old(lastID) + 1 && ids == old(ids)[t := id] && lastID == id
      ensures t in ids && ids[t] == id
      ensures forall s :: s in ids && s != t ==> ids[s] != id
    {
      if t in ids {
        id := ids[t];
      } else {
        id := NextID();
        ids := ids[t := id];
      }
    }
  }
}
