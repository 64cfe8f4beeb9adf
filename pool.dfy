/**
 * `Pool<T>` (spark.hpp): a FIFO free list of preallocated objects. `getResource` hands out
 * the object at the front; when the handle it returns is destroyed, its deleter gives the
 * object back with `add`, at the back. The handle is modelled as the object itself, and its
 * release as an explicit call of `Release`.
 */
module Pools {

  class Pool<T(==)> {
    /** The deque of objects waiting to be handed out, front first. */
    var objects: seq<T>
    /** Every object ever given to the pool with `add`. */
    ghost var added: multiset<T>
    /** The objects handed out by `getResource` whose handles have not been released yet. */
    ghost var out: multiset<T>

    /** The pool loses no object and makes none up: each one added is either waiting or handed out. */
    ghost predicate Valid()
      reads this
    {
      multiset(objects) + out == added
    }

    /** `Pool() = default`: an empty pool. */
    constructor ()
      ensures Valid() && objects == [] && added == multiset{} && out == multiset{}
    {
      objects := [];
      added := multiset{};
      out := multiset{};
    }

    /** `add`: a new object joins the back of the queue. */
    method Add(o: T)
      requires Valid()
      modifies this
      ensures Valid()
      ensures objects == old(objects) + [o]
      ensures added == old(added) + multiset{o} && out == old(out)
    {
      objects := objects + [o];
      added := added + multiset{o};
    }

    /** `getResource`: the pool must not be empty; the object at the front leaves the queue and is handed out. */
    method GetResource() returns (o: T)
      requires Valid() && objects != []
      modifies this
      ensures Valid()
      ensures o == old(objects)[0] && objects == old(objects)[1..]
      ensures old(objects) == [o] + objects
      ensures out == old(out) + multiset{o} && added == old(added)
    {
      o := objects[0];
      objects := objects[1..];
      out := out + multiset{o};
      assert old(objects) == [o] + objects;
    }

    /**
     * The deleter of a handle `getResource` returned: the object goes back to the back of the
     * queue with `add`, and is no longer handed out.
     */
    method Release(o: T)
      requires Valid() && o in out
      modifies this
      ensures Valid()
      ensures objects == old(objects) + [o]
      ensures out == old(out) - multiset{o} && added == old(added)
    {
      objects := objects + [o];
      out := out - multiset{o};
    }

    /** `size`: the number of objects waiting. */
    function Size(): (n: nat)
      reads this
      ensures n == |objects|
    {
      |objects|
    }

    /** `empty`: whether no object is waiting. */
    function Empty(): (b: bool)
      reads this
      ensures b <==> objects == []
    {
      |objects| == 0
    }
  }

  /** A pool never holds more objects than were ever added to it. */
  lemma {:induction false} SizeBounded<T>(p: Pool<T>)
    requires p.Valid()
    ensures p.Size() <= |p.added|
  {
    assert |multiset(p.objects)| == |p.objects|;
  }
}
