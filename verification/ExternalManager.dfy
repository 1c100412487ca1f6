/** Handles to separately allocated objects, with a first-in first-out free list (source/ExternalManager.hpp). */
module ExternalManager {
  import opened Wrappers

  type Handle = nat

  /** The value of a manager: a slot per handle ever given out, and the freed handles, oldest first. */
  datatype Store<T> = Store(slots: seq<Option<T>>, free: seq<Handle>) {
    predicate Live(h: Handle) {
      h < |slots| && slots[h].Some?
    }

    /** The free list holds exactly the empty slots, each once. */
    ghost predicate Valid() {
      && (forall h: Handle :: h in free <==> h < |slots| && slots[h].None?)
      && forall i, j :: 0 <= i < j < |free| ==> free[i] != free[j]
    }

    /** The handle the next allocation gives out. */
    function NextHandle(): Handle {
      if free != [] then free[0] else |slots|
    }

    function Allocated(value: T): Store<T>
      requires free != [] ==> free[0] < |slots|
    {
      if free != [] then Store(slots[free[0] := Some(value)], free[1..]) else Store(slots + [Some(value)], free)
    }

    function Updated(h: Handle, value: T): Store<T>
      requires Live(h)
    {
      Store(slots[h := Some(value)], free)
    }

    function Erased(h: Handle): Store<T>
      requires Live(h)
    {
      Store(slots[h := None], free + [h])
    }

    /** Allocation fills an empty slot and touches no other. */
    lemma AllocatedIsValid(value: T)
      requires Valid()
      ensures (free != [] ==> free[0] < |slots|) && !Live(NextHandle())
      ensures var s := Allocated(value);
              && s.Valid() && |slots| <= |s.slots| && NextHandle() < |s.slots|
              && s.slots[NextHandle()] == Some(value)
              && forall h :: 0 <= h < |slots| && h != NextHandle() ==> s.slots[h] == slots[h]
    {
      if free != [] {
        assert free[0] in free;
        var s := Allocated(value);
        assert free == [free[0]] + s.free;
        assert forall h :: h in s.free ==> h in free && h != free[0];
      }
    }

    lemma ErasedIsValid(h: Handle)
      requires Valid() && Live(h)
      ensures Erased(h).Valid()
    {
    }
  }

  class ExternalManager<T(!new)> {
    var slots: seq<Option<T>>
    var freeList: seq<Handle>

    function Value(): Store<T>
      reads this
    {
      Store(slots, freeList)
    }

    constructor ()
      ensures slots == [] && freeList == [] && Value().Valid()
    {
      slots, freeList := [], [];
    }

    /** The deep copy: the same slots and free list, in a new object. */
    constructor CopyOf(other: ExternalManager<T>)
      ensures Value() == other.Value()
    {
      slots, freeList := other.slots, other.freeList;
    }

    method Allocate(value: T) returns (handle: Handle)
      requires Value().Valid()
      modifies this
      ensures Value().Valid() && handle == old(Value().NextHandle()) && !old(Value().Live(handle))
      ensures old(Value()).free != [] ==> old(Value()).free[0] < |old(Value()).slots|
      ensures Value() == old(Value()).Allocated(value)
    {
      Value().AllocatedIsValid(value);
      if freeList != [] {
        handle := freeList[0];
        freeList := freeList[1..];
        slots := slots[handle := Some(value)];
      } else {
        slots := slots + [Some(value)];
        handle := |slots| - 1;
      }
    }

    /** The source asserts that the handle is live. */
    method Get(handle: Handle) returns (value: T)
      requires Value().Live(handle)
      ensures Value().slots[handle] == Some(value)
    {
      value := slots[handle].value;
    }

    /** Writing through the reference that `get` returns. */
    method Set(handle: Handle, value: T)
      requires Value().Live(handle)
      modifies this
      ensures Value() == old(Value()).Updated(handle, value)
    {
      slots := slots[handle := Some(value)];
    }

    /** The source asserts that the handle is live. */
    method Erase(handle: Handle)
      requires Value().Live(handle)
      modifies this
      ensures Value() == old(Value()).Erased(handle)
    {
      slots := slots[handle := None];
      freeList := freeList + [handle];
    }
  }
}
