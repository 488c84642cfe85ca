/**
 * `zaimoni::intrusive_ptr<T>` (ptr2.hpp): an owning pointer with an explicit
 * reference count.  `get()` counts a new user, `release()` drops one and
 * deletes the object when none is left; a count that has reached the
 * largest `uintptr_t` sticks there, so the object is then never deleted.
 *
 * The pointee is modelled by its address, `None` standing for the null
 * pointer; the object `release()` deletes is handed back to the caller.
 */
module IntrusivePointers {
  import opened Wrappers

  /** The largest `uintptr_t`. */
  const UintPtrMax: nat := 0xFFFF_FFFF_FFFF_FFFF

  /** The count after `get()`: one more, unless already saturated. */
  function CountAfterGet(count: nat): (r: nat)
    requires count <= UintPtrMax
    ensures r <= UintPtrMax
    ensures count < UintPtrMax ==> r == count + 1
    ensures count == UintPtrMax ==> r == count
  {
    if UintPtrMax > count then count + 1 else count
  }

  /** The count after `release()`: one less, unless zero or saturated. */
  function CountAfterRelease(count: nat): (r: nat)
    requires count <= UintPtrMax
    ensures r <= count
    ensures 0 < count < UintPtrMax ==> r == count - 1
    ensures count == 0 || count == UintPtrMax ==> r == count
  {
    if UintPtrMax > count && 0 < count then count - 1 else count
  }

  /** A use of the pointer: a `get()` or a `release()`. */
  datatype Op = Get | Release

  /** The count after a series of uses. */
  function CountAfter(count: nat, ops: seq<Op>): (r: nat)
    requires count <= UintPtrMax
    ensures r <= UintPtrMax
    decreases |ops|
  {
    if ops == [] then count
    else
      var c := if ops[0] == Get then CountAfterGet(count) else CountAfterRelease(count);
      CountAfter(c, ops[1..])
  }

  /** A `release()` undoes a `get()` as long as the count stays below saturation. */
  lemma ReleaseUndoesGet(count: nat)
    requires count + 1 < UintPtrMax
    ensures CountAfterRelease(CountAfterGet(count)) == count
  {
  }

  /** Once the count is saturated, no series of uses brings it down. */
  lemma {:induction false} SaturatedStays(ops: seq<Op>)
    ensures CountAfter(UintPtrMax, ops) == UintPtrMax
    decreases |ops|
  {
    if ops != [] {
      SaturatedStays(ops[1..]);
    }
  }

  class IntrusivePtr {
    /** `x`: the managed object, `None` for null. */
    var x: Option<nat>
    /** `count`: the number of users counted so far. */
    var count: nat

    predicate Valid()
      reads this
    {
      count <= UintPtrMax
    }

    /** `intrusive_ptr(src)`: owns `src`, no users yet. */
    constructor (src: Option<nat>)
      ensures Valid() && x == src && count == 0
      ensures Holds() <==> src.Some?
    {
      x, count := src, 0;
    }

    /** `get()`: counts one more user and returns the object. */
    method Get() returns (r: Option<nat>)
      requires Valid()
      modifies this
      ensures Valid() && r == x == old(x)
      ensures count == CountAfterGet(old(count))
      ensures Holds() == old(Holds())
    {
      if UintPtrMax > count {
        count := count + 1;
      }
      r := x;
    }

    /**
     * `release()`: drops one user; when no user is left the object is
     * deleted (returned in `deleted`) and the pointer becomes null.
     */
    method Release() returns (deleted: Option<nat>)
      requires Valid()
      modifies this
      ensures Valid() && count == CountAfterRelease(old(count))
      ensures count == 0 ==> x == None && deleted == old(x)
      ensures count != 0 ==> x == old(x) && deleted == None
      ensures count == 0 ==> !Holds() && Empty()
      ensures count != 0 ==> Holds() == old(Holds())
    {
      if UintPtrMax > count && 0 < count {
        count := count - 1;
      }
      deleted := None;
      if 0 == count {
        deleted := x;
        x := None;
      }
    }

    /** `explicit operator bool()`: whether an object is held. */
    predicate Holds()
      reads this
    {
      x.Some?
    }

    /** `empty()` as written: returns `x`, so it answers like `operator bool`. */
    predicate EmptyAsWritten()
      reads this
      ensures EmptyAsWritten() <==> Holds()
    {
      x.Some?
    }

    /** `empty()` corrected: true exactly when no object is held. */
    predicate Empty()
      reads this
      ensures Empty() <==> !Holds()
    {
      x.None?
    }
  }

  /** As written, a freshly made pointer to an object claims to be empty. */
  method EmptyAsWrittenOnObject(address: nat) returns (p: IntrusivePtr)
    ensures p.x == Some(address) && p.EmptyAsWritten() && !p.Empty()
  {
    p := new IntrusivePtr(Some(address));
  }
}
