/**
 * `isk::Object` (object.hpp): the base of the objects the world manager
 * keeps in per-type caches of `shared_ptr`s.  Bit 0 of `_bitmap` flags an
 * object for garbage collection; `_synthetic_id` is the 1-based position
 * of the object in its cache, written to save files in place of pointers.
 *
 * A cache entry is an `Option<Object>`, `None` being a null `shared_ptr`.
 * `owners` is the object's `use_count()`: the number of `shared_ptr`s that
 * own it, the cache's own entry included.
 */
module Objects {
  import opened Wrappers

  /** `_bitmap & 1U`. */
  predicate Flagged(b: bv64) {
    b & 1 == 1
  }

  /**
   * `gc_this(gc)` as written: `&= 1U` for `true` keeps bit 0 as it was and
   * clears the rest, so it can never raise the flag; `&= ~(1U)` for
   * `false` masks with a 32-bit `unsigned int` widened to 64 bits, so it
   * also clears the upper half of the bitmap.
   */
  function GcBitsAsWritten(b: bv64, gc: bool): (r: bv64)
    ensures Flagged(r) == (gc && Flagged(b))
  {
    if gc then b & 1 else b & 0xFFFF_FFFE
  }

  /** What else the as-written masks do to the bitmap. */
  lemma GcBitsAsWrittenMasks(b: bv64)
    ensures GcBitsAsWritten(b, true) & !1 == 0
    ensures GcBitsAsWritten(b, false) & 0xFFFF_FFFF_0000_0000 == 0
    ensures GcBitsAsWritten(b, false) & 0xFFFF_FFFE == b & 0xFFFF_FFFE
  {
  }

  /** `gc_this(gc)` corrected: bit 0 becomes `gc`, every other bit is kept. */
  function GcBits(b: bv64, gc: bool): (r: bv64)
    ensures Flagged(r) == gc
    ensures r & !1 == b & !1
  {
    if gc then b | 1 else b & !1
  }

  /**
   * The discrepancy: flagging a clear bitmap leaves it clear, and clearing
   * the flag of a bitmap that only has bit 32 set wipes that bit.
   */
  lemma GcBitsAsWrittenCounterexample()
    ensures !Flagged(GcBitsAsWritten(0, true)) && Flagged(GcBits(0, true))
    ensures GcBitsAsWritten(0x1_0000_0000, false) == 0 != GcBits(0x1_0000_0000, false)
  {
  }

  class Object {
    /** `_synthetic_id`. */
    var id: int
    /** `_bitmap`. */
    var bitmap: bv64
    /** `use_count()` of the `shared_ptr`s that own this object. */
    var owners: nat

    /**
     * A new object.  `struct Object` has no constructor of its own, so the
     * id and bitmap a derived constructor leaves behind are whatever it
     * sets, or indeterminate: they are parameters here.
     */
    constructor (id0: int, bitmap0: bv64, owners0: nat)
      ensures id == id0 && bitmap == bitmap0 && owners == owners0
    {
      id, bitmap, owners := id0, bitmap0, owners0;
    }

    /** `gc_this()`: whether the object is flagged for collection. */
    predicate GcFlag()
      reads this
    {
      Flagged(bitmap)
    }

    /** `gc_this(gc)` as written. */
    method SetGcAsWritten(gc: bool)
      modifies this
      ensures bitmap == GcBitsAsWritten(old(bitmap), gc)
      ensures id == old(id) && owners == old(owners)
    {
      bitmap := if gc then bitmap & 1 else bitmap & 0xFFFF_FFFE;
    }

    /** `gc_this(gc)` corrected. */
    method SetGc(gc: bool)
      modifies this
      ensures bitmap == GcBits(old(bitmap), gc)
      ensures id == old(id) && owners == old(owners)
    {
      bitmap := if gc then bitmap | 1 else bitmap & !1;
    }
  }

  /** The objects a cache refers to. */
  ghost function ObjectsOf(cache: seq<Option<Object>>): set<Object>
  {
    set i | 0 <= i < |cache| && cache[i].Some? :: cache[i].value
  }

  /** No object is held by two entries of the cache. */
  predicate Distinct(cache: seq<Option<Object>>)
  {
    forall i, j | 0 <= i < j < |cache| && cache[i].Some? && cache[j].Some? :: cache[i].value != cache[j].value
  }

  /** Every entry is non-null: what `init_synthetic_ids` asserts. */
  predicate NoNulls(cache: seq<Option<Object>>)
  {
    forall i | 0 <= i < |cache| :: cache[i].Some?
  }

  /**
   * `init_synthetic_ids(cache)`: the objects are numbered 1, 2, ... in
   * cache order.  An object held twice keeps the number of its last entry.
   */
  method InitSyntheticIds(cache: seq<Option<Object>>)
    requires NoNulls(cache)
    modifies ObjectsOf(cache)
    ensures forall k | 0 <= k < |cache| && (forall j | k < j < |cache| :: cache[j] != cache[k]) ::
      cache[k].value.id == k + 1
    ensures forall o | o in ObjectsOf(cache) :: o.bitmap == old(o.bitmap) && o.owners == old(o.owners)
  {
    var newId := 0;
    while newId < |cache|
      invariant 0 <= newId <= |cache|
      invariant forall k | 0 <= k < newId && (forall j | k < j < newId :: cache[j] != cache[k]) ::
        cache[k].value.id == k + 1
      invariant forall o | o in ObjectsOf(cache) :: o.bitmap == old(o.bitmap) && o.owners == old(o.owners)
      decreases |cache| - newId
    {
      var o := cache[newId].value;
      assert o in ObjectsOf(cache);
      o.id := newId + 1;
      newId := newId + 1;
    }
  }

  /** The ids of a cache are its 1-based positions. */
  predicate IdsAssigned(cache: seq<Option<Object>>)
    reads ObjectsOf(cache)
  {
    forall k | 0 <= k < |cache| :: cache[k].Some? && cache[k].value.id == k + 1
  }

  /** Numbering a cache without repeated objects makes every id its position. */
  lemma InitGivesPositions(cache: seq<Option<Object>>)
    requires NoNulls(cache) && Distinct(cache)
    requires forall k | 0 <= k < |cache| && (forall j | k < j < |cache| :: cache[j] != cache[k]) ::
      cache[k].value.id == k + 1
    ensures IdsAssigned(cache)
  {
    forall k | 0 <= k < |cache| ensures cache[k].value.id == k + 1 {
      assert forall j | k < j < |cache| :: cache[j] != cache[k];
    }
  }

  /**
   * `read_synthetic_id(cache, src)` for the id read from the file: dies
   * (`None`) unless `1 <= id <= size`, and otherwise gives the entry at
   * position `id`.
   */
  function ReadSyntheticId(cache: seq<Option<Object>>, id: int): (r: Option<Option<Object>>)
    ensures r.Some? <==> 1 <= id <= |cache|
    ensures r.Some? ==> r.value == cache[id - 1]
  {
    if |cache| >= id && 0 < id then Some(cache[id - 1]) else None
  }

  /** Once ids are assigned, reading back an object's id finds that object. */
  lemma IdRoundTrip(cache: seq<Option<Object>>, k: nat)
    requires IdsAssigned(cache) && k < |cache|
    ensures ReadSyntheticId(cache, cache[k].value.id) == Some(cache[k])
  {
  }

  /** The entries of `cache` whose `mask` bit is set, in cache order. */
  function Filter<T>(cache: seq<T>, mask: seq<bool>): (r: seq<T>)
    requires |mask| == |cache|
    ensures |r| <= |cache|
    decreases |cache|
  {
    if cache == [] then []
    else
      var n := |cache| - 1;
      Filter(cache[..n], mask[..n]) + if mask[n] then [cache[n]] else []
  }

  /** An entry is in the filtered cache exactly when some position holding it is selected. */
  lemma {:induction false} FilterMembers<T>(cache: seq<T>, mask: seq<bool>, x: T)
    requires |mask| == |cache|
    ensures x in Filter(cache, mask) <==> exists k | 0 <= k < |cache| :: cache[k] == x && mask[k]
    decreases |cache|
  {
    if cache != [] {
      var n := |cache| - 1;
      FilterMembers(cache[..n], mask[..n], x);
      if x in Filter(cache[..n], mask[..n]) {
        var k :| 0 <= k < n && cache[..n][k] == x && mask[..n][k];
        assert cache[k] == x && mask[k];
      }
      if exists k | 0 <= k < |cache| :: cache[k] == x && mask[k] {
        var k :| 0 <= k < |cache| && cache[k] == x && mask[k];
        if k < n {
          assert cache[..n][k] == x && mask[..n][k];
        }
      }
    }
  }

  /** Selecting every position keeps the whole cache. */
  lemma {:induction false} FilterAll<T>(cache: seq<T>, mask: seq<bool>)
    requires |mask| == |cache| && forall k | 0 <= k < |mask| :: mask[k]
    ensures Filter(cache, mask) == cache
    decreases |cache|
  {
    if cache != [] {
      var n := |cache| - 1;
      FilterAll(cache[..n], mask[..n]);
      assert cache[..n] + [cache[n]] == cache;
    }
  }

  /** `gc_all` corrected: an entry stays when non-null and unflagged, or flagged but shared. */
  predicate Keeps(slot: Option<Object>)
    reads if slot.Some? then {slot.value} else {}
  {
    slot.Some? && (!Flagged(slot.value.bitmap) || 1 < slot.value.owners)
  }

  /** Which entries the corrected `gc_all` keeps. */
  function KeepMask(cache: seq<Option<Object>>): (m: seq<bool>)
    reads ObjectsOf(cache)
    ensures |m| == |cache| && forall k | 0 <= k < |cache| :: m[k] == Keeps(cache[k])
  {
    seq(|cache|, k requires 0 <= k < |cache| reads ObjectsOf(cache) => Keeps(cache[k]))
  }

  /** Which entries are non-null: all that `gc_all` as written keeps. */
  function NonNullMask(cache: seq<Option<Object>>): (m: seq<bool>)
    ensures |m| == |cache| && forall k | 0 <= k < |cache| :: m[k] == cache[k].Some?
  {
    seq(|cache|, k requires 0 <= k < |cache| => cache[k].Some?)
  }

  /** The bitmap an entry leaves `gc_all` as written with: a flagged object is unflagged. */
  function AfterGcAsWritten(b: bv64): (r: bv64)
    ensures !Flagged(r)
  {
    if Flagged(b) then GcBitsAsWritten(b, false) else b
  }

  /** The bitmap an entry leaves the corrected `gc_all` with: a flagged shared object is unflagged. */
  function AfterGc(b: bv64, owners: nat): (r: bv64)
    ensures Flagged(r) <==> Flagged(b) && owners <= 1
  {
    if Flagged(b) && 1 < owners then GcBits(b, false) else b
  }

  /**
   * One pass of the loop of `gc_all` as written over a non-null entry: the
   * copy `auto i` adds one to `use_count()`, so the entry is always kept.
   */
  method CollectEntryAsWritten(o: Object) returns (keep: bool)
    requires 1 <= o.owners
    modifies o
    ensures keep
    ensures o.owners == old(o.owners) && o.id == old(o.id) && o.bitmap == AfterGcAsWritten(old(o.bitmap))
  {
    if o.GcFlag() {
      var useCount := o.owners + 1;  // counts the loop's own copy
      if 1 >= useCount {
        return false;
      }
      o.SetGcAsWritten(false);
    }
    return true;
  }

  /** One pass of the loop of the corrected `gc_all` over a non-null entry. */
  method CollectEntry(o: Object) returns (keep: bool)
    modifies o
    ensures keep == old(Keeps(Some(o)))
    ensures o.owners == old(o.owners) && o.id == old(o.id) && o.bitmap == AfterGc(old(o.bitmap), o.owners)
  {
    if o.GcFlag() {
      if 1 >= o.owners {
        return false;
      }
      o.SetGc(false);
    }
    return true;
  }

  /**
   * `gc_all(cache)` as written: `for (auto i : _cache)` copies each
   * `shared_ptr`, so inside the loop `i.use_count()` is one more than the
   * object's owners and `1 >= i.use_count()` never holds.  Null entries are
   * dropped; every flagged object is kept and unflagged.
   */
  method GcAllAsWritten(cache: seq<Option<Object>>) returns (dest: seq<Option<Object>>)
    requires Distinct(cache)
    requires forall k | 0 <= k < |cache| && cache[k].Some? :: 1 <= cache[k].value.owners
    modifies ObjectsOf(cache)
    ensures dest == Filter(cache, NonNullMask(cache))
    ensures forall k | 0 <= k < |cache| && cache[k].Some? ::
      cache[k].value.owners == old(cache[k].value.owners) && cache[k].value.id == old(cache[k].value.id) &&
      cache[k].value.bitmap == AfterGcAsWritten(old(cache[k].value.bitmap))
  {
    dest := [];
    var i := 0;
    while i < |cache|
      invariant 0 <= i <= |cache|
      invariant dest == Filter(cache[..i], NonNullMask(cache)[..i])
      invariant forall k | 0 <= k < |cache| && cache[k].Some? ::
        cache[k].value.owners == old(cache[k].value.owners) && cache[k].value.id == old(cache[k].value.id)
      invariant forall k | i <= k < |cache| && cache[k].Some? :: cache[k].value.bitmap == old(cache[k].value.bitmap)
      invariant forall k | 0 <= k < i && cache[k].Some? ::
        cache[k].value.bitmap == AfterGcAsWritten(old(cache[k].value.bitmap))
      decreases |cache| - i
    {
      assert cache[..i + 1][..i] == cache[..i];
      assert NonNullMask(cache)[..i + 1][..i] == NonNullMask(cache)[..i];
      if cache[i].Some? {
        assert cache[i].value in ObjectsOf(cache);
        var keep := CollectEntryAsWritten(cache[i].value);
        if keep {
          dest := dest + [cache[i]];
        }
      }
      i := i + 1;
    }
    assert cache[..i] == cache && NonNullMask(cache)[..i] == NonNullMask(cache);
  }

  /**
   * `gc_all(cache)` corrected (the loop takes `auto&`): null entries and
   * flagged objects with a single owner are dropped; flagged objects with
   * several owners are kept and unflagged; the order is kept.
   */
  method GcAll(cache: seq<Option<Object>>) returns (dest: seq<Option<Object>>)
    requires Distinct(cache)
    modifies ObjectsOf(cache)
    ensures dest == Filter(cache, old(KeepMask(cache)))
    ensures forall k | 0 <= k < |cache| && cache[k].Some? ::
      cache[k].value.owners == old(cache[k].value.owners) && cache[k].value.id == old(cache[k].value.id) &&
      cache[k].value.bitmap == AfterGc(old(cache[k].value.bitmap), cache[k].value.owners)
    ensures forall k | 0 <= k < |dest| :: dest[k].Some? && !dest[k].value.GcFlag()
  {
    ghost var mask := KeepMask(cache);
    dest := [];
    var i := 0;
    while i < |cache|
      invariant 0 <= i <= |cache|
      invariant dest == Filter(cache[..i], mask[..i])
      invariant forall k | 0 <= k < |cache| && cache[k].Some? ::
        cache[k].value.owners == old(cache[k].value.owners) && cache[k].value.id == old(cache[k].value.id)
      invariant forall k | i <= k < |cache| && cache[k].Some? :: cache[k].value.bitmap == old(cache[k].value.bitmap)
      invariant forall k | 0 <= k < i && cache[k].Some? ::
        cache[k].value.bitmap == AfterGc(old(cache[k].value.bitmap), cache[k].value.owners)
      decreases |cache| - i
    {
      assert cache[..i + 1][..i] == cache[..i];
      assert mask[..i + 1][..i] == mask[..i];
      if cache[i].Some? {
        assert cache[i].value in ObjectsOf(cache);
        var keep := CollectEntry(cache[i].value);
        if keep {
          dest := dest + [cache[i]];
        }
      }
      i := i + 1;
    }
    assert cache[..i] == cache && mask[..i] == mask;
    forall k | 0 <= k < |cache| && mask[k] ensures cache[k].Some? && !cache[k].value.GcFlag() {
      assert old(Keeps(cache[k]));
    }
    KeptAreClean(cache, mask);
  }

  /** When every selected entry is non-null and unflagged, so is every entry of the filtered cache. */
  lemma KeptAreClean(cache: seq<Option<Object>>, mask: seq<bool>)
    requires |mask| == |cache|
    requires forall k | 0 <= k < |cache| && mask[k] :: cache[k].Some? && !cache[k].value.GcFlag()
    ensures var dest := Filter(cache, mask);
      forall d | 0 <= d < |dest| :: dest[d].Some? && !dest[d].value.GcFlag()
  {
    var dest := Filter(cache, mask);
    forall d | 0 <= d < |dest| ensures dest[d].Some? && !dest[d].value.GcFlag() {
      FilterMembers(cache, mask, dest[d]);
    }
  }

  /** A cache that has just been collected loses nothing to a second collection. */
  lemma CollectedIsStable(dest: seq<Option<Object>>)
    requires forall k | 0 <= k < |dest| :: dest[k].Some? && !dest[k].value.GcFlag()
    ensures Filter(dest, KeepMask(dest)) == dest
  {
    FilterAll(dest, KeepMask(dest));
  }

  /**
   * The discrepancy: a flagged object with a single owner survives the
   * collection as written and is dropped by the corrected one.
   */
  lemma AsWrittenKeepsSoleOwner(cache: seq<Option<Object>>, k: nat)
    requires Distinct(cache) && k < |cache| && cache[k].Some? && !Keeps(cache[k])
    ensures cache[k] in Filter(cache, NonNullMask(cache))
    ensures cache[k] !in Filter(cache, KeepMask(cache))
  {
    FilterMembers(cache, NonNullMask(cache), cache[k]);
    FilterMembers(cache, KeepMask(cache), cache[k]);
  }
}
