/**
 * The pointer table of the allocator in Zaimoni.STL/core.RAM/memory.cpp.
 * Every block handed out is recorded as an address and a size; the records
 * are kept in an array ordered by descending address, so that `free` can
 * binary-search them.  Addresses are integers with 0 as NULL, and `size_t`
 * is 32 bits wide, the width of the records (memory.cpp:105-106).
 */
module Memory {
  import opened Wrappers
  import CInt

  const SizeMax: nat := 0xFFFF_FFFF

  /** `_track_pointer`: a block's address and allocated size. */
  datatype Record = Record(address: int, size: nat)

  /** The records are ordered by descending address (equal addresses allowed). */
  predicate Descending(s: seq<Record>) {
    forall i, j | 0 <= i < j < |s| :: s[i].address >= s[j].address
  }

  /** Some record of `s` has the address `target`. */
  predicate Holds(s: seq<Record>, target: int) {
    exists i | 0 <= i < |s| :: s[i].address == target
  }

  // ------------------------------------------------------------------
  // __IdxOfPointerInPtrList (memory.cpp:211-229)
  // ------------------------------------------------------------------

  /**
   * Binary search of `base[..strictUb]` for `target`: one above the index of
   * a record with that address, or 0 when there is none.
   */
  method IdxOfPointerInPtrList(target: int, strictUb: nat, base: array<Record>) returns (r: nat)
    requires strictUb <= base.Length && Descending(base[..strictUb])
    ensures r == 0 <==> !Holds(base[..strictUb], target)
    ensures r > 0 ==> r <= strictUb && base[r - 1].address == target
  {
    var lb := 0;
    var ub := strictUb;
    while lb < ub
      invariant 0 <= lb <= ub <= strictUb
      invariant forall i | 0 <= i < lb :: base[i].address > target
      invariant forall i | ub <= i < strictUb :: base[i].address < target
    {
      var midpoint := lb + (ub - lb) / 2;
      if target == base[midpoint].address {
        return midpoint + 1;
      } else if target < base[midpoint].address {
        assert base[..strictUb][midpoint].address > target;
        lb := midpoint + 1;
      } else {
        ub := midpoint;
      }
    }
    forall i | 0 <= i < strictUb ensures base[..strictUb][i].address != target {
    }
    return 0;
  }

  // ------------------------------------------------------------------
  // __OnePassInsertSort (memory.cpp:285-298)
  // ------------------------------------------------------------------

  /**
   * The records `s` with `x` inserted: `x` moves toward the front past
   * every record of lower address, and stops behind the first that is not
   * lower.
   */
  function InsertAt(s: seq<Record>, x: Record): (r: seq<Record>)
    ensures |r| == |s| + 1
  {
    if s == [] || s[|s| - 1].address >= x.address then s + [x]
    else InsertAt(s[..|s| - 1], x) + [s[|s| - 1]]
  }

  /**
   * The insertion point: `x` goes after every record of the sorted `s`
   * whose address is not below its own, equal ones included, and before
   * the rest, which keep their order.
   */
  lemma {:induction false} InsertAtSplit(s: seq<Record>, x: Record) returns (k: nat)
    requires Descending(s)
    ensures k <= |s| && InsertAt(s, x) == s[..k] + [x] + s[k..]
    ensures forall i | 0 <= i < k :: s[i].address >= x.address
    ensures forall i | k <= i < |s| :: s[i].address < x.address
  {
    if s == [] || s[|s| - 1].address >= x.address {
      k := |s|;
      assert s[..k] == s;
    } else {
      var init := s[..|s| - 1];
      assert Descending(init);
      k := InsertAtSplit(init, x);
      assert s[k..] == init[k..] + [s[|s| - 1]];
      assert s[..k] == init[..k];
    }
  }

  /** Inserting keeps the records in descending order. */
  lemma InsertAtDescending(s: seq<Record>, x: Record)
    requires Descending(s)
    ensures Descending(InsertAt(s, x))
  {
    var k := InsertAtSplit(s, x);
    var r := InsertAt(s, x);
    forall i, j | 0 <= i < j < |r| ensures r[i].address >= r[j].address {
      SplitAt(s, x, k, i);
      SplitAt(s, x, k, j);
    }
  }

  /** Inserting adds `x` to the records and nothing else. */
  lemma {:induction false} InsertAtPermutes(s: seq<Record>, x: Record)
    ensures multiset(InsertAt(s, x)) == multiset(s) + multiset{x}
  {
    if s != [] && s[|s| - 1].address < x.address {
      var init := s[..|s| - 1];
      InsertAtPermutes(init, x);
      assert s == init + [s[|s| - 1]];
    }
  }

  lemma SplitAt(s: seq<Record>, x: Record, k: nat, i: nat)
    requires k <= |s| && i <= |s|
    ensures (s[..k] + [x] + s[k..])[i] == if i < k then s[i] else if i == k then x else s[i - 1]
  {
  }

  /** The step of the insertion that puts `x` before a record of lower address. */
  lemma InsertAtStep(s: seq<Record>, m: nat, x: Record)
    requires 1 <= m <= |s| && s[m - 1].address < x.address
    requires InsertAt(s, x) == InsertAt(s[..m], x) + s[m..]
    ensures InsertAt(s, x) == InsertAt(s[..m - 1], x) + s[m - 1..]
  {
    assert s[..m][..m - 1] == s[..m - 1];
    assert s[m - 1..] == [s[m - 1]] + s[m..];
  }

  /** Where the insertion stops: behind a record whose address is not lower, or at the front. */
  lemma InsertAtStop(s: seq<Record>, m: nat, x: Record)
    requires m <= |s| && (m == 0 || s[m - 1].address >= x.address)
    requires InsertAt(s, x) == InsertAt(s[..m], x) + s[m..]
    ensures InsertAt(s, x) == s[..m] + [x] + s[m..]
  {
    if m > 0 {
      assert s[..m][m - 1] == s[m - 1];
    }
  }

  /**
   * `__OnePassInsertSort`: the record just appended at index `n - 1`
   * is swapped toward the front while its address is above its
   * predecessor's; the records from `n` on are untouched.
   */
  method OnePassInsertSort(a: array<Record>, n: nat)
    requires 1 <= n <= a.Length
    modifies a
    ensures a[..n] == InsertAt(old(a[..n - 1]), old(a[n - 1]))
    ensures a[n..] == old(a[n..])
  {
    ghost var s := a[..n - 1];
    ghost var x := a[n - 1];
    assert s[..n - 1] == s && s[n - 1..] == [];
    assert a[..n] == s[..n - 1] + [x] + s[n - 1..];
    var currIdx := n;
    while 2 <= currIdx && a[currIdx - 1].address > a[currIdx - 2].address
      invariant 1 <= currIdx <= n
      invariant a[..n] == s[..currIdx - 1] + [x] + s[currIdx - 1..]
      invariant a[n..] == old(a[n..])
      invariant InsertAt(s, x) == InsertAt(s[..currIdx - 1], x) + s[currIdx - 1..]
      decreases currIdx
    {
      InsertAtStep(s, currIdx - 1, x);
      Swap(a, n, currIdx, s, x);
      currIdx := currIdx - 1;
    }
    InsertAtStop(s, currIdx - 1, x);
  }

  /** One swap of `__OnePassInsertSort`: `x`, at index `currIdx - 1`, changes place with its predecessor. */
  method Swap(a: array<Record>, n: nat, currIdx: nat, ghost s: seq<Record>, ghost x: Record)
    requires 2 <= currIdx <= n <= a.Length && |s| == n - 1
    requires a[..n] == s[..currIdx - 1] + [x] + s[currIdx - 1..]
    modifies a
    ensures a[..n] == s[..currIdx - 2] + [x] + s[currIdx - 2..]
    ensures a[n..] == old(a[n..])
  {
    ghost var before := a[..n];
    var tmp := a[currIdx - 1];
    a[currIdx - 1] := a[currIdx - 2];
    a[currIdx - 2] := tmp;
    assert a[..n] == before[currIdx - 1 := before[currIdx - 2]][currIdx - 2 := x];
    assert s[currIdx - 2..] == [s[currIdx - 2]] + s[currIdx - 1..];
  }

  // ------------------------------------------------------------------
  // The table and the C entry points (memory.cpp:336-346, 668-735)
  // ------------------------------------------------------------------

  /** The result of `calloc`'s overflow test. */
  datatype Check = Fits | Overflows | DividesByZero

  /**
   * As written: `calloc` tests `(size_t)(-1)/size >= num`, which divides
   * by zero when `size` is 0.
   */
  function CallocCheck(num: nat, size: nat): (c: Check)
    ensures size == 0 <==> c == DividesByZero
  {
    if size == 0 then DividesByZero
    else if SizeMax / size >= num then Fits
    else Overflows
  }

  /** For a non-zero size the test accepts exactly the products that fit in `size_t`. */
  lemma CallocCheckExact(num: nat, size: nat)
    requires size != 0
    ensures CallocCheck(num, size) == Fits <==> num * size <= SizeMax
  {
    CInt.DivFits(num, size, SizeMax);
  }

  /** `calloc(num, 0)` divides by zero, whatever `num` is. */
  lemma CallocZeroSize(num: nat)
    ensures CallocCheck(num, 0) == DividesByZero
  {
  }

  /** The test as evidently intended: a size of 0 fits. */
  function CallocCheckIntended(num: nat, size: nat): (c: Check)
    ensures c != DividesByZero
  {
    if size == 0 || SizeMax / size >= num then Fits else Overflows
  }

  /** The intended test accepts exactly the products that fit in `size_t`, zero included. */
  lemma CallocCheckIntendedExact(num: nat, size: nat)
    ensures CallocCheckIntended(num, size) == Fits <==> num * size <= SizeMax
  {
    if size != 0 {
      CInt.DivFits(num, size, SizeMax);
    }
  }

  class Heap {
    /** `RawBlock.records`: room for the records; the first `count` are in use. */
    var records: array<Record>
    /** `CountPointersAllocated`. */
    var count: nat

    ghost predicate Valid()
      reads this, records
    {
      count <= records.Length && Descending(records[..count])
    }

    constructor (capacity: nat)
      ensures Valid() && count == 0 && records.Length == capacity
      ensures fresh(records)
    {
      records := new Record[capacity](_ => Record(0, 0));
      count := 0;
    }

    /**
     * `__MetaFree(currIdx)`: removes record `currIdx - 1` by moving the
     * later ones down, clears the freed last slot and decrements the count.
     */
    method MetaFree(currIdx: nat)
      requires Valid() && 1 <= currIdx <= count
      modifies this, records
      ensures Valid() && records == old(records) && count == old(count) - 1
      ensures records[..count] == old(records[..currIdx - 1]) + old(records[currIdx..count])
      ensures records[count] == Record(0, 0)
      ensures records[count + 1..] == old(records[..])[count + 1..]
    {
      var n := count;
      ghost var before := records[..n];
      ghost var after := before[..currIdx - 1] + before[currIdx..];
      DescendingWithout(before, currIdx - 1);
      ShiftDown(records, currIdx - 1, n);
      assert records[..n - 1] == after;
      ghost var rest := records[n..];
      records[n - 1] := Record(0, 0);
      assert records[..n - 1] == after && records[n..] == rest;
      count := n - 1;
    }

    /**
     * `malloc(size)`: NULL for a size of 0, when the index has no room
     * left, or when no address is found; otherwise the block at `hole` is
     * recorded (`__RegisterPtr`) and returned.  Where the block goes is
     * chosen by `__FindHole` and `__CreateAtBottom`, which are not part of
     * this model: their answer is the parameter `hole`.
     */
    method Malloc(size: nat, hole: Option<int>) returns (p: Option<int>)
      requires Valid()
      modifies this, records
      ensures Valid() && records == old(records)
      ensures size == 0 || old(count) == records.Length || hole.None? ==>
        p.None? && count == old(count) && records[..] == old(records[..])
      ensures size != 0 && old(count) < records.Length && hole.Some? ==>
        p == hole && count == old(count) + 1 &&
        records[..count] == InsertAt(old(records[..count]), Record(hole.value, size)) &&
        records[count..] == old(records[count + 1..])
    {
      if size == 0 || count == records.Length || hole.None? {
        return None;
      }
      ghost var before := records[..count];
      records[count] := Record(hole.value, size);
      count := count + 1;
      assert records[..count - 1] == before;
      OnePassInsertSort(records, count);
      InsertAtDescending(before, Record(hole.value, size));
      p := hole;
    }

    /**
     * `calloc(num, size)` with the overflow test as evidently intended: NULL
     * when the product does not fit, otherwise `malloc(num * size)`.  The
     * zero fill writes memory this model does not hold.
     */
    method Calloc(num: nat, size: nat, hole: Option<int>) returns (p: Option<int>)
      requires Valid()
      modifies this, records
      ensures Valid() && records == old(records)
      ensures num * size > SizeMax ==> p.None? && count == old(count) && records[..] == old(records[..])
      ensures num * size <= SizeMax ==> (p.Some? <==> num * size != 0 && old(count) < records.Length && hole.Some?)
      ensures num * size <= SizeMax && (num * size == 0 || old(count) == records.Length || hole.None?) ==>
        p.None? && count == old(count) && records[..] == old(records[..])
      ensures num * size <= SizeMax && num * size != 0 && old(count) < records.Length && hole.Some? ==>
        p == hole && count == old(count) + 1 &&
        records[..count] == InsertAt(old(records[..count]), Record(hole.value, num * size)) &&
        records[count..] == old(records[count + 1..])
    {
      CallocCheckIntendedExact(num, size);
      if CallocCheckIntended(num, size) == Fits {
        p := Malloc(num * size, hole);
      } else {
        p := None;
      }
    }

    /**
     * `free(memblock)`: nothing for NULL; a block that is not in the table
     * is reported (`FreeNonNULLInvalid`, which ends the program, here
     * `ok == false` with nothing changed); otherwise its record is removed.
     */
    method Free(memblock: Option<int>) returns (ok: bool)
      requires Valid()
      modifies this, records
      ensures Valid() && records == old(records)
      ensures memblock.None? ==> ok && count == old(count) && records[..] == old(records[..])
      ensures memblock.Some? ==> (ok <==> Holds(old(records[..count]), memblock.value))
      ensures !ok ==> count == old(count) && records[..] == old(records[..])
      ensures memblock.Some? && ok ==> count == old(count) - 1
      ensures memblock.Some? && ok ==>
        exists i | 0 <= i < old(count) ::
          old(records[i]).address == memblock.value &&
          records[..count] == old(records[..i]) + old(records[i + 1..count])
    {
      if memblock.None? {
        return true;
      }
      var currIdx := IdxOfPointerInPtrList(memblock.value, count, records);
      if currIdx == 0 {
        return false;
      }
      MetaFree(currIdx);
      ok := true;
    }
  }

  /**
   * The `memmove` of `__MetaFree`: records `i + 1 .. n - 1` move down one
   * place, over record `i`; the last of them stays where it was too.
   */
  method ShiftDown(a: array<Record>, i: nat, n: nat)
    requires i < n <= a.Length
    modifies a
    ensures a[..n - 1] == old(a[..i]) + old(a[i + 1..n])
    ensures a[n - 1..] == old(a[n - 1..])
  {
    var k := i;
    while k < n - 1
      invariant i <= k <= n - 1
      invariant forall j | 0 <= j < i :: a[j] == old(a[j])
      invariant forall j | i <= j < k :: a[j] == old(a[j + 1])
      invariant forall j | k <= j < a.Length :: a[j] == old(a[j])
    {
      a[k] := a[k + 1];
      k := k + 1;
    }
  }

  /** Removing a record keeps the others in descending order. */
  lemma DescendingWithout(s: seq<Record>, i: nat)
    requires i < |s| && Descending(s)
    ensures Descending(s[..i] + s[i + 1..])
  {
    var r := s[..i] + s[i + 1..];
    forall a, b | 0 <= a < b < |r| ensures r[a].address >= r[b].address {
      var a' := if a < i then a else a + 1;
      var b' := if b < i then b else b + 1;
      assert r[a] == s[a'] && r[b] == s[b'];
    }
  }
}
