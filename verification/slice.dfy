/**
 * `zaimoni::slice` and `zaimoni::slice_array<T>` (slice.hpp): a slice is
 * `length` positions `start, start + stride, ...` of an array of `size_t`
 * extent; a slice array views an array through a slice, with reference
 * semantics, so writes go to the underlying array.
 */
module Slices {
  /** The largest `size_t`. */
  const SizeMax: int := 0xFFFF_FFFF_FFFF_FFFF

  datatype Slice = Slice(start: nat, size: nat, stride: nat)
  {
    /**
     * What the constructor asserts: a non-empty length, a non-zero
     * stride, and no `size_t` overflow in `length * stride` or in
     * `start + length * stride`.
     */
    predicate Valid() {
      start <= SizeMax && 0 < size && 0 < stride &&
      SizeMax / size >= stride && SizeMax - start >= size * stride
    }

    /** `index(n)`, for `n` below the length. */
    function Index(n: nat): (r: nat)
      requires Valid() && n < size
      ensures start <= r <= SizeMax
    {
      IndexBound(this, n);
      start + n * stride
    }
  }

  /** `slice(start, length, stride)`. */
  function MakeSlice(start: nat, length: nat, stride: nat): (s: Slice)
    requires start <= SizeMax && 0 < length && 0 < stride
    requires SizeMax / length >= stride && SizeMax - start >= length * stride
    ensures s.Valid() && s.start == start && s.size == length && s.stride == stride
  {
    Slice(start, length, stride)
  }

  /** The positions stay within `size_t`. */
  lemma IndexBound(s: Slice, n: nat)
    requires s.Valid() && n < s.size
    ensures s.start + n * s.stride <= SizeMax
  {
    MulLe(n, s.size, s.stride);
  }

  lemma MulLe(a: nat, b: nat, c: nat)
    requires a <= b
    ensures a * c <= b * c
  {
    assert b * c - a * c == (b - a) * c;
  }

  /** Positions increase with the index, so distinct indices never share a position. */
  lemma IndexIncreasing(s: Slice, m: nat, n: nat)
    requires s.Valid() && m < n < s.size
    ensures s.Index(m) + s.stride <= s.Index(n)
  {
    MulLe(m + 1, n, s.stride);
    assert (m + 1) * s.stride == m * s.stride + s.stride;
  }

  /** The last position is the furthest from the start. */
  lemma IndexLast(s: Slice, n: nat)
    requires s.Valid() && n < s.size
    ensures s.Index(n) <= s.Index(s.size - 1)
  {
    if n < s.size - 1 {
      IndexIncreasing(s, n, s.size - 1);
    }
  }

  /** `slice_array<T>`: an array seen through a slice. */
  class SliceArray<T> {
    const src: array<T>
    const filter: Slice

    /** The slice is valid and every position it names is inside the array. */
    predicate Valid()
      reads this
    {
      filter.Valid() && filter.Index(filter.size - 1) < src.Length
    }

    /**
     * `slice_array(src, filter)`.  The source does not check that the last
     * position lies inside the array; every access relies on it, so the
     * model makes it the constructor's precondition.
     */
    constructor (a: array<T>, f: Slice)
      requires f.Valid() && f.Index(f.size - 1) < a.Length
      ensures Valid() && src == a && filter == f
    {
      src, filter := a, f;
    }

    /** `size()`: the slice length. */
    function Size(): (n: nat)
      reads this
      requires Valid()
      ensures n == filter.size && 0 < n
      ensures forall k | 0 <= k < n :: filter.Index(k) < src.Length
    {
      forall k | 0 <= k < filter.size ensures filter.Index(k) < src.Length {
        IndexLast(filter, k);
      }
      filter.size
    }

    /** `operator[](n)` read: the element at the `n`-th position of the slice. */
    function Get(n: nat): (r: T)
      reads this, src
      requires Valid() && n < Size()
    {
      src[filter.Index(n)]
    }

    /**
     * `operator[](n)` written through: exactly one array element changes,
     * and every other element of the slice keeps its value.
     */
    method Set(n: nat, v: T)
      requires Valid() && n < Size()
      modifies src
      ensures src[..] == old(src[..])[filter.Index(n) := v]
      ensures Get(n) == v
      ensures forall m | 0 <= m < Size() && m != n :: Get(m) == old(Get(m))
    {
      src[filter.Index(n)] := v;
      forall m | 0 <= m < Size() && m != n ensures filter.Index(m) != filter.Index(n) {
        if m < n {
          IndexIncreasing(filter, m, n);
        } else {
          IndexIncreasing(filter, n, m);
        }
      }
    }
  }
}
