/**
 * The integer range container of int_range.hpp: the closed range
 * `[lower, upper]`, empty when `lower > upper`, with container equality and
 * ordering, indexing, `pop_front`/`pop_back` and a bidirectional iterator that
 * never leaves `[lower, upper + 1]`.  Values are mathematical integers;
 * `SizeInWidth` gives `size()` as the code computes it for a `size_type` of
 * a given width, with a 32-bit `int` and a 64-bit `size_t`.
 */
module IntRange {
  import CInt

  /** The value of an `int_range`: its two bounds (int_range.hpp:18, 124). */
  datatype Range = Range(lower: int, upper: int) {

    /** `empty()` (int_range.hpp:138). */
    predicate Empty() { lower > upper }

    /** `size()`: 0 for an empty range, otherwise the count of integers in it (int_range.hpp:133-136). */
    function Size(): (r: nat)
      ensures r == 0 <==> Empty()
      ensures r == |Elements()|
    {
      if lower > upper then 0 else upper - lower + 1
    }

    /**
     * `size()` as the code computes it when `size_type` has `w` bits
     * (int_range.hpp:133-136).  Both bounds are cast to `size_type`.  A
     * `size_type` narrower than `int` is promoted, so the difference and the
     * `+ 1` are exact `int` arithmetic; a wider one wraps modulo 2^w.  The
     * result is then converted to `size_t`.
     */
    function SizeInWidth(w: nat): (r: nat)
      ensures r < SizeModulus
      ensures Empty() ==> r == 0
      ensures !Empty() && IntBits <= w ==> r == Size() % Modulus(w) % SizeModulus
      ensures !Empty() && IntBits <= w <= SizeBits ==> r == Size() % Modulus(w)
    {
      var m := Modulus(w);
      if lower > upper then 0
      else if w < IntBits then ((upper % m) - (lower % m) + 1) % SizeModulus
      else
        WrappedDifference(upper, lower, m);
        var wrapped := (((upper % m) - (lower % m)) % m + 1) % m;
        if w <= SizeBits then NarrowerFits(wrapped, w); wrapped % SizeModulus
        else wrapped % SizeModulus
    }

    /** The integers the range holds, in increasing order. */
    function Elements(): (s: seq<int>)
      ensures |s| == if lower > upper then 0 else upper - lower + 1
      ensures forall m | 0 <= m < |s| :: s[m] == lower + m
    {
      if lower > upper then [] else seq(upper - lower + 1, m => lower + m)
    }

    /** `operator[]`: the `n`-th integer from `lower` (int_range.hpp:171-175). */
    function At(n: nat): (r: int)
      requires !Empty() && n < Size()
      ensures r == Elements()[n]
    {
      lower + n
    }

    /** `operator==`: all empty ranges are equal, otherwise the bounds must agree (int_range.hpp:141-146). */
    predicate Equal(rhs: Range) {
      if Empty() then rhs.Empty()
      else if rhs.Empty() then false
      else lower == rhs.lower && upper == rhs.upper
    }

    /**
     * `operator<`: an empty range comes before every non-empty one, and
     * non-empty ranges compare lexicographically on (lower, upper)
     * (int_range.hpp:187-193).
     */
    predicate Less(rhs: Range) {
      if Empty() then !rhs.Empty()
      else if rhs.Empty() then false
      else lower < rhs.lower || (lower == rhs.lower && upper < rhs.upper)
    }
  }

  /** The number of values of an unsigned type of `w` bits. */
  function Modulus(w: nat): (m: nat)
    ensures m >= 1
  {
    if w == 0 then 1 else 2 * Modulus(w - 1)
  }

  /** The widths of `int` and of `size_t`. */
  const IntBits: nat := 32
  const SizeBits: nat := 64
  /** The number of values of `size_t`, 2^64. */
  const SizeModulus: nat := 0x1_0000_0000_0000_0000

  /** A type no wider than `size_t` has no more values. */
  lemma ModulusWithinSize(w: nat)
    requires w <= SizeBits
    ensures Modulus(w) <= SizeModulus
  {
    ModulusMonotone(w, SizeBits);
    ModulusOf64();
  }

  /** The numbers of values of 16-, 32- and 64-bit types, by doubling the width. */
  lemma ModulusOf16()
    ensures Modulus(16) == 0x1_0000
  {
    assert Modulus(8) == 0x100;
    ModulusAdd(8, 8);
  }

  lemma ModulusOf32()
    ensures Modulus(32) == 0x1_0000_0000
  {
    ModulusOf16();
    ModulusAdd(16, 16);
  }

  lemma ModulusOf64()
    ensures Modulus(64) == SizeModulus
  {
    ModulusOf32();
    ModulusAdd(32, 32);
  }

  /** Widths add as the numbers of values multiply. */
  lemma {:induction false} ModulusAdd(a: nat, b: nat)
    ensures Modulus(a + b) == Modulus(a) * Modulus(b)
    decreases b
  {
    if b > 0 {
      ModulusAdd(a, b - 1);
      calc {
        Modulus(a + b);
        2 * Modulus(a + b - 1);
        2 * (Modulus(a) * Modulus(b - 1));
        Modulus(a) * (2 * Modulus(b - 1));
        Modulus(a) * Modulus(b);
      }
    }
  }

  /** A wider type has at least as many values. */
  lemma {:induction false} ModulusMonotone(a: nat, b: nat)
    requires a <= b
    ensures Modulus(a) <= Modulus(b)
    decreases b
  {
    if a < b {
      ModulusMonotone(a, b - 1);
    }
  }

  /** A value of a type no wider than `size_t` converts to `size_t` unchanged. */
  lemma NarrowerFits(x: nat, w: nat)
    requires x < Modulus(w) && w <= SizeBits
    ensures x % SizeModulus == x
  {
    ModulusWithinSize(w);
    RemainderUnique(x, SizeModulus, 0, x);
  }

  /** Unsigned wrap-around: casting, subtracting and adding one agree with the exact sum taken modulo `m`. */
  lemma WrappedDifference(u: int, l: int, m: nat)
    requires m >= 1
    ensures (((u % m) - (l % m)) % m + 1) % m == (u - l + 1) % m
  {
    var d := (u % m) - (l % m);
    assert d % m == (u - l) % m by {
      assert u == (u / m) * m + u % m;
      assert l == (l / m) * m + l % m;
      assert u - l == d + (u / m - l / m) * m;
      ModShift(d, u / m - l / m, m);
    }
    ModShift(d % m + 1, (u - l) / m + d / m - d / m, m);
    assert (u - l + 1) == ((u - l) % m + 1) + ((u - l) / m) * m;
    ModShift((u - l) % m + 1, (u - l) / m, m);
  }

  /** Adding a multiple of `m` does not change the remainder. */
  lemma ModShift(x: int, q: int, m: nat)
    requires m >= 1
    ensures (x + q * m) % m == x % m
  {
    var y := x + q * m;
    assert y == (x / m + q) * m + x % m;
    RemainderUnique(y, m, x / m + q, x % m);
  }

  /** Euclidean division has one quotient and remainder. */
  lemma RemainderUnique(y: int, m: nat, q: int, r: int)
    requires m >= 1 && 0 <= r < m && y == q * m + r
    ensures y % m == r
  {
    var q', r' := y / m, y % m;
    var d := q' - q;
    assert d * m == r - r' by {
      assert q' * m + r' == q * m + r;
      assert d * m == q' * m - q * m;
    }
    if d >= 1 {
      CInt.MulAtLeast(d, m);
    } else if d <= -1 {
      CInt.MulAtLeast(-d, m);
    }
  }

  /**
   * The wrap-around the code warns about: the full range of a signed type of
   * `w + 1` bits is non-empty, yet its `size()` is 0, whether or not its
   * `size_type` is promoted.
   */
  lemma FullRangeSizeWraps(w: nat)
    ensures !Range(-(Modulus(w) as int), Modulus(w) - 1).Empty()
    ensures Range(-(Modulus(w) as int), Modulus(w) - 1).SizeInWidth(w + 1) == 0
  {
    var a := Range(-(Modulus(w) as int), Modulus(w) - 1);
    assert a.Size() == Modulus(w + 1);
    if w + 1 < IntBits {
      NarrowSignedSize(a, w + 1);
    } else {
      RemainderUnique(a.Size(), Modulus(w + 1), 1, 0);
      RemainderUnique(0, SizeModulus, 0, 0);
    }
  }

  /** For a `size_type` at least as wide as `int`, a count that fits is exact. */
  lemma SizeInWidthExact(a: Range, w: nat)
    requires IntBits <= w <= SizeBits && a.Size() < Modulus(w)
    ensures a.SizeInWidth(w) == a.Size()
  {
    if !a.Empty() {
      RemainderUnique(a.Size(), Modulus(w), 0, a.Size());
    }
  }

  /** For a promoted `size_type`, bounds of one sign give the exact count. */
  lemma NarrowSizeExact(a: Range, w: nat)
    requires w < IntBits && !a.Empty()
    requires (0 <= a.lower && a.upper < Modulus(w)) || (-(Modulus(w) as int) <= a.lower && a.upper < 0)
    ensures a.SizeInWidth(w) == a.Size()
  {
    var m := Modulus(w);
    ModulusWithinSize(w + 1);
    if 0 <= a.lower {
      RemainderUnique(a.lower, m, 0, a.lower);
      RemainderUnique(a.upper, m, 0, a.upper);
    } else {
      RemainderUnique(a.lower, m, -1, a.lower + m);
      RemainderUnique(a.upper, m, -1, a.upper + m);
    }
    RemainderUnique(a.Size(), SizeModulus, 0, a.Size());
  }

  /**
   * For a promoted `size_type`, a signed range from below zero to zero or
   * above gives `size()` as the count less 2^w, converted to `size_t`: so
   * `int_range<signed char>(-1, 0).size()` is 2^64 - 254, not 2.
   */
  lemma NarrowSignedSize(a: Range, w: nat)
    requires 1 <= w < IntBits
    requires -(Modulus(w - 1) as int) <= a.lower < 0 <= a.upper < Modulus(w - 1)
    ensures a.Size() < Modulus(w) ==> a.SizeInWidth(w) == SizeModulus - (Modulus(w) - a.Size())
    ensures a.Size() == Modulus(w) ==> a.SizeInWidth(w) == 0
  {
    var m := Modulus(w);
    ModulusWithinSize(w);
    RemainderUnique(a.lower, m, -1, a.lower + m);
    RemainderUnique(a.upper, m, 0, a.upper);
    assert (a.upper % m) - (a.lower % m) + 1 == a.Size() - m;
    if a.Size() < m {
      RemainderUnique(a.Size() - m, SizeModulus, -1, SizeModulus - (m - a.Size()));
    } else {
      RemainderUnique(0, SizeModulus, 0, 0);
    }
  }

  /** The range holds exactly the integers between its bounds. */
  lemma ElementsBetweenBounds(a: Range, x: int)
    ensures x in a.Elements() <==> a.lower <= x <= a.upper
  {
    if a.lower <= x <= a.upper {
      assert a.Elements()[x - a.lower] == x;
    }
  }

  /** Two ranges are equal exactly when they hold the same integers. */
  lemma EqualIffSameElements(a: Range, b: Range)
    ensures a.Equal(b) <==> a.Elements() == b.Elements()
  {
    if a.Elements() == b.Elements() && !a.Empty() {
      assert a.Elements()[0] == a.lower && b.Elements()[0] == b.lower;
      assert a.Elements()[|a.Elements()| - 1] == a.upper;
      assert b.Elements()[|b.Elements()| - 1] == b.upper;
    }
  }

  /** `<` is a strict total order on the classes of `==`. */
  lemma LessIsStrictOrder(a: Range, b: Range, c: Range)
    ensures !a.Less(a)
    ensures a.Less(b) && b.Less(c) ==> a.Less(c)
    ensures a.Less(b) || a.Equal(b) || b.Less(a)
    ensures a.Equal(b) ==> !a.Less(b) && !b.Less(a)
  {
  }

  /** A mutable `int_range` object. */
  class IntRange {
    var lower: int
    var upper: int

    constructor(lower: int, upper: int)
      ensures this.lower == lower && this.upper == upper
    {
      this.lower, this.upper := lower, upper;
    }

    function Value(): Range
      reads this
    {
      Range(lower, upper)
    }

    /** `pop_front`: drops the least integer (int_range.hpp:178). */
    method PopFront()
      requires !Value().Empty()
      modifies this
      ensures lower == old(lower) + 1 && upper == old(upper)
      ensures Value().Elements() == old(Value().Elements())[1..]
    {
      lower := lower + 1;
    }

    /** `pop_back`: drops the greatest integer (int_range.hpp:179). */
    method PopBack()
      requires !Value().Empty()
      modifies this
      ensures lower == old(lower) && upper == old(upper) - 1
      ensures Value().Elements() == old(Value().Elements())[..old(Value().Size()) - 1]
    {
      upper := upper - 1;
    }
  }

  /** `int_range::const_iterator`: a position `i` in the range `src` (int_range.hpp:32-116). */
  class Iterator {
    const src: IntRange
    var i: int

    constructor(src: IntRange, origin: int)
      ensures this.src == src && i == origin
    {
      this.src, i := src, origin;
    }

    /** `can_dereference`: the position holds an integer of the range (int_range.hpp:45). */
    predicate CanDereference()
      reads this, src
    {
      src.lower <= i <= src.upper
    }

    /** `operator++`: advances unless already past `upper` (int_range.hpp:57-60). */
    method Increment()
      modifies this
      ensures i == if old(i) <= src.upper then old(i) + 1 else old(i)
      ensures old(i) <= src.upper + 1 ==> i <= src.upper + 1
    {
      if src.upper >= i {
        i := i + 1;
      }
    }

    /** `operator--`: steps back unless already at `lower` (int_range.hpp:68-71). */
    method Decrement()
      modifies this
      ensures i == if src.lower < old(i) then old(i) - 1 else old(i)
      ensures src.lower <= old(i) ==> src.lower <= i
    {
      if src.lower < i {
        i := i - 1;
      }
    }
  }
}
