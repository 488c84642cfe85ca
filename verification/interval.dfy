/**
 * The integer part of `zaimoni::math::interval<T>` (Zaimoni.STL/interval.hpp):
 * the `bits::rearrange_sum` / `rearrange_product` helpers, which move as much
 * of `rhs` into `lhs` as the type's range allows, and the closed interval
 * `[_lb, _ub]` with its containment tests, in-place intersection and union,
 * `hull`, and the scalar `==` and `<=>` comparisons.
 *
 * An integer type `T` is given by its largest value `max`; a signed `T` is
 * two's complement, so its smallest value is `-max - 1`.
 */
module Intervals {
  import CInt

  /**
   * Unsigned `rearrange_sum(lhs, rhs)`: the new `(l, r)` and the code.
   * The total never changes; code -1 means `rhs` was absorbed whole,
   * -2 that `lhs` is now saturated at `max`, 0 that `lhs` already was.
   */
  method RearrangeSumUnsigned(lhs: nat, rhs: nat, max: nat) returns (code: int, l: nat, r: nat)
    requires lhs <= max && rhs <= max
    ensures l + r == lhs + rhs
    ensures l <= max && r <= max
    ensures code == 0 <==> lhs == max
    ensures code == 0 ==> l == lhs && r == rhs
    ensures code == -1 <==> lhs + rhs <= max && lhs < max
    ensures code == -1 ==> r == 0
    ensures code == -2 ==> l == max && 0 < r < rhs
    ensures code in {0, -1, -2}
  {
    if max <= lhs {
      return 0, lhs, rhs;
    }
    var ub := max - lhs;
    if ub >= rhs {
      return -1, lhs + rhs, 0;
    }
    return -2, max, rhs - ub;
  }

  /**
   * Signed `rearrange_sum(lhs, rhs)`.  Code -1 exactly when the sum fits;
   * 0 when `lhs` is already at the extreme that `rhs` pushes toward; -2
   * when `lhs` saturates at that extreme and `rhs` keeps the rest, with
   * its sign and a smaller magnitude.
   */
  method RearrangeSumSigned(lhs: int, rhs: int, max: int) returns (code: int, l: int, r: int)
    requires 0 < max
    requires -max - 1 <= lhs <= max && -max - 1 <= rhs <= max
    ensures l + r == lhs + rhs
    ensures -max - 1 <= l <= max && -max - 1 <= r <= max
    ensures code == -1 <==> -max - 1 <= lhs + rhs <= max
    ensures code == -1 ==> r == 0
    ensures code == 0 <==> (lhs == max && 0 < rhs) || (lhs == -max - 1 && rhs < 0)
    ensures code == 0 ==> l == lhs && r == rhs
    ensures code == -2 ==> (0 < rhs && l == max && 0 < r < rhs) || (rhs < 0 && l == -max - 1 && rhs < r < 0)
    ensures code in {0, -1, -2}
  {
    if (if 0 <= lhs then 0 >= rhs else 0 <= rhs) || 0 == lhs {
      return -1, lhs + rhs, 0;
    }
    var lhsPositive := 0 < lhs;
    if if lhsPositive then max <= lhs else -max - 1 >= lhs {
      return 0, lhs, rhs;
    }
    var extreme := if lhsPositive then max - lhs else -max - 1 - lhs;
    if if lhsPositive then extreme >= rhs else extreme <= rhs {
      return -1, lhs + rhs, 0;
    }
    l := if lhsPositive then max else -max - 1;
    return -2, l, rhs - extreme;
  }

  /**
   * Unsigned `rearrange_product(lhs, rhs)`, for the non-zero `lhs` its
   * division needs.  The product never changes; code -1 exactly when
   * `lhs` is below `max` and the product fits.
   */
  method RearrangeProductUnsigned(lhs: nat, rhs: nat, max: nat) returns (code: int, l: nat, r: nat)
    requires 0 < lhs <= max && rhs <= max
    ensures l * r == lhs * rhs
    ensures l <= max && r <= max
    ensures code == -1 <==> lhs < max && lhs * rhs <= max
    ensures code == -1 ==> r == 1
    ensures code != -1 ==> code == 0 && l == lhs && r == rhs
  {
    if max <= lhs {
      return 0, lhs, rhs;
    }
    var ub := max / lhs;
    CInt.DivFits(rhs, lhs, max);
    if ub >= rhs {
      return -1, lhs * rhs, 1;
    }
    return 0, lhs, rhs;
  }

  /** `std::partial_ordering`. */
  datatype PartialOrdering = Less | Equivalent | Greater | Unordered

  /** The ordering seen from the other side. */
  function Flip(o: PartialOrdering): (r: PartialOrdering)
    ensures r == Less <==> o == Greater
    ensures r == Greater <==> o == Less
    ensures r == Equivalent <==> o == Equivalent
  {
    match o
    case Less => Greater
    case Greater => Less
    case _ => o
  }

  class Interval {
    var lb: int
    var ub: int

    /** `interval(l, u)`. */
    constructor (l: int, u: int)
      ensures lb == l && ub == u
    {
      lb, ub := l, u;
    }

    /** `hull(x, y)`: the smallest interval holding both points. */
    constructor Hull(x: int, y: int)
      ensures lb <= ub && Contains(x) && Contains(y)
      ensures lb in {x, y} && ub in {x, y}
    {
      if x <= y {
        lb, ub := x, y;
      } else {
        lb, ub := y, x;
      }
    }

    /** Bounds in order; intervals the other way round are the caller's business. */
    predicate Normal()
      reads this
    {
      lb <= ub
    }

    /** `contains(s)`. */
    predicate Contains(s: int)
      reads this
    {
      lb <= s && s <= ub
    }

    /** `contains(x)` for an interval: bound by bound. */
    predicate ContainsInterval(x: Interval)
      reads this, x
    {
      lb <= x.lb && x.ub <= ub
    }

    /** Scalar `i == s`: both bounds are `s`. */
    predicate EqualsScalar(s: int)
      reads this
    {
      lb == s && ub == s
    }

    /** Scalar `i <=> s`. */
    function CompareScalar(s: int): PartialOrdering
      reads this
    {
      if s < lb then Greater
      else if ub < s then Less
      else if EqualsScalar(s) then Equivalent
      else Unordered
    }

    /**
     * Interval `lhs <=> rhs`: first `lhs` against `rhs.upper()`, then
     * `lhs.upper() < rhs`, which is `rhs <=> lhs.upper()` being greater.
     */
    function Compare(rhs: Interval): PartialOrdering
      reads this, rhs
    {
      var t := CompareScalar(rhs.ub);
      if t == Greater then Greater
      else if t == Unordered then Unordered
      else if t == Equivalent then (if rhs.ub == rhs.lb then Equivalent else Unordered)
      else if rhs.CompareScalar(ub) == Greater then Less
      else Unordered
    }

    /** `self_intersect(x)`: raises the lower bound and lowers the upper one to `x`'s. */
    method SelfIntersect(x: Interval)
      modifies this
      ensures lb == (if old(lb) < x.lb then x.lb else old(lb))
      ensures ub == (if old(ub) > x.ub then x.ub else old(ub))
      ensures forall s :: Contains(s) <==> old(Contains(s)) && x.Contains(s)
    {
      if lb < x.lb {
        lb := x.lb;
      }
      if ub > x.ub {
        ub := x.ub;
      }
    }

    /** `self_union(x)`: widens to the hull of both. */
    method SelfUnion(x: Interval)
      modifies this
      ensures lb == (if old(lb) > x.lb then x.lb else old(lb))
      ensures ub == (if old(ub) < x.ub then x.ub else old(ub))
      ensures ContainsInterval(x)
      ensures forall s :: old(Contains(s)) ==> Contains(s)
    {
      if lb > x.lb {
        lb := x.lb;
      }
      if ub < x.ub {
        ub := x.ub;
      }
    }

    /** `self_union_lower(x)`. */
    method SelfUnionLower(x: int)
      modifies this
      ensures lb == (if old(lb) > x then x else old(lb)) && ub == old(ub)
      ensures forall s :: old(Contains(s)) ==> Contains(s)
    {
      if lb > x {
        lb := x;
      }
    }

    /** `self_union_upper(x)`. */
    method SelfUnionUpper(x: int)
      modifies this
      ensures ub == (if old(ub) < x then x else old(ub)) && lb == old(lb)
      ensures forall s :: old(Contains(s)) ==> Contains(s)
    {
      if ub < x {
        ub := x;
      }
    }
  }

  /** Bound-wise containment of a normal interval is containment of its points. */
  lemma ContainsIntervalMeans(i: Interval, x: Interval)
    requires x.Normal()
    ensures i.ContainsInterval(x) <==> forall s :: x.Contains(s) ==> i.Contains(s)
  {
    if forall s :: x.Contains(s) ==> i.Contains(s) {
      assert x.Contains(x.lb) && x.Contains(x.ub);
    }
  }

  /** Scalar equality holds exactly when `s` is the interval's only point. */
  lemma EqualsScalarMeans(i: Interval, s: int)
    ensures i.EqualsScalar(s) <==> forall t :: i.Contains(t) <==> t == s
  {
    if forall t :: i.Contains(t) <==> t == s {
      assert i.Contains(s);
      assert i.Contains(i.lb) && i.Contains(i.ub);
    }
  }

  /**
   * For a normal interval the scalar ordering is the ordering of every
   * point: greater when all lie above `s`, less when all lie below,
   * equivalent when `s` is the only point, unordered otherwise.
   */
  lemma CompareScalarMeans(i: Interval, s: int)
    requires i.Normal()
    ensures i.CompareScalar(s) == Greater <==> forall t :: i.Contains(t) ==> s < t
    ensures i.CompareScalar(s) == Less <==> forall t :: i.Contains(t) ==> t < s
    ensures i.CompareScalar(s) == Equivalent <==> forall t :: i.Contains(t) <==> t == s
    ensures i.CompareScalar(s) == Unordered <==> i.Contains(s) && i.lb < i.ub
  {
    assert i.Contains(i.lb) && i.Contains(i.ub);
    EqualsScalarMeans(i, s);
  }

  /**
   * For normal intervals the interval ordering compares the bounds: greater
   * when `rhs` lies wholly below, less when wholly above, equivalent only
   * for the same single point.
   */
  lemma CompareMeans(a: Interval, b: Interval)
    requires a.Normal() && b.Normal()
    ensures a.Compare(b) == Greater <==> b.ub < a.lb
    ensures a.Compare(b) == Less <==> a.ub < b.lb
    ensures a.Compare(b) == Equivalent <==> a.lb == a.ub == b.lb == b.ub
  {
  }

  /** Swapping the operands flips the ordering. */
  lemma CompareFlips(a: Interval, b: Interval)
    requires a.Normal() && b.Normal()
    ensures a.Compare(b) == Flip(b.Compare(a))
  {
    CompareMeans(a, b);
    CompareMeans(b, a);
  }

  /** The interval ordering of a single point agrees with the scalar one. */
  lemma ComparePoint(a: Interval, b: Interval)
    requires a.Normal() && b.lb == b.ub
    ensures a.Compare(b) == a.CompareScalar(b.lb)
  {
  }
}
