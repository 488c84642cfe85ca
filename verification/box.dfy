/**
 * `zaimoni::gdi::box<T>` (Zaimoni.STL/GDI/box.hpp): an axis-aligned box
 * given by its two non-strict corners, over points with integer
 * coordinates, and `Linf_border_sweep`, which numbers the points on the
 * square of L-infinity radius `r` around a centre.
 *
 * A point is the sequence of its coordinates; `pointwise_test` applies a
 * comparison to every coordinate of two points of the same dimension.
 */
module Box {
  /** `pointwise_test(a, b, less_equal)`. */
  predicate PointwiseLessEq(a: seq<int>, b: seq<int>)
    requires |a| == |b|
  {
    forall i | 0 <= i < |a| :: a[i] <= b[i]
  }

  /** Vector sum of two points of the same dimension. */
  function Add(a: seq<int>, b: seq<int>): (r: seq<int>)
    requires |a| == |b|
    ensures |r| == |a| && forall i | 0 <= i < |a| :: r[i] == a[i] + b[i]
  {
    if a == [] then [] else [a[0] + b[0]] + Add(a[1..], b[1..])
  }

  /** Every coordinate multiplied by `k`. */
  function Scale(a: seq<int>, k: int): (r: seq<int>)
    ensures |r| == |a| && forall i | 0 <= i < |a| :: r[i] == a[i] * k
  {
    if a == [] then [] else [a[0] * k] + Scale(a[1..], k)
  }

  /** Every coordinate negated. */
  function Negate(a: seq<int>): (r: seq<int>)
    ensures |r| == |a| && forall i | 0 <= i < |a| :: r[i] == -a[i]
  {
    if a == [] then [] else [-a[0]] + Negate(a[1..])
  }

  /** `p` lies between the corners `tl` and `br`, coordinate by coordinate. */
  predicate InBox(tl: seq<int>, br: seq<int>, p: seq<int>)
    requires |tl| == |br| == |p|
  {
    PointwiseLessEq(tl, p) && PointwiseLessEq(p, br)
  }

  /** Translating the box and the point by the same vector keeps containment. */
  lemma InBoxTranslate(tl: seq<int>, br: seq<int>, p: seq<int>, d: seq<int>)
    requires |tl| == |br| == |p| == |d|
    ensures InBox(Add(tl, d), Add(br, d), Add(p, d)) <==> InBox(tl, br, p)
  {
    var tl', br', p' := Add(tl, d), Add(br, d), Add(p, d);
    if InBox(tl', br', p') {
      forall i | 0 <= i < |p| ensures tl[i] <= p[i] <= br[i] {
        assert tl'[i] <= p'[i] <= br'[i];
      }
    }
  }

  /** Scaling the box and the point by the same positive factor keeps containment. */
  lemma InBoxScale(tl: seq<int>, br: seq<int>, p: seq<int>, k: int)
    requires |tl| == |br| == |p| && 0 < k
    ensures InBox(Scale(tl, k), Scale(br, k), Scale(p, k)) <==> InBox(tl, br, p)
  {
    var tl', br', p' := Scale(tl, k), Scale(br, k), Scale(p, k);
    forall i | 0 <= i < |p|
      ensures tl'[i] <= p'[i] <==> tl[i] <= p[i]
      ensures p'[i] <= br'[i] <==> p[i] <= br[i]
    {
      MulMonotone(tl[i], p[i], k);
      MulMonotone(p[i], br[i], k);
    }
  }

  lemma MulMonotone(a: int, b: int, k: int)
    requires 0 < k
    ensures a * k <= b * k <==> a <= b
  {
    if a <= b {
      assert b * k - a * k == (b - a) * k;
    } else {
      assert a * k - b * k == (a - b) * k;
    }
  }

  class Box {
    /** `_top_left`. */
    var tl: seq<int>
    /** `_bottom_right`. */
    var br: seq<int>

    /** Both corners have the same dimension. */
    predicate Valid()
      reads this
    {
      |tl| == |br|
    }

    /** `box(tl, br)`. */
    constructor (tl0: seq<int>, br0: seq<int>)
      requires |tl0| == |br0|
      ensures Valid() && tl == tl0 && br == br0
    {
      tl, br := tl0, br0;
    }

    /** `contains(src)`. */
    predicate Contains(src: seq<int>)
      reads this
      requires Valid() && |src| == |tl|
    {
      InBox(tl, br, src)
    }

    /** `operator+=(rhs)`: both corners move by `rhs`, so the box holds exactly the moved points. */
    method Translate(rhs: seq<int>)
      requires Valid() && |rhs| == |tl|
      modifies this
      ensures Valid() && tl == Add(old(tl), rhs) && br == Add(old(br), rhs)
      ensures forall p | |p| == |tl| :: Contains(Add(p, rhs)) <==> old(Contains(p))
    {
      tl := Add(tl, rhs);
      br := Add(br, rhs);
      forall p | |p| == |tl| ensures Contains(Add(p, rhs)) <==> InBox(old(tl), old(br), p) {
        InBoxTranslate(old(tl), old(br), p, rhs);
      }
    }

    /** `operator-=(rhs)`: both corners move back by `rhs`. */
    method TranslateBack(rhs: seq<int>)
      requires Valid() && |rhs| == |tl|
      modifies this
      ensures Valid() && tl == Add(old(tl), Negate(rhs)) && br == Add(old(br), Negate(rhs))
      ensures forall p | |p| == |tl| :: Contains(Add(p, Negate(rhs))) <==> old(Contains(p))
    {
      Translate(Negate(rhs));
    }

    /**
     * `operator*=(rhs)`: both corners are multiplied by `rhs`; for a positive
     * factor the box holds exactly the scaled points.
     */
    method ScaleBy(rhs: int)
      requires Valid()
      modifies this
      ensures Valid() && tl == Scale(old(tl), rhs) && br == Scale(old(br), rhs)
      ensures 0 < rhs ==> forall p | |p| == |tl| :: Contains(Scale(p, rhs)) <==> old(Contains(p))
    {
      tl := Scale(tl, rhs);
      br := Scale(br, rhs);
      if 0 < rhs {
        forall p | |p| == |tl| ensures Contains(Scale(p, rhs)) <==> InBox(old(tl), old(br), p) {
          InBoxScale(old(tl), old(br), p, rhs);
        }
      }
    }
  }

  /** The larger of the two coordinate distances: the L-infinity distance. */
  function LinfDistance(x: int, y: int, x0: int, y0: int): nat
  {
    var dx := if x < x0 then x0 - x else x - x0;
    var dy := if y < y0 then y0 - y else y - y0;
    if dx < dy then dy else dx
  }

  /**
   * `Linf_border_sweep(radius, i, x0, y0)`: point 0 is the corner
   * `(x0 - r, y0 - r)`; the walk then runs along the four edges, `2r`
   * points each.  The source asserts `1 <= radius` and `i < 8 * radius`
   * (point 0 is answered before the assertions).
   */
  function LinfBorderSweep(radius: int, i: nat, x0: int, y0: int): (r: (int, int))
    requires i == 0 || (1 <= radius && i < 8 * radius)
    ensures i == 0 ==> r == (x0 - radius, y0 - radius)
    ensures 1 <= radius ==> LinfDistance(r.0, r.1, x0, y0) == radius
  {
    if i == 0 then (x0 - radius, y0 - radius)
    else
      var radius2 := 2 * radius;
      if i < radius2 then (x0 - radius + i, y0 - radius)
      else
        var i := i - radius2;
        if i < radius2 then (x0 + radius, y0 - radius + i)
        else
          var i := i - radius2;
          if i < radius2 then (x0 + radius - i, y0 + radius)
          else
            var i := i - radius2;
            (x0 - radius, y0 + radius - i)
  }

  /** Where on the sweep a point of the border lies: the inverse of the sweep. */
  function BorderIndex(radius: int, x: int, y: int, x0: int, y0: int): (i: nat)
    requires 1 <= radius && LinfDistance(x, y, x0, y0) == radius
    ensures i < 8 * radius
  {
    if y == y0 - radius && x < x0 + radius then x - (x0 - radius)
    else if x == x0 + radius && y < y0 + radius then 2 * radius + (y - (y0 - radius))
    else if y == y0 + radius && x0 - radius < x then 4 * radius + (x0 + radius - x)
    else 6 * radius + (y0 + radius - y)
  }

  /** Every index of the sweep is found again from its point: no point is visited twice. */
  lemma SweepThenIndex(radius: int, i: nat, x0: int, y0: int)
    requires 1 <= radius && i < 8 * radius
    ensures var p := LinfBorderSweep(radius, i, x0, y0);
      BorderIndex(radius, p.0, p.1, x0, y0) == i
  {
  }

  /** Every point of the border is visited by the sweep. */
  lemma IndexThenSweep(radius: int, x: int, y: int, x0: int, y0: int)
    requires 1 <= radius && LinfDistance(x, y, x0, y0) == radius
    ensures LinfBorderSweep(radius, BorderIndex(radius, x, y, x0, y0), x0, y0) == (x, y)
  {
  }
}
