/**
 * The integer dot product and the L1 and L-infinity distances of
 * Euclidean.hpp.  Each takes two sequences of the same non-zero length
 * (the source asserts both).  `dot` and `Lesbegue<1>` collect their terms
 * in an `accumulator` vector that starts as `size()` zeros (that is what
 * `std::vector<T> accumulator(i)` holds), skip zero terms, then fold the
 * vector into its first element from the back.  `Lesbegue<0>` keeps a
 * running maximum instead.
 */
module Euclidean {
  /** The sum of a sequence, taken from the back. */
  function Sum(s: seq<int>): int
  {
    if s == [] then 0 else Sum(s[..|s| - 1]) + s[|s| - 1]
  }

  /** `sum of a[i] * b[i]`. */
  function InnerProduct(a: seq<int>, b: seq<int>): int
    requires |a| == |b|
  {
    if a == [] then 0 else a[0] * b[0] + InnerProduct(a[1..], b[1..])
  }

  function AbsDiff(x: int, y: int): nat
  {
    if y - x < 0 then x - y else y - x
  }

  /** `sum of |b[i] - a[i]|`. */
  function Manhattan(a: seq<int>, b: seq<int>): nat
    requires |a| == |b|
  {
    if a == [] then 0 else AbsDiff(a[0], b[0]) + Manhattan(a[1..], b[1..])
  }

  lemma {:induction false} SumZeros(n: nat)
    ensures Sum(seq(n, _ => 0)) == 0
  {
    if n > 0 {
      assert seq(n, _ => 0)[..n - 1] == seq(n - 1, _ => 0);
      SumZeros(n - 1);
    }
  }

  lemma SumPush(s: seq<int>, x: int)
    ensures Sum(s + [x]) == Sum(s) + x
  {
    assert (s + [x])[..|s|] == s;
  }

  /** Adding `d` to the first element adds `d` to the sum. */
  lemma {:induction false} SumBumpFirst(s: seq<int>, d: int)
    requires 0 < |s|
    ensures Sum(s[0 := s[0] + d]) == Sum(s) + d
  {
    var t := s[0 := s[0] + d];
    if |s| > 1 {
      assert t[..|t| - 1] == s[..|s| - 1][0 := s[0] + d];
      SumBumpFirst(s[..|s| - 1], d);
    }
  }

  /**
   * The folding loop shared by `dot` and `Lesbegue<1>`: while two or more
   * entries remain, the last is added into the first and popped.
   */
  method Fold(accumulator: seq<int>) returns (r: int)
    requires 0 < |accumulator|
    ensures r == Sum(accumulator)
  {
    var acc := accumulator;
    while 2 <= |acc|
      invariant 0 < |acc| && Sum(acc) == Sum(accumulator)
      decreases |acc|
    {
      var last := acc[|acc| - 1];
      SumBumpFirst(acc[..|acc| - 1], last);
      acc := acc[..|acc| - 1][0 := acc[0] + last];
    }
    assert acc == acc[..0] + [acc[0]];
    return acc[0];
  }

  lemma InnerProductStep(a: seq<int>, b: seq<int>, i: nat)
    requires |a| == |b| && i < |a|
    ensures InnerProduct(a[i..], b[i..]) == a[i] * b[i] + InnerProduct(a[i + 1..], b[i + 1..])
  {
    assert a[i..][1..] == a[i + 1..] && b[i..][1..] == b[i + 1..];
  }

  lemma ManhattanStep(a: seq<int>, b: seq<int>, i: nat)
    requires |a| == |b| && i < |a|
    ensures Manhattan(a[i..], b[i..]) == AbsDiff(a[i], b[i]) + Manhattan(a[i + 1..], b[i + 1..])
  {
    assert a[i..][1..] == a[i + 1..] && b[i..][1..] == b[i + 1..];
  }

  /** `dot(lhs, rhs)`: the inner product. */
  method Dot(lhs: seq<int>, rhs: seq<int>) returns (r: int)
    requires |lhs| == |rhs| && 0 < |lhs|
    ensures r == InnerProduct(lhs, rhs)
  {
    var i := |lhs|;
    var accumulator := seq(i, _ => 0);
    SumZeros(i);
    while 0 < i
      invariant 0 <= i <= |lhs| && |lhs| <= |accumulator|
      invariant Sum(accumulator) == InnerProduct(lhs[i..], rhs[i..])
    {
      i := i - 1;
      InnerProductStep(lhs, rhs, i);
      if 0 == lhs[i] || 0 == rhs[i] {
        continue;
      }
      SumPush(accumulator, lhs[i] * rhs[i]);
      accumulator := accumulator + [lhs[i] * rhs[i]];
    }
    r := Fold(accumulator);
  }

  /** `Lesbegue<1>(lhs, rhs)`: the L1 distance. */
  method LesbegueOne(lhs: seq<int>, rhs: seq<int>) returns (r: int)
    requires |lhs| == |rhs| && 0 < |lhs|
    ensures r == Manhattan(lhs, rhs)
  {
    var i := |lhs|;
    var accumulator := seq(i, _ => 0);
    SumZeros(i);
    while 0 < i
      invariant 0 <= i <= |lhs| && |lhs| <= |accumulator|
      invariant Sum(accumulator) == Manhattan(lhs[i..], rhs[i..])
    {
      i := i - 1;
      ManhattanStep(lhs, rhs, i);
      var tmp := rhs[i] - lhs[i];
      if 0 == tmp {
        continue;
      }
      if 0 > tmp {
        tmp := -tmp;
      }
      SumPush(accumulator, tmp);
      accumulator := accumulator + [tmp];
    }
    r := Fold(accumulator);
  }

  /** The inner product does not depend on the order of its arguments. */
  lemma {:induction false} InnerProductSymmetric(a: seq<int>, b: seq<int>)
    requires |a| == |b|
    ensures InnerProduct(a, b) == InnerProduct(b, a)
  {
    if a != [] {
      InnerProductSymmetric(a[1..], b[1..]);
    }
  }

  /** The L1 distance is symmetric and is zero exactly between equal points. */
  lemma {:induction false} ManhattanMetric(a: seq<int>, b: seq<int>)
    requires |a| == |b|
    ensures Manhattan(a, b) == Manhattan(b, a)
    ensures Manhattan(a, b) == 0 <==> a == b
  {
    if a != [] {
      ManhattanMetric(a[1..], b[1..]);
      if a[1..] == b[1..] && a[0] == b[0] {
        assert a == [a[0]] + a[1..] && b == [b[0]] + b[1..];
      }
    }
  }

  /**
   * `Lesbegue<0>(lhs, rhs)` as written: the test `1 == N % 2` that guards
   * the absolute value is false for `N = 0`, so the result is the largest
   * signed difference `rhs[i] - lhs[i]`, or 0 when none is positive.
   */
  method LesbegueZeroAsWritten(lhs: seq<int>, rhs: seq<int>) returns (ub: int)
    requires |lhs| == |rhs| && 0 < |lhs|
    ensures 0 <= ub && forall k | 0 <= k < |lhs| :: rhs[k] - lhs[k] <= ub
    ensures ub == 0 || exists k | 0 <= k < |lhs| :: ub == rhs[k] - lhs[k]
  {
    var order := 0;  // the template parameter `N`
    var i := |lhs|;
    ub := 0;
    while 0 < i
      invariant 0 <= i <= |lhs| && 0 <= ub
      invariant forall k | i <= k < |lhs| :: rhs[k] - lhs[k] <= ub
      invariant ub == 0 || exists k | i <= k < |lhs| :: ub == rhs[k] - lhs[k]
    {
      i := i - 1;
      var tmp := rhs[i] - lhs[i];
      if 0 == tmp {
        continue;
      }
      if 1 == order % 2 && 0 > tmp {
        tmp := -tmp;
      }
      if ub < tmp {
        ub := tmp;
      }
    }
  }

  /**
   * As written, two different points can be at distance 0: every
   * coordinate of `rhs` below that of `lhs` gives 0 for any such pair.
   */
  lemma LesbegueZeroAsWrittenIgnoresNegative(lhs: seq<int>, rhs: seq<int>, ub: int)
    requires |lhs| == |rhs| && 0 < |lhs|
    requires forall k | 0 <= k < |lhs| :: rhs[k] < lhs[k]
    requires 0 <= ub && forall k | 0 <= k < |lhs| :: rhs[k] - lhs[k] <= ub
    requires ub == 0 || exists k | 0 <= k < |lhs| :: ub == rhs[k] - lhs[k]
    ensures ub == 0 && lhs != rhs
  {
    assert rhs[0] != lhs[0];
  }

  /** `Lesbegue<0>` corrected: the L-infinity distance, the largest `|rhs[i] - lhs[i]|`. */
  method LesbegueZero(lhs: seq<int>, rhs: seq<int>) returns (ub: int)
    requires |lhs| == |rhs| && 0 < |lhs|
    ensures forall k | 0 <= k < |lhs| :: AbsDiff(lhs[k], rhs[k]) <= ub
    ensures exists k | 0 <= k < |lhs| :: ub == AbsDiff(lhs[k], rhs[k])
    ensures ub == 0 <==> lhs == rhs
  {
    var i := |lhs|;
    ub := 0;
    while 0 < i
      invariant 0 <= i <= |lhs| && 0 <= ub
      invariant forall k | i <= k < |lhs| :: AbsDiff(lhs[k], rhs[k]) <= ub
      invariant ub == 0 || exists k | i <= k < |lhs| :: ub == AbsDiff(lhs[k], rhs[k])
    {
      i := i - 1;
      var tmp := rhs[i] - lhs[i];
      if 0 == tmp {
        continue;
      }
      if 0 > tmp {
        tmp := -tmp;
      }
      if ub < tmp {
        ub := tmp;
      }
    }
    if ub == 0 {
      assert AbsDiff(lhs[0], rhs[0]) == 0;
    }
    if lhs == rhs {
      assert forall k | 0 <= k < |lhs| :: AbsDiff(lhs[k], rhs[k]) == 0;
    } else {
      var k :| 0 <= k < |lhs| && lhs[k] != rhs[k];
      assert AbsDiff(lhs[k], rhs[k]) > 0;
    }
  }
}
