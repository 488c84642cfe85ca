/**
 * flat_alg2.hpp: the three-way comparison `cmp` and the variadic `min`
 * and `max`.  `min(x1, x2, xn...)` keeps `x1 < x2 ? x1 : x2` and recurses
 * on the rest; `max` keeps `x1 < x2 ? x2 : x1`.  The arguments are modelled
 * as values of any type ordered by an integer key, so that which of two
 * equal-keyed arguments is returned can be stated.
 */
module FlatAlg {
  /** `cmp(lhs, rhs)`: Perl's spaceship operator on integers. */
  function Cmp(lhs: int, rhs: int): (r: int)
    ensures r == 0 <==> lhs == rhs
    ensures r == -1 <==> lhs < rhs
    ensures r == 1 <==> rhs < lhs
  {
    if lhs == rhs then 0
    else if lhs < rhs then -1
    else 1
  }

  /** Exchanging the arguments negates the answer. */
  lemma CmpAntisymmetric(lhs: int, rhs: int)
    ensures Cmp(rhs, lhs) == -Cmp(lhs, rhs)
  {
  }

  /** Position `i` holds a least key, and every later position a strictly larger one. */
  predicate LastLeastAt<T>(xs: seq<T>, key: T -> int, i: nat)
    requires i < |xs|
  {
    (forall j | 0 <= j < |xs| :: key(xs[i]) <= key(xs[j])) &&
    (forall j | i < j < |xs| :: key(xs[i]) < key(xs[j]))
  }

  /** Position `i` holds a greatest key, and every earlier position a strictly smaller one. */
  predicate FirstGreatestAt<T>(xs: seq<T>, key: T -> int, i: nat)
    requires i < |xs|
  {
    (forall j | 0 <= j < |xs| :: key(xs[j]) <= key(xs[i])) &&
    (forall j | 0 <= j < i :: key(xs[j]) < key(xs[i]))
  }

  /** `min(x1, x2, rest...)`: the result is one of the arguments. */
  function Min<T>(x1: T, x2: T, rest: seq<T>, key: T -> int): (r: T)
    ensures r == x1 || r == x2 || r in rest
    ensures key(r) <= key(x1) && key(r) <= key(x2)
    decreases |rest|
  {
    var p := if key(x1) < key(x2) then x1 else x2;
    if 0 < |rest| then Min(p, rest[0], rest[1..], key) else p
  }

  /** `max(x1, x2, rest...)`: the result is one of the arguments. */
  function Max<T>(x1: T, x2: T, rest: seq<T>, key: T -> int): (r: T)
    ensures r == x1 || r == x2 || r in rest
    ensures key(x1) <= key(r) && key(x2) <= key(r)
    decreases |rest|
  {
    var p := if key(x1) < key(x2) then x2 else x1;
    if 0 < |rest| then Max(p, rest[0], rest[1..], key) else p
  }

  /** `min` returns a least argument, and of several least arguments the last. */
  lemma {:induction false} MinIsLastLeast<T>(x1: T, x2: T, rest: seq<T>, key: T -> int)
    ensures var xs := [x1, x2] + rest;
      exists i | 0 <= i < |xs| :: xs[i] == Min(x1, x2, rest, key) && LastLeastAt(xs, key, i)
    decreases |rest|
  {
    var xs := [x1, x2] + rest;
    var p := if key(x1) < key(x2) then x1 else x2;
    var ip := if key(x1) < key(x2) then 0 else 1;
    assert xs[ip] == p;
    if |rest| == 0 {
      assert LastLeastAt(xs, key, ip);
    } else {
      var ys := [p, rest[0]] + rest[1..];
      MinIsLastLeast(p, rest[0], rest[1..], key);
      var i' :| 0 <= i' < |ys| && ys[i'] == Min(p, rest[0], rest[1..], key) && LastLeastAt(ys, key, i');
      assert forall j | 1 <= j < |ys| :: ys[j] == xs[j + 1];
      var i := if i' == 0 then ip else i' + 1;
      assert xs[i] == ys[i'];
      forall j | 0 <= j < |xs| ensures key(xs[i]) <= key(xs[j]) {
        if 2 <= j {
          assert xs[j] == ys[j - 1];
        }
      }
      forall j | i < j < |xs| ensures key(xs[i]) < key(xs[j]) {
        if 2 <= j {
          assert xs[j] == ys[j - 1];
        }
      }
      assert LastLeastAt(xs, key, i);
    }
  }

  /** `max` returns a greatest argument, and of several greatest arguments the first. */
  lemma {:induction false} MaxIsFirstGreatest<T>(x1: T, x2: T, rest: seq<T>, key: T -> int)
    ensures var xs := [x1, x2] + rest;
      exists i | 0 <= i < |xs| :: xs[i] == Max(x1, x2, rest, key) && FirstGreatestAt(xs, key, i)
    decreases |rest|
  {
    var xs := [x1, x2] + rest;
    var p := if key(x1) < key(x2) then x2 else x1;
    var ip := if key(x1) < key(x2) then 1 else 0;
    assert xs[ip] == p;
    if |rest| == 0 {
      assert FirstGreatestAt(xs, key, ip);
    } else {
      var ys := [p, rest[0]] + rest[1..];
      MaxIsFirstGreatest(p, rest[0], rest[1..], key);
      var i' :| 0 <= i' < |ys| && ys[i'] == Max(p, rest[0], rest[1..], key) && FirstGreatestAt(ys, key, i');
      assert forall j | 1 <= j < |ys| :: ys[j] == xs[j + 1];
      var i := if i' == 0 then ip else i' + 1;
      assert xs[i] == ys[i'];
      forall j | 0 <= j < |xs| ensures key(xs[j]) <= key(xs[i]) {
        if 2 <= j {
          assert xs[j] == ys[j - 1];
        }
      }
      forall j | 0 <= j < i ensures key(xs[j]) < key(xs[i]) {
        if 2 <= j {
          assert xs[j] == ys[j - 1];
        } else if 0 < i' {
          assert key(ys[0]) < key(ys[i']);
        }
      }
      assert FirstGreatestAt(xs, key, i);
    }
  }
}
