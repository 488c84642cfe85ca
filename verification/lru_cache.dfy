/**
 * `zaimoni::LRUcache<K, V>` (Zaimoni.STL/Pure.CPP/LRUcache.hpp): a list of
 * key/value pairs, most recently used first, and an index from keys to
 * list positions.  The list is the field `values`; the index is the field
 * `index`, the set of its keys, since each key's iterator is the position
 * of that key in `values`.
 */
module LruCache {
  import opened Wrappers

  /** The keys that occur in the list. */
  function KeySet<K, V>(vs: seq<(K, V)>): set<K>
  {
    set i | 0 <= i < |vs| :: vs[i].0
  }

  /** No key occurs twice in the list. */
  predicate Unique<K(==), V>(vs: seq<(K, V)>) {
    forall i, j | 0 <= i < j < |vs| :: vs[i].0 != vs[j].0
  }

  /** The position of `k` in a list where it occurs. */
  function IndexOf<K(==), V>(vs: seq<(K, V)>, k: K): (i: nat)
    requires k in KeySet(vs)
    ensures i < |vs| && vs[i].0 == k
    ensures forall j | 0 <= j < i :: vs[j].0 != k
  {
    if vs[0].0 == k then 0
    else
      assert k in KeySet(vs[1..]) by {
        var j :| 0 <= j < |vs| && vs[j].0 == k;
        assert vs[1..][j - 1].0 == k;
      }
      1 + IndexOf(vs[1..], k)
  }

  /** The list with entry `i` erased. */
  function Without<T>(vs: seq<T>, i: nat): (r: seq<T>)
    requires i < |vs|
    ensures |r| == |vs| - 1
    ensures forall j | 0 <= j < i :: r[j] == vs[j]
    ensures forall j | i <= j < |r| :: r[j] == vs[j + 1]
  {
    vs[..i] + vs[i + 1..]
  }

  /** The list with entry `i` spliced to the front. */
  function ToFront<T>(vs: seq<T>, i: nat): (r: seq<T>)
    requires i < |vs|
    ensures |r| == |vs| && r[0] == vs[i] && r[1..] == Without(vs, i)
  {
    [vs[i]] + Without(vs, i)
  }

  /** In a list without repeated keys there are as many keys as entries. */
  lemma {:induction false} UniqueSize<K, V>(vs: seq<(K, V)>)
    requires Unique(vs)
    ensures |KeySet(vs)| == |vs|
  {
    if vs != [] {
      var init := vs[..|vs| - 1];
      assert Unique(init);
      UniqueSize(init);
      assert KeySet(vs) == KeySet(init) + {vs[|vs| - 1].0} by {
        forall k | k in KeySet(vs) ensures k in KeySet(init) + {vs[|vs| - 1].0} {
          var j :| 0 <= j < |vs| && vs[j].0 == k;
          if j < |vs| - 1 {
            assert init[j].0 == k;
          }
        }
      }
      assert vs[|vs| - 1].0 !in KeySet(init);
    }
  }

  /** Erasing an entry removes exactly its key and keeps the keys unique. */
  lemma WithoutKeys<K, V>(vs: seq<(K, V)>, i: nat)
    requires i < |vs| && Unique(vs)
    ensures Unique(Without(vs, i))
    ensures KeySet(Without(vs, i)) == KeySet(vs) - {vs[i].0}
  {
    var w := Without(vs, i);
    forall k | k in KeySet(vs) - {vs[i].0} ensures k in KeySet(w) {
      var j :| 0 <= j < |vs| && vs[j].0 == k;
      if j < i {
        assert w[j].0 == k;
      } else {
        assert w[j - 1].0 == k;
      }
    }
    forall k | k in KeySet(w) ensures k in KeySet(vs) - {vs[i].0} {
      var j :| 0 <= j < |w| && w[j].0 == k;
      if j < i {
        assert vs[j].0 == k;
      } else {
        assert vs[j + 1].0 == k;
      }
    }
  }

  /** Splicing an entry to the front keeps the keys and their uniqueness. */
  lemma ToFrontKeys<K, V>(vs: seq<(K, V)>, i: nat)
    requires i < |vs| && Unique(vs)
    ensures Unique(ToFront(vs, i))
    ensures KeySet(ToFront(vs, i)) == KeySet(vs)
  {
    WithoutKeys(vs, i);
    var r := ToFront(vs, i);
    forall a, b | 0 <= a < b < |r| ensures r[a].0 != r[b].0 {
      if a == 0 {
        assert r[b].0 in KeySet(Without(vs, i)) by {
          assert Without(vs, i)[b - 1] == r[b];
        }
      } else {
        assert r[a] == Without(vs, i)[a - 1] && r[b] == Without(vs, i)[b - 1];
      }
    }
    forall k | k in KeySet(vs) ensures k in KeySet(r) {
      if k == vs[i].0 {
        assert r[0].0 == k;
      } else {
        assert k in KeySet(Without(vs, i));
        var j :| 0 <= j < |vs| - 1 && Without(vs, i)[j].0 == k;
        assert r[j + 1].0 == k;
      }
    }
    forall k | k in KeySet(r) ensures k in KeySet(vs) {
      var j :| 0 <= j < |r| && r[j].0 == k;
      if j > 0 {
        assert Without(vs, i)[j - 1].0 == k;
      }
    }
  }

  /** A new key in front of a list without it keeps the keys unique. */
  lemma PushFrontKeys<K, V>(vs: seq<(K, V)>, k: K, v: V)
    requires Unique(vs) && k !in KeySet(vs)
    ensures Unique([(k, v)] + vs)
    ensures KeySet([(k, v)] + vs) == KeySet(vs) + {k}
  {
    var r := [(k, v)] + vs;
    forall a, b | 0 <= a < b < |r| ensures r[a].0 != r[b].0 {
      if a == 0 {
        assert r[b] == vs[b - 1];
      } else {
        assert r[a] == vs[a - 1] && r[b] == vs[b - 1];
      }
    }
    forall x | x in KeySet(vs) ensures x in KeySet(r) {
      var j :| 0 <= j < |vs| && vs[j].0 == x;
      assert r[j + 1].0 == x;
    }
    assert r[0].0 == k;
  }

  class Cache<K(==), V> {
    /** `_values`: the entries, most recently used first. */
    var values: seq<(K, V)>
    /** The keys of `_index`. */
    var index: set<K>

    /** The index holds exactly the keys of the list, and no key is listed twice. */
    ghost predicate Valid()
      reads this
    {
      index == KeySet(values) && Unique(values)
    }

    constructor ()
      ensures Valid() && values == [] && index == {}
    {
      values := [];
      index := {};
    }

    /** `size()`: the number of keys in the index, which is also the number of entries. */
    function Size(): (n: nat)
      reads this
      requires Valid()
      ensures n == |values|
    {
      UniqueSize(values);
      |index|
    }

    /**
     * `get(key)`: the value of a present key, which becomes the most
     * recently used; null for a missing key.
     */
    method Get(key: K) returns (r: Option<V>)
      requires Valid()
      modifies this
      ensures Valid() && index == old(index)
      ensures key !in old(index) ==> r.None? && values == old(values)
      ensures key in old(index) ==>
        var i := IndexOf(old(values), key);
        r == Some(old(values)[i].1) && values == ToFront(old(values), i)
    {
      if key !in index {
        return None;
      }
      var i := IndexOf(values, key);
      ToFrontKeys(values, i);
      r := Some(values[i].1);
      values := ToFront(values, i);
    }

    /**
     * `set(key, val)`: a present key gets the new value and moves to the
     * front; a new key is put in front.
     */
    method Set(key: K, val: V)
      requires Valid()
      modifies this
      ensures Valid() && index == old(index) + {key}
      ensures key in old(index) ==>
        var i := IndexOf(old(values), key);
        values == [(key, val)] + Without(old(values), i)
      ensures key !in old(index) ==> values == [(key, val)] + old(values)
    {
      if key in index {
        var i := IndexOf(values, key);
        ToFrontKeys(values, i);
        values := values[i := (key, val)];
        assert Without(values, i) == Without(old(values), i);
        values := ToFront(values, i);
        return;
      }
      PushFrontKeys(values, key, val);
      values := [(key, val)] + values;
      index := index + {key};
    }

    /** `unset(key)`: a present key leaves both the index and the list. */
    method Unset(key: K)
      requires Valid()
      modifies this
      ensures Valid() && index == old(index) - {key}
      ensures key in old(index) ==> values == Without(old(values), IndexOf(old(values), key))
      ensures key !in old(index) ==> values == old(values)
    {
      if key in index {
        var i := IndexOf(values, key);
        WithoutKeys(values, i);
        index := index - {key};
        Unlink(i);
      }
    }

    /**
     * `expire(n)`: drops the least recently used entries, `n` of them or
     * all when there are fewer.
     */
    method Expire(n: nat)
      requires Valid()
      modifies this
      ensures Valid()
      ensures values == old(values)[..if n < |old(values)| then |old(values)| - n else 0]
    {
      var k: nat := n;
      ghost var vs := values;
      while 0 < k && values != []
        invariant Valid()
        invariant k <= n && |values| <= |vs|
        invariant n - k == |vs| - |values| && values == vs[..|values|]
        decreases k
      {
        k := k - 1;
        var last := |values| - 1;
        WithoutKeys(values, last);
        index := index - {values[last].0};
        Unlink(last);
      }
    }

    /**
     * `unlink(mortal)`: erases entry `i`, then empties the list when the
     * index is empty and the index when the list is empty, so that the two
     * never disagree about being empty.
     */
    method Unlink(i: nat)
      requires i < |values|
      modifies this
      ensures values == (if old(index) == {} then [] else Without(old(values), i))
      ensures index == (if Without(old(values), i) == [] then {} else old(index))
      ensures old(index) == KeySet(Without(old(values), i)) && Unique(Without(old(values), i)) ==>
        Valid() && values == Without(old(values), i) && index == old(index)
    {
      values := Without(values, i);
      if values != [] {
        assert values[0].0 in KeySet(values);
      }
      if index == {} && values != [] {
        values := [];
      }
      if values == [] && index != {} {
        index := {};
      }
    }
  }
}
