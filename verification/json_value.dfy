/**
 * The value type of the loose JSON reader/writer in
 * Zaimoni.STL/Pure.CPP/json.hpp and json.cpp: a `JSON` has a mode
 * (none, object, array, string or literal) and, for the non-`none` modes, a
 * pointer that may be null.
 *
 * An object's `std::map<const std::string, JSON>` is modelled by its entries
 * in iteration order: a sequence of key/value pairs sorted strictly by key
 * (`Sorted`), with `Find`, `Put` and `Erase` for `count`/`operator[]`,
 * insertion and `erase`.  The pointer of a container is modelled by a flag;
 * every operation keeps the invariant that an allocated container is not
 * empty (`WellFormed`).
 */
module JsonValue {
  import opened Wrappers

  type Fields = seq<(string, Json)>

  datatype Json =
    | JNone
    | JObject(hasMap: bool, fields: Fields)
    | JArray(hasVector: bool, items: seq<Json>)
    | JString(text: Option<string>)
    | JLiteral(text: Option<string>)

  /** The `mode` enumeration (json.hpp:36-42). */
  const NoneMode: nat := 0
  const ObjectMode: nat := 1
  const ArrayMode: nat := 2
  const StringMode: nat := 3
  const LiteralMode: nat := 4

  function Mode(j: Json): nat {
    match j
    case JNone => NoneMode
    case JObject(_, _) => ObjectMode
    case JArray(_, _) => ArrayMode
    case JString(_) => StringMode
    case JLiteral(_) => LiteralMode
  }

  // ------------------------------------------------------------------
  // std::string ordering and the sorted entries of a std::map
  // ------------------------------------------------------------------

  /** `std::string`'s `<`: lexicographic, a proper prefix first. */
  predicate StrLess(a: string, b: string)
    decreases |a|
  {
    |b| > 0 && (|a| == 0 || a[0] < b[0] || (a[0] == b[0] && StrLess(a[1..], b[1..])))
  }

  lemma {:induction false} StrLessIrreflexive(a: string)
    ensures !StrLess(a, a)
    decreases |a|
  {
    if |a| > 0 {
      StrLessIrreflexive(a[1..]);
    }
  }

  lemma {:induction false} StrLessTransitive(a: string, b: string, c: string)
    requires StrLess(a, b) && StrLess(b, c)
    ensures StrLess(a, c)
    decreases |a|
  {
    if |a| > 0 && a[0] == b[0] && b[0] == c[0] {
      StrLessTransitive(a[1..], b[1..], c[1..]);
    }
  }

  lemma {:induction false} StrLessTotal(a: string, b: string)
    ensures a == b || StrLess(a, b) || StrLess(b, a)
    decreases |a|
  {
    if |a| > 0 && |b| > 0 && a[0] == b[0] {
      StrLessTotal(a[1..], b[1..]);
      if a[1..] == b[1..] {
        assert a == [a[0]] + a[1..] && b == [b[0]] + b[1..];
      }
    }
  }

  function KeysOf(fs: Fields): (ks: seq<string>)
    ensures |ks| == |fs| && forall i | 0 <= i < |fs| :: ks[i] == fs[i].0
  {
    seq(|fs|, i requires 0 <= i < |fs| => fs[i].0)
  }

  /** The entries are in strictly increasing key order, as a `std::map` iterates them. */
  predicate Sorted(fs: Fields) {
    forall i, j | 0 <= i < j < |fs| :: StrLess(fs[i].0, fs[j].0)
  }

  /** Every key of `fs` is above `k`. */
  predicate Above(k: string, fs: Fields) {
    forall i | 0 <= i < |fs| :: StrLess(k, fs[i].0)
  }

  /** `map::count` and `map::operator[]` on a present key. */
  function Find(fs: Fields, k: string): (r: Option<Json>)
    ensures r.Some? <==> k in KeysOf(fs)
  {
    if fs == [] then None
    else if fs[0].0 == k then Some(fs[0].1)
    else
      assert KeysOf(fs) == [fs[0].0] + KeysOf(fs[1..]);
      Find(fs[1..], k)
  }

  /** `map[k] = v`: replace the entry for `k`, or insert one at its place in key order. */
  function Put(fs: Fields, k: string, v: Json): (r: Fields)
    ensures |r| > 0
  {
    if fs == [] then [(k, v)]
    else if fs[0].0 == k then [(k, v)] + fs[1..]
    else if StrLess(k, fs[0].0) then [(k, v)] + fs
    else [fs[0]] + Put(fs[1..], k, v)
  }

  /** `map::erase(k)`. */
  function Erase(fs: Fields, k: string): (r: Fields)
    ensures |r| <= |fs|
  {
    if fs == [] then []
    else if fs[0].0 == k then Erase(fs[1..], k)
    else [fs[0]] + Erase(fs[1..], k)
  }

  /** After `map[k] = v`, `k` finds `v` and every other key finds what it found before. */
  lemma {:induction false} FindPut(fs: Fields, k: string, v: Json, k': string)
    ensures Find(Put(fs, k, v), k') == if k' == k then Some(v) else Find(fs, k')
  {
    if fs != [] && fs[0].0 != k && !StrLess(k, fs[0].0) {
      FindPut(fs[1..], k, v, k');
    }
  }

  /** After `map::erase(k)`, `k` is absent and every other key finds what it found before. */
  lemma {:induction false} FindErase(fs: Fields, k: string, k': string)
    ensures Find(Erase(fs, k), k') == if k' == k then None else Find(fs, k')
  {
    if fs != [] {
      FindErase(fs[1..], k, k');
    }
  }

  lemma {:induction false} PutAbove(fs: Fields, k: string, v: Json, b: string)
    requires Above(b, fs) && StrLess(b, k)
    ensures Above(b, Put(fs, k, v))
  {
    if fs != [] && fs[0].0 != k && !StrLess(k, fs[0].0) {
      PutAbove(fs[1..], k, v, b);
    }
  }

  /** Inserting keeps the entries in key order. */
  lemma {:induction false} PutSorted(fs: Fields, k: string, v: Json)
    requires Sorted(fs)
    ensures Sorted(Put(fs, k, v))
  {
    if fs == [] {
    } else if fs[0].0 == k {
    } else if StrLess(k, fs[0].0) {
      forall i | 0 <= i < |fs| ensures StrLess(k, fs[i].0) {
        if i > 0 {
          StrLessTransitive(k, fs[0].0, fs[i].0);
        }
      }
    } else {
      StrLessTotal(k, fs[0].0);
      PutSorted(fs[1..], k, v);
      PutAbove(fs[1..], k, v, fs[0].0);
    }
  }

  lemma {:induction false} EraseAbove(fs: Fields, k: string, b: string)
    requires Above(b, fs)
    ensures Above(b, Erase(fs, k))
  {
    if fs != [] {
      EraseAbove(fs[1..], k, b);
    }
  }

  /** Erasing keeps the entries in key order. */
  lemma {:induction false} EraseSorted(fs: Fields, k: string)
    requires Sorted(fs)
    ensures Sorted(Erase(fs, k))
  {
    if fs != [] {
      EraseSorted(fs[1..], k);
      EraseAbove(fs[1..], k, fs[0].0);
    }
  }

  /** In sorted entries each key occurs once, so its entry is what it finds. */
  lemma {:induction false} FindAt(fs: Fields, i: nat)
    requires Sorted(fs) && i < |fs|
    ensures Find(fs, fs[i].0) == Some(fs[i].1)
  {
    if i > 0 {
      StrLessIrreflexive(fs[0].0);
      FindAt(fs[1..], i - 1);
    }
  }

  /** Sorted entries are determined by what their keys find. */
  lemma {:induction false} SortedExtensional(fs: Fields, gs: Fields)
    requires Sorted(fs) && Sorted(gs)
    requires forall k :: Find(fs, k) == Find(gs, k)
    ensures fs == gs
    decreases |fs|
  {
    if fs != [] {
      FindAt(fs, 0);
    }
    if gs != [] {
      FindAt(gs, 0);
    }
    if fs != [] && gs != [] {
      var a, b := fs[0].0, gs[0].0;
      assert a in KeysOf(gs);
      assert b in KeysOf(fs);
      var i :| 0 <= i < |gs| && gs[i].0 == a;
      var j :| 0 <= j < |fs| && fs[j].0 == b;
      if a != b {
        assert i > 0 && j > 0;
        StrLessTransitive(a, b, a);
        StrLessIrreflexive(a);
      }
      forall k ensures Find(fs[1..], k) == Find(gs[1..], k) {
        if k != a {
          assert Find(fs, k) == Find(fs[1..], k);
        } else {
          NotBelowHead(fs);
          NotBelowHead(gs);
        }
      }
      SortedExtensional(fs[1..], gs[1..]);
    }
  }

  /** The first key of sorted entries does not occur after them. */
  lemma NotBelowHead(fs: Fields)
    requires Sorted(fs) && fs != []
    ensures Find(fs[1..], fs[0].0) == None
  {
    if fs[0].0 in KeysOf(fs[1..]) {
      var i :| 0 <= i < |fs| - 1 && fs[1..][i].0 == fs[0].0;
      assert StrLess(fs[0].0, fs[i + 1].0);
      StrLessIrreflexive(fs[0].0);
    }
  }

  // ------------------------------------------------------------------
  // Well-formed values
  // ------------------------------------------------------------------

  /**
   * Objects keep their entries in key order, and a container's pointer is
   * non-null exactly when the container has something in it.
   */
  predicate WellFormed(j: Json) {
    match j
    case JObject(h, fs) => h == (fs != []) && Sorted(fs) && forall i | 0 <= i < |fs| :: WellFormed(fs[i].1)
    case JArray(h, xs) => h == (xs != []) && forall i | 0 <= i < |xs| :: WellFormed(xs[i])
    case _ => true
  }

  /** An object holding `fs`, with a null map when there is none (json.cpp:257-260). */
  function Collapse(fs: Fields): (j: Json)
    ensures j.JObject? && j.fields == fs
    ensures Empty(j) <==> fs == []
    ensures forall k :: Get(j, k) == Find(fs, k)
    ensures Keys(j) == KeysOf(fs)
  {
    JObject(fs != [], fs)
  }

  // ------------------------------------------------------------------
  // Queries
  // ------------------------------------------------------------------

  /** `is_scalar` (json.hpp:79). */
  function IsScalar(j: Json): (b: bool)
    ensures b <==> j.JString? || j.JLiteral?
  {
    StringMode <= Mode(j)
  }

  /** `scalar` (json.hpp:80): the text of a string or literal, the empty `discard_s` otherwise. */
  function Scalar(j: Json): (s: string)
    requires IsScalar(j) ==> j.text.Some?
    ensures IsScalar(j) ==> s == j.text.value
    ensures !IsScalar(j) ==> s == ""
  {
    if StringMode <= Mode(j) then j.text.value else ""
  }

  /** `is_null` (json.hpp:76): the literal `null`. */
  predicate IsNull(j: Json) {
    j.JLiteral? && j.text == Some("null")
  }

  /** `empty` (json.cpp:54-64): no pointer; a `none` value is empty. */
  function Empty(j: Json): bool
  {
    match j
    case JObject(h, _) => !h
    case JArray(h, _) => !h
    case JString(t) => t.None?
    case JLiteral(t) => t.None?
    case JNone => true
  }

  /** `size` (json.cpp:66-76). */
  function Size(j: Json): (n: nat)
    ensures Empty(j) && WellFormed(j) ==> n == 0
    ensures IsScalar(j) ==> n == (if j.text.Some? then 1 else 0)
    ensures j.JObject? ==> n == |j.fields|
    ensures j.JArray? ==> n == |j.items|
  {
    match j
    case JObject(h, fs) => |fs|
    case JArray(h, xs) => |xs|
    case JString(t) => if t.Some? then 1 else 0
    case JLiteral(t) => if t.Some? then 1 else 0
    case JNone => 0
  }

  /** A well-formed value is empty exactly when its size is 0. */
  lemma EmptyIffSizeZero(j: Json)
    requires WellFormed(j)
    ensures Empty(j) <==> Size(j) == 0
  {
  }

  /**
   * `syntax_ok` (json.cpp:12-32): containers are fine when every member is;
   * a string needs its pointer, a literal a non-empty text; `none` is not.
   */
  predicate SyntaxOk(j: Json) {
    match j
    case JObject(_, fs) => forall i | 0 <= i < |fs| :: SyntaxOk(fs[i].1)
    case JArray(_, xs) => forall i | 0 <= i < |xs| :: SyntaxOk(xs[i])
    case JString(t) => t.Some?
    case JLiteral(t) => t.Some? && t.value != ""
    case JNone => false
  }

  /** `get` (json.hpp:87-94): the value of `key` in an object that has it. */
  function Get(j: Json, key: string): (r: Option<Json>)
    ensures r.Some? <==> j.JObject? && j.hasMap && key in KeysOf(j.fields)
  {
    if j.JObject? && j.hasMap then Find(j.fields, key) else None
  }

  /** `keys` (json.cpp:242-249): an object's keys in map order. */
  function Keys(j: Json): (ks: seq<string>)
    ensures WellFormed(j) ==> forall k :: k in ks <==> Get(j, k).Some?
  {
    if j.JObject? && j.hasMap then KeysOf(j.fields) else []
  }

  /** `is_legal_JS_literal` (json.cpp:273-282); `None` is a null pointer. */
  function IsLegalJsLiteral(src: Option<string>): (b: bool)
    ensures b ==> src.Some? && src.value != []
    ensures src.Some? && src.value in {"true", "false", "null"} ==> b
    ensures src.Some? && src.value != [] && src.value[0] in "+-0123456789" ==> b
    ensures b && src.value !in {"true", "false", "null"} ==> src.value[0] in "+-0123456789"
  {
    if src.None? || src.value == [] then false
    else if src.value == "true" || src.value == "false" || src.value == "null" then true
    else src.value[0] in "+-0123456789"
  }

  /** `fromJSON(const JSON&, std::string&)` (json.cpp:813-818). */
  function FromJsonString(j: Json): (r: Option<string>)
    requires IsScalar(j) ==> j.text.Some?
    ensures r.Some? <==> IsScalar(j)
    ensures r.Some? ==> r.value == j.text.value
  {
    if !IsScalar(j) then None else Some(Scalar(j))
  }

  /** `fromJSON(const JSON&, char&)` (json.cpp:834-839): the first character, or the terminating NUL. */
  function FromJsonChar(j: Json): (r: Option<char>)
    requires IsScalar(j) ==> j.text.Some?
    ensures r.Some? <==> IsScalar(j)
    ensures r.Some? && j.text.value != [] ==> r.value == j.text.value[0]
    ensures r.Some? && j.text.value == [] ==> r.value == '\0'
  {
    if !IsScalar(j) then None
    else if Scalar(j) == [] then Some('\0')
    else Some(Scalar(j)[0])
  }

  /** `fromJSON(const JSON&, bool&)` (json.cpp:841-855): only the texts `true` and `false`. */
  function FromJsonBool(j: Json): (r: Option<bool>)
    requires IsScalar(j) ==> j.text.Some?
    ensures r.Some? <==> IsScalar(j) && (j.text.value == "true" || j.text.value == "false")
    ensures r.Some? ==> (r.value <==> j.text.value == "true")
  {
    if !IsScalar(j) then None
    else if Scalar(j) == "false" then Some(false)
    else if Scalar(j) == "true" then Some(true)
    else None
  }

  // ------------------------------------------------------------------
  // Filtering (grep)
  // ------------------------------------------------------------------

  /** The members `ok` accepts, in order. */
  function Filter(xs: seq<Json>, ok: Json -> bool): (r: seq<Json>)
    ensures |r| <= |xs|
  {
    if xs == [] then [] else (if ok(xs[0]) then [xs[0]] else []) + Filter(xs[1..], ok)
  }

  /** The keys whose values `ok` rejects, in map order. */
  function Doomed(fs: Fields, ok: Json -> bool): seq<string>
  {
    if fs == [] then [] else (if ok(fs[0].1) then [] else [fs[0].0]) + Doomed(fs[1..], ok)
  }

  lemma {:induction false} FilterMembers(xs: seq<Json>, ok: Json -> bool)
    ensures forall x :: x in Filter(xs, ok) <==> x in xs && ok(x)
  {
    if xs != [] {
      FilterMembers(xs[1..], ok);
      assert xs == [xs[0]] + xs[1..];
    }
  }

  lemma {:induction false} FilterWellFormed(xs: seq<Json>, ok: Json -> bool)
    requires forall i | 0 <= i < |xs| :: WellFormed(xs[i])
    ensures forall i | 0 <= i < |Filter(xs, ok)| :: WellFormed(Filter(xs, ok)[i])
  {
    FilterMembers(xs, ok);
    forall i | 0 <= i < |Filter(xs, ok)| ensures WellFormed(Filter(xs, ok)[i]) {
      assert Filter(xs, ok)[i] in xs;
    }
  }

  /** In sorted entries, a key is doomed exactly when it is present with a value `ok` rejects. */
  lemma {:induction false} DoomedKeys(fs: Fields, ok: Json -> bool, k: string)
    requires Sorted(fs)
    ensures k in Doomed(fs, ok) <==> Find(fs, k).Some? && !ok(Find(fs, k).value)
  {
    if fs != [] {
      DoomedKeys(fs[1..], ok, k);
      if k == fs[0].0 {
        NotBelowHead(fs);
      }
    }
  }

  // ------------------------------------------------------------------
  // Mutable JSON values
  // ------------------------------------------------------------------

  /** A `JSON` object; its members are values (the class copies them). */
  class Node {
    var val: Json

    ghost predicate Valid()
      reads this
    {
      WellFormed(val)
    }

    /** The default constructor (json.hpp:55). */
    constructor()
      ensures val == JNone && Valid()
    {
      val := JNone;
    }

    /** `reset` (json.cpp:34-52): back to `none` with a null pointer. */
    method Reset()
      modifies this
      ensures val == JNone && Valid()
    {
      val := JNone;
    }

    /**
     * `push` (json.cpp:78-96): a value that is not an array is reset to an
     * empty array first; `src` goes at the end.
     */
    method Push(src: Json)
      requires Valid() && WellFormed(src)
      modifies this
      ensures Valid()
      ensures val == JArray(true, (if old(val).JArray? then old(val).items else []) + [src])
    {
      var xs: seq<Json> := [];
      if val.JArray? {
        xs := val.items;
      }
      val := JArray(true, xs + [src]);
    }

    /**
     * `set` (json.cpp:284-302): a value that is not an object is reset to
     * an empty object first; then `key` is bound to `v`.
     */
    method Set(key: string, v: Json)
      requires Valid() && WellFormed(v)
      modifies this
      ensures Valid() && val.JObject?
      ensures Get(val, key) == Some(v)
      ensures forall k | k != key :: Get(val, k) == Get(old(val), k)
    {
      var fs: Fields := [];
      if val.JObject? {
        fs := val.fields;
      }
      PutSorted(fs, key, v);
      forall k ensures Find(Put(fs, key, v), k) == if k == key then Some(v) else Find(fs, k) {
        FindPut(fs, key, v, k);
      }
      PutWellFormed(fs, key, v);
      val := JObject(true, Put(fs, key, v));
    }

    /** `set(key, const char*)` (json.hpp:127): a null text sets nothing; legal literals stay literals. */
    method SetText(key: string, text: Option<string>)
      requires Valid()
      modifies this
      ensures Valid()
      ensures text.None? ==> val == old(val)
      ensures text.Some? ==> Get(val, key) == Some(if IsLegalJsLiteral(text) then JLiteral(text) else JString(text))
      ensures forall k | k != key :: Get(val, k) == Get(old(val), k)
    {
      if text.Some? {
        Set(key, if IsLegalJsLiteral(text) then JLiteral(text) else JString(text));
      }
    }

    /**
     * `unset(const std::string&)` (json.cpp:263-271): only an object with a
     * map and a non-empty key changes; `key` is erased and an emptied map
     * is freed.
     */
    method Unset(key: string)
      requires Valid()
      modifies this
      ensures Valid()
      ensures !(old(val).JObject? && old(val).hasMap) || key == "" ==> val == old(val)
      ensures old(val).JObject? && old(val).hasMap && key != "" ==>
        val.JObject? && Get(val, key) == None && forall k | k != key :: Get(val, k) == Get(old(val), k)
    {
      if !(val.JObject? && val.hasMap) || key == "" {
        return;
      }
      var fs := val.fields;
      if Find(fs, key).Some? {
        fs := Erase(fs, key);
        EraseSorted(val.fields, key);
        EraseWellFormed(val.fields, key);
      }
      forall k ensures Find(fs, k) == if k == key then None else Find(val.fields, k) {
        FindErase(val.fields, key, k);
      }
      val := Collapse(fs);
    }

    /**
     * `unset(const std::vector<std::string>&)` (json.cpp:251-261): for an
     * object with a map and a non-empty key list, every listed key is erased
     * (the empty key too) and an emptied map is freed.
     */
    method UnsetAll(keys: seq<string>)
      requires Valid()
      modifies this
      ensures Valid()
      ensures !(old(val).JObject? && old(val).hasMap) || keys == [] ==> val == old(val)
      ensures old(val).JObject? && old(val).hasMap && keys != [] ==>
        val.JObject? && forall k :: Get(val, k) == if k in keys then None else Get(old(val), k)
    {
      if !(val.JObject? && val.hasMap) || keys == [] {
        return;
      }
      var fs := EraseEach(val.fields, keys);
      val := Collapse(fs);
    }

    /**
     * `destructive_grep(ok)` (json.cpp:135-169): a scalar is only tested; a
     * container without a pointer gives false; otherwise the members `ok`
     * rejects are removed (an array from the back), an emptied container is
     * freed, and the result says whether anything is left.
     */
    method DestructiveGrep(ok: Json -> bool) returns (b: bool)
      requires Valid()
      modifies this
      ensures Valid()
      ensures IsScalar(old(val)) ==> val == old(val) && b == ok(old(val))
      ensures old(val).JNone? || (!IsScalar(old(val)) && Empty(old(val))) ==> val == old(val) && !b
      ensures old(val).JArray? ==> val.JArray? && val.items == Filter(old(val).items, ok) && b == (val.items != [])
      ensures old(val).JObject? ==> val.JObject? && b == (val.fields != [])
      ensures old(val).JObject? ==> forall k :: Get(val, k) == if Get(old(val), k).Some? && ok(Get(old(val), k).value) then Get(old(val), k) else None
    {
      match val
      case JString(_) =>
        return ok(val);
      case JLiteral(_) =>
        return ok(val);
      case JNone =>
        return false;
      case JObject(h, fs) =>
        if !h {
          return false;
        }
        var doomed := DoomedOf(fs, ok);
        var kept := EraseEach(fs, doomed);
        forall k ensures Find(kept, k) == if Find(fs, k).Some? && ok(Find(fs, k).value) then Find(fs, k) else None {
          DoomedKeys(fs, ok, k);
        }
        val := Collapse(kept);
        b := kept != [];
      case JArray(h, xs) =>
        if !h {
          return false;
        }
        var kept := FilterBackward(xs, ok);
        FilterWellFormed(xs, ok);
        val := JArray(kept != [], kept);
        b := kept != [];
    }

    /**
     * `become_key` (json.hpp:95-102): an object replaces itself by the value
     * of `key` when it has one.
     */
    method BecomeKey(key: string) returns (b: bool)
      requires Valid()
      modifies this
      ensures Valid()
      ensures b <==> Get(old(val), key).Some?
      ensures b ==> val == Get(old(val), key).value
      ensures !b ==> val == old(val)
    {
      var x := Get(val, key);
      if x.Some? {
        FindWellFormed(val.fields, key);
        val := x.value;
        return true;
      }
      return false;
    }

    /**
     * `extract_key` (json.hpp:103-110): the value of `key` is moved into
     * `dest` (leaving `none` behind) and `key` is unset.  `unset` ignores
     * the empty key, so extracting `""` leaves it bound to `none`.
     */
    method ExtractKey(key: string, dest: Node) returns (b: bool)
      requires Valid() && dest != this
      modifies this, dest
      ensures Valid()
      ensures b <==> Get(old(val), key).Some?
      ensures b ==> dest.val == Get(old(val), key).value
      ensures !b ==> val == old(val) && dest.val == old(dest.val)
      ensures b && key != "" ==> Get(val, key) == None
      ensures b && key == "" ==> Get(val, key) == Some(JNone)
      ensures b ==> forall k | k != key :: Get(val, k) == Get(old(val), k)
    {
      var x := Get(val, key);
      if x.None? {
        return false;
      }
      dest.val := x.value;
      Set(key, JNone);
      Unset(key);
      return true;
    }

    /**
     * `decode(T* dest, size_t n)` (json.hpp:218-228) with the conversion
     * `from` for `fromJSON`: only an array and a non-null `dest` are
     * decoded; an array without members succeeds exactly when `n == 0`;
     * otherwise the sizes must agree, every member is converted into its
     * slot, and the result says whether all conversions succeeded.
     */
    method Decode<T>(dest: array?<T>, n: nat, from: Json -> Option<T>) returns (ok: bool)
      requires Valid()
      requires dest != null ==> n <= dest.Length
      modifies dest
      ensures ok <==> (val.JArray? && dest != null &&
        (if val.items == [] then n == 0 else |val.items| == n && forall i | 0 <= i < n :: from(val.items[i]).Some?))
      ensures dest != null ==> forall i | 0 <= i < dest.Length ::
        dest[i] == if val.JArray? && |val.items| == n > 0 && i < n && from(val.items[i]).Some?
                   then from(val.items[i]).value else old(dest[i])
    {
      if !val.JArray? || dest == null {
        return false;
      }
      var xs := val.items;
      if xs == [] {
        return n == 0;
      }
      if |xs| != n {
        return false;
      }
      ok := true;
      var i := 0;
      while i < n
        invariant 0 <= i <= n
        invariant ok <==> forall m | 0 <= m < i :: from(xs[m]).Some?
        invariant forall m | 0 <= m < dest.Length ::
          dest[m] == if m < i && from(xs[m]).Some? then from(xs[m]).value else old(dest[m])
      {
        var t := from(xs[i]);
        if t.Some? {
          dest[i] := t.value;
        } else {
          ok := false;
        }
        i := i + 1;
      }
    }
  }

  /** The erase loops of `unset` and `destructive_grep` (json.cpp:148, 254-256): each listed key is erased. */
  method EraseEach(fs: Fields, keys: seq<string>) returns (r: Fields)
    requires Sorted(fs) && forall i | 0 <= i < |fs| :: WellFormed(fs[i].1)
    ensures Sorted(r) && forall i | 0 <= i < |r| :: WellFormed(r[i].1)
    ensures forall k :: Find(r, k) == if k in keys then None else Find(fs, k)
  {
    r := fs;
    for i := 0 to |keys|
      invariant Sorted(r) && forall m | 0 <= m < |r| :: WellFormed(r[m].1)
      invariant forall k :: Find(r, k) == if k in keys[..i] then None else Find(fs, k)
    {
      ghost var before := r;
      if Find(r, keys[i]).Some? {
        EraseSorted(r, keys[i]);
        EraseWellFormed(r, keys[i]);
        r := Erase(r, keys[i]);
      }
      forall k ensures Find(r, k) == if k in keys[..i + 1] then None else Find(fs, k) {
        FindErase(before, keys[i], k);
        assert keys[..i + 1] == keys[..i] + [keys[i]];
      }
    }
    assert keys[..|keys|] == keys;
  }

  /** The first loop of `destructive_grep` on an object (json.cpp:145-147): the keys `ok` rejects. */
  method DoomedOf(fs: Fields, ok: Json -> bool) returns (doomed: seq<string>)
    ensures doomed == Doomed(fs, ok)
  {
    doomed := [];
    for i := 0 to |fs|
      invariant doomed + Doomed(fs[i..], ok) == Doomed(fs, ok)
    {
      DoomedStep(fs, i, ok);
      if !ok(fs[i].1) {
        doomed := doomed + [fs[i].0];
      }
    }
  }

  lemma DoomedStep(fs: Fields, i: nat, ok: Json -> bool)
    requires i < |fs|
    ensures Doomed(fs[i..], ok) == (if ok(fs[i].1) then [] else [fs[i].0]) + Doomed(fs[i + 1..], ok)
  {
    assert fs[i..][1..] == fs[i + 1..];
  }

  /**
   * The loop of `destructive_grep` on an array (json.cpp:157-162): from the
   * last member down, each member `ok` rejects is erased.
   */
  method FilterBackward(xs: seq<Json>, ok: Json -> bool) returns (r: seq<Json>)
    requires xs != []
    ensures r == Filter(xs, ok)
  {
    r := xs;
    var i := |xs|;
    while 0 < i
      invariant 0 <= i <= |xs|
      invariant r == xs[..i] + Filter(xs[i..], ok)
    {
      i := i - 1;
      assert xs[i..][1..] == xs[i + 1..];
      assert r[i] == xs[i];
      if !ok(r[i]) {
        r := r[..i] + r[i + 1..];
      }
    }
    assert xs[0..] == xs;
  }

  lemma {:induction false} PutWellFormed(fs: Fields, k: string, v: Json)
    requires Sorted(fs) && WellFormed(v) && forall i | 0 <= i < |fs| :: WellFormed(fs[i].1)
    ensures WellFormed(JObject(true, Put(fs, k, v)))
  {
    PutSorted(fs, k, v);
    PutMembers(fs, k, v);
  }

  /** `map[k] = v` keeps a property every value has. */
  lemma {:induction false} PutAll(fs: Fields, k: string, v: Json, P: Json -> bool)
    requires P(v) && forall i | 0 <= i < |fs| :: P(fs[i].1)
    ensures forall i | 0 <= i < |Put(fs, k, v)| :: P(Put(fs, k, v)[i].1)
  {
    if fs != [] && fs[0].0 != k && !StrLess(k, fs[0].0) {
      PutAll(fs[1..], k, v, P);
    }
  }

  lemma {:induction false} PutMembers(fs: Fields, k: string, v: Json)
    requires WellFormed(v) && forall i | 0 <= i < |fs| :: WellFormed(fs[i].1)
    ensures forall i | 0 <= i < |Put(fs, k, v)| :: WellFormed(Put(fs, k, v)[i].1)
  {
    if fs != [] && fs[0].0 != k && !StrLess(k, fs[0].0) {
      PutMembers(fs[1..], k, v);
    }
  }

  lemma {:induction false} EraseWellFormed(fs: Fields, k: string)
    requires forall i | 0 <= i < |fs| :: WellFormed(fs[i].1)
    ensures forall i | 0 <= i < |Erase(fs, k)| :: WellFormed(Erase(fs, k)[i].1)
  {
    if fs != [] {
      EraseWellFormed(fs[1..], k);
    }
  }

  lemma {:induction false} FindWellFormed(fs: Fields, k: string)
    requires forall i | 0 <= i < |fs| :: WellFormed(fs[i].1)
    ensures Find(fs, k).Some? ==> WellFormed(Find(fs, k).value)
  {
    if fs != [] && fs[0].0 != k {
      FindWellFormed(fs[1..], k);
    }
  }
}
