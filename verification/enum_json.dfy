/**
 * The enum/key tables of Zaimoni.STL/Pure.CPP/enum_json.h, as expanded by
 * `DEFINE_JSON_ENUM_SUPPORT_TYPICAL(TYPE, STATIC_REF)`: enum value
 * `origin + i` has the key `STATIC_REF[i]`.  The table is a sequence of
 * strings, an enum value an integer, and a `const char*` that may be null
 * an `Option<string>`; `strcmp` is string equality.
 */
module EnumJson {
  import opened Wrappers

  /** `JSON_key(src)`: the table entry of `src` when `src` is in range, otherwise null. */
  function Key(table: seq<string>, origin: int, src: int): (r: Option<string>)
    ensures r.Some? <==> origin <= src < origin + |table|
    ensures r.Some? ==> r.value == table[src - origin]
  {
    if origin <= src && |table| + origin > src then Some(table[src - origin]) else None
  }

  /** The index of the last entry equal to `s`, or -1 when there is none. */
  function LastIndex(table: seq<string>, s: string): (i: int)
    ensures -1 <= i < |table|
    ensures 0 <= i ==> table[i] == s
    ensures forall j | i < j < |table| :: table[j] != s
  {
    if table == [] then -1
    else if table[|table| - 1] == s then |table| - 1
    else LastIndex(table[..|table| - 1], s)
  }

  /**
   * What `JSON_parse<TYPE>()(src)` returns: `TYPE(0)` for a null or empty
   * string and for a string that is in no entry; otherwise the enum value
   * of the last entry equal to it.
   */
  function Parsed(table: seq<string>, origin: int, src: Option<string>): (r: int)
    ensures src.None? || src.value == [] ==> r == 0
    ensures src.Some? && src.value != [] && src.value !in table ==> r == 0
    ensures src.Some? && src.value != [] && src.value in table ==>
      0 <= r - origin < |table| && table[r - origin] == src.value &&
      forall j | r - origin < j < |table| :: table[j] != src.value
  {
    if src.None? || src.value == [] then 0
    else
      var i := LastIndex(table, src.value);
      if i < 0 then 0 else i + origin
  }

  /** `JSON_parse<TYPE>::operator()`: the loop runs down from the last entry. */
  method Parse(table: seq<string>, origin: int, src: Option<string>) returns (r: int)
    ensures r == Parsed(table, origin, src)
  {
    if src.None? || src.value == [] {
      return 0;
    }
    var i := |table|;
    while 0 < i
      invariant 0 <= i <= |table|
      invariant forall j | i <= j < |table| :: table[j] != src.value
    {
      i := i - 1;
      if table[i] == src.value {
        LastIndexIs(table, src.value, i);
        return i + origin;
      }
    }
    NotInTable(table, src.value);
    return 0;
  }

  /** An entry with no equal entry after it is the one `LastIndex` finds. */
  lemma LastIndexIs(table: seq<string>, s: string, i: nat)
    requires i < |table| && table[i] == s
    requires forall j | i < j < |table| :: table[j] != s
    ensures LastIndex(table, s) == i
  {
  }

  lemma NotInTable(table: seq<string>, s: string)
    requires forall j | 0 <= j < |table| :: table[j] != s
    ensures s !in table
  {
  }

  /** The entries are pairwise different. */
  predicate Distinct(table: seq<string>) {
    forall i, j | 0 <= i < j < |table| :: table[i] != table[j]
  }

  /**
   * With distinct entries, every enum value in range whose key is not
   * empty parses back from its key.
   */
  lemma KeyThenParse(table: seq<string>, origin: int, k: int)
    requires Distinct(table)
    requires origin <= k < origin + |table| && table[k - origin] != []
    ensures Parsed(table, origin, Key(table, origin, k)) == k
  {
    var s := table[k - origin];
    assert s in table;
    var r := Parsed(table, origin, Key(table, origin, k));
    assert table[r - origin] == s;
  }

  /** A string that parses to a value other than `TYPE(0)` is that value's key. */
  lemma ParseThenKey(table: seq<string>, origin: int, s: string)
    requires Parsed(table, origin, Some(s)) != 0
    ensures Key(table, origin, Parsed(table, origin, Some(s))) == Some(s)
  {
  }

  /** With a repeated entry, the later one wins: the earlier enum value does not parse back. */
  lemma RepeatedKeyParsesLate(table: seq<string>, origin: int, i: nat, j: nat)
    requires i < j < |table| && table[i] == table[j] && table[i] != []
    ensures Parsed(table, origin, Some(table[i])) != i + origin
  {
  }
}
