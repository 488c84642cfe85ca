/**
 * The writers of Zaimoni.STL/Pure.CPP/json.cpp: `write_string`,
 * `write_literal`, `write_array`, `write_object` and `JSON::write`.  The
 * output stream is modelled by the text written to it.
 */
module JsonWrite {
  import opened Wrappers
  import opened JsonValue
  import opened JsonRead

  // ------------------------------------------------------------------
  // write_string (json.cpp:673-715)
  // ------------------------------------------------------------------

  /**
   * `escape_for_JSON_string`: `\r \n \t \v \f " \` and NUL, which `strchr`
   * finds as the terminator of its set.
   */
  predicate NeedsEscape(c: char) {
    c in "\r\n\t\"\\\0" || c == VT || c == FF
  }

  /** The letter `write_string` puts after the backslash for an escaped character other than NUL. */
  function EscapeLetter(c: char): char
  {
    if c == '\r' then 'r'
    else if c == '\n' then 'n'
    else if c == '\t' then 't'
    else if c == VT then 'v'
    else if c == FF then 'f'
    else c
  }

  /**
   * What `write_string` puts for `c`: a backslash and the escape letter for
   * an escaped character; NUL, which no case of the switch handles, leaves
   * the backslash alone.
   */
  function EscapeChar(c: char): (r: string)
    ensures NeedsEscape(c) <==> |r| > 0 && r[0] == '\\'
    ensures !NeedsEscape(c) ==> r == [c]
  {
    if c == '\0' then "\\"
    else if NeedsEscape(c) then ['\\', EscapeLetter(c)]
    else [c]
  }

  /** The escaped characters of `t`, in order. */
  function Escaped(t: string): string
  {
    if t == [] then "" else EscapeChar(t[0]) + Escaped(t[1..])
  }

  lemma {:induction false} EscapedAppend(t: string, c: char)
    ensures Escaped(t + [c]) == Escaped(t) + EscapeChar(c)
  {
    if t == [] {
      assert [c][1..] == [];
    } else {
      assert (t + [c])[1..] == t[1..] + [c];
      EscapedAppend(t[1..], c);
    }
  }

  /** The text `write_string` writes for `t`. */
  function Quoted(t: string): (r: string)
    ensures |r| >= 2 && r[0] == '"' && r[|r| - 1] == '"'
  {
    "\"" + Escaped(t) + "\""
  }

  /** `write_string`: the quote, each character escaped as needed, the quote. */
  method WriteString(src: string) returns (out: string)
    ensures out == Quoted(src)
  {
    out := "\"";
    for i := 0 to |src|
      invariant out == "\"" + Escaped(src[..i])
    {
      EscapedAppend(src[..i], src[i]);
      assert src[..i + 1] == src[..i] + [src[i]];
      out := out + EscapeChar(src[i]);
    }
    assert src[..|src|] == src;
    out := out + "\"";
  }

  // ------------------------------------------------------------------
  // Reading a written string back
  // ------------------------------------------------------------------

  /** Characters the reader gives back unchanged after `write_string`. */
  predicate RoundTrips(c: char) {
    c != '\n' && c != VT && c != '\0'
  }

  /**
   * For a string without `\n`, `\v` or NUL, the reader takes back exactly
   * what `write_string` wrote, up to and including the closing quote.
   */
  lemma {:induction false} EscapedReadsBack(t: string, rest: string)
    requires forall i | 0 <= i < |t| :: RoundTrips(t[i])
    ensures StrFrom(Escaped(t) + "\"" + rest, false) == (t, |Escaped(t)| + 1)
  {
    if t == [] {
      assert Escaped(t) + "\"" + rest == ['"'] + rest;
    } else {
      var tail := Escaped(t[1..]) + "\"" + rest;
      EscapedReadsBack(t[1..], rest);
      assert Escaped(t) + "\"" + rest == EscapeChar(t[0]) + tail;
      CharReadsBack(t[0], tail);
      assert t == [t[0]] + t[1..];
    }
  }

  /** One character written by `write_string` is read back as itself. */
  lemma CharReadsBack(c: char, tail: string)
    requires RoundTrips(c)
    ensures StrFrom(EscapeChar(c) + tail, false) ==
      ([c] + StrFrom(tail, false).0, |EscapeChar(c)| + StrFrom(tail, false).1)
  {
    if NeedsEscape(c) {
      LetterUnescapes(c);
      EscapeStep(EscapeLetter(c), tail);
    } else {
      PlainStep(c, tail);
    }
  }

  /** The reader turns each escape letter back into its character, except those of `\n` and `\v`. */
  lemma LetterUnescapes(c: char)
    requires NeedsEscape(c) && RoundTrips(c)
    ensures Unescape(EscapeLetter(c)) == [c]
  {
  }

  /** The reader on a backslash and the letter after it. */
  lemma EscapeStep(l: char, tail: string)
    ensures StrFrom(['\\', l] + tail, false) ==
      (Unescape(l) + StrFrom(tail, false).0, 2 + StrFrom(tail, false).1)
  {
    var w := ['\\', l] + tail;
    assert w[1..] == [l] + tail;
    assert w[1..][1..] == tail;
  }

  /** The reader on a character that is neither a backslash nor a quote. */
  lemma PlainStep(c: char, tail: string)
    requires c != '\\' && c != '"'
    ensures StrFrom([c] + tail, false) == ([c] + StrFrom(tail, false).0, 1 + StrFrom(tail, false).1)
  {
    assert ([c] + tail)[1..] == tail;
  }

  /** A string written by `write_string` reads back as that string, when it has no `\n`, `\v` or NUL. */
  lemma StringReadsBack(t: string, rest: string, line: nat, mustBeScalar: bool)
    requires forall i | 0 <= i < |t| :: RoundTrips(t[i])
    ensures ReadValue(Quoted(t) + rest, 0, line, mustBeScalar) == Ok(JString(Some(t)), |Quoted(t)|, line)
  {
    var s := Quoted(t) + rest;
    NoSpace(s, 0, line);
    assert s[1..] == Escaped(t) + "\"" + rest;
    EscapedReadsBack(t, rest);
  }

  // ------------------------------------------------------------------
  // write_literal (json.cpp:717-726)
  // ------------------------------------------------------------------

  /** No character of `t` is rejected in a literal. */
  predicate BareOk(t: string) {
    forall i | 0 <= i < |t| :: !RejectsLiteral(t[i])
  }

  /** The text `write_literal` writes: `t` itself when it can stand bare, otherwise a quoted string. */
  function LiteralText(t: string): (r: string)
    ensures BareOk(t) ==> r == t
    ensures !BareOk(t) ==> r == Quoted(t)
  {
    if BareOk(t) then t else Quoted(t)
  }

  /** `write_literal`: the loop looks for a rejected character. */
  method WriteLiteral(src: string) returns (out: string)
    ensures out == LiteralText(src)
  {
    var okAsLiteral := true;
    var i := 0;
    while i < |src|
      invariant 0 <= i <= |src|
      invariant okAsLiteral <==> forall k | 0 <= k < i :: !RejectsLiteral(src[k])
      invariant !okAsLiteral ==> i == |src|
    {
      if RejectsLiteral(src[i]) {
        okAsLiteral := false;
        i := |src|;
      } else {
        i := i + 1;
      }
    }
    if okAsLiteral {
      return src;
    }
    out := WriteString(src);
  }

  /**
   * A non-empty literal written bare reads back as the same literal, when
   * the stream goes on with a character that ends a literal, or ends.
   */
  lemma LiteralReadsBack(t: string, rest: string, line: nat, mustBeScalar: bool)
    requires t != [] && BareOk(t)
    requires rest != [] ==> RejectsLiteral(rest[0])
    ensures ReadValue(t + rest, 0, line, mustBeScalar) == Ok(JLiteral(Some(t)), |t|, line)
  {
    var s := t + rest;
    assert !RejectsLiteral(s[0]);
    NoSpace(s, 0, line);
    assert StartMode(s[0]) == LiteralMode;
    assert LitEnd(s, 1) == |t| by {
      LitEndAt(s, 1, |t|);
    }
    assert s[0..|t|] == t;
  }

  lemma LitEndAt(s: string, pos: nat, e: nat)
    requires pos <= e <= |s|
    requires forall k | pos <= k < e :: !RejectsLiteral(s[k])
    requires e < |s| ==> RejectsLiteral(s[e])
    ensures LitEnd(s, pos) == e
    decreases e - pos
  {
    if pos < e {
      LitEndAt(s, pos + 1, e);
    }
  }

  // ------------------------------------------------------------------
  // write_array, write_object and write (json.cpp:728-807)
  // ------------------------------------------------------------------

  /** `n` tabs. */
  function Tabs(n: nat): (r: string)
    ensures |r| == n && forall i | 0 <= i < n :: r[i] == '\t'
  {
    if n == 0 then "" else Tabs(n - 1) + "\t"
  }

  /** The pieces of `ts`, one after another. */
  function Cat(ts: seq<string>): string
  {
    if ts == [] then "" else Cat(ts[..|ts| - 1]) + ts[|ts| - 1]
  }

  /**
   * What `write_array` puts after element `i`: nothing after the last;
   * otherwise a comma, then a space between two scalars, or a line break
   * and `indent` tabs.
   */
  function ArraySep(xs: seq<Json>, i: nat, indent: nat): string
    requires i < |xs|
  {
    if i + 1 < |xs| then
      "," + if IsScalar(xs[i + 1]) && IsScalar(xs[i]) then " " else "\n" + Tabs(indent)
    else ""
  }

  /** What `write_object` puts after entry `i`: a comma, a line break and `indent` tabs, except after the last. */
  function ObjectSep(n: nat, i: nat, indent: nat): string
  {
    if i + 1 < n then ",\n" + Tabs(indent) else ""
  }

  /**
   * `JSON::write(os, indent)`: containers without a pointer are `{}` and
   * `[]`, scalars without one `""`; members are written one level deeper;
   * a `none` value writes nothing.  `operator<<` writes like `write` with
   * indent 1, the default of `write_array` and `write_object`.
   */
  function WriteValue(j: Json, indent: nat): string
    decreases j
  {
    match j
    case JObject(h, fs) =>
      if !h then "{}"
      else "{" + Cat(seq(|fs|, i requires 0 <= i < |fs| =>
        LiteralText(fs[i].0) + ":" + WriteValue(fs[i].1, indent + 1) + ObjectSep(|fs|, i, indent))) + "}"
    case JArray(h, xs) =>
      if !h then "[]"
      else "[" + Cat(seq(|xs|, i requires 0 <= i < |xs| =>
        WriteValue(xs[i], indent + 1) + ArraySep(xs, i, indent))) + "]"
    case JLiteral(t) => if t.Some? then LiteralText(t.value) else "\"\""
    case JString(t) => if t.Some? then Quoted(t.value) else "\"\""
    case JNone => ""
  }

  /** `JSON::write` (json.cpp:771-786). */
  method Write(j: Json, indent: nat) returns (out: string)
    ensures out == WriteValue(j, indent)
    decreases j, 2
  {
    match j
    case JObject(h, fs) =>
      if !h {
        return "{}";
      }
      var body := WriteObject(j, fs, indent);
      out := "{" + body + "}";
    case JArray(h, xs) =>
      if !h {
        return "[]";
      }
      var body := WriteArray(j, xs, indent);
      out := "[" + body + "]";
    case JLiteral(t) =>
      if t.None? {
        return "\"\"";
      }
      out := WriteLiteral(t.value);
    case JString(t) =>
      if t.None? {
        return "\"\"";
      }
      out := WriteString(t.value);
    case JNone =>
      out := "";
  }

  /** One element of `write_array` (json.cpp:734-746): the value, then its separator. */
  method WriteElement(ghost parent: Json, xs: seq<Json>, i: nat, indent: nat) returns (piece: string)
    requires parent.JArray? && parent.items == xs && i < |xs|
    ensures piece == WriteValue(xs[i], indent + 1) + ArraySep(xs, i, indent)
    decreases parent, 0
  {
    piece := Write(xs[i], indent + 1);
    if i + 1 < |xs| {
      piece := piece + ",";
      if IsScalar(xs[i + 1]) && IsScalar(xs[i]) {
        piece := piece + " ";
      } else {
        piece := piece + "\n" + Tabs(indent);
      }
    }
  }

  /** The loop of `write_array` (json.cpp:728-749), between the brackets. */
  method WriteArray(ghost parent: Json, xs: seq<Json>, indent: nat) returns (out: string)
    requires parent.JArray? && parent.items == xs
    ensures out == Cat(seq(|xs|, i requires 0 <= i < |xs| => WriteValue(xs[i], indent + 1) + ArraySep(xs, i, indent)))
    decreases parent, 1
  {
    ghost var ts := seq(|xs|, i requires 0 <= i < |xs| => WriteValue(xs[i], indent + 1) + ArraySep(xs, i, indent));
    out := "";
    var i := 0;
    while i < |xs|
      invariant 0 <= i <= |xs|
      invariant out == Cat(ts[..i])
    {
      var piece := WriteElement(parent, xs, i, indent);
      assert ts[..i + 1][..i] == ts[..i];
      out := out + piece;
      i := i + 1;
    }
    assert ts[..|xs|] == ts;
  }

  /** One member of `write_object` (json.cpp:760-766): key, colon, value and separator. */
  method WriteMember(ghost parent: Json, fs: Fields, i: nat, indent: nat) returns (piece: string)
    requires parent.JObject? && parent.fields == fs && i < |fs|
    ensures piece == LiteralText(fs[i].0) + ":" + WriteValue(fs[i].1, indent + 1) + ObjectSep(|fs|, i, indent)
    decreases parent, 0
  {
    var key := WriteLiteral(fs[i].0);
    var value := Write(fs[i].1, indent + 1);
    var sep := if i + 1 < |fs| then ",\n" + Tabs(indent) else "";
    piece := key + ":" + value + sep;
  }

  /** The loop of `write_object` (json.cpp:751-769), between the braces. */
  method WriteObject(ghost parent: Json, fs: Fields, indent: nat) returns (out: string)
    requires parent.JObject? && parent.fields == fs
    ensures out == Cat(seq(|fs|, i requires 0 <= i < |fs| =>
      LiteralText(fs[i].0) + ":" + WriteValue(fs[i].1, indent + 1) + ObjectSep(|fs|, i, indent)))
    decreases parent, 1
  {
    ghost var ts := seq(|fs|, i requires 0 <= i < |fs| =>
      LiteralText(fs[i].0) + ":" + WriteValue(fs[i].1, indent + 1) + ObjectSep(|fs|, i, indent));
    out := "";
    var i := 0;
    while i < |fs|
      invariant 0 <= i <= |fs|
      invariant out == Cat(ts[..i])
    {
      var piece := WriteMember(parent, fs, i, indent);
      assert ts[..i + 1][..i] == ts[..i];
      out := out + piece;
      i := i + 1;
    }
    assert ts[..|fs|] == ts;
  }

  // ------------------------------------------------------------------
  // Escapes the reader does not undo (json.cpp:609-610, 615-616, 673-715)
  // ------------------------------------------------------------------

  /** As written: a string holding a line feed is read back holding a carriage return instead. */
  lemma NewlineReadsBackAsCr(rest: string, line: nat, mustBeScalar: bool)
    ensures ReadValue(Quoted("\n") + rest, 0, line, mustBeScalar) == Ok(JString(Some("\r")), 4, line)
  {
    var s := Quoted("\n") + rest;
    assert Escaped("\n") == "\\n" by {
      assert "\n"[1..] == [];
    }
    NoSpace(s, 0, line);
    var tail := "\"" + rest;
    assert s[1..] == ['\\', 'n'] + tail;
    EscapeStep('n', tail);
    assert StrFrom(tail, false) == ("", 1);
    assert Unescape('n') + "" == "\r";
    assert s[0] == '"' && StartMode(s[0]) == StringMode;
  }

  /** As written: a string holding a vertical tab is read back holding a form feed instead. */
  lemma VtReadsBackAsFf(rest: string, line: nat, mustBeScalar: bool)
    ensures ReadValue(Quoted([VT]) + rest, 0, line, mustBeScalar) == Ok(JString(Some([FF])), 4, line)
  {
    var s := Quoted([VT]) + rest;
    assert Escaped([VT]) == ['\\', 'v'] by {
      assert [VT][1..] == [];
    }
    NoSpace(s, 0, line);
    var tail := "\"" + rest;
    assert s[1..] == ['\\', 'v'] + tail;
    EscapeStep('v', tail);
    assert StrFrom(tail, false) == ("", 1);
    assert Unescape('v') + "" == [FF];
    assert s[0] == '"' && StartMode(s[0]) == StringMode;
  }

  /**
   * As written: a string holding NUL is written as a quote, a lone
   * backslash and a quote, so the reader takes the closing quote as an
   * escaped `"` and runs on into whatever follows.
   */
  lemma NulSwallowsQuote(rest: string, line: nat, mustBeScalar: bool)
    ensures var (t, n) := StrFrom(rest, false);
      ReadValue(Quoted("\0") + rest, 0, line, mustBeScalar) == Ok(JString(Some("\"" + t)), 3 + n, line)
  {
    var s := Quoted("\0") + rest;
    assert Escaped("\0") == "\\" by {
      assert "\0"[1..] == [];
    }
    NoSpace(s, 0, line);
    assert s[1..] == ['\\', '"'] + rest;
    EscapeStep('"', rest);
  }

  /** The escapes as evidently intended: `\n` gives a line feed and `\v` a vertical tab. */
  function UnescapeIntended(c: char): (r: string)
    ensures c == 'n' ==> r == "\n"
    ensures c == 'v' ==> r == [VT]
    ensures |r| == 1 <==> c in "rntvfb\"'\\"
    ensures |r| != 1 ==> r == ['\\', c]
  {
    if c == 'r' then "\r"
    else if c == 'n' then "\n"
    else if c == 't' then "\t"
    else if c == 'v' then [VT]
    else if c == 'f' then [FF]
    else if c == 'b' then [BS]
    else if c == '"' || c == '\'' || c == '\\' then [c]
    else ['\\', c]
  }

  /** `StrFrom` with the intended escapes. */
  function StrFromIntended(t: string, esc: bool): (r: (string, nat))
    ensures r.1 <= |t|
  {
    if t == [] then ("", 0)
    else if esc then
      var (x, n) := StrFromIntended(t[1..], false); (UnescapeIntended(t[0]) + x, n + 1)
    else if t[0] == '\\' then
      var (x, n) := StrFromIntended(t[1..], true); (x, n + 1)
    else if t[0] == '"' then ("", 1)
    else
      var (x, n) := StrFromIntended(t[1..], false); ([t[0]] + x, n + 1)
  }

  /** The escape set as evidently intended: NUL, the terminator of the set, is not in it. */
  predicate NeedsEscapeIntended(c: char) {
    NeedsEscape(c) && c != '\0'
  }

  /** `write_string`'s output for `c` as evidently intended: NUL is written as itself. */
  function EscapeCharIntended(c: char): (r: string)
    ensures NeedsEscapeIntended(c) ==> r == ['\\', EscapeLetter(c)]
    ensures !NeedsEscapeIntended(c) ==> r == [c]
  {
    if NeedsEscapeIntended(c) then ['\\', EscapeLetter(c)] else [c]
  }

  function EscapedIntended(t: string): string
  {
    if t == [] then "" else EscapeCharIntended(t[0]) + EscapedIntended(t[1..])
  }

  /** With the intended escapes every escape letter is undone. */
  lemma LetterUnescapesIntended(c: char)
    requires NeedsEscapeIntended(c)
    ensures UnescapeIntended(EscapeLetter(c)) == [c]
  {
  }

  /** With both corrections, every string, whatever its characters, is read back as written. */
  lemma {:induction false} EscapedReadsBackIntended(t: string, rest: string)
    ensures StrFromIntended(EscapedIntended(t) + "\"" + rest, false) == (t, |EscapedIntended(t)| + 1)
  {
    if t == [] {
      assert EscapedIntended(t) + "\"" + rest == ['"'] + rest;
    } else {
      var tail := EscapedIntended(t[1..]) + "\"" + rest;
      EscapedReadsBackIntended(t[1..], rest);
      var c := t[0];
      assert EscapedIntended(t) + "\"" + rest == EscapeCharIntended(c) + tail;
      CharReadsBackIntended(c, tail);
      assert t == [c] + t[1..];
    }
  }

  /** One written character is read back as itself, ahead of whatever follows it. */
  lemma CharReadsBackIntended(c: char, tail: string)
    ensures var (x, n) := StrFromIntended(tail, false);
      StrFromIntended(EscapeCharIntended(c) + tail, false) == ([c] + x, |EscapeCharIntended(c)| + n)
  {
    var w := EscapeCharIntended(c) + tail;
    if NeedsEscapeIntended(c) {
      LetterUnescapesIntended(c);
      assert w[1..] == [EscapeLetter(c)] + tail;
      assert w[1..][1..] == tail;
    } else {
      assert w[1..] == tail;
    }
  }

  // ------------------------------------------------------------------
  // Empty keys (json.cpp:717-726, 751-769)
  // ------------------------------------------------------------------

  /**
   * As written: `write_literal` writes the empty string as nothing, so an
   * object with an empty key is written starting `{:`, which the reader
   * rejects.
   */
  lemma EmptyKeyUnreadable(v: Json, rest: string)
    ensures |WriteValue(JObject(true, [("", v)]), 1)| >= 2
    ensures WriteValue(JObject(true, [("", v)]), 1)[..2] == "{:"
    ensures ReadTop(WriteValue(JObject(true, [("", v)]), 1) + rest).Fail?
  {
    var fs: Fields := [("", v)];
    var ts := seq(|fs|, i requires 0 <= i < |fs| =>
      LiteralText(fs[i].0) + ":" + WriteValue(fs[i].1, 2) + ObjectSep(|fs|, i, 1));
    assert LiteralText("") == "";
    assert ObjectSep(1, 0, 1) == "";
    assert |ts| == 1 && ts[0] == ":" + WriteValue(v, 2);
    assert Cat(ts) == ":" + WriteValue(v, 2) by {
      assert ts[..0] == [];
      assert Cat(ts) == Cat(ts[..0]) + ts[0];
    }
    var w := WriteValue(JObject(true, fs), 1);
    assert w == "{" + (":" + WriteValue(v, 2)) + "}";
    var s := w + rest;
    assert s[0] == '{' && s[1] == ':';
    NoSpace(s, 0, 1);
    NoSpace(s, 1, 1);
    assert StartMode(s[0]) == ObjectMode;
    assert StartMode(s[1]) == NoneMode;
    assert ReadValue(s, 1, 1, true).Fail?;
    assert ReadEntry(s, 1, 1).EntryFail?;
    assert ReadObject(s, 1, 1).Fail?;
  }

  /** `write_literal` as evidently intended: the empty string is written quoted. */
  function LiteralTextIntended(t: string): (r: string)
    ensures |r| > 0
    ensures t != [] && BareOk(t) ==> r == t
  {
    if t != [] && BareOk(t) then t else Quoted(t)
  }

  /**
   * With the correction, a key written by `write_literal` and followed by
   * a character that ends a literal (such as the `:` of an object) is read
   * back as a scalar holding that key.
   */
  lemma KeyReadsBackIntended(t: string, rest: string, line: nat)
    requires forall i | 0 <= i < |t| :: RoundTrips(t[i])
    requires rest != [] ==> RejectsLiteral(rest[0])
    ensures var r := ReadValue(LiteralTextIntended(t) + rest, 0, line, true);
      r.Ok? && IsScalar(r.value) && Scalar(r.value) == t && r.pos == |LiteralTextIntended(t)|
  {
    if t != [] && BareOk(t) {
      LiteralReadsBack(t, rest, line, true);
    } else {
      StringReadsBack(t, rest, line, true);
    }
  }
}
