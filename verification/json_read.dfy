/**
 * The stream reader of Zaimoni.STL/Pure.CPP/json.cpp: whitespace and line
 * counting (`consume_whitespace`), dispatch on the first significant
 * character (`scan_for_data_start`), and the `finish_reading_*` readers for
 * objects, arrays, strings and literals.
 *
 * The input stream is the text `s` with a read position; a reader returns
 * the value, the position after it and the line count, or `Fail` where the
 * source throws `std::runtime_error` (with the line it reports).
 */
module JsonRead {
  import opened Wrappers
  import opened JsonValue

  /** Characters C writes as `\v`, `\f` and `\b`. */
  const VT: char := '\U{000B}'
  const FF: char := '\U{000C}'
  const BS: char := '\U{0008}'

  datatype Read =
    | Ok(value: Json, pos: nat, line: nat)
    | Fail(line: nat)

  // ------------------------------------------------------------------
  // consume_whitespace (json.cpp:325-360)
  // ------------------------------------------------------------------

  /**
   * What `consume_whitespace` skips: line breaks and " \t\f\v", and NUL,
   * which `strchr` finds as the terminator of its set.
   */
  predicate IsWs(c: char) {
    c == '\r' || c == '\n' || c == ' ' || c == '\t' || c == FF || c == VT || c == '\0'
  }

  /** The position of the first character at or after `pos` that is not whitespace. */
  function SkipWs(s: string, pos: nat): (e: nat)
    requires pos <= |s|
    ensures pos <= e <= |s|
    ensures forall k | pos <= k < e :: IsWs(s[k])
    ensures e < |s| ==> !IsWs(s[e])
    decreases |s| - pos
  {
    if pos == |s| || !IsWs(s[pos]) then pos else SkipWs(s, pos + 1)
  }

  /**
   * The lines counted over the whitespace `t`, given whether the previous
   * character was a lone `\r` (`cr`) or a lone `\n` (`nl`): each break
   * counts, except the second half of a `\r\n` or `\n\r` pair.
   */
  function Breaks(t: string, cr: bool, nl: bool): nat
  {
    if t == [] then 0
    else if t[0] == '\r' then
      if nl then Breaks(t[1..], false, false) else 1 + Breaks(t[1..], true, false)
    else if t[0] == '\n' then
      if cr then Breaks(t[1..], false, false) else 1 + Breaks(t[1..], false, true)
    else Breaks(t[1..], false, false)
  }

  /** The line count after `consume_whitespace` from `pos`. */
  function LineAfter(s: string, pos: nat, line: nat): nat
    requires pos <= |s|
  {
    line + Breaks(s[pos..SkipWs(s, pos)], false, false)
  }

  /**
   * `consume_whitespace`: skips whitespace from `pos`, counting lines, and
   * says whether a character follows.
   */
  method ConsumeWhitespace(s: string, pos: nat, line: nat) returns (more: bool, p: nat, ln: nat)
    requires pos <= |s|
    ensures p == SkipWs(s, pos) && ln == LineAfter(s, pos, line)
    ensures more <==> p < |s|
    ensures p < |s| ==> !IsWs(s[p])
  {
    ghost var e := SkipWs(s, pos);
    var cr, nl := false, false;
    p, ln := pos, line;
    while p < |s| && IsWs(s[p])
      invariant pos <= p <= e
      invariant ln + Breaks(s[p..e], cr, nl) == line + Breaks(s[pos..e], false, false)
      decreases |s| - p
    {
      assert s[p..e][1..] == s[p + 1..e];
      var c := s[p];
      if c == '\r' {
        if nl {
          cr, nl := false, false;
        } else {
          cr := true;
          ln := ln + 1;
        }
      } else if c == '\n' {
        if cr {
          cr, nl := false, false;
        } else {
          nl := true;
          ln := ln + 1;
        }
      } else {
        cr, nl := false, false;
      }
      p := p + 1;
    }
    more := p < |s|;
  }

  /** `\r`, `\n` and `\r\n` each count as one line. */
  lemma {:induction false} OneBreakEach()
    ensures Breaks("\r", false, false) == 1
    ensures Breaks("\n", false, false) == 1
    ensures Breaks("\r\n", false, false) == 1
    ensures Breaks("\n\r", false, false) == 1
    ensures Breaks("\r\r", false, false) == 2
    ensures Breaks("\n\n", false, false) == 2
    ensures Breaks("\r \n", false, false) == 2
  {
    assert "\r\n"[1..] == "\n" && "\n\r"[1..] == "\r";
    assert "\r\r"[1..] == "\r" && "\n\n"[1..] == "\n";
    assert "\r \n"[1..] == " \n" && " \n"[1..] == "\n";
  }

  /** The number of `c` in `t`. */
  function Count(t: string, c: char): nat
  {
    if t == [] then 0 else (if t[0] == c then 1 else 0) + Count(t[1..], c)
  }

  /** Without carriage returns, every `\n` counts: Unix text. */
  lemma {:induction false} UnixLines(t: string, nl: bool)
    requires forall i | 0 <= i < |t| :: t[i] != '\r'
    ensures Breaks(t, false, nl) == Count(t, '\n')
  {
    if t != [] {
      UnixLines(t[1..], t[0] == '\n');
    }
  }

  /** `k` DOS line ends. */
  function Crlf(k: nat): string
  {
    if k == 0 then "" else "\r\n" + Crlf(k - 1)
  }

  /** `k` DOS line ends count as `k` lines. */
  lemma {:induction false} DosLines(k: nat, t: string)
    ensures Breaks(Crlf(k) + t, false, false) == k + Breaks(t, false, false)
  {
    if k > 0 {
      var rest := Crlf(k - 1) + t;
      var x := Crlf(k) + t;
      assert x == ['\r'] + (['\n'] + rest);
      assert x[1..] == ['\n'] + rest && x[1..][1..] == rest;
      assert Breaks(x, false, false) == 1 + Breaks(x[1..], true, false);
      assert Breaks(x[1..], true, false) == Breaks(rest, false, false);
      DosLines(k - 1, t);
    } else {
      assert Crlf(k) + t == t;
    }
  }

  // ------------------------------------------------------------------
  // scan_for_data_start (json.cpp:363-379)
  // ------------------------------------------------------------------

  /** The mode a value starting with `c` is read as; `none` for a character that cannot start one. */
  function StartMode(c: char): (m: nat)
    ensures m <= LiteralMode
    ensures m == ArrayMode <==> c == '['
    ensures m == ObjectMode <==> c == '{'
    ensures m == StringMode <==> c == '"'
    ensures m == NoneMode <==> c in ",}]:\0"
  {
    if c == '[' then ArrayMode
    else if c == '{' then ObjectMode
    else if c == '"' then StringMode
    else if c in ",}]:\0" then NoneMode
    else LiteralMode
  }

  // ------------------------------------------------------------------
  // finish_reading_string (json.cpp:591-649)
  // ------------------------------------------------------------------

  /** What an escape `\c` stands for; an unknown escape keeps its backslash. */
  function Unescape(c: char): (r: string)
    ensures c == 'n' ==> r == "\r"
    ensures c == 'v' ==> r == [FF]
    ensures |r| == 1 <==> c in "rntvfb\"'\\"
    ensures |r| != 1 ==> r == ['\\', c]
  {
    if c == 'r' || c == 'n' then "\r"
    else if c == 't' then "\t"
    else if c == 'v' || c == 'f' then [FF]
    else if c == 'b' then [BS]
    else if c == '"' || c == '\'' || c == '\\' then [c]
    else ['\\', c]
  }

  /**
   * The text of a string whose opening quote has been read, and how many
   * characters it takes: up to the closing quote (taken), or to the end of
   * the stream, where an unfinished escape is dropped.  `esc` says a
   * backslash has just been read.
   */
  function StrFrom(t: string, esc: bool): (r: (string, nat))
    ensures r.1 <= |t|
  {
    if t == [] then ("", 0)
    else if esc then
      var (x, n) := StrFrom(t[1..], false); (Unescape(t[0]) + x, n + 1)
    else if t[0] == '\\' then
      var (x, n) := StrFrom(t[1..], true); (x, n + 1)
    else if t[0] == '"' then ("", 1)
    else
      var (x, n) := StrFrom(t[1..], false); ([t[0]] + x, n + 1)
  }

  /** One step of `StrFrom` at position `p` of `s`. */
  lemma StrFromAt(s: string, p: nat, esc: bool)
    requires p < |s|
    ensures var rest, restEsc := StrFrom(s[p + 1..], false), StrFrom(s[p + 1..], true);
      StrFrom(s[p..], esc) ==
        if esc then (Unescape(s[p]) + rest.0, rest.1 + 1)
        else if s[p] == '\\' then (restEsc.0, restEsc.1 + 1)
        else if s[p] == '"' then ("", 1)
        else ([s[p]] + rest.0, rest.1 + 1)
  {
    assert s[p..][1..] == s[p + 1..];
  }

  /** `finish_reading_string` from `pos`, just after the opening quote. */
  method FinishReadingString(s: string, pos: nat) returns (text: string, p: nat)
    requires pos <= |s|
    ensures text == StrFrom(s[pos..], false).0
    ensures p == pos + StrFrom(s[pos..], false).1
  {
    text, p := "", pos;
    var inEscape := false;
    while p < |s|
      invariant pos <= p <= |s|
      invariant text + StrFrom(s[p..], inEscape).0 == StrFrom(s[pos..], false).0
      invariant p + StrFrom(s[p..], inEscape).1 == pos + StrFrom(s[pos..], false).1
      decreases |s| - p
    {
      var c := s[p];
      StrFromAt(s, p, inEscape);
      p := p + 1;
      if inEscape {
        text := text + Unescape(c);
        inEscape := false;
      } else if c == '\\' {
        inEscape := true;
      } else if c == '"' {
        return;
      } else {
        text := text + [c];
      }
    }
  }

  // ------------------------------------------------------------------
  // finish_reading_literal (json.cpp:651-671)
  // ------------------------------------------------------------------

  /** `reject_for_JSON_literal`: the listed characters, and NUL, which `strchr` finds as the terminator. */
  predicate RejectsLiteral(c: char) {
    c in " \r\n\t{}[],:\"\0" || c == VT || c == FF
  }

  /** Every whitespace character ends a literal. */
  lemma WsRejected(c: char)
    requires IsWs(c)
    ensures RejectsLiteral(c)
  {
  }

  /** Where a literal continuing at `pos` ends: the first rejected character, or the end. */
  function LitEnd(s: string, pos: nat): (e: nat)
    requires pos <= |s|
    ensures pos <= e <= |s|
    ensures forall k | pos <= k < e :: !RejectsLiteral(s[k])
    ensures e < |s| ==> RejectsLiteral(s[e])
    decreases |s| - pos
  {
    if pos == |s| || RejectsLiteral(s[pos]) then pos else LitEnd(s, pos + 1)
  }

  /** `finish_reading_literal` after its first character: reads on up to a rejected character. */
  method FinishReadingLiteral(s: string, pos: nat) returns (p: nat)
    requires pos <= |s|
    ensures p == LitEnd(s, pos)
  {
    p := pos;
    while p < |s| && !RejectsLiteral(s[p])
      invariant pos <= p <= LitEnd(s, pos)
      decreases |s| - p
    {
      p := p + 1;
    }
  }

  // ------------------------------------------------------------------
  // The readers (json.cpp:383-442, 482-589)
  // ------------------------------------------------------------------

  /**
   * The nested `JSON(istream&, line, last_read, must_be_scalar)` constructor:
   * whitespace, then a value by its first character.  At the end of the
   * stream it gives `none`; a key (`mustBeScalar`) that opens an object or
   * an array gives `none` too; a character that starts nothing throws.
   */
  function ReadValue(s: string, pos: nat, line: nat, mustBeScalar: bool): (r: Read)
    requires pos <= |s|
    ensures r.Ok? ==> pos <= r.pos <= |s| && (r.value != JNone ==> pos < r.pos)
    ensures r.Ok? && IsScalar(r.value) ==> r.value.text.Some?
    ensures r.Ok? && mustBeScalar ==> !r.value.JObject? && !r.value.JArray?
    decreases |s| - pos, 0
  {
    var e := SkipWs(s, pos);
    var ln := LineAfter(s, pos, line);
    if e == |s| then Ok(JNone, e, ln)
    else
      var m := StartMode(s[e]);
      if m == NoneMode then Fail(ln)
      else if m == ObjectMode then
        if mustBeScalar then Ok(JNone, e + 1, ln) else ReadObject(s, e + 1, ln)
      else if m == ArrayMode then
        if mustBeScalar then Ok(JNone, e + 1, ln) else ReadArray(s, e + 1, ln)
      else if m == StringMode then
        var (t, n) := StrFrom(s[e + 1..], false);
        Ok(JString(Some(t)), e + 1 + n, ln)
      else
        var p := LitEnd(s, e + 1);
        Ok(JLiteral(Some(s[e..p])), p, ln)
  }

  /** `finish_reading_object` after the `{`: `{}` is an object without a map. */
  function ReadObject(s: string, pos: nat, line: nat): (r: Read)
    requires pos <= |s|
    ensures r.Ok? ==> pos < r.pos <= |s| && r.value.JObject?
    ensures r.Ok? ==> (r.value.hasMap <==> r.value.fields != [])
    decreases |s| - pos, 3
  {
    var e := SkipWs(s, pos);
    var ln := LineAfter(s, pos, line);
    if e == |s| then Fail(ln)
    else if s[e] == '}' then Ok(JObject(false, []), e + 1, ln)
    else ObjectItems(s, e, ln, [])
  }

  /** A key, its `:` and its value, as the loop of `finish_reading_object` reads them. */
  datatype Entry =
    | EntryOk(key: string, value: Json, pos: nat, line: nat)
    | EntryFail(line: nat)

  /**
   * One entry of an object from `pos`: a key that is a string or a
   * literal, whitespace, `:`, whitespace, and a value; any other shape,
   * or the end of the stream, throws.
   */
  function ReadEntry(s: string, pos: nat, line: nat): (r: Entry)
    requires pos <= |s|
    ensures r.EntryOk? ==> pos < r.pos <= |s| && !r.value.JNone?
    decreases |s| - pos, 1
  {
    var k := ReadValue(s, pos, line, true);
    if k.Fail? || k.value.JNone? then EntryFail(k.line)
    else EntryValue(s, k.pos, k.line, Scalar(k.value))
  }

  /** The rest of an entry after its key: whitespace, `:`, whitespace and a value. */
  function EntryValue(s: string, pos: nat, line: nat, key: string): (r: Entry)
    requires pos <= |s|
    ensures r.EntryOk? ==> pos < r.pos <= |s| && !r.value.JNone? && r.key == key
    decreases |s| - pos, 1
  {
    var e1 := SkipWs(s, pos);
    var l1 := LineAfter(s, pos, line);
    if e1 == |s| || s[e1] != ':' then EntryFail(l1)
    else
      var e2 := SkipWs(s, e1 + 1);
      var l2 := LineAfter(s, e1 + 1, l1);
      if e2 == |s| then EntryFail(l2)
      else
        var v := ReadValue(s, e2, l2, false);
        if v.Fail? || v.value.JNone? then EntryFail(v.line)
        else EntryOk(key, v.value, v.pos, v.line)
  }

  /** What follows a member of a container. */
  datatype After =
    | Finished(pos: nat, line: nat)
    | Next(pos: nat, line: nat)
    | Stray(line: nat)

  /**
   * After a member: whitespace, then the end of the stream or the closing
   * bracket `close` (the container is complete), `,` (another member
   * follows), or anything else (a throw).
   */
  function AfterMember(s: string, pos: nat, line: nat, close: char): (a: After)
    requires pos <= |s|
    ensures !a.Stray? ==> pos <= a.pos <= |s|
    ensures a.Next? ==> pos < a.pos
  {
    var e := SkipWs(s, pos);
    var ln := LineAfter(s, pos, line);
    if e == |s| then Finished(e, ln)
    else if s[e] == close then Finished(e + 1, ln)
    else if s[e] != ',' then Stray(ln)
    else Next(e + 1, ln)
  }

  /**
   * The loop of `finish_reading_object` from a key at `pos`, with the
   * entries `acc` read so far.  A repeated key takes the later value.
   */
  function ObjectItems(s: string, pos: nat, line: nat, acc: Fields): (r: Read)
    requires pos <= |s|
    ensures r.Ok? ==> pos < r.pos <= |s| && r.value.JObject?
    ensures r.Ok? ==> r.value.hasMap && r.value.fields != []
    decreases |s| - pos, 2
  {
    var en := ReadEntry(s, pos, line);
    if en.EntryFail? then Fail(en.line)
    else
      var fs := Put(acc, en.key, en.value);
      var a := AfterMember(s, en.pos, en.line, '}');
      if a.Stray? then Fail(a.line)
      else if a.Finished? then Ok(JObject(true, fs), a.pos, a.line)
      else ObjectItems(s, a.pos, a.line, fs)
  }

  /** `finish_reading_array` after the `[`: `[]` is an array without a vector. */
  function ReadArray(s: string, pos: nat, line: nat): (r: Read)
    requires pos <= |s|
    ensures r.Ok? ==> pos < r.pos <= |s| && r.value.JArray?
    ensures r.Ok? ==> (r.value.hasVector <==> r.value.items != [])
    decreases |s| - pos, 3
  {
    var e := SkipWs(s, pos);
    var ln := LineAfter(s, pos, line);
    if e == |s| then Fail(ln)
    else if s[e] == ']' then Ok(JArray(false, []), e + 1, ln)
    else ArrayItems(s, e, ln, [])
  }

  /**
   * The loop of `finish_reading_array` from an element at `pos`, with the
   * elements `acc` read so far.
   */
  function ArrayItems(s: string, pos: nat, line: nat, acc: seq<Json>): (r: Read)
    requires pos <= |s|
    ensures r.Ok? ==> pos < r.pos <= |s| && r.value.JArray?
    ensures r.Ok? ==> r.value.hasVector && |r.value.items| > |acc|
    decreases |s| - pos, 1
  {
    var v := ReadValue(s, pos, line, false);
    if v.Fail? then v
    else if v.value.JNone? then Fail(v.line)
    else
      var xs := acc + [v.value];
      var a := AfterMember(s, v.pos, v.line, ']');
      if a.Stray? then Fail(a.line)
      else if a.Finished? then Ok(JArray(true, xs), a.pos, a.line)
      else ArrayItems(s, a.pos, a.line, xs)
  }

  /**
   * The top-level `JSON(istream&)` constructor (json.cpp:383-412): line 1,
   * and an empty or all-whitespace stream gives `none`.
   */
  function ReadTop(s: string): (r: Read)
    ensures r.Ok? ==> r.pos <= |s|
  {
    ReadValue(s, 0, 1, false)
  }

  // ------------------------------------------------------------------
  // The readers as loops over the stream
  // ------------------------------------------------------------------

  /** The nested `JSON` constructor (json.cpp:414-442) with `scan_for_data_start` (json.cpp:363-379). */
  method ReadJsonValue(s: string, pos: nat, line: nat, mustBeScalar: bool) returns (r: Read)
    requires pos <= |s|
    ensures r == ReadValue(s, pos, line, mustBeScalar)
    decreases |s| - pos, 0
  {
    var more, e, ln := ConsumeWhitespace(s, pos, line);
    if !more {
      return Ok(JNone, e, ln);
    }
    var code := StartMode(s[e]);
    if code == NoneMode {
      return Fail(ln);
    } else if code == ObjectMode {
      if mustBeScalar {
        return Ok(JNone, e + 1, ln);
      }
      r := FinishReadingObject(s, e + 1, ln);
    } else if code == ArrayMode {
      if mustBeScalar {
        return Ok(JNone, e + 1, ln);
      }
      r := FinishReadingArray(s, e + 1, ln);
    } else if code == StringMode {
      var text, p := FinishReadingString(s, e + 1);
      r := Ok(JString(Some(text)), p, ln);
    } else {
      var p := FinishReadingLiteral(s, e + 1);
      r := Ok(JLiteral(Some(s[e..p])), p, ln);
    }
  }

  /** The top-level `JSON(istream&)` constructor (json.cpp:383-412). */
  method ReadJson(s: string) returns (r: Read)
    ensures r == ReadTop(s)
  {
    r := ReadJsonValue(s, 0, 1, false);
  }

  /** One pass of the loop of `finish_reading_object` up to the value (json.cpp:499-524). */
  method ReadObjectEntry(s: string, pos: nat, line: nat) returns (r: Entry)
    requires pos <= |s|
    ensures r == ReadEntry(s, pos, line)
    decreases |s| - pos, 1
  {
    var key := ReadJsonValue(s, pos, line, true);
    if key.Fail? || key.value.JNone? {
      return EntryFail(key.line);
    }
    r := ReadEntryValue(s, key.pos, key.line, Scalar(key.value));
  }

  /** The `:` and the value of an entry (json.cpp:505-524). */
  method ReadEntryValue(s: string, pos: nat, line: nat, key: string) returns (r: Entry)
    requires pos <= |s|
    ensures r == EntryValue(s, pos, line, key)
    decreases |s| - pos, 1
  {
    var more, e1, l1 := ConsumeWhitespace(s, pos, line);
    if !more || s[e1] != ':' {
      return EntryFail(l1);
    }
    var more2, e2, l2 := ConsumeWhitespace(s, e1 + 1, l1);
    if !more2 {
      return EntryFail(l2);
    }
    var value := ReadJsonValue(s, e2, l2, false);
    if value.Fail? || value.value.JNone? {
      return EntryFail(value.line);
    }
    r := EntryOk(key, value.value, value.pos, value.line);
  }

  /** `finish_reading_object` (json.cpp:482-543). */
  method FinishReadingObject(s: string, pos: nat, line: nat) returns (r: Read)
    requires pos <= |s|
    ensures r == ReadObject(s, pos, line)
    decreases |s| - pos, 3
  {
    var more, e, ln := ConsumeWhitespace(s, pos, line);
    if !more {
      return Fail(ln);
    }
    if s[e] == '}' {
      return Ok(JObject(false, []), e + 1, ln);
    }
    var dest: Fields := [];
    var p := e;
    while true
      invariant e <= p <= |s|
      invariant ObjectItems(s, p, ln, dest) == ReadObject(s, pos, line)
      decreases |s| - p
    {
      var entry := ReadObjectEntry(s, p, ln);
      if entry.EntryFail? {
        return Fail(entry.line);
      }
      dest := Put(dest, entry.key, entry.value);
      var after := NextMember(s, entry.pos, entry.line, '}');
      if after.Stray? {
        return Fail(after.line);
      }
      if after.Finished? {
        return Ok(JObject(true, dest), after.pos, after.line);
      }
      p, ln := after.pos, after.line;
    }
  }

  /** `finish_reading_array` (json.cpp:547-589). */
  method FinishReadingArray(s: string, pos: nat, line: nat) returns (r: Read)
    requires pos <= |s|
    ensures r == ReadArray(s, pos, line)
    decreases |s| - pos, 3
  {
    var more, e, ln := ConsumeWhitespace(s, pos, line);
    if !more {
      return Fail(ln);
    }
    if s[e] == ']' {
      return Ok(JArray(false, []), e + 1, ln);
    }
    var dest: seq<Json> := [];
    var p := e;
    while true
      invariant e <= p <= |s|
      invariant ArrayItems(s, p, ln, dest) == ReadArray(s, pos, line)
      decreases |s| - p
    {
      var next := ReadJsonValue(s, p, ln, false);
      if next.Fail? || next.value.JNone? {
        return Fail(next.line);
      }
      dest := dest + [next.value];
      var after := NextMember(s, next.pos, next.line, ']');
      if after.Stray? {
        return Fail(after.line);
      }
      if after.Finished? {
        return Ok(JArray(true, dest), after.pos, after.line);
      }
      p, ln := after.pos, after.line;
    }
  }

  /**
   * The tail of both reading loops (json.cpp:526-540, 572-586): whitespace,
   * where the end of the stream keeps what was read, then the closing
   * bracket, or `,` for another member.
   */
  method NextMember(s: string, pos: nat, line: nat, close: char) returns (a: After)
    requires pos <= |s|
    ensures a == AfterMember(s, pos, line, close)
  {
    var more, e, ln := ConsumeWhitespace(s, pos, line);
    if !more {
      return Finished(e, ln);
    }
    if s[e] == close {
      return Finished(e + 1, ln);
    }
    if s[e] != ',' {
      return Stray(ln);
    }
    return Next(e + 1, ln);
  }

  // ------------------------------------------------------------------
  // What the readers build
  // ------------------------------------------------------------------

  /** A value the readers can build: well formed and passing `syntax_ok`. */
  predicate Sound(j: Json) {
    WellFormed(j) && SyntaxOk(j)
  }

  /** Every value read is well formed and passes `syntax_ok`, unless it is `none`. */
  lemma {:induction false} ReadValueSound(s: string, pos: nat, line: nat, mustBeScalar: bool)
    requires pos <= |s|
    ensures ReadValue(s, pos, line, mustBeScalar).Ok? ==>
      var j := ReadValue(s, pos, line, mustBeScalar).value; j.JNone? || Sound(j)
    decreases |s| - pos, 0
  {
    var e := SkipWs(s, pos);
    var ln := LineAfter(s, pos, line);
    if e < |s| && !mustBeScalar {
      if s[e] == '{' {
        ReadObjectSound(s, e + 1, ln);
      } else if s[e] == '[' {
        ReadArraySound(s, e + 1, ln);
      }
    }
  }

  lemma {:induction false} ReadObjectSound(s: string, pos: nat, line: nat)
    requires pos <= |s|
    ensures ReadObject(s, pos, line).Ok? ==> Sound(ReadObject(s, pos, line).value)
    decreases |s| - pos, 3
  {
    var e := SkipWs(s, pos);
    var ln := LineAfter(s, pos, line);
    if e < |s| && s[e] != '}' {
      ObjectItemsSound(s, e, ln, []);
    }
  }

  lemma {:induction false} ReadEntrySound(s: string, pos: nat, line: nat)
    requires pos <= |s|
    ensures ReadEntry(s, pos, line).EntryOk? ==> Sound(ReadEntry(s, pos, line).value)
    decreases |s| - pos, 1
  {
    var k := ReadValue(s, pos, line, true);
    if k.Ok? && !k.value.JNone? {
      EntryValueSound(s, k.pos, k.line, Scalar(k.value));
    }
  }

  lemma {:induction false} EntryValueSound(s: string, pos: nat, line: nat, key: string)
    requires pos <= |s|
    ensures EntryValue(s, pos, line, key).EntryOk? ==> Sound(EntryValue(s, pos, line, key).value)
    decreases |s| - pos, 1
  {
    var e1 := SkipWs(s, pos);
    var l1 := LineAfter(s, pos, line);
    if e1 < |s| && s[e1] == ':' {
      var e2 := SkipWs(s, e1 + 1);
      var l2 := LineAfter(s, e1 + 1, l1);
      if e2 < |s| {
        ReadValueSound(s, e2, l2, false);
      }
    }
  }

  lemma {:induction false} ObjectItemsSound(s: string, pos: nat, line: nat, acc: Fields)
    requires pos <= |s|
    requires Sorted(acc) && forall i | 0 <= i < |acc| :: Sound(acc[i].1)
    ensures ObjectItems(s, pos, line, acc).Ok? ==> Sound(ObjectItems(s, pos, line, acc).value)
    decreases |s| - pos, 2
  {
    var en := ReadEntry(s, pos, line);
    ReadEntrySound(s, pos, line);
    if en.EntryOk? {
      var fs := Put(acc, en.key, en.value);
      PutSorted(acc, en.key, en.value);
      PutAll(acc, en.key, en.value, Sound);
      var a := AfterMember(s, en.pos, en.line, '}');
      if a.Next? {
        ObjectItemsSound(s, a.pos, a.line, fs);
      }
    }
  }

  lemma {:induction false} ReadArraySound(s: string, pos: nat, line: nat)
    requires pos <= |s|
    ensures ReadArray(s, pos, line).Ok? ==> Sound(ReadArray(s, pos, line).value)
    decreases |s| - pos, 3
  {
    var e := SkipWs(s, pos);
    var ln := LineAfter(s, pos, line);
    if e < |s| && s[e] != ']' {
      ArrayItemsSound(s, e, ln, []);
    }
  }

  lemma {:induction false} ArrayItemsSound(s: string, pos: nat, line: nat, acc: seq<Json>)
    requires pos <= |s|
    requires forall i | 0 <= i < |acc| :: Sound(acc[i])
    ensures ArrayItems(s, pos, line, acc).Ok? ==> Sound(ArrayItems(s, pos, line, acc).value)
    decreases |s| - pos, 1
  {
    var v := ReadValue(s, pos, line, false);
    ReadValueSound(s, pos, line, false);
    if v.Ok? && !v.value.JNone? {
      var a := AfterMember(s, v.pos, v.line, ']');
      if a.Next? {
        ArrayItemsSound(s, a.pos, a.line, acc + [v.value]);
      }
    }
  }

  /** Elements are appended in the order they are read: what was read before stays, in place. */
  lemma {:induction false} ArrayItemsKeepOrder(s: string, pos: nat, line: nat, acc: seq<Json>)
    requires pos <= |s|
    ensures ArrayItems(s, pos, line, acc).Ok? ==>
      var xs := ArrayItems(s, pos, line, acc).value.items; |acc| < |xs| && xs[..|acc|] == acc
    decreases |s| - pos
  {
    var v := ReadValue(s, pos, line, false);
    if v.Ok? && !v.value.JNone? {
      var a := AfterMember(s, v.pos, v.line, ']');
      if a.Next? {
        ArrayItemsKeepOrder(s, a.pos, a.line, acc + [v.value]);
        var r := ArrayItems(s, a.pos, a.line, acc + [v.value]);
        if r.Ok? {
          assert r.value.items[..|acc|] == r.value.items[..|acc| + 1][..|acc|];
        }
      }
    }
  }

  /** The keys read so far stay in the object; a later entry can only replace their values. */
  lemma {:induction false} ObjectItemsKeepKeys(s: string, pos: nat, line: nat, acc: Fields, k: string)
    requires pos <= |s|
    ensures ObjectItems(s, pos, line, acc).Ok? && Find(acc, k).Some? ==>
      Find(ObjectItems(s, pos, line, acc).value.fields, k).Some?
    decreases |s| - pos
  {
    var en := ReadEntry(s, pos, line);
    if en.EntryOk? {
      var fs := Put(acc, en.key, en.value);
      FindPut(acc, en.key, en.value, k);
      var a := AfterMember(s, en.pos, en.line, '}');
      if a.Next? {
        ObjectItemsKeepKeys(s, a.pos, a.line, fs, k);
      }
    }
  }

  /**
   * An entry followed by the end of the stream or by `}` completes the
   * object: its value is stored under its key, replacing any earlier value
   * for that key, and every other key keeps what the earlier entries gave it
   * (json.cpp:526-536).
   */
  lemma LastEntryWins(s: string, pos: nat, line: nat, acc: Fields, k: string, v: Json, p: nat, l: nat)
    requires pos <= |s|
    requires ReadEntry(s, pos, line) == EntryOk(k, v, p, l)
    requires AfterMember(s, p, l, '}').Finished?
    ensures var r := ObjectItems(s, pos, line, acc);
      r.Ok? && r.value.hasMap && Find(r.value.fields, k) == Some(v) &&
      forall k' | k' != k :: Find(r.value.fields, k') == Find(acc, k')
  {
    forall k' {
      FindPut(acc, k, v, k');
    }
  }

  /**
   * An element followed only by whitespace up to the end of the stream
   * completes the array with the elements read so far (json.cpp:565-577).
   */
  lemma ArrayEndsWithStream(s: string, pos: nat, line: nat, acc: seq<Json>, v: Json, p: nat, l: nat)
    requires pos <= |s|
    requires ReadValue(s, pos, line, false) == Ok(v, p, l) && !v.JNone?
    requires SkipWs(s, p) == |s|
    ensures ArrayItems(s, pos, line, acc) == Ok(JArray(true, acc + [v]), |s|, LineAfter(s, p, l))
  {
  }

  /**
   * A key whose next significant character is not `:`, or that the stream
   * ends after, makes the entry throw, and with it the whole object
   * (json.cpp:499-514).
   */
  lemma KeyWithoutColonFails(s: string, pos: nat, line: nat, acc: Fields, key: Json, p: nat, l: nat)
    requires pos <= |s|
    requires ReadValue(s, pos, line, true) == Ok(key, p, l) && !key.JNone?
    requires SkipWs(s, p) == |s| || s[SkipWs(s, p)] != ':'
    ensures ReadEntry(s, pos, line) == EntryFail(LineAfter(s, p, l))
    ensures ObjectItems(s, pos, line, acc) == Fail(LineAfter(s, p, l))
  {
  }

  // ------------------------------------------------------------------
  // Examples
  // ------------------------------------------------------------------

  /** Where the next character is significant, `consume_whitespace` moves nothing and counts nothing. */
  lemma NoSpace(s: string, pos: nat, line: nat)
    requires pos <= |s| && (pos < |s| ==> !IsWs(s[pos]))
    ensures SkipWs(s, pos) == pos && LineAfter(s, pos, line) == line
  {
    assert s[pos..pos] == [];
  }

  /** An empty stream is `none`; a stream starting with `,` throws on line 1. */
  lemma EmptyStream(s: string)
    ensures |s| == 0 ==> ReadTop(s) == Ok(JNone, 0, 1)
    ensures |s| > 0 && s[0] == ',' ==> ReadTop(s) == Fail(1)
  {
    if |s| == 0 || s[0] == ',' {
      NoSpace(s, 0, 1);
    }
  }

  /** `{}` is an object without a map. */
  lemma EmptyObject(s: string)
    requires |s| == 2 && s[0] == '{' && s[1] == '}'
    ensures ReadTop(s) == Ok(JObject(false, []), 2, 1)
  {
    NoSpace(s, 0, 1);
    NoSpace(s, 1, 1);
    assert ReadObject(s, 1, 1) == Ok(JObject(false, []), 2, 1);
  }

  /** `[]` is an array without a vector. */
  lemma EmptyArray(s: string)
    requires |s| == 2 && s[0] == '[' && s[1] == ']'
    ensures ReadTop(s) == Ok(JArray(false, []), 2, 1)
  {
    NoSpace(s, 0, 1);
    NoSpace(s, 1, 1);
    assert ReadArray(s, 1, 1) == Ok(JArray(false, []), 2, 1);
  }

  /** `[1,2` at the end of the stream: the elements read so far, in order. */
  lemma TruncatedArray(s: string)
    requires |s| == 4 && s[0] == '[' && s[1] == '1' && s[2] == ',' && s[3] == '2'
    ensures ReadTop(s) == Ok(JArray(true, [JLiteral(Some("1")), JLiteral(Some("2"))]), 4, 1)
  {
    var x := JArray(true, [JLiteral(Some("1")), JLiteral(Some("2"))]);
    NoSpace(s, 0, 1);
    NoSpace(s, 1, 1);
    NoSpace(s, 2, 1);
    NoSpace(s, 3, 1);
    NoSpace(s, 4, 1);
    assert LitEnd(s, 2) == 2 && LitEnd(s, 4) == 4;
    assert s[1..2] == "1" && s[3..4] == "2";
    assert ReadValue(s, 1, 1, false) == Ok(JLiteral(Some("1")), 2, 1);
    assert ReadValue(s, 3, 1, false) == Ok(JLiteral(Some("2")), 4, 1);
    assert ArrayItems(s, 3, 1, [JLiteral(Some("1"))]) == Ok(x, 4, 1);
    assert ArrayItems(s, 1, 1, []) == Ok(x, 4, 1);
    assert ReadArray(s, 1, 1) == Ok(x, 4, 1);
  }

  /** The first entry of `{a:1,a:2}`. */
  lemma DuplicateKeyFirstEntry(s: string)
    requires |s| == 9 && s[0] == '{' && s[1] == 'a' && s[2] == ':' && s[3] == '1' && s[4] == ','
    requires s[5] == 'a' && s[6] == ':' && s[7] == '2' && s[8] == '}'
    ensures ReadEntry(s, 1, 1) == EntryOk("a", JLiteral(Some("1")), 4, 1)
  {
    forall p | 1 <= p <= 4 ensures SkipWs(s, p) == p && LineAfter(s, p, 1) == 1 {
      NoSpace(s, p, 1);
    }
    assert LitEnd(s, 2) == 2 && LitEnd(s, 4) == 4;
    assert s[1..2] == "a" && s[3..4] == "1";
    assert ReadValue(s, 1, 1, true) == Ok(JLiteral(Some("a")), 2, 1);
    assert ReadValue(s, 3, 1, false) == Ok(JLiteral(Some("1")), 4, 1);
  }

  /** The second entry of `{a:1,a:2}`. */
  lemma DuplicateKeySecondEntry(s: string)
    requires |s| == 9 && s[0] == '{' && s[1] == 'a' && s[2] == ':' && s[3] == '1' && s[4] == ','
    requires s[5] == 'a' && s[6] == ':' && s[7] == '2' && s[8] == '}'
    ensures ReadEntry(s, 5, 1) == EntryOk("a", JLiteral(Some("2")), 8, 1)
  {
    forall p | 5 <= p <= 8 ensures SkipWs(s, p) == p && LineAfter(s, p, 1) == 1 {
      NoSpace(s, p, 1);
    }
    assert LitEnd(s, 6) == 6 && LitEnd(s, 8) == 8;
    assert s[5..6] == "a" && s[7..8] == "2";
    assert ReadValue(s, 5, 1, true) == Ok(JLiteral(Some("a")), 6, 1);
    assert ReadValue(s, 7, 1, false) == Ok(JLiteral(Some("2")), 8, 1);
  }

  /** `{a:1,a:2}`: the repeated key keeps the later value. */
  lemma DuplicateKey(s: string)
    requires |s| == 9 && s[0] == '{' && s[1] == 'a' && s[2] == ':' && s[3] == '1' && s[4] == ','
    requires s[5] == 'a' && s[6] == ':' && s[7] == '2' && s[8] == '}'
    ensures ReadTop(s) == Ok(JObject(true, [("a", JLiteral(Some("2")))]), 9, 1)
  {
    var one, two := JLiteral(Some("1")), JLiteral(Some("2"));
    DuplicateKeyFirstEntry(s);
    DuplicateKeySecondEntry(s);
    NoSpace(s, 0, 1);
    NoSpace(s, 1, 1);
    NoSpace(s, 4, 1);
    NoSpace(s, 8, 1);
    assert Put([("a", one)], "a", two) == [("a", two)];
    assert AfterMember(s, 4, 1, '}') == Next(5, 1);
    assert AfterMember(s, 8, 1, '}') == Finished(9, 1);
    assert ObjectItems(s, 5, 1, [("a", one)]) == Ok(JObject(true, [("a", two)]), 9, 1);
    assert ObjectItems(s, 1, 1, []) == Ok(JObject(true, [("a", two)]), 9, 1);
    assert ReadObject(s, 1, 1) == Ok(JObject(true, [("a", two)]), 9, 1);
  }

  /** `{a 1}`: a key not followed by `:` throws. */
  lemma MissingColon(s: string)
    requires |s| == 5 && s[0] == '{' && s[1] == 'a' && s[2] == ' ' && s[3] == '1' && s[4] == '}'
    ensures ReadTop(s).Fail?
  {
    NoSpace(s, 0, 1);
    NoSpace(s, 1, 1);
    NoSpace(s, 3, 1);
    assert SkipWs(s, 2) == 3;
    assert LitEnd(s, 2) == 2;
    assert ReadValue(s, 1, 1, true).Ok? && ReadValue(s, 1, 1, true).pos == 2;
    assert ReadEntry(s, 1, 1).EntryFail?;
    assert ReadObject(s, 1, 1).Fail?;
  }

  /** Two DOS line ends before a stray `,`: the error is reported on line 3. */
  lemma DosLineInError(s: string)
    requires |s| == 5 && s[..4] == Crlf(2) && s[4] == ','
    ensures ReadTop(s) == Fail(3)
  {
    assert Crlf(2) == ['\r', '\n', '\r', '\n'];
    assert SkipWs(s, 4) == 4;
    assert SkipWs(s, 0) == 4;
    DosLines(2, []);
    assert Crlf(2) + [] == s[0..4];
  }
}
