/**
 * The template preprocessor of tools/TemplateToolkit.py (Python 2.7).
 *
 * Command-line arguments are read left to right: `-D<name> <value>` binds a
 * template variable, anything else names a template file, which is processed
 * with the bindings made so far.  Processing scans the lines of the file once,
 * rewinding after each resolved block:
 *   - `[% IF name %]` ... `[% END IF %]` keeps its body iff `name` is bound;
 *   - `[% IF NOT name %]` ... `[% END IF %]` keeps its body iff `name` is not bound;
 *   - every other top-level line is right-stripped, each `[% name %]` in it is
 *     replaced by the bound value, and a newline is appended.
 * File reading and writing, printing and the process exit status are not
 * modelled as effects: a run's result is an `Outcome`.
 */
module TemplateToolkit {
  import opened Wrappers

  // ------------------------------------------------------------------
  // Python 2 string primitives
  // ------------------------------------------------------------------

  /** Python 2 `string.whitespace`: the space and the characters 9 to 13. */
  predicate IsSpace(c: char) { c == ' ' || '\t' <= c <= '\r' }

  /** `s.rstrip()`: the longest prefix of `s` that does not end in whitespace (see `RStripSpec`). */
  function RStrip(s: string): (r: string)
    ensures |r| <= |s|
    decreases |s|
  {
    if s != [] && IsSpace(s[|s| - 1]) then RStrip(s[..|s| - 1]) else s
  }

  lemma {:induction false} RStripSpec(s: string)
    ensures RStrip(s) <= s
    ensures RStrip(s) == [] || !IsSpace(RStrip(s)[|RStrip(s)| - 1])
    ensures forall k | |RStrip(s)| <= k < |s| :: IsSpace(s[k])
    decreases |s|
  {
    if s != [] && IsSpace(s[|s| - 1]) {
      RStripSpec(s[..|s| - 1]);
    }
  }

  /** `s.lstrip()`: `s` without its leading whitespace (see `LStripSpec`). */
  function LStrip(s: string): (r: string)
    ensures |r| <= |s|
    decreases |s|
  {
    if s != [] && IsSpace(s[0]) then LStrip(s[1..]) else s
  }

  lemma {:induction false} LStripSpec(s: string)
    ensures LStrip(s) == s[|s| - |LStrip(s)|..]
    ensures LStrip(s) == [] || !IsSpace(LStrip(s)[0])
    ensures forall k | 0 <= k < |s| - |LStrip(s)| :: IsSpace(s[k])
    decreases |s|
  {
    if s != [] && IsSpace(s[0]) {
      LStripSpec(s[1..]);
      assert s[1..][|s| - 1 - |LStrip(s)|..] == s[|s| - |LStrip(s)|..];
    }
  }

  /** `s.strip()` */
  function Strip(s: string): string { LStrip(RStrip(s)) }

  lemma RStripIdempotent(s: string)
    ensures RStrip(RStrip(s)) == RStrip(s)
  {
  }

  /** A string that starts with a non-space character is unchanged by `lstrip`. */
  lemma LStripNoLeadingSpace(s: string)
    requires s != [] && !IsSpace(s[0])
    ensures LStrip(s) == s
  {
  }

  /** `t` occurs in `s` starting at index `k`. */
  predicate OccursAt(s: string, t: string, k: nat) {
    k + |t| <= |s| && s[k..k + |t|] == t
  }

  /** Python's `t in s` for strings. */
  predicate Contains(s: string, t: string) {
    exists k: nat | k <= |s| :: OccursAt(s, t, k)
  }

  lemma ContainsHead(s: string, t: string)
    requires |t| <= |s|
    ensures s[..|t|] == t ==> Contains(s, t)
  {
    if s[..|t|] == t {
      assert OccursAt(s, t, 0);
    }
  }

  lemma ContainsTail(s: string, t: string)
    requires s != []
    ensures Contains(s[1..], t) ==> Contains(s, t)
  {
    if Contains(s[1..], t) {
      var k: nat :| k <= |s[1..]| && OccursAt(s[1..], t, k);
      assert s[k + 1..k + 1 + |t|] == s[1..][k..k + |t|];
      assert OccursAt(s, t, k + 1);
    }
  }

  /**
   * `v.join(s.split(t))` for a non-empty `t`: the occurrences of `t` found by a
   * left-to-right scan, none overlapping the previous one, are replaced by `v`.
   */
  function ReplaceAll(s: string, t: string, v: string): string
    requires t != []
    decreases |s|
  {
    if |s| < |t| then s
    else if s[..|t|] == t then v + ReplaceAll(s[|t|..], t, v)
    else [s[0]] + ReplaceAll(s[1..], t, v)
  }

  /** Splitting on a separator that does not occur and joining gives the string back. */
  lemma {:induction false} ReplaceAllAbsent(s: string, t: string, v: string)
    requires t != [] && !Contains(s, t)
    ensures ReplaceAll(s, t, v) == s
    decreases |s|
  {
    if |t| <= |s| {
      assert s[0..0 + |t|] == s[..|t|];
      ContainsHead(s, t);
      ContainsTail(s, t);
      ReplaceAllAbsent(s[1..], t, v);
      assert [s[0]] + s[1..] == s;
    }
  }

  /** Joining the pieces with the separator itself gives the string back. */
  lemma {:induction false} ReplaceAllSelf(s: string, t: string)
    requires t != []
    ensures ReplaceAll(s, t, t) == s
    decreases |s|
  {
    if |t| <= |s| {
      if s[..|t|] == t {
        ReplaceAllSelf(s[|t|..], t);
        assert t + s[|t|..] == s;
      } else {
        ReplaceAllSelf(s[1..], t);
        assert [s[0]] + s[1..] == s;
      }
    }
  }

  /** A value as long as the separator keeps the string's length. */
  lemma {:induction false} ReplaceAllSameLength(s: string, t: string, v: string)
    requires t != [] && |v| == |t|
    ensures |ReplaceAll(s, t, v)| == |s|
    decreases |s|
  {
    if |t| <= |s| {
      if s[..|t|] == t {
        ReplaceAllSameLength(s[|t|..], t, v);
      } else {
        ReplaceAllSameLength(s[1..], t, v);
      }
    }
  }

  // ------------------------------------------------------------------
  // Placeholders and markers
  // ------------------------------------------------------------------

  /** The placeholder `[% name %]` replaced by the value bound to `name`. */
  function Target(name: string): (r: string)
    ensures |r| == |name| + 6 && r[..3] == "[% " && r[|r| - 3..] == " %]"
  {
    "[% " + name + " %]"
  }

  /** `order` enumerates the bound names, each once (the dictionary's iteration order). */
  ghost predicate Enumerates(order: seq<string>, vars: map<string, string>) {
    (forall k :: k in order <==> k in vars) && |order| == |vars|
  }

  /** Substitution of every bound name, one name after another in iteration order. */
  function SubstAll(s: string, vars: map<string, string>, order: seq<string>): string
    requires forall k | k in order :: k in vars
    decreases |order|
  {
    if order == [] then s
    else SubstAll(ReplaceAll(s, Target(order[0]), vars[order[0]]), vars, order[1..])
  }

  /** A line that holds no placeholder of a bound name passes substitution unchanged. */
  lemma {:induction false} SubstAllNoPlaceholder(s: string, vars: map<string, string>, order: seq<string>)
    requires forall k | k in order :: k in vars
    requires forall k | k in order :: !Contains(s, Target(k))
    ensures SubstAll(s, vars, order) == s
    decreases |order|
  {
    if order != [] {
      ReplaceAllAbsent(s, Target(order[0]), vars[order[0]]);
      SubstAllNoPlaceholder(s, vars, order[1..]);
    }
  }

  /** The substitution loop of one top-level line (TemplateToolkit.py:57-60). */
  method SubstituteLine(line: string, vars: map<string, string>, order: seq<string>) returns (r: string)
    requires forall k | k in order :: k in vars
    ensures r == SubstAll(line, vars, order)
  {
    r := line;
    var n := 0;
    while n < |order|
      invariant n <= |order|
      invariant SubstAll(r, vars, order[n..]) == SubstAll(line, vars, order)
    {
      assert order[n..][1..] == order[n + 1..];
      var target := Target(order[n]);
      if Contains(r, target) {
        r := ReplaceAll(r, target, vars[order[n]]);
      } else {
        ReplaceAllAbsent(r, target, vars[order[n]]);
      }
      n := n + 1;
    }
    assert order[n..] == [];
  }

  const EndIf := "[% END IF %]"

  /** A right-stripped line that opens an `IF NOT` block (TemplateToolkit.py:49). */
  predicate IsIfNotOpener(l: string) {
    13 < |l| && l[..10] == "[% IF NOT " && l[|l| - 3..] == " %]"
  }

  /** A right-stripped line that opens an `IF` block (TemplateToolkit.py:53). */
  predicate IsIfOpener(l: string) {
    9 < |l| && l[..6] == "[% IF " && l[|l| - 3..] == " %]"
  }

  /** A line that closes the pending block: it is `[% END IF %]` once stripped on both sides. */
  predicate IsCloser(raw: string) { Strip(raw) == EndIf }

  /** The name tested by `IF NOT`: characters 10 to len-3 of the line as read, newline included. */
  function IfNotName(raw: string): string
    requires 13 <= |raw|
  {
    raw[10..|raw| - 3]
  }

  /** The name tested by `IF`: characters 6 to len-3 of the stripped line. */
  function IfName(raw: string): (r: string)
    requires IsIfOpener(RStrip(raw))
    ensures r == RStrip(raw)[6..|RStrip(raw)| - 3]
  {
    LStripNoLeadingSpace(RStrip(raw));
    Strip(raw)[6..|Strip(raw)| - 3]
  }

  /** An opener: `IF NOT` when it matches both shapes, the test at TemplateToolkit.py:49 coming first. */
  predicate IsOpener(raw: string) {
    IsIfNotOpener(RStrip(raw)) || IsIfOpener(RStrip(raw))
  }

  /** Whether the block opened by `raw` keeps its body (TemplateToolkit.py:68-69, 79-80). */
  function Keeps(vars: map<string, string>, raw: string): bool
    requires IsOpener(raw)
  {
    if IsIfNotOpener(RStrip(raw)) then IfNotName(raw) !in vars else IfName(raw) in vars
  }

  lemma OpenerNotEndIf(l: string)
    requires IsIfNotOpener(l) || IsIfOpener(l)
    ensures l != EndIf
  {
    assert l[3] == 'I';
  }

  // ------------------------------------------------------------------
  // The resolution of one file
  // ------------------------------------------------------------------

  /** What processing one file produces: its new lines, or the reason for `exit(1)`. */
  datatype Outcome =
    | Done(lines: seq<string>)
    | UnbalancedEndIf(at: nat)
    | UnclosedIf(at: nat)
    | UnclosedIfNot(at: nat)

  function Prepend(p: seq<string>, o: Outcome): Outcome {
    if o.Done? then Done(p + o.lines) else o
  }

  predicate EndsInNewline(l: string) { l != [] && l[|l| - 1] == '\n' }

  predicate NoCloser(s: seq<string>, from: int, to: int)
    requires 0 <= from && to <= |s|
  {
    forall m | from <= m < to :: !IsCloser(s[m])
  }

  /** The first line at or after `from` that closes a block. */
  function FindCloser(s: seq<string>, from: nat): (r: Option<nat>)
    ensures r.Some? ==> from <= r.value < |s| && IsCloser(s[r.value])
    ensures r.Some? ==> forall m | from <= m < r.value :: !IsCloser(s[m])
    ensures r.None? ==> forall m | from <= m < |s| :: !IsCloser(s[m])
    decreases |s| - from
  {
    if |s| <= from then None
    else if IsCloser(s[from]) then Some(from)
    else FindCloser(s, from + 1)
  }

  /**
   * The lines after a block that opens at 0 and closes at `c`: its body and the
   * rest when the body is kept, only the rest otherwise.
   */
  function AfterBlock(s: seq<string>, c: nat, keep: bool): seq<string>
    requires 1 <= c < |s|
  {
    if keep then s[1..c] + s[c + 1..] else s[c + 1..]
  }

  /**
   * The result of processing `src` when no block is pending and the scan is at
   * index `at` of the list being edited.  A resolved block is spliced out of the
   * list and the scan resumes at the opener's index, which the recursion on the
   * shrunk list expresses directly.
   */
  function Resolve(vars: map<string, string>, order: seq<string>, src: seq<string>, at: nat): Outcome
    requires forall k | k in order :: k in vars
    decreases |src|
  {
    if src == [] then Done([])
    else
      var line := RStrip(src[0]);
      if line == EndIf then UnbalancedEndIf(at)
      else if IsIfNotOpener(line) || IsIfOpener(line) then
        var negated := IsIfNotOpener(line);
        match FindCloser(src, 1)
        case None => if negated then UnclosedIfNot(at) else UnclosedIf(at)
        case Some(c) =>
          Resolve(vars, order, AfterBlock(src, c, Keeps(vars, src[0])), at)
      else
        Prepend([SubstAll(line, vars, order) + "\n"], Resolve(vars, order, src[1..], at + 1))
  }

  /**
   * A processed file has at most as many lines as its source, each ending in a
   * newline; a failure names the index of a line of the list being edited.
   */
  lemma {:induction false} ResolveShape(vars: map<string, string>, order: seq<string>, src: seq<string>, at: nat)
    requires forall k | k in order :: k in vars
    ensures var r := Resolve(vars, order, src, at);
      && (r.Done? ==> |r.lines| <= |src| && forall m | 0 <= m < |r.lines| :: EndsInNewline(r.lines[m]))
      && (!r.Done? ==> at <= r.at < at + |src|)
    decreases |src|
  {
    if src != [] {
      var line := RStrip(src[0]);
      if line == EndIf {
      } else if IsIfNotOpener(line) || IsIfOpener(line) {
        match FindCloser(src, 1)
        case None =>
        case Some(c) =>
          ResolveShape(vars, order, AfterBlock(src, c, Keeps(vars, src[0])), at);
      } else {
        ResolveShape(vars, order, src[1..], at + 1);
        var l := SubstAll(line, vars, order) + "\n";
        assert EndsInNewline(l);
      }
    }
  }

  lemma {:induction false} FindCloserAt(s: seq<string>, from: nat, c: nat)
    requires from <= c < |s| && IsCloser(s[c])
    requires NoCloser(s, from, c)
    ensures FindCloser(s, from) == Some(c)
    decreases c - from
  {
    if from < c {
      FindCloserAt(s, from + 1, c);
    }
  }

  /** A block whose closer is at `c` is resolved and the scan resumes where the opener was. */
  lemma ResolveClosed(vars: map<string, string>, order: seq<string>, s: seq<string>, at: nat, c: nat)
    requires forall k | k in order :: k in vars
    requires 1 <= c < |s| && IsOpener(s[0]) && IsCloser(s[c]) && NoCloser(s, 1, c)
    ensures Resolve(vars, order, s, at) ==
      Resolve(vars, order, AfterBlock(s, c, Keeps(vars, s[0])), at)
  {
    OpenerNotEndIf(RStrip(s[0]));
    FindCloserAt(s, 1, c);
  }

  /** A block with no closer after it makes the file fail at the opener. */
  lemma ResolveUnclosed(vars: map<string, string>, order: seq<string>, s: seq<string>, at: nat)
    requires forall k | k in order :: k in vars
    requires s != [] && IsOpener(s[0]) && NoCloser(s, 1, |s|)
    ensures Resolve(vars, order, s, at) ==
      if IsIfNotOpener(RStrip(s[0])) then UnclosedIfNot(at) else UnclosedIf(at)
  {
    OpenerNotEndIf(RStrip(s[0]));
  }

  /** Every line before `i` is final, and the rest of the file is still to be resolved from `i`. */
  ghost predicate Settled(vars: map<string, string>, order: seq<string>, goal: Outcome, src: seq<string>, i: nat)
    requires forall k | k in order :: k in vars
    requires i <= |src|
  {
    goal == Prepend(src[..i], Resolve(vars, order, src[i..], i))
  }

  /** The block opened at `k` is pending: it is still open at `i`, and the list up to `k` is settled. */
  ghost predicate OpenAt(vars: map<string, string>, order: seq<string>, goal: Outcome, src: seq<string>,
                         k: nat, i: nat, negated: bool)
    requires forall k | k in order :: k in vars
  {
    k < i <= |src| &&
    IsOpener(src[k]) && negated == IsIfNotOpener(RStrip(src[k])) &&
    NoCloser(src, k + 1, i) &&
    Settled(vars, order, goal, src, k)
  }

  lemma NoCloserShift(src: seq<string>, k: nat, i: nat)
    requires k < i <= |src| && NoCloser(src, k + 1, i)
    ensures NoCloser(src[k..], 1, i - k)
  {
    forall m | 1 <= m < i - k ensures !IsCloser(src[k..][m]) {
      assert src[k..][m] == src[k + m];
    }
  }

  lemma SettledInit(vars: map<string, string>, order: seq<string>, file: seq<string>)
    requires forall k | k in order :: k in vars
    ensures Settled(vars, order, Resolve(vars, order, file, 0), file, 0)
  {
    assert file[..0] == [] && file[0..] == file;
    var o := Resolve(vars, order, file, 0);
    if o.Done? {
      assert [] + o.lines == o.lines;
    }
  }

  lemma SettledDone(vars: map<string, string>, order: seq<string>, goal: Outcome, src: seq<string>)
    requires forall k | k in order :: k in vars
    requires Settled(vars, order, goal, src, |src|)
    ensures goal == Done(src)
  {
    assert src[..|src|] == src && src[|src|..] == [];
  }

  /** A top-level `[% END IF %]` ends the whole file's processing. */
  lemma SettledEndIf(vars: map<string, string>, order: seq<string>, goal: Outcome, src: seq<string>, i: nat)
    requires forall k | k in order :: k in vars
    requires i < |src| && Settled(vars, order, goal, src, i) && RStrip(src[i]) == EndIf
    ensures goal == UnbalancedEndIf(i)
  {
    assert src[i..][0] == src[i];
  }

  /** A top-level opener starts a pending block. */
  lemma SettledOpen(vars: map<string, string>, order: seq<string>, goal: Outcome, src: seq<string>, i: nat, negated: bool)
    requires forall k | k in order :: k in vars
    requires i < |src| && Settled(vars, order, goal, src, i)
    requires if negated then IsIfNotOpener(RStrip(src[i]))
             else IsIfOpener(RStrip(src[i])) && !IsIfNotOpener(RStrip(src[i]))
    ensures OpenAt(vars, order, goal, src, i, i + 1, negated)
  {
  }

  lemma PrependPrepend(p: seq<string>, q: seq<string>, o: Outcome)
    ensures Prepend(p, Prepend(q, o)) == Prepend(p + q, o)
  {
    if o.Done? {
      assert p + (q + o.lines) == (p + q) + o.lines;
    }
  }

  /** A top-level plain line is substituted and followed by the rest of the file's result. */
  lemma ResolvePlain(vars: map<string, string>, order: seq<string>, s: seq<string>, at: nat)
    requires forall k | k in order :: k in vars
    requires s != [] && RStrip(s[0]) != EndIf && !IsIfNotOpener(RStrip(s[0])) && !IsIfOpener(RStrip(s[0]))
    ensures Resolve(vars, order, s, at) ==
      Prepend([SubstAll(RStrip(s[0]), vars, order) + "\n"], Resolve(vars, order, s[1..], at + 1))
  {
  }

  /** A top-level plain line is substituted in place and becomes final. */
  lemma SettledPlain(vars: map<string, string>, order: seq<string>, goal: Outcome, src: seq<string>, i: nat)
    requires forall k | k in order :: k in vars
    requires i < |src| && Settled(vars, order, goal, src, i)
    requires RStrip(src[i]) != EndIf && !IsIfNotOpener(RStrip(src[i])) && !IsIfOpener(RStrip(src[i]))
    ensures Settled(vars, order, goal, src[i := SubstAll(RStrip(src[i]), vars, order) + "\n"], i + 1)
  {
    var line := SubstAll(RStrip(src[i]), vars, order) + "\n";
    var src' := src[i := line];
    var s := src[i..];
    assert s[0] == src[i];
    ResolvePlain(vars, order, s, i);
    assert s[1..] == src'[i + 1..];
    assert src'[..i + 1] == src[..i] + [line];
    PrependPrepend(src[..i], [line], Resolve(vars, order, src'[i + 1..], i + 1));
  }

  /** A line inside a pending block that does not close it is skipped. */
  lemma OpenAtSkip(vars: map<string, string>, order: seq<string>, goal: Outcome, src: seq<string>,
                   k: nat, i: nat, negated: bool)
    requires forall k | k in order :: k in vars
    requires i < |src| && OpenAt(vars, order, goal, src, k, i, negated) && !IsCloser(src[i])
    ensures OpenAt(vars, order, goal, src, k, i + 1, negated)
  {
  }

  /** Python's `s.pop(n)`, its result discarded: the list without its element `n`. */
  function Pop(s: seq<string>, n: nat): (r: seq<string>)
    requires n < |s|
    ensures |r| == |s| - 1
    ensures forall m | 0 <= m < |r| :: r[m] == if m < n then s[m] else s[m + 1]
  {
    s[..n] + s[n + 1..]
  }

  /** Python's `del s[a:b]`. */
  function Del(s: seq<string>, a: nat, b: nat): (r: seq<string>)
    requires a <= b <= |s|
    ensures |r| == |s| - (b - a)
    ensures forall m | 0 <= m < |r| :: r[m] == if m < a then s[m] else s[m + b - a]
  {
    s[..a] + s[b..]
  }

  /**
   * The list once the block opened at `k` and closed at `i` is resolved: only the
   * two markers removed when the body is kept, the whole block otherwise
   * (TemplateToolkit.py:70-73, 81-84).
   */
  function Spliced(src: seq<string>, k: nat, i: nat, keep: bool): (r: seq<string>)
    requires k < i < |src|
    ensures k <= |r| <= |src| - 2 && r[..k] == src[..k]
    ensures r[k..] == if keep then src[k + 1..i] + src[i + 1..] else src[i + 1..]
  {
    if keep then Pop(Pop(src, i), k) else Del(src, k, i + 1)
  }

  /** The closer at `i` resolves the block opened at `k`, which is spliced out of the list. */
  lemma OpenAtClose(vars: map<string, string>, order: seq<string>, goal: Outcome, src: seq<string>,
                    k: nat, i: nat, negated: bool)
    requires forall k | k in order :: k in vars
    requires i < |src| && OpenAt(vars, order, goal, src, k, i, negated) && IsCloser(src[i])
    ensures IsOpener(src[k]) && negated == IsIfNotOpener(RStrip(src[k]))
    ensures Settled(vars, order, goal, Spliced(src, k, i, Keeps(vars, src[k])), k)
  {
    ClosedTail(vars, order, src, k, i);
    SettledReplace(vars, order, goal, src, Spliced(src, k, i, Keeps(vars, src[k])), k);
  }

  /** Splicing out a closed block leaves a tail that resolves like the block did. */
  lemma ClosedTail(vars: map<string, string>, order: seq<string>, src: seq<string>, k: nat, i: nat)
    requires forall k | k in order :: k in vars
    requires k < i < |src| && IsOpener(src[k]) && IsCloser(src[i]) && NoCloser(src, k + 1, i)
    ensures Resolve(vars, order, Spliced(src, k, i, Keeps(vars, src[k]))[k..], k) == Resolve(vars, order, src[k..], k)
  {
    var keep := Keeps(vars, src[k]);
    var s := src[k..];
    var rest := AfterBlock(s, i - k, keep);
    assert Resolve(vars, order, s, k) == Resolve(vars, order, rest, k) by {
      assert s[0] == src[k] && s[i - k] == src[i];
      assert Keeps(vars, s[0]) == keep;
      NoCloserShift(src, k, i);
      ResolveClosed(vars, order, s, k, i - k);
    }
    var t := Spliced(src, k, i, keep)[k..];
    assert t == rest by {
      SplicedTail(src, k, i, keep);
    }
    ResolveCongruent(vars, order, t, rest, k);
  }

  lemma ResolveCongruent(vars: map<string, string>, order: seq<string>, a: seq<string>, b: seq<string>, at: nat)
    requires forall k | k in order :: k in vars
    requires a == b
    ensures Resolve(vars, order, a, at) == Resolve(vars, order, b, at)
  {
  }

  lemma SplicedTail(src: seq<string>, k: nat, i: nat, keep: bool)
    requires k < i < |src|
    ensures Spliced(src, k, i, keep)[k..] ==
      AfterBlock(src[k..], i - k, keep)
  {
    assert src[k..][1..i - k] == src[k + 1..i];
    assert src[k..][i - k + 1..] == src[i + 1..];
  }

  /** Replacing the unsettled tail by one that resolves alike keeps the list settled. */
  lemma SettledReplace(vars: map<string, string>, order: seq<string>, goal: Outcome,
                       src: seq<string>, r: seq<string>, k: nat)
    requires forall k | k in order :: k in vars
    requires k <= |src| && k <= |r| && Settled(vars, order, goal, src, k)
    requires r[..k] == src[..k] && Resolve(vars, order, r[k..], k) == Resolve(vars, order, src[k..], k)
    ensures Settled(vars, order, goal, r, k)
  {
  }

  /** A block still pending when the list is exhausted makes the file fail. */
  lemma OpenAtEnd(vars: map<string, string>, order: seq<string>, goal: Outcome, src: seq<string>,
                  k: nat, negated: bool)
    requires forall k | k in order :: k in vars
    requires OpenAt(vars, order, goal, src, k, |src|, negated)
    ensures goal == if negated then UnclosedIfNot(k) else UnclosedIf(k)
  {
    var s := src[k..];
    assert s[0] == src[k];
    NoCloserShift(src, k, |src|);
    ResolveUnclosed(vars, order, s, k);
  }

  /**
   * The `[% END IF %]` branch of TemplateToolkit.py:63-87: the pending block is
   * resolved, its opener popped, and the scan rewound to the opener's index.
   */
  method CloseBlock(vars: map<string, string>, ghost order: seq<string>, ghost goal: Outcome,
                    src: seq<string>, i: nat, ifStack: seq<nat>, ifNotStack: seq<nat>)
    returns (src': seq<string>, i': nat, ifStack': seq<nat>, ifNotStack': seq<nat>)
    requires forall k | k in order :: k in vars
    requires i < |src| && IsCloser(src[i])
    requires |ifStack| + |ifNotStack| == 1
    requires ifStack != [] ==> OpenAt(vars, order, goal, src, ifStack[0], i, false)
    requires ifNotStack != [] ==> OpenAt(vars, order, goal, src, ifNotStack[0], i, true)
    ensures ifStack' == [] && ifNotStack' == []
    ensures |src'| < |src| && i' <= |src'|
    ensures i' == (if ifStack != [] then ifStack[0] else ifNotStack[0]) && i' < i && IsOpener(src[i'])
    ensures src' == Spliced(src, i', i, Keeps(vars, src[i']))
    ensures Settled(vars, order, goal, src', i')
  {
    var j: int := if 0 < |ifStack| then ifStack[|ifStack| - 1] else -1;
    var k: int := if 0 < |ifNotStack| then ifNotStack[|ifNotStack| - 1] else -1;
    ifStack', ifNotStack' := ifStack, ifNotStack;
    if j < k {
      OpenAtClose(vars, order, goal, src, k, i, true);
      ifNotStack' := ifNotStack'[..|ifNotStack'| - 1];
      var test := IfNotName(src[k]);
      if test !in vars {
        src' := Pop(src, i);
        src' := Pop(src', k);
      } else {
        src' := Del(src, k, i + 1);
      }
      i' := k;
    } else {
      OpenAtClose(vars, order, goal, src, j, i, false);
      ifStack' := ifStack'[..|ifStack'| - 1];
      var test := IfName(src[j]);
      if test in vars {
        src' := Pop(src, i);
        src' := Pop(src', j);
      } else {
        src' := Del(src, j, i + 1);
      }
      i' := j;
    }
  }

  /** The `IF` / `IF NOT` / `END IF` loop of TemplateToolkit.py:39-96 over one file's lines. */
  method Process(vars: map<string, string>, order: seq<string>, file: seq<string>) returns (r: Outcome)
    requires Enumerates(order, vars)
    ensures r == Resolve(vars, order, file, 0)
  {
    ghost var goal := Resolve(vars, order, file, 0);
    SettledInit(vars, order, file);
    var src := file;
    var ifStack: seq<nat> := [];
    var ifNotStack: seq<nat> := [];
    var ub := |src|;
    var i: nat := 0;
    while i < ub
      invariant ub == |src| && i <= ub
      invariant |ifStack| + |ifNotStack| <= 1
      invariant ifStack == [] && ifNotStack == [] ==> Settled(vars, order, goal, src, i)
      invariant ifStack != [] ==> OpenAt(vars, order, goal, src, ifStack[0], i, false)
      invariant ifNotStack != [] ==> OpenAt(vars, order, goal, src, ifNotStack[0], i, true)
      decreases |src|, |src| - i
    {
      var srcLine := RStrip(src[i]);
      if |ifStack| == 0 && |ifNotStack| == 0 {
        if srcLine == EndIf {
          SettledEndIf(vars, order, goal, src, i);
          return UnbalancedEndIf(i);
        }
        if IsIfNotOpener(srcLine) {
          SettledOpen(vars, order, goal, src, i, true);
          ifNotStack := ifNotStack + [i];
          i := i + 1;
          continue;
        }
        if IsIfOpener(srcLine) {
          SettledOpen(vars, order, goal, src, i, false);
          ifStack := ifStack + [i];
          i := i + 1;
          continue;
        }
        SettledPlain(vars, order, goal, src, i);
        srcLine := SubstituteLine(srcLine, vars, order);
        src := src[i := srcLine + "\n"];
        i := i + 1;
      } else if Strip(srcLine) == EndIf {
        RStripIdempotent(src[i]);
        src, i, ifStack, ifNotStack := CloseBlock(vars, order, goal, src, i, ifStack, ifNotStack);
        ub := |src|;
      } else {
        RStripIdempotent(src[i]);
        if 0 < |ifStack| {
          OpenAtSkip(vars, order, goal, src, ifStack[0], i, false);
        } else {
          OpenAtSkip(vars, order, goal, src, ifNotStack[0], i, true);
        }
        i := i + 1;
      }
    }
    if 0 < |ifStack| {
      OpenAtEnd(vars, order, goal, src, ifStack[0], false);
      return UnclosedIf(ifStack[0]);
    }
    if 0 < |ifNotStack| {
      OpenAtEnd(vars, order, goal, src, ifNotStack[0], true);
      return UnclosedIfNot(ifNotStack[0]);
    }
    SettledDone(vars, order, goal, src);
    return Done(src);
  }

  /** A line that starts or ends a block. */
  predicate IsMarker(raw: string) { RStrip(raw) == EndIf || IsOpener(raw) }

  /**
   * A file without markers: every line is right-stripped, substituted and given
   * back its newline, in order (TemplateToolkit.py:57-62).
   */
  lemma {:induction false} ResolvePlainFile(vars: map<string, string>, order: seq<string>, src: seq<string>, at: nat)
    requires forall k | k in order :: k in vars
    requires forall m | 0 <= m < |src| :: !IsMarker(src[m])
    ensures Resolve(vars, order, src, at) ==
      Done(seq(|src|, m requires 0 <= m < |src| => SubstAll(RStrip(src[m]), vars, order) + "\n"))
    decreases |src|
  {
    if src != [] {
      assert !IsMarker(src[0]);
      ResolvePlainFile(vars, order, src[1..], at + 1);
      var tail := seq(|src| - 1, m requires 0 <= m < |src| - 1 => SubstAll(RStrip(src[1..][m]), vars, order) + "\n");
      var all := seq(|src|, m requires 0 <= m < |src| => SubstAll(RStrip(src[m]), vars, order) + "\n");
      assert all == [SubstAll(RStrip(src[0]), vars, order) + "\n"] + tail;
    }
  }

  /**
   * The name of an `IF NOT` opener is cut from the line before it is stripped,
   * so a line ending in a newline tests the name followed by a space: the body
   * is kept although the name is bound (TemplateToolkit.py:68).
   */
  lemma IfNotTestsTrailingSpace()
    ensures IsOpener("[% IF NOT X %]\n") && IsIfNotOpener(RStrip("[% IF NOT X %]\n"))
    ensures Keeps(map["X" := "1"], "[% IF NOT X %]\n")
    ensures IsOpener("[% IF NOT X %]") && !Keeps(map["X" := "1"], "[% IF NOT X %]")
  {
    assert RStrip("[% IF NOT X %]\n") == "[% IF NOT X %]";
    assert RStrip("[% IF NOT X %]") == "[% IF NOT X %]";
    assert IfNotName("[% IF NOT X %]\n") == "X ";
    assert IfNotName("[% IF NOT X %]") == "X";
  }

  /**
   * Openers inside a pending block are not pushed, so the first `END IF` closes
   * the outer block.  A kept outer block leaves the inner one to be resolved on
   * the rewind; a dropped one takes the inner opener with it and leaves the
   * outer `END IF` unbalanced at top level (TemplateToolkit.py:44-48, 63-89).
   */
  lemma NestedBlocksOuterKept()
    ensures Resolve(map["A" := "1"], ["A"], NestedExample(), 0) == Done([])
  {
    var s := NestedExample();
    NestedExampleLines();
    ResolveClosed(map["A" := "1"], ["A"], s, 0, 3);
    var kept := AfterBlock(s, 3, true);
    assert kept == [s[1], s[2], s[4]];
    ResolveClosed(map["A" := "1"], ["A"], kept, 0, 2);
    assert AfterBlock(kept, 2, false) == [];
  }

  lemma NestedBlocksOuterDropped()
    ensures Resolve(map[], [], NestedExample(), 0) == UnbalancedEndIf(0)
  {
    var s := NestedExample();
    NestedExampleLines();
    ResolveClosed(map[], [], s, 0, 3);
    assert AfterBlock(s, 3, false) == [s[4]];
  }

  lemma NestedExampleLines()
    ensures var s := NestedExample();
      && IsOpener(s[0]) && IsIfOpener(RStrip(s[0])) && !IsIfNotOpener(RStrip(s[0])) && IfName(s[0]) == "A"
      && IsOpener(s[1]) && IsIfOpener(RStrip(s[1])) && !IsIfNotOpener(RStrip(s[1])) && IfName(s[1]) == "B"
      && !IsCloser(s[1]) && !IsCloser(s[2]) && IsCloser(s[3]) && IsCloser(s[4]) && RStrip(s[4]) == EndIf
  {
    var s := NestedExample();
    assert RStrip(s[0]) == "[% IF A %]" && RStrip(s[1]) == "[% IF B %]";
    assert RStrip(s[2]) == "x" && RStrip(s[3]) == EndIf && RStrip(s[4]) == EndIf;
    RStripIdempotent(s[3]);
    RStripIdempotent(s[4]);
    assert Strip(s[2]) == "x";
  }

  function NestedExample(): seq<string> {
    ["[% IF A %]\n", "[% IF B %]\n", "x\n", "[% END IF %]\n", "[% END IF %]\n"]
  }

  // ------------------------------------------------------------------
  // Command line
  // ------------------------------------------------------------------

  /** A template file together with the bindings in force when it is reached. */
  datatype Job = Job(file: string, vars: map<string, string>)

  /**
   * The jobs the remaining arguments produce, given the bindings so far and the
   * name awaiting its value (`""` when none): TemplateToolkit.py:20-30.
   */
  function Jobs(args: seq<string>, vars: map<string, string>, pending: string): seq<Job>
    decreases |args|
  {
    if args == [] then []
    else if pending != "" then Jobs(args[1..], vars[pending := args[0]], "")
    else if |args[0]| >= 2 && args[0][..2] == "-D" then Jobs(args[1..], vars, args[0][2..])
    else [Job(args[0], vars)] + Jobs(args[1..], vars, "")
  }

  /** The argument loop of TemplateToolkit.py:17-30, collecting the files to process. */
  method ParseArgs(args: seq<string>) returns (jobs: seq<Job>)
    ensures jobs == Jobs(args, map[], "")
  {
    var templateVars: map<string, string> := map[];
    var macroName := "";
    jobs := [];
    var n := 0;
    while n < |args|
      invariant n <= |args|
      invariant jobs + Jobs(args[n..], templateVars, macroName) == Jobs(args, map[], "")
    {
      var line := args[n];
      assert args[n..][0] == line && args[n..][1..] == args[n + 1..];
      n := n + 1;
      if macroName != "" {
        templateVars := templateVars[macroName := line];
        macroName := "";
        continue;
      }
      if |line| >= 2 && line[..2] == "-D" {
        if 2 < |line| {
          macroName := line[2..];
        }
        continue;
      }
      jobs := jobs + [Job(line, templateVars)];
    }
  }

  /** `-D<name> <value>` binds `name`; the later of two bindings of one name wins. */
  lemma BindingOverwrites(name: string, v1: string, v2: string, rest: seq<string>, vars: map<string, string>)
    requires name != ""
    ensures Jobs(["-D" + name, v1, "-D" + name, v2] + rest, vars, "") == Jobs(rest, vars[name := v2], "")
  {
    var args := ["-D" + name, v1, "-D" + name, v2] + rest;
    assert args[0][..2] == "-D" && args[0][2..] == name;
    assert args[2][..2] == "-D" && args[2][2..] == name;
    assert args[1..][0] == v1 && args[1..][1..] == args[2..];
    assert args[2..][1..] == args[3..] && args[3..][0] == v2 && args[3..][1..] == rest;
    calc {
      Jobs(args, vars, "");
      Jobs(args[1..], vars, name);
      Jobs(args[2..], vars[name := v1], "");
      Jobs(args[3..], vars[name := v1], name);
      Jobs(rest, vars[name := v1][name := v2], "");
      { assert vars[name := v1][name := v2] == vars[name := v2]; }
      Jobs(rest, vars[name := v2], "");
    }
  }

  /** A file written by a run: its name and its lines. */
  datatype Written = Written(name: string, lines: seq<string>)

  /** What a run leaves behind: the files written, in order, and the exit status. */
  datatype RunResult = RunResult(written: seq<Written>, status: nat)

  /**
   * The jobs are processed in order, `contents[n]` being the lines read for
   * job `n` and `orders[n]` the order in which its bindings are enumerated.
   * The first failing file stops the run with status 1, before its output is
   * written (TemplateToolkit.py:30-99).
   */
  function Run(jobs: seq<Job>, contents: seq<seq<string>>, orders: seq<seq<string>>): (r: RunResult)
    requires |contents| == |jobs| && |orders| == |jobs|
    requires forall n | 0 <= n < |jobs| :: forall k | k in orders[n] :: k in jobs[n].vars
    ensures r.status == 0 || r.status == 1
    ensures r.status == 0 ==> |r.written| == |jobs|
    ensures r.status == 1 ==>
      |r.written| < |jobs| && !Resolve(jobs[|r.written|].vars, orders[|r.written|], contents[|r.written|], 0).Done?
    ensures forall n | 0 <= n < |r.written| ::
      Resolve(jobs[n].vars, orders[n], contents[n], 0) == Done(r.written[n].lines) &&
      r.written[n].name == OutputName(jobs[n].file)
    decreases |jobs|
  {
    if jobs == [] then RunResult([], 0)
    else
      var o := Resolve(jobs[0].vars, orders[0], contents[0], 0);
      if !o.Done? then RunResult([], 1)
      else
        var rest := Run(jobs[1..], contents[1..], orders[1..]);
        RunResult([Written(OutputName(jobs[0].file), o.lines)] + rest.written, rest.status)
  }

  /** The name of the file written for a template: `.tmpl` stripped, or `.out` appended. */
  function OutputName(file: string): (r: string)
    ensures r != file
    ensures |file| >= 5 && file[|file| - 5..] == ".tmpl" ==> r + ".tmpl" == file
    ensures !(|file| >= 5 && file[|file| - 5..] == ".tmpl") ==> r == file + ".out"
  {
    if |file| >= 5 && file[|file| - 5..] == ".tmpl" then file[..|file| - 5] else file + ".out"
  }
}
