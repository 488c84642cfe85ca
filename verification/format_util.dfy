/**
 * The integer <-> ASCII conversions of format_util.c: `z_umaxtoa` and
 * `z_imaxtoa` write the radix digits of a number, most significant first,
 * into a caller's buffer; `z_atoumax` reads an unsigned number after C
 * whitespace and reports EINVAL or ERANGE through errno; `imax_from_umax`
 * applies a sign to a magnitude.
 */
module FormatUtil {
  import opened CInt

  /** The values errno can be left with. */
  datatype Errno = Unchanged | EINVAL | ERANGE

  /** A result together with what errno was set to. */
  datatype Parsed = Parsed(value: int, err: Errno)

  function Pow(b: nat, e: nat): (r: nat)
    ensures b >= 1 ==> r >= 1
  {
    if e == 0 then 1 else Pow(b, e - 1) * b
  }

  /** The number a most-significant-first digit string denotes. */
  function Value(ds: seq<nat>, radix: nat): nat
  {
    if ds == [] then 0 else Value(ds[..|ds| - 1], radix) * radix + ds[|ds| - 1]
  }

  /** A digit string as the writers produce it: non-empty, digits below the radix, no leading zero. */
  predicate Canonical(ds: seq<nat>, radix: nat) {
    |ds| > 0 && (forall i | 0 <= i < |ds| :: ds[i] < radix) && (ds[0] != 0 || |ds| == 1)
  }

  /** The radix digits of `x`, most significant first. */
  function Digits(x: nat, radix: nat): (ds: seq<nat>)
    requires radix >= 2
    ensures Canonical(ds, radix)
    ensures Value(ds, radix) == x
    decreases x
  {
    if x < radix then [x]
    else
      DivModSplit(x, radix);
      var hi := Digits(x / radix, radix);
      AppendDigit(hi, x % radix, radix, x);
      hi + [x % radix]
  }

  /** A canonical digit string of a positive number stays canonical with a digit appended. */
  lemma AppendDigit(hi: seq<nat>, d: nat, radix: nat, x: nat)
    requires radix >= 2 && Canonical(hi, radix) && Value(hi, radix) >= 1
    requires d < radix && x == Value(hi, radix) * radix + d
    ensures Canonical(hi + [d], radix) && Value(hi + [d], radix) == x
  {
    ValueAppend(hi, d, radix);
    if |hi| == 1 {
      assert hi[..0] == [];
    }
  }

  lemma ValueAppend(ds: seq<nat>, d: nat, radix: nat)
    ensures Value(ds + [d], radix) == Value(ds, radix) * radix + d
  {
    assert (ds + [d])[..|ds|] == ds;
  }

  /** A number has exactly one canonical digit string. */
  lemma {:induction false} DigitsUnique(ds: seq<nat>, x: nat, radix: nat)
    requires radix >= 2 && Canonical(ds, radix) && Value(ds, radix) == x
    ensures ds == Digits(x, radix)
    decreases |ds|
  {
    var n := |ds|;
    if n == 1 {
      assert Value(ds[..0], radix) == 0;
    } else {
      var hi := ds[..n - 1];
      var d := ds[n - 1];
      assert hi[0] == ds[0] != 0;
      ValueAtLeastHead(hi, radix);
      assert x == Value(hi, radix) * radix + d && d < radix;
      assert x >= radix;
      DivModUnique(x, Value(hi, radix), d, radix);
      DigitsUnique(hi, x / radix, radix);
      assert ds == hi + [d];
    }
  }

  lemma {:induction false} ValueAtLeastHead(ds: seq<nat>, radix: nat)
    requires radix >= 1 && |ds| > 0
    ensures Value(ds, radix) >= ds[0]
    decreases |ds|
  {
    if |ds| > 1 {
      var hi := ds[..|ds| - 1];
      ValueAtLeastHead(hi, radix);
      assert hi[0] == ds[0];
    }
  }

  lemma DivModSplit(x: nat, radix: nat)
    requires radix >= 1
    ensures x == (x / radix) * radix + x % radix && x % radix < radix
    ensures x >= radix ==> x / radix >= 1
    ensures x >= radix >= 2 ==> x / radix < x
  {
    if x >= radix >= 2 {
      MulStep(1, radix, x / radix);
    }
  }

  lemma DivModUnique(x: nat, q: nat, d: nat, radix: nat)
    requires radix >= 1 && d < radix && x == q * radix + d
    ensures q == x / radix && d == x % radix
  {
    DivModSplit(x, radix);
    MulStep(q, x / radix, radix);
    MulStep(x / radix, q, radix);
  }

  lemma MulStep(a: nat, b: nat, r: nat)
    ensures a < b ==> a * r + r <= b * r
  {
    if a < b {
      var c := b - a;
      assert b * r == a * r + c * r;
      assert c * r >= r;
    }
  }

  /** `a <= t / r` exactly when `a * r <= t`. */
  lemma MulLeDiv(a: nat, t: nat, r: nat)
    requires r > 0
    ensures a <= t / r <==> a * r <= t
  {
    if a <= t / r {
      assert a * r <= (t / r) * r;
    } else {
      assert (t / r + 1) * r <= a * r;
    }
  }

  /** A value with `e + 1` digits lies in `[radix^e, radix^(e+1))` (or is 0 when `e == 0`). */
  lemma {:induction false} DigitCount(x: nat, radix: nat, e: nat)
    requires radix >= 2
    requires e == 0 || Pow(radix, e) <= x
    requires x < Pow(radix, e + 1)
    ensures |Digits(x, radix)| == e + 1
    decreases e
  {
    if e > 0 {
      assert radix <= Pow(radix, e) by { PowAtLeastBase(radix, e); }
      MulLeDiv(Pow(radix, e - 1), x, radix);
      MulLeDiv(Pow(radix, e), x, radix);
      DigitCount(x / radix, radix, e - 1);
    }
  }

  lemma {:induction false} PowAtLeastBase(b: nat, e: nat)
    requires b >= 1 && e >= 1
    ensures b <= Pow(b, e)
    decreases e
  {
    if e > 1 {
      PowAtLeastBase(b, e - 1);
    }
  }

  /** Digits below the radix are worth less than the next power of the radix. */
  lemma {:induction false} ValueBound(ds: seq<nat>, radix: nat)
    requires radix >= 1 && forall i | 0 <= i < |ds| :: ds[i] < radix
    ensures Value(ds, radix) < Pow(radix, |ds|)
    decreases |ds|
  {
    if ds != [] {
      var init := ds[..|ds| - 1];
      ValueBound(init, radix);
      MulStep(Value(init, radix), Pow(radix, |init|), radix);
    }
  }

  /** The leading digit splits off: it is worth `ds[0] * radix^(|ds|-1)`. */
  lemma {:induction false} ValueHead(ds: seq<nat>, radix: nat)
    requires |ds| >= 1
    ensures Value(ds, radix) == ds[0] * Pow(radix, |ds| - 1) + Value(ds[1..], radix)
    decreases |ds|
  {
    if |ds| == 1 {
      assert ds[1..] == [] && ds[..0] == [];
    } else {
      var init := ds[..|ds| - 1];
      ValueHead(init, radix);
      assert ds[1..][..|ds| - 2] == init[1..];
      Regroup(ds[0], Pow(radix, |ds| - 2), Value(init[1..], radix), radix, ds[|ds| - 1]);
    }
  }

  lemma Regroup(a: nat, p: nat, v: nat, r: nat, d: nat)
    ensures (a * p + v) * r + d == a * (p * r) + (v * r + d)
  {
    assert (a * p + v) * r == (a * p) * r + v * r;
    assert (a * p) * r == a * (p * r);
  }

  /**
   * The step of the writers' digit loop: with the digits from `j` on left
   * to write, `/` by the power of the leading place gives digit `j`, `%`
   * leaves the digits after it, and the power drops by one place.
   */
  lemma NextOfDigits(ds: seq<nat>, j: nat, radix: nat)
    requires radix >= 2 && j < |ds| && forall i | 0 <= i < |ds| :: ds[i] < radix
    ensures Value(ds[j..], radix) / Pow(radix, |ds| - j - 1) == ds[j]
    ensures Value(ds[j..], radix) % Pow(radix, |ds| - j - 1) == Value(ds[j + 1..], radix)
    ensures Pow(radix, |ds| - j - 1) / radix == if j + 1 < |ds| then Pow(radix, |ds| - j - 2) else 0
  {
    var s := ds[j..];
    ValueHead(s, radix);
    assert s[1..] == ds[j + 1..];
    ValueBound(ds[j + 1..], radix);
    DivModUnique(Value(s, radix), ds[j], Value(ds[j + 1..], radix), Pow(radix, |ds| - j - 1));
    if j + 1 < |ds| {
      DivModUnique(Pow(radix, |ds| - j - 1), Pow(radix, |ds| - j - 2), 0, radix);
    }
  }

  /**
   * The writers' loop state with the digits from `j` on still to write:
   * the power of the leading place (0 once all are written) and the value
   * still to write.
   */
  ghost predicate Remaining(ds: seq<nat>, j: nat, p: int, rest: int, radix: nat) {
    j <= |ds| && p == (if j < |ds| then Pow(radix, |ds| - j - 1) else 0) && rest == Value(ds[j..], radix)
  }

  /**
   * The arithmetic of one pass of `z_umaxtoa`'s digit loop
   * (format_util.c:19-23): the digit `rest / p`, what is left, `rest % p`,
   * and the next power, `p / radix`.
   */
  method NextDigit(ghost ds: seq<nat>, ghost j: nat, p: nat, rest: nat, radix: nat)
    returns (d: nat, rest': nat, p': nat)
    requires radix >= 2 && j < |ds| && forall i | 0 <= i < |ds| :: ds[i] < radix
    requires Remaining(ds, j, p, rest, radix)
    ensures d == ds[j] && Remaining(ds, j + 1, p', rest', radix)
  {
    NextOfDigits(ds, j, radix);
    d, rest', p' := rest / p, rest % p, p / radix;
  }

  /** A step of the writers' first loop: the next power still fits below `target` and grows. */
  lemma PowerStep(p: nat, target: nat, radix: nat, e: nat)
    requires radix >= 2 && p == Pow(radix, e) && p <= target / radix
    ensures p * radix == Pow(radix, e + 1) && p < p * radix <= target
  {
    MulLeDiv(p, target, radix);
    Grows(p, radix);
  }

  /** When the writers' first loop stops, `target` is below the next power. */
  lemma PowerEnd(p: nat, target: nat, radix: nat, e: nat)
    requires radix >= 2 && p == Pow(radix, e) && p > target / radix
    ensures target < Pow(radix, e + 1)
  {
    MulLeDiv(p, target, radix);
  }

  /** Multiplying by a radix of at least 2 grows a positive number. */
  lemma Grows(p: nat, radix: nat)
    requires p >= 1 && radix >= 2
    ensures p * radix > p
  {
    MulStep(1, radix, p);
  }

  /** The character for a digit: '0'-'9', then 'A'-'Z' (format_util.c:20). */
  function DigitChar(d: nat): (c: char)
    requires d < 36
    ensures DigitVal(c) == d
  {
    if d < 10 then ('0' as int + d) as char else ('A' as int + d - 10) as char
  }

  function Render(ds: seq<nat>): (s: seq<char>)
    requires forall i | 0 <= i < |ds| :: ds[i] < 36
    ensures |s| == |ds|
  {
    seq(|ds|, i requires 0 <= i < |ds| => DigitChar(ds[i]))
  }

  /** What `z_imaxtoa` writes before the NUL: a '-' for a negative number, then its digits. */
  function SignedText(target: int, radix: nat): seq<char>
    requires 2 <= radix <= 36
  {
    (if target < 0 then "-" else "") + Render(Digits(Abs(target), radix))
  }

  /** `z_umaxtoa` (format_util.c:13-28). */
  method UmaxToA(target: nat, buf: array<char>, radix: nat)
    requires target <= UintMax && 2 <= radix <= 36
    requires |Digits(target, radix)| < buf.Length
    modifies buf
    ensures buf[..|Digits(target, radix)|] == Render(Digits(target, radix))
    ensures buf[|Digits(target, radix)|] == '\0'
    ensures buf[|Digits(target, radix)| + 1..] == old(buf[|Digits(target, radix)| + 1..])
  {
    ghost var ds := Digits(target, radix);
    var powerUp, e := LeadingPower(target, radix);
    DigitCount(target, radix, e);
    var rest: nat := target;
    var ret: nat := 0;
    assert ds[0..] == ds;
    // the do-while of the source: powerUp >= 1 here, so the body runs at least once
    while 0 < powerUp
      invariant Remaining(ds, ret, powerUp, rest, radix)
      invariant buf[..ret] == Render(ds[..ret])
      invariant buf[ret..] == old(buf[ret..])
      decreases |ds| - ret
    {
      var d;
      d, rest, powerUp := NextDigit(ds, ret, powerUp, rest, radix);
      buf[ret] := DigitChar(d);
      ret := ret + 1;
      assert buf[..ret] == buf[..ret - 1] + [DigitChar(d)];
    }
    assert ds[..ret] == ds;
    buf[ret] := '\0';
  }

  /** C's `a / b` and `a % b` for `a <= 0 < -b`, in terms of magnitudes. */
  lemma NegQuotRem(a: int, b: int)
    requires a <= 0 && b < 0
    ensures Quot(a, b) == (-a) / (-b)
    ensures Rem(a, b) == -((-a) % (-b))
  {
  }

  /** C's `a / b` for `a <= 0 < b`, in terms of magnitudes. */
  lemma NegQuotPos(a: int, b: int)
    requires a <= 0 && b > 0
    ensures Quot(a, b) == -((-a) / b)
  {
  }

  /** The first loop of `z_umaxtoa` (format_util.c:16-17): the power of the radix of the leading digit. */
  method LeadingPower(target: nat, radix: nat) returns (powerUp: nat, ghost e: nat)
    requires radix >= 2
    ensures powerUp == Pow(radix, e)
    ensures e == 0 || powerUp <= target
    ensures target < Pow(radix, e + 1)
  {
    powerUp, e := 1, 0;
    while powerUp <= target / radix
      invariant powerUp == Pow(radix, e)
      invariant e == 0 || powerUp <= target
      decreases target - powerUp
    {
      PowerStep(powerUp, target, radix, e);
      powerUp := powerUp * radix;
      e := e + 1;
    }
    PowerEnd(powerUp, target, radix, e);
  }

  /**
   * The first loop of `z_imaxtoa` for a negative number
   * (format_util.c:50-51): the negated power of the radix of the leading
   * digit, found with C's division of negative numbers.
   */
  method NegLeadingPower(target: int, radix: nat) returns (powerUp: int, ghost e: nat)
    requires target < 0 && radix >= 2
    ensures powerUp == -(Pow(radix, e) as int)
    ensures e == 0 || -powerUp <= -target
    ensures -target < Pow(radix, e + 1)
  {
    powerUp, e := -1, 0;
    while powerUp >= Quot(target, radix)
      invariant -powerUp == Pow(radix, e)
      invariant e == 0 || -powerUp <= -target
      decreases -target + powerUp
    {
      NegPowerStep(powerUp, target, radix, e);
      powerUp := powerUp * radix;
      e := e + 1;
    }
    NegPowerEnd(powerUp, target, radix, e);
  }

  /** A step of `z_imaxtoa`'s first loop for a negative number, in C's division. */
  lemma NegPowerStep(p: int, target: int, radix: nat, e: nat)
    requires target < 0 && radix >= 2 && -p == Pow(radix, e) && p >= Quot(target, radix)
    ensures -(p * radix) == Pow(radix, e + 1) && -target >= -(p * radix) > -p
  {
    NegQuotPos(target, radix);
    PowerStep(-p, -target, radix, e);
  }

  /** When `z_imaxtoa`'s first loop for a negative number stops, the magnitude is below the next power. */
  lemma NegPowerEnd(p: int, target: int, radix: nat, e: nat)
    requires target < 0 && radix >= 2 && -p == Pow(radix, e) && p < Quot(target, radix)
    ensures -target < Pow(radix, e + 1)
  {
    NegQuotPos(target, radix);
    PowerEnd(-p, -target, radix, e);
  }

  /**
   * The arithmetic of one pass of `z_imaxtoa`'s digit loop for a negative
   * number (format_util.c:54-58), in C's truncating division: `rest` and
   * `p` are the negated remainder and power, so the digit comes out
   * non-negative.
   */
  method NegNextDigit(ghost ds: seq<nat>, ghost j: nat, p: int, rest: int, radix: nat)
    returns (d: nat, rest': int, p': int)
    requires radix >= 2 && j < |ds| && forall i | 0 <= i < |ds| :: ds[i] < radix
    requires Remaining(ds, j, -p, -rest, radix)
    ensures d == ds[j] && Remaining(ds, j + 1, -p', -rest', radix)
  {
    NextOfDigits(ds, j, radix);
    NegQuotRem(rest, p);
    NegQuotPos(p, radix);
    d, rest', p' := Quot(rest, p), Rem(rest, p), Quot(p, radix);
  }

  /**
   * `z_imaxtoa` (format_util.c:33-64).  A non-negative value is written as
   * `z_umaxtoa` writes it; a negative one works with a negative power of the
   * radix, so that INTMAX_MIN needs no positive counterpart.
   */
  method ImaxToA(target: int, buf: array<char>, radix: nat)
    requires IntMin <= target <= IntMax && 2 <= radix <= 36
    requires |SignedText(target, radix)| < buf.Length
    modifies buf
    ensures buf[..|SignedText(target, radix)|] == SignedText(target, radix)
    ensures buf[|SignedText(target, radix)|] == '\0'
    ensures buf[|SignedText(target, radix)| + 1..] == old(buf[|SignedText(target, radix)| + 1..])
  {
    if 0 <= target {
      UmaxToA(target, buf, radix);
    } else {
      NegativeToA(target, buf, radix);
    }
  }

  /** The negative branch of `z_imaxtoa` (format_util.c:49-61). */
  method NegativeToA(target: int, buf: array<char>, radix: nat)
    requires target < 0 && 2 <= radix <= 36
    requires |Digits(-target, radix)| + 1 < buf.Length
    modifies buf
    ensures buf[..|Digits(-target, radix)| + 1] == "-" + Render(Digits(-target, radix))
    ensures buf[|Digits(-target, radix)| + 1] == '\0'
    ensures buf[|Digits(-target, radix)| + 2..] == old(buf[|Digits(-target, radix)| + 2..])
  {
    ghost var ds := Digits(-target, radix);
    var powerUp, e := NegLeadingPower(target, radix);
    DigitCount(-target, radix, e);
    assert ds[0..] == ds;
    buf[0] := '-';
    NegDigitLoop(ds, target, powerUp, buf, radix);
  }

  /**
   * The digit loop of `z_imaxtoa` for a negative number
   * (format_util.c:53-62), writing after the '-' at `buf[0]`.
   */
  method NegDigitLoop(ghost ds: seq<nat>, target: int, powerUp: int, buf: array<char>, radix: nat)
    requires 2 <= radix <= 36 && |ds| > 0 && forall i | 0 <= i < |ds| :: ds[i] < radix
    requires Remaining(ds, 0, -powerUp, -target, radix)
    requires |ds| + 1 < buf.Length
    modifies buf
    ensures buf[1..|ds| + 1] == Render(ds) && buf[|ds| + 1] == '\0'
    ensures buf[0] == old(buf[0]) && buf[|ds| + 2..] == old(buf[|ds| + 2..])
  {
    var powerUp := powerUp;
    var rest := target;
    var ret: nat := 1;
    ghost var j: nat := 0;
    // the do-while of the source: powerUp <= -1 here, so the body runs at least once
    while 0 > powerUp
      invariant ret == j + 1
      invariant Remaining(ds, j, -powerUp, -rest, radix)
      invariant buf[0] == old(buf[0]) && buf[1..ret] == Render(ds[..j])
      invariant buf[ret..] == old(buf[ret..])
      decreases |ds| - j
    {
      var d;
      d, rest, powerUp := NegNextDigit(ds, j, powerUp, rest, radix);
      buf[ret] := DigitChar(d);
      ret, j := ret + 1, j + 1;
      assert buf[1..ret] == buf[1..ret - 1] + [DigitChar(d)];
    }
    assert ds[..j] == ds;
    buf[ret] := '\0';
  }

  /** The C whitespace `z_atoumax` skips (format_util.c:111). */
  predicate IsCSpace(c: char) {
    c == ' ' || c == '\n' || c == '\r' || c == '\U{000C}' || c == '\t' || c == '\U{000B}'
  }

  /**
   * The digit a character stands for in any radix up to 36: '0'-'9' are
   * 0-9 and letters of either case are 10-35; anything else is 36, a digit
   * in no radix.  A character is a radix-`r` digit when this is below `r`,
   * which is both tests of format_util.c:115 and 143.
   */
  function DigitVal(c: char): (d: nat)
    ensures d <= 36
  {
    if '0' <= c <= '9' then c as int - '0' as int
    else if 'A' <= c <= 'Z' then c as int - 'A' as int + 10
    else if 'a' <= c <= 'z' then c as int - 'a' as int + 10
    else 36
  }

  predicate IsDigit(c: char, radix: nat) {
    DigitVal(c) < radix
  }

  /** The length of the leading run of C whitespace (`strspn`). */
  function SpaceRun(s: seq<char>): (n: nat)
    ensures n <= |s|
    ensures forall i | 0 <= i < n :: IsCSpace(s[i])
    ensures n == |s| || !IsCSpace(s[n])
  {
    if s == [] || !IsCSpace(s[0]) then 0 else 1 + SpaceRun(s[1..])
  }

  /** The length of the leading run of radix digits. */
  function DigitRun(s: seq<char>, radix: nat): (n: nat)
    ensures n <= |s|
    ensures forall i | 0 <= i < n :: IsDigit(s[i], radix)
    ensures n == |s| || !IsDigit(s[n], radix)
  {
    if s == [] || !IsDigit(s[0], radix) then 0 else 1 + DigitRun(s[1..], radix)
  }

  function DigitsOf(s: seq<char>): (ds: seq<nat>)
    ensures |ds| == |s|
  {
    seq(|s|, i requires 0 <= i < |s| => DigitVal(s[i]))
  }

  /**
   * What `z_atoumax` returns and leaves in errno: after leading whitespace,
   * no digit is EINVAL, a digit run whose value exceeds UINTMAX_MAX is
   * ERANGE (both returning 0), otherwise the value of the run.
   */
  function ParseUmax(s: seq<char>, radix: nat): Parsed {
    var t := s[SpaceRun(s)..];
    var n := DigitRun(t, radix);
    if n == 0 then Parsed(0, EINVAL)
    else
      var v := Value(DigitsOf(t[..n]), radix);
      if v > UintMax then Parsed(0, ERANGE) else Parsed(v, Unchanged)
  }

  /** A digit string is worth at least any of its prefixes. */
  lemma {:induction false} ValuePrefix(ds: seq<nat>, j: nat, radix: nat)
    requires radix >= 1 && j <= |ds|
    ensures Value(ds[..j], radix) <= Value(ds, radix)
    decreases |ds|
  {
    if j < |ds| {
      var hi := ds[..|ds| - 1];
      assert ds[..j] == hi[..j];
      ValuePrefix(hi, j, radix);
      assert Value(hi, radix) * radix >= Value(hi, radix);
    } else {
      assert ds[..j] == ds;
    }
  }

  /** `z_atoumax` (format_util.c:107-184) over the characters before the terminating NUL. */
  method AtoUmax(buf: seq<char>, radix: nat) returns (ret: nat, err: Errno)
    requires 1 <= radix <= 36
    ensures Parsed(ret, err) == ParseUmax(buf, radix)
  {
    var maxSafeRadixMult := UintMax / radix;
    var i := SpaceRun(buf);
    ghost var start := i;
    ghost var t := buf[start..];
    ghost var n := DigitRun(t, radix);
    if !(i < |buf| && IsDigit(buf[i], radix)) {
      return 0, EINVAL;
    }
    ret := 0;
    while i < |buf| && IsDigit(buf[i], radix)
      invariant start <= i <= start + n
      invariant ret == Value(DigitsOf(t[..i - start]), radix) <= UintMax
      decreases |buf| - i
    {
      ghost var ds := DigitsOf(t[..i + 1 - start]);
      assert ds == DigitsOf(t[..i - start]) + [DigitVal(buf[i])];
      var ok;
      ok, ret := AccumulateDigit(DigitsOf(t[..i - start]), ret, DigitVal(buf[i]), radix, maxSafeRadixMult);
      i := i + 1;
      if !ok {
        ValuePrefix(DigitsOf(t[..n]), i - start, radix);
        assert DigitsOf(t[..n])[..i - start] == ds;
        return 0, ERANGE;
      }
    }
    assert t[..n] == t[..i - start];
    err := Unchanged;
  }

  /**
   * One pass of `z_atoumax`'s digit loops (format_util.c:121-135, 151-178): `ret`
   * takes one more digit unless multiplying by the radix or adding the
   * digit would pass UINTMAX_MAX.
   */
  method AccumulateDigit(ghost ds: seq<nat>, ret: nat, tmp: nat, radix: nat, maxSafeRadixMult: nat)
    returns (ok: bool, ret': nat)
    requires 1 <= radix && ret == Value(ds, radix) <= UintMax && maxSafeRadixMult == UintMax / radix
    ensures ok <==> Value(ds + [tmp], radix) <= UintMax
    ensures ok ==> ret' == Value(ds + [tmp], radix)
  {
    ValueAppend(ds, tmp, radix);
    MulLeDiv(ret, UintMax, radix);
    if maxSafeRadixMult < ret {
      return false, 0;
    }
    ret' := ret * radix;
    if UintMax - tmp < ret' {
      return false, 0;
    }
    ok, ret' := true, ret' + tmp;
  }

  /** `imax_from_umax` (format_util.c:189-204): the signed value of a sign and a magnitude. */
  function ImaxFromUmax(negative: bool, x: nat): (r: Parsed)
    requires x <= UintMax
    ensures IntMin <= r.value <= IntMax
    ensures r.err == Unchanged <==> (if negative then x <= IntMax + 1 else x <= IntMax)
    ensures r.err == Unchanged ==> r.value == (if negative then -(x as int) else x)
    ensures r.err != Unchanged ==> r.err == ERANGE && r.value == 0
  {
    if negative && x <= IntMax then Parsed(-(x as int), Unchanged)
    else if negative && x == IntMax + 1 then Parsed(-IntMax - 1, Unchanged)
    else if !negative && x <= IntMax then Parsed(x, Unchanged)
    else Parsed(0, ERANGE)
  }

  /** Reading back what `z_umaxtoa` wrote returns the number, errno untouched. */
  lemma AtoUmaxReadsUmaxToA(x: nat, radix: nat)
    requires x <= UintMax && 2 <= radix <= 36
    ensures ParseUmax(Render(Digits(x, radix)), radix) == Parsed(x, Unchanged)
  {
    var ds := Digits(x, radix);
    var s := Render(ds);
    assert !IsCSpace(s[0]);
    assert SpaceRun(s) == 0;
    assert s[0..] == s;
    DigitRunAll(s, radix);
    assert s[..|s|] == s;
    assert DigitsOf(s) == ds;
  }

  lemma {:induction false} DigitRunAll(s: seq<char>, radix: nat)
    requires forall i | 0 <= i < |s| :: IsDigit(s[i], radix)
    ensures DigitRun(s, radix) == |s|
    decreases |s|
  {
    if s != [] {
      DigitRunAll(s[1..], radix);
    }
  }

  /** Letters of either case are the same digit. */
  lemma LowerCaseDigits(radix: nat, d: nat)
    requires 10 <= d < radix <= 36
    ensures IsDigit(('a' as int + d - 10) as char, radix)
    ensures DigitVal(('a' as int + d - 10) as char) == DigitVal(DigitChar(d))
  {
  }

  /**
   * A number `z_imaxtoa` can write splits into the sign it writes and its
   * magnitude, and `imax_from_umax` puts them back together.
   */
  lemma ImaxFromUmaxRejoinsSign(target: int)
    requires IntMin <= target <= IntMax
    ensures ImaxFromUmax(target < 0, Abs(target)) == Parsed(target, Unchanged)
  {
  }
}
