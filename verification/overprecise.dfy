/**
 * The integer parts of overprecise.hpp: `set_signbit` and `self_negate`
 * for signed and unsigned integer types, and the normal form of
 * `power_term`, the pair `(base, power)` standing for `base^power`.
 *
 * A signed type is two's complement with largest value `max`, so its
 * smallest value is `-max - 1`; an unsigned type has no negative values.
 */
module Overprecise {
  import CInt

  /** The value of magnitude `|x|` with the requested sign. */
  function WithSign(x: int, isNegative: bool): (r: int)
    ensures CInt.Abs(r) == CInt.Abs(x)
    ensures r == 0 || (r < 0 <==> isNegative)
  {
    var a: int := CInt.Abs(x);
    if isNegative then -a else a
  }

  /**
   * Signed `set_signbit(x, is_negative)`: succeeds exactly when `x` with
   * the requested sign is representable, and then `x` takes that value;
   * a failure leaves `x` alone.
   */
  method SetSignbitSigned(x: int, isNegative: bool, max: int) returns (ok: bool, y: int)
    requires 0 < max && -max - 1 <= x <= max
    ensures ok <==> -max - 1 <= WithSign(x, isNegative) <= max
    ensures ok ==> y == WithSign(x, isNegative)
    ensures !ok ==> y == x
  {
    if 0 == x {
      return true, x;
    }
    if (0 > x) == isNegative {
      return true, x;
    }
    if -max > x {
      return false, x;
    }
    return true, -x;
  }

  /**
   * Unsigned `set_signbit(x, is_negative)`: true exactly when `x` with the
   * requested sign is still a value of the unsigned type.
   */
  function SetSignbitUnsigned(x: nat, isNegative: bool): (ok: bool)
    ensures ok <==> WithSign(x, isNegative) >= 0
  {
    if 0 == x then true
    else if !isNegative then true
    else false
  }

  /**
   * Signed `self_negate(x)`: succeeds exactly when `-x` is representable,
   * and then `x` becomes `-x`; a failure leaves `x` alone.
   */
  method SelfNegateSigned(x: int, max: int) returns (ok: bool, y: int)
    requires 0 < max && -max - 1 <= x <= max
    ensures ok <==> -max - 1 <= -x <= max
    ensures ok ==> y == -x
    ensures !ok ==> y == x
  {
    if -max > x {
      return false, x;
    }
    return true, -x;
  }

  /** Unsigned `self_negate(x)`: true exactly when `-x` is still unsigned. */
  function SelfNegateUnsigned(x: nat): (ok: bool)
    ensures ok <==> -(x as int) >= 0
  {
    0 == x
  }

  /** `base^n` for a natural exponent. */
  function Pow(base: int, n: nat): int
  {
    if n == 0 then 1 else base * Pow(base, n - 1)
  }

  lemma {:induction false} PowOne(n: nat)
    ensures Pow(1, n) == 1
  {
    if n > 0 {
      PowOne(n - 1);
    }
  }

  lemma {:induction false} PowMinusOne(n: nat)
    ensures Pow(-1, n) == if n % 2 == 0 then 1 else -1
  {
    if n > 0 {
      PowMinusOne(n - 1);
    }
  }

  /**
   * The normal form `_standard_form` gives `(base, n)`: `n^0` is the empty
   * product `1^1` except for the undecided `0^0`; `1^n` is `1^1`; `(-1)^n`
   * is `1^1` or `(-1)^1` by the parity of `n`; anything else is kept.
   */
  function StandardForm(base: int, n: int): (r: (int, int))
    ensures r.1 == n || r.1 == 1
    ensures r.0 == base || r.0 == 1
    ensures r.1 == 0 <==> base == 0 && n == 0
  {
    if n == 0 then (if base == 0 then (base, n) else (1, 1))
    else if n == 1 then (base, n)
    else if base == 1 then (1, 1)
    else if base == -1 then (if n % 2 == 0 then 1 else -1, 1)
    else (base, n)
  }

  /** The normal form is a fixed point. */
  lemma StandardFormIdempotent(base: int, n: int)
    ensures var r := StandardForm(base, n); StandardForm(r.0, r.1) == r
  {
  }

  /** Normalising keeps the value `base^n` for a natural exponent, `0^0` aside. */
  lemma StandardFormKeepsValue(base: int, n: nat)
    requires base != 0 || n != 0
    ensures var r := StandardForm(base, n); r.1 >= 0 && Pow(r.0, r.1) == Pow(base, n)
  {
    if base == 1 {
      PowOne(n);
    } else if base == -1 {
      PowMinusOne(n);
    }
  }

  /**
   * For base `1` or `-1` every exponent, negative ones included, ends as
   * exponent 1, with base `-1` kept exactly for odd exponents.
   */
  lemma StandardFormUnit(base: int, n: int)
    requires base == 1 || base == -1
    ensures StandardForm(base, n) == (if base == -1 && n % 2 != 0 then -1 else 1, 1)
  {
  }

  /** `power_term<T>`: the pair `(base, power)`, kept in normal form. */
  class PowerTerm {
    var base: int
    var power: int

    /** `power_term(x, n)`: stores the pair and normalises it. */
    constructor (x: int, n: int)
      requires CInt.IntMin <= n <= CInt.IntMax
      ensures (base, power) == StandardForm(x, n)
    {
      base, power := x, n;
      new;
      Normalize();
    }

    /** `_standard_form()`. */
    method Normalize()
      modifies this
      ensures (base, power) == StandardForm(old(base), old(power))
    {
      if 0 == power {
        if base == 0 {
          return;
        }
        base := 1;
        power := 1;
        return;
      }
      if 1 == power {
        return;
      }
      if 1 == base {
        power := 1;
        return;
      }
      if -1 == base {
        if 0 == CInt.Rem(power, 2) {
          base := 1;
        }
        power := 1;
        return;
      }
    }
  }
}
