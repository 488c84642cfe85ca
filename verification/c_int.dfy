/**
 * C integer arithmetic shared by the C and C++ modules: the widths of
 * `uintmax_t` and `intmax_t` (64 bits, two's complement) and the integer
 * division and remainder of C99, which truncate toward zero.
 */
module CInt {
  const UintMax: int := 0xFFFF_FFFF_FFFF_FFFF
  const IntMax: int := 0x7FFF_FFFF_FFFF_FFFF
  const IntMin: int := -0x8000_0000_0000_0000

  function Abs(x: int): (r: nat)
    ensures r == x || r == -x
  {
    if x < 0 then -x else x
  }

  /** C `a / b` for `b != 0`: the quotient rounded toward zero. */
  function Quot(a: int, b: int): (q: int)
    requires b != 0
    ensures Abs(q) == Abs(a) / Abs(b)
    ensures q == 0 || (q < 0 <==> (a < 0) != (b < 0))
  {
    var d: nat := Abs(b);
    assert d > 0;
    var m: nat := Abs(a) / d;
    if (a < 0) == (b < 0) then m else -(m as int)
  }

  /** The magnitude of the quotient is the largest multiple of `|b|` not above `|a|`. */
  lemma QuotBounds(a: int, b: int)
    requires b != 0
    ensures Abs(Quot(a, b)) * Abs(b) <= Abs(a) < (Abs(Quot(a, b)) + 1) * Abs(b)
  {
    DivBounds(Abs(a), Abs(b));
  }

  /** C `a % b` for `b != 0`: the remainder takes the sign of `a`. */
  function Rem(a: int, b: int): (r: int)
    requires b != 0
    ensures Quot(a, b) * b + r == a
    ensures Abs(r) < Abs(b)
    ensures r == 0 || (r < 0 <==> a < 0)
  {
    var q := Quot(a, b);
    QuotBounds(a, b);
    SignedProduct(q, b);
    a - q * b
  }

  lemma DivBounds(n: nat, d: nat)
    requires d > 0
    ensures (n / d) * d <= n < (n / d + 1) * d
  {
  }

  lemma SignedProduct(q: int, b: int)
    ensures Abs(q * b) == Abs(q) * Abs(b)
    ensures q * b == 0 || (q * b < 0 <==> (q < 0) != (b < 0))
  {
  }

  /** `max / d >= n` tests exactly whether `n * d` stays within `max`. */
  lemma DivFits(n: nat, d: nat, max: nat)
    requires d != 0
    ensures max / d >= n <==> n * d <= max
  {
    var q := max / d;
    DivBounds(max, d);
    if q >= n {
      assert n * d <= q * d;
    } else {
      assert (q + 1) * d <= n * d;
    }
  }

  lemma MulAtLeast(a: int, d: nat)
    requires 1 <= a
    ensures a * d >= d
  {
    assert a * d == (a - 1) * d + d;
  }

  /** Division by `d` undoes `r * d + c` for a remainder `c` below `d`. */
  lemma DivModOf(r: nat, c: nat, d: nat)
    requires c < d
    ensures (r * d + c) / d == r && (r * d + c) % d == c
  {
    var a := r * d + c;
    var q, m := a / d, a % d;
    assert a == q * d + m;
    assert (q - r) * d == c - m;
    if q - r >= 1 {
      MulAtLeast(q - r, d);
    } else if r - q >= 1 {
      MulAtLeast(r - q, d);
    }
  }

  /** C division undoes multiplication by the same non-zero factor. */
  lemma QuotOfProduct(x: int, k: int)
    requires k != 0
    ensures Quot(x * k, k) == x
  {
    SignedProduct(x, k);
    DivModOf(Abs(x), 0, Abs(k));
    assert Abs(x) * Abs(k) + 0 == Abs(x * k);
  }
}
