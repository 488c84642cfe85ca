/**
 * `zaimoni::math::Z_<n>` (z_n.hpp): the integers modulo `n`, stored as a
 * residue `0 <= x < n`, built from `uintmax_t` or `intmax_t` and converted
 * back to `intmax_t` as the representative nearest zero (ties go to the
 * positive side).
 *
 * Two residues are congruent modulo `n` when they have the same Euclidean
 * remainder; Dafny's `%` on `int` is that remainder.
 */
module ZMod {
  import CInt

  /** `a` and `b` leave the same remainder modulo `n`. */
  predicate Congruent(a: int, b: int, n: nat)
    requires 0 < n
  {
    a % n == b % n
  }

  /** The remainder is determined by any decomposition `a == q * n + r` with `0 <= r < n`. */
  lemma ModUnique(a: int, q: int, r: int, n: nat)
    requires 0 <= r < n && a == q * n + r
    ensures a % n == r
  {
    var q0, r0 := a / n, a % n;
    assert q0 * n + r0 == a;
    if q0 < q {
      assert (q - q0) * n == q * n - q0 * n;
      CInt.MulAtLeast(q - q0, n);
    } else if q < q0 {
      assert (q0 - q) * n == q0 * n - q * n;
      CInt.MulAtLeast(q0 - q, n);
    }
  }

  lemma ModSmall(a: int, n: nat)
    requires 0 < n
    ensures (a % n) % n == a % n
    ensures 0 <= a < n ==> a % n == a
  {
    ModUnique(a % n, 0, a % n, n);
    if 0 <= a < n {
      ModUnique(a, 0, a, n);
    }
  }

  /** `Z_(uintmax_t src)`: the residue of `src`. */
  function FromUnsigned(n: nat, src: nat): (r: nat)
    requires 0 < n <= CInt.UintMax && src <= CInt.UintMax
    ensures r < n && Congruent(r, src, n)
    ensures src < n ==> r == src
  {
    ModSmall(src, n);
    src % n
  }

  /**
   * `Z_(intmax_t src)` as written: a negative `src` is stored as
   * `(n - 1) - |src| % n`, which is the residue of `src - 1`, not of `src`.
   */
  function FromSignedAsWritten(n: nat, src: int): (r: nat)
    requires 0 < n <= CInt.UintMax && CInt.IntMin <= src <= CInt.IntMax
    ensures r < n
    ensures 0 <= src ==> Congruent(r, src, n)
    ensures src < 0 ==> Congruent(r, src - 1, n)
  {
    if 0 <= src then FromUnsigned(n, src)
    else
      var m := CInt.Abs(src) % n;
      ModUnique(src - 1, -(CInt.Abs(src) / n) - 1, (n - 1) - m, n);
      ModUnique((n - 1) - m, 0, (n - 1) - m, n);
      (n - 1) - m
  }

  /**
   * `operator intmax_t()` as written: a residue above `n / 2` gives
   * `-((n - 1) - x)`, which is congruent to `x + 1`, not to `x`.
   */
  function ToSignedAsWritten(n: nat, x: nat): (r: int)
    requires 0 < n <= CInt.UintMax && x < n
    ensures x <= n / 2 ==> r == x
    ensures n / 2 < x ==> Congruent(r, x + 1, n) && n / 2 + 1 - n <= r <= 0
  {
    if n / 2 >= x then x
    else
      var r := -((n - 1) - x);
      if x + 1 < n then
        ModUnique(r, -1, x + 1, n);
        ModSmall(x + 1, n);
        r
      else
        ModUnique(x + 1, 1, 0, n);
        r
  }

  /** As written, the small signed values still come back: the two off-by-one steps cancel. */
  lemma AsWrittenRoundTrip(n: nat, s: int)
    requires 0 < n <= CInt.UintMax && CInt.IntMin <= s <= CInt.IntMax
    requires n / 2 + 1 - n < s <= n / 2
    ensures ToSignedAsWritten(n, FromSignedAsWritten(n, s)) == s
  {
    if s < 0 {
      ModSmall(CInt.Abs(s), n);
    }
  }

  /**
   * The discrepancy: `Z_<5>(intmax_t(-1))` holds 3, which is `-2` modulo 5,
   * and the residues 4 (that is, `-1`) and 0 both convert to 0.
   */
  lemma AsWrittenCounterexample()
    ensures FromSignedAsWritten(5, -1) == 3 && !Congruent(3, -1, 5)
    ensures ToSignedAsWritten(5, 4) == 0 == ToSignedAsWritten(5, 0)
  {
  }

  /** `Z_(intmax_t src)` corrected: the residue of `src`, negative or not. */
  function FromSigned(n: nat, src: int): (r: nat)
    requires 0 < n <= CInt.UintMax && CInt.IntMin <= src <= CInt.IntMax
    ensures r < n && Congruent(r, src, n)
    ensures 0 <= src ==> r == FromUnsigned(n, src)
  {
    ModSmall(src, n);
    src % n
  }

  /** `operator intmax_t()` corrected: the representative of `x` nearest zero, ties to the positive side. */
  function ToSigned(n: nat, x: nat): (r: int)
    requires 0 < n <= CInt.UintMax && x < n
    ensures Congruent(r, x, n) && n / 2 - n < r <= n / 2
    ensures CInt.IntMin <= r <= CInt.IntMax
  {
    if n / 2 >= x then x
    else
      ModUnique(x - n, -1, x, n);
      ModSmall(x, n);
      x - n
  }

  /** Every signed value in the window `(n / 2 - n, n / 2]` survives the trip through `Z_<n>`. */
  lemma RoundTrip(n: nat, s: int)
    requires 0 < n <= CInt.UintMax && CInt.IntMin <= s <= CInt.IntMax
    requires n / 2 - n < s <= n / 2
    ensures ToSigned(n, FromSigned(n, s)) == s
  {
    if s < 0 {
      ModUnique(s, -1, s + n, n);
    } else {
      ModSmall(s, n);
    }
  }

  /** Every residue survives the trip through `intmax_t`, so no two residues share a signed value. */
  lemma ResidueRoundTrip(n: nat, x: nat)
    requires 0 < n <= CInt.UintMax && x < n
    ensures FromSigned(n, ToSigned(n, x)) == x
  {
    ModSmall(x, n);
  }
}
