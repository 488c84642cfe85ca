/**
 * The two-dimensional compass rose of XCOMlike.hpp: eight facings numbered
 * clockwise from north, stored in an `unsigned char`, and turning one facing
 * by another.
 */
module XComLike {
  import opened CInt

  /** A facing N = 0, NE, E, SE, S, SW, W, NW = 7 (XCOMlike.hpp:8-17). */
  type Facing = x: int | 0 <= x < 8

  const N: Facing := 0
  const NE: Facing := 1
  const E: Facing := 2
  const SE: Facing := 3
  const S: Facing := 4
  const SW: Facing := 5
  const W: Facing := 6
  const NW: Facing := 7

  /** One past the last facing, doubling as the "no facing" value (XCOMlike.hpp:18-22). */
  const Neutral: int := NW + 1
  const StrictUb: int := NW + 1
  const ExtStrictUb: int := Neutral + 1

  /** `rotate`: `origin` turned clockwise by `delta` eighths of a turn (XCOMlike.hpp:24). */
  function Rotate(origin: Facing, delta: Facing): (r: Facing)
    ensures r < StrictUb
    ensures origin + delta < 8 ==> r == origin + delta
    ensures 8 <= origin + delta ==> r == origin + delta - 8
  {
    (origin + delta) % StrictUb
  }

  /** Turning by N changes nothing. */
  lemma RotateByNorth(o: Facing)
    ensures Rotate(o, N) == o
  {
  }

  /** Two turns add up, in either order. */
  lemma RotateComposes(o: Facing, a: Facing, b: Facing)
    ensures Rotate(Rotate(o, a), b) == Rotate(o, Rotate(a, b))
    ensures Rotate(a, b) == Rotate(b, a)
  {
  }

  /**
   * `inv_rotate` as written: `origin - delta` is computed in `int`, C's `%`
   * keeps the sign of a negative difference, and the cast back to the
   * `unsigned char` enum wraps it modulo 256 (XCOMlike.hpp:25).
   */
  function InvRotateAsWritten(origin: Facing, delta: Facing): (r: int)
    ensures 0 <= r < 256
    ensures delta <= origin ==> r == origin - delta
    ensures origin < delta ==> r == 256 + origin - delta && 249 <= r
  {
    (Rem(origin - delta, StrictUb) + 256) % 256
  }

  /** Undoing a turn by a facing greater than the origin leaves the compass rose. */
  lemma InvRotateLeavesRange()
    ensures InvRotateAsWritten(N, E) == 254
    ensures InvRotateAsWritten(Rotate(NW, NE), NE) == 255
    ensures Rotate(NW, NE) == N
  {
  }

  /** `inv_rotate` as intended: `origin` turned counter-clockwise by `delta`. */
  function InvRotate(origin: Facing, delta: Facing): (r: Facing)
  {
    (origin - delta) % StrictUb
  }

  /** The intended `inv_rotate` undoes `rotate` and is undone by it. */
  lemma InvRotateInverts(o: Facing, d: Facing)
    ensures InvRotate(Rotate(o, d), d) == o
    ensures Rotate(InvRotate(o, d), d) == o
    ensures d <= o ==> InvRotate(o, d) == InvRotateAsWritten(o, d)
  {
  }
}
