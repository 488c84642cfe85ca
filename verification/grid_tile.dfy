/**
 * Grid geometry of gridtile.hpp: exact quarter-turn rotations and reflections
 * of an integer point about an origin that may sit half a cell off the grid,
 * the wall-orientation flags of a map cell, and which walls and neighbouring
 * cells a diagonal view needs.
 *
 * The offset code says where the centre of rotation is: bit 0 adds half a
 * cell in x, bit 1 half a cell in y.  Working in doubled coordinates relative
 * to that centre (`Doubled`) turns every operation into a sign change or a
 * swap of the two coordinates, which is how the lemmas below state them.
 */
module GridTile {
  import opened XComLike

  /** The outcome of `exact_rotate` / `exact_reflect`: the success flag and the point as left. */
  datatype Moved = Moved(ok: bool, x: int, y: int)

  /** `offset_code & 1` converted to `bool` and back to an integer. */
  function XHalf(offset: nat): int { if offset % 2 == 1 then 1 else 0 }

  /** `offset_code & 2` converted to `bool` and back to an integer. */
  function YHalf(offset: nat): int { if (offset / 2) % 2 == 1 then 1 else 0 }

  /** Twice the signed distance of `x` from the centre `o + half/2`. */
  function Doubled(o: int, half: int, x: int): int { 2 * (x - o) - half }

  /** `abs_delta` of gridtile.hpp:337: the distance from the centre, rounded down. */
  function AbsDelta(o: int, half: int, x: int): (d: int)
    ensures x <= o ==> d == o - x
    ensures o < x ==> d == x - o - half
  {
    if x <= o then o - x else x - o - half
  }

  /** The coordinate at the same distance from the centre, taken on the far side iff `far`. */
  function Placed(o: int, half: int, far: bool, d: int): int {
    if far then o + half + d else o - d
  }

  /** The doubled coordinate determines the coordinate. */
  lemma DoubledInjective(o: int, half: int, x: int, x': int)
    requires Doubled(o, half, x) == Doubled(o, half, x')
    ensures x == x'
  {
  }

  /**
   * `exact_rotate` over `int` (gridtile.hpp:319-355): N is a no-op, S a half
   * turn, E and W quarter turns that only an on-grid or a cell-centred origin
   * (offset codes 0 and 3) admit; the diagonals fail.  A point on the origin
   * with offset code 0 is left alone for every facing.
   */
  function ExactRotate(ox: int, oy: int, offset: nat, facing: Facing, x: int, y: int): (r: Moved)
    ensures r.ok <==> (ox == x && oy == y && offset == 0) || facing == N || facing == S ||
                      ((facing == E || facing == W) && (offset == 0 || offset == 3))
    ensures !r.ok || facing == N ==> r.x == x && r.y == y
  {
    if ox == x && oy == y && offset == 0 then Moved(true, x, y)
    else if facing == N then Moved(true, x, y)
    else if !(facing == S || ((facing == E || facing == W) && (offset == 0 || offset == 3))) then
      Moved(false, x, y)
    else
      var lowX := x <= ox;
      var lowY := y <= oy;
      var xh := XHalf(offset);
      var yh := YHalf(offset);
      var dx := AbsDelta(ox, xh, x);
      var dy := AbsDelta(oy, yh, y);
      if facing == S then Moved(true, Placed(ox, xh, lowX, dx), Placed(oy, yh, lowY, dy))
      else if facing == W then Moved(true, Placed(ox, xh, lowY, dy), Placed(oy, yh, !lowX, dx))
      else Moved(true, Placed(ox, xh, !lowY, dy), Placed(oy, yh, lowX, dx))
  }

  /**
   * In doubled coordinates about the centre, S maps (u, v) to (-u, -v), E to
   * (v, -u) and W to (-v, u).
   */
  lemma ExactRotateTurns(ox: int, oy: int, offset: nat, facing: Facing, x: int, y: int)
    requires facing == S || ((facing == E || facing == W) && (offset == 0 || offset == 3))
    ensures var r := ExactRotate(ox, oy, offset, facing, x, y);
      var u, v := Doubled(ox, XHalf(offset), x), Doubled(oy, YHalf(offset), y);
      var u', v' := Doubled(ox, XHalf(offset), r.x), Doubled(oy, YHalf(offset), r.y);
      && r.ok
      && (facing == S ==> u' == -u && v' == -v)
      && (facing == E ==> u' == v && v' == -u)
      && (facing == W ==> u' == -v && v' == u)
  {
  }

  /** A half turn done twice is the identity, for every offset code. */
  lemma RotateSouthTwice(ox: int, oy: int, offset: nat, x: int, y: int)
    ensures var r := ExactRotate(ox, oy, offset, S, x, y);
      ExactRotate(ox, oy, offset, S, r.x, r.y) == Moved(true, x, y)
  {
    var r := ExactRotate(ox, oy, offset, S, x, y);
    var r2 := ExactRotate(ox, oy, offset, S, r.x, r.y);
    ExactRotateTurns(ox, oy, offset, S, x, y);
    ExactRotateTurns(ox, oy, offset, S, r.x, r.y);
    DoubledInjective(ox, XHalf(offset), x, r2.x);
    DoubledInjective(oy, YHalf(offset), y, r2.y);
  }

  /** W undoes E, and E undoes W, for the offset codes that admit them. */
  lemma RotateWestUndoesEast(ox: int, oy: int, offset: nat, x: int, y: int)
    requires offset == 0 || offset == 3
    ensures var r := ExactRotate(ox, oy, offset, E, x, y);
      ExactRotate(ox, oy, offset, W, r.x, r.y) == Moved(true, x, y)
    ensures var r := ExactRotate(ox, oy, offset, W, x, y);
      ExactRotate(ox, oy, offset, E, r.x, r.y) == Moved(true, x, y)
  {
    var r := ExactRotate(ox, oy, offset, E, x, y);
    var r2 := ExactRotate(ox, oy, offset, W, r.x, r.y);
    ExactRotateTurns(ox, oy, offset, E, x, y);
    ExactRotateTurns(ox, oy, offset, W, r.x, r.y);
    DoubledInjective(ox, XHalf(offset), x, r2.x);
    DoubledInjective(oy, YHalf(offset), y, r2.y);
    var q := ExactRotate(ox, oy, offset, W, x, y);
    var q2 := ExactRotate(ox, oy, offset, E, q.x, q.y);
    ExactRotateTurns(ox, oy, offset, W, x, y);
    ExactRotateTurns(ox, oy, offset, E, q.x, q.y);
    DoubledInjective(ox, XHalf(offset), x, q2.x);
    DoubledInjective(oy, YHalf(offset), y, q2.y);
  }

  /** A quarter turn done four times is the identity. */
  lemma RotateEastFourTimes(ox: int, oy: int, offset: nat, x: int, y: int)
    requires offset == 0 || offset == 3
    ensures var r1 := ExactRotate(ox, oy, offset, E, x, y);
      var r2 := ExactRotate(ox, oy, offset, E, r1.x, r1.y);
      var r3 := ExactRotate(ox, oy, offset, E, r2.x, r2.y);
      ExactRotate(ox, oy, offset, E, r3.x, r3.y) == Moved(true, x, y)
  {
    var r1 := ExactRotate(ox, oy, offset, E, x, y);
    var r2 := ExactRotate(ox, oy, offset, E, r1.x, r1.y);
    var r3 := ExactRotate(ox, oy, offset, E, r2.x, r2.y);
    var r4 := ExactRotate(ox, oy, offset, E, r3.x, r3.y);
    ExactRotateTurns(ox, oy, offset, E, x, y);
    ExactRotateTurns(ox, oy, offset, E, r1.x, r1.y);
    ExactRotateTurns(ox, oy, offset, E, r2.x, r2.y);
    ExactRotateTurns(ox, oy, offset, E, r3.x, r3.y);
    DoubledInjective(ox, XHalf(offset), x, r4.x);
    DoubledInjective(oy, YHalf(offset), y, r4.y);
  }

  /**
   * `exact_reflect` as written (gridtile.hpp:357-387): N and S mirror y, E and W
   * mirror x, the diagonals fail.  The E/W branch places x using
   * `abs_delta.second`, the distance in y.
   */
  function ExactReflectAsWritten(ox: int, oy: int, offset: nat, facing: Facing, x: int, y: int): (r: Moved)
    ensures r.ok <==> (ox == x && oy == y && offset == 0) || facing in {N, S, E, W}
    ensures r.y != y ==> facing == N || facing == S
    ensures r.x != x ==> facing == E || facing == W
  {
    if ox == x && oy == y && offset == 0 then Moved(true, x, y)
    else
      var lowX := x <= ox;
      var lowY := y <= oy;
      var xh := XHalf(offset);
      var yh := YHalf(offset);
      var dy := AbsDelta(oy, yh, y);
      if facing == N || facing == S then
        if oy == y && yh == 0 then Moved(true, x, y) else Moved(true, x, Placed(oy, yh, lowY, dy))
      else if facing == E || facing == W then
        if ox == x && xh == 0 then Moved(true, x, y) else Moved(true, Placed(ox, xh, lowX, dy), y)
      else Moved(false, x, y)
  }

  /** Mirroring (1, 5) in the y axis through the origin gives (-5, 5), and mirroring again (5, 5). */
  lemma ExactReflectUsesWrongDelta()
    ensures ExactReflectAsWritten(0, 0, 0, E, 1, 5) == Moved(true, -5, 5)
    ensures ExactReflectAsWritten(0, 0, 0, E, -5, 5) == Moved(true, 5, 5)
  {
  }

  /** `exact_reflect` with the E/W branch placing x by its own distance `abs_delta.first`. */
  function ExactReflect(ox: int, oy: int, offset: nat, facing: Facing, x: int, y: int): (r: Moved)
    ensures r.ok <==> (ox == x && oy == y && offset == 0) || facing in {N, S, E, W}
    ensures r.y != y ==> facing == N || facing == S
    ensures r.x != x ==> facing == E || facing == W
  {
    if ox == x && oy == y && offset == 0 then Moved(true, x, y)
    else
      var lowX := x <= ox;
      var lowY := y <= oy;
      var xh := XHalf(offset);
      var yh := YHalf(offset);
      var dx := AbsDelta(ox, xh, x);
      var dy := AbsDelta(oy, yh, y);
      if facing == N || facing == S then
        if oy == y && yh == 0 then Moved(true, x, y) else Moved(true, x, Placed(oy, yh, lowY, dy))
      else if facing == E || facing == W then
        if ox == x && xh == 0 then Moved(true, x, y) else Moved(true, Placed(ox, xh, lowX, dx), y)
      else Moved(false, x, y)
  }

  /** The corrected reflection negates one doubled coordinate, so it undoes itself. */
  lemma ExactReflectMirrors(ox: int, oy: int, offset: nat, facing: Facing, x: int, y: int)
    ensures var r := ExactReflect(ox, oy, offset, facing, x, y);
      && ((facing == N || facing == S) ==> r.x == x && Doubled(oy, YHalf(offset), r.y) == -Doubled(oy, YHalf(offset), y))
      && ((facing == E || facing == W) ==> r.y == y && Doubled(ox, XHalf(offset), r.x) == -Doubled(ox, XHalf(offset), x))
    ensures var r := ExactReflect(ox, oy, offset, facing, x, y);
      r.ok ==> ExactReflect(ox, oy, offset, facing, r.x, r.y) == Moved(true, x, y)
  {
    var r := ExactReflect(ox, oy, offset, facing, x, y);
    if r.ok {
      var r2 := ExactReflect(ox, oy, offset, facing, r.x, r.y);
      if facing == N || facing == S {
        DoubledInjective(oy, YHalf(offset), y, r2.y);
      } else if facing == E || facing == W {
        DoubledInjective(ox, XHalf(offset), x, r2.x);
      }
    }
  }

  // ------------------------------------------------------------------
  // map_cell
  // ------------------------------------------------------------------

  /**
   * The wall and flag state of a `map_cell` (gridtile.hpp:156-201).  Wall and
   * floor models are named by their ids; bit 0 of `flags` says the north wall
   * is drawn reversed, bit 1 the west wall.
   */
  class MapCell {
    var floorId: string
    var nWall: string
    var wWall: string
    var flags: bv8

    constructor()
      ensures floorId == "" && nWall == "" && wWall == "" && flags == 0
    {
      floorId, nWall, wWall, flags := "", "", "", 0;
    }

    /** `n_reversed`: bit 0. */
    function NReversed(): bool
      reads this
    {
      flags & 1 != 0
    }

    /** `w_reversed`: bit 1. */
    function WReversed(): bool
      reads this
    {
      flags & 2 != 0
    }

    /** `set_n_wall`: bit 0 becomes `reversed`, every other bit is kept. */
    method SetNWall(id: string, reversed: bool)
      modifies this
      ensures nWall == id && floorId == old(floorId) && wWall == old(wWall)
      ensures flags == WithBit(old(flags), 1, reversed)
      ensures NReversed() == reversed && WReversed() == old(WReversed())
    {
      FlagBitsIndependent(flags, reversed);
      nWall := id;
      flags := WithBit(flags, 1, reversed);
    }

    /** `set_w_wall`: bit 1 becomes `reversed`, every other bit is kept. */
    method SetWWall(id: string, reversed: bool)
      modifies this
      ensures wWall == id && floorId == old(floorId) && nWall == old(nWall)
      ensures flags == WithBit(old(flags), 2, reversed)
      ensures WReversed() == reversed && NReversed() == old(NReversed())
    {
      FlagBitsIndependent(flags, reversed);
      wWall := id;
      flags := WithBit(flags, 2, reversed);
    }
  }

  /** `flags & ~bit`, then `| bit` when `on` (gridtile.hpp:192-193, 197-198). */
  function WithBit(f: bv8, bit: bv8, on: bool): bv8 {
    (f & !bit) | (if on then bit else 0)
  }

  /** The flag bits are independent: the value one setter leaves is read back whatever the other bits are. */
  lemma FlagBitsIndependent(f: bv8, reversed: bool)
    ensures (WithBit(f, 1, reversed) & 1 != 0) == reversed
    ensures (WithBit(f, 1, reversed) & 2 != 0) == (f & 2 != 0)
    ensures (WithBit(f, 2, reversed) & 2 != 0) == reversed
    ensures (WithBit(f, 2, reversed) & 1 != 0) == (f & 1 != 0)
  {
  }

  /** Which facings draw the cell's own north wall (gridtile.hpp:217-219). */
  predicate NWallOk(o: Facing) { o == NW || o == NE }
  /** Which facings draw the cell's own west wall (gridtile.hpp:242-244). */
  predicate WWallOk(o: Facing) { o == NW || o == SW }
  /** Which facings need the cell to the east (gridtile.hpp:267-269). */
  predicate WantECell(o: Facing) { o == NE || o == SE }
  /** Which facings need the cell to the south (gridtile.hpp:270-272). */
  predicate WantSCell(o: Facing) { o == SE || o == SW }
  /** The neighbours' walls drawn for a facing (gridtile.hpp:274, 281, 288, 295). */
  predicate NWallOkE(o: Facing) { o == NE }
  predicate NWallOkS(o: Facing) { o == SE }
  predicate WWallOkE(o: Facing) { o == SE }
  predicate WWallOkS(o: Facing) { o == SW }

  /**
   * Only diagonal views draw walls; the west-wall views are the north-wall
   * views turned a quarter counter-clockwise, the south-neighbour views the
   * east-neighbour views turned a quarter clockwise, and a neighbour's wall is
   * drawn only for a view that wants that neighbour.
   */
  lemma WallViews(o: Facing)
    ensures NWallOk(o) || WWallOk(o) || WantECell(o) || WantSCell(o) <==> o % 2 == 1
    ensures NWallOk(o) <==> WWallOk(Rotate(o, W))
    ensures WantECell(o) <==> WantSCell(Rotate(o, E))
    ensures NWallOkE(o) <==> NWallOk(o) && WantECell(o)
    ensures WWallOkS(o) <==> WWallOk(o) && WantSCell(o)
    ensures NWallOkS(o) || WWallOkE(o) <==> WantECell(o) && WantSCell(o)
  {
  }
}
