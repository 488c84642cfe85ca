/**
 * The `_mode` byte of `mass` (mass.hpp, mass.cpp): it records both the
 * system of units a mass was given in and which mass-related quantity was
 * measured, as `units * 4 + (measured - 1)`.  The interval value itself is
 * floating point and is not part of this model.
 */
module Masses {
  /** `mass::measured`, numbered from `NONE = 0`. */
  datatype Measured = None | Mass | Energy | Astrodynamic | SchwarzschildRadius
  {
    function Code(): (c: nat)
      ensures c <= 4
    {
      match this
      case None => 0
      case Mass => 1
      case Energy => 2
      case Astrodynamic => 3
      case SchwarzschildRadius => 4
    }
  }

  /** `fundamental_constants::units`, numbered from `MKS = 0`. */
  datatype Units = MKS | CGS | Planck
  {
    function Code(): (c: nat)
      ensures c < SystemsCount
    {
      match this
      case MKS => 0
      case CGS => 1
      case Planck => 2
    }
  }

  /** `fundamental_constants::SYSTEMS_COUNT`. */
  const SystemsCount: nat := 3

  /** The largest `unsigned char`. */
  const ByteMax: nat := 255

  /** The measured quantity with code `c`, for the codes `mass` can hold. */
  function MeasuredOf(c: nat): (m: Measured)
    requires 1 <= c <= 4
    ensures m.Code() == c
  {
    if c == 1 then Mass else if c == 2 then Energy else if c == 3 then Astrodynamic else SchwarzschildRadius
  }

  /** The system of units with code `c`. */
  function UnitsOf(c: nat): (u: Units)
    requires c < SystemsCount
    ensures u.Code() == c
  {
    if c == 0 then MKS else if c == 1 then CGS else Planck
  }

  /** A `mass`, reduced to its mode byte. */
  datatype Mass = MassOf(mode: nat)
  {
    predicate Valid() {
      mode <= ByteMax
    }

    /**
     * `system_code()`: the quarter of the mode, which is the block of four
     * codes the mode lies in.
     */
    function SystemCode(): (u: nat)
      requires Valid()
      ensures u * 4 <= mode < u * 4 + 4
    {
      mode / 4
    }

    /** `measurement_code()`: never `NONE`, whatever the byte holds. */
    function MeasurementCode(): (m: nat)
      requires Valid()
      ensures 1 <= m <= 4
      ensures SystemCode() * 4 + (m - 1) == mode
    {
      mode % 4 + 1
    }
  }

  /** `mass()`: mode 0. */
  function Default(): (r: Mass)
    ensures r.Valid() && r.mode == 0
  {
    MassOf(0)
  }

  /**
   * `mass(m, u, src)`: the constructor asserts `MASS <= m <= SCHWARZSCHILD_RADIUS`,
   * `u < SYSTEMS_COUNT` and `(255 - 1) / 4 >= u` (the last holds for every
   * system of units); the mode then decodes back to `m` and `u`.
   */
  function Make(m: Measured, u: Units): (r: Mass)
    requires m != None
    ensures r.Valid()
    ensures r.SystemCode() == u.Code() && r.MeasurementCode() == m.Code()
  {
    var mode := u.Code() * 4 + (m.Code() - 1);
    assert mode / 4 == u.Code() && mode % 4 == m.Code() - 1;
    MassOf(mode)
  }

  /** The default mass reads as a mass measured in MKS units. */
  lemma DefaultDecodes()
    ensures UnitsOf(Default().SystemCode()) == MKS
    ensures MeasuredOf(Default().MeasurementCode()) == Mass
  {
  }

  /**
   * Every mode below `4 * SYSTEMS_COUNT` is the encoding of exactly the
   * pair it decodes to, so the encoding is onto the valid modes.
   */
  lemma EncodeDecode(x: Mass)
    requires x.mode < 4 * SystemsCount
    ensures Make(MeasuredOf(x.MeasurementCode()), UnitsOf(x.SystemCode())) == x
  {
  }

  /** Two different pairs never share a mode. */
  lemma MakeInjective(m1: Measured, u1: Units, m2: Measured, u2: Units)
    requires m1 != None && m2 != None
    requires Make(m1, u1) == Make(m2, u2)
    ensures m1 == m2 && u1 == u2
  {
    assert m1.Code() == m2.Code() && u1.Code() == u2.Code();
  }
}
