/**
 * The two-sided counter of dicounter.hpp: a signed quantity kept as a pair of
 * `uintmax_t` magnitudes, `positive - negative`, so that a full `uintmax_t`
 * can be represented in either direction.  Adding draws first on the opposite
 * side; what does not fit saturates at `UINTMAX_MAX` and stays in the caller's
 * `src`.
 */
module DiCounter {
  import opened CInt

  /** The two magnitudes after one `add` or `sub`, and what is left of the caller's `src`. */
  datatype Step = Step(pos: int, neg: int, src: int)

  /**
   * The body of `add` (`sub` with the sides exchanged) on the side `pos` it
   * grows and the side `neg` it first draws down (dicounter.hpp:22-45).
   */
  function AddStep(pos: int, neg: int, src: int): Step {
    if src == 0 then Step(pos, neg, src)
    else if 0 < neg then
      if src <= neg then Step(pos, neg - src, 0) else Step(src - neg, 0, 0)
    else
      var test := UintMax - pos;
      if test >= src then Step(pos + src, neg, 0)
      else if 0 < test then Step(UintMax, neg, src - test)
      else Step(pos, neg, src)
  }

  predicate InRange(pos: int, neg: int) { 0 <= pos <= UintMax && 0 <= neg <= UintMax }

  /** At most one side is non-zero, as the default-constructed counter and every `add`/`sub` leave it. */
  predicate Balanced(pos: int, neg: int) { pos == 0 || neg == 0 }

  /** Adding 0 changes nothing (dicounter.hpp:23). */
  lemma AddZero(pos: int, neg: int)
    ensures AddStep(pos, neg, 0) == Step(pos, neg, 0)
  {
  }

  /**
   * On a balanced counter, `add` keeps the counter balanced and in range and
   * conserves the total: the counter's value plus what is left in `src` is
   * unchanged.  It consumes all of `src` unless the positive side reaches
   * `UINTMAX_MAX`.
   */
  lemma AddConserves(pos: int, neg: int, src: int)
    requires InRange(pos, neg) && Balanced(pos, neg) && 0 <= src <= UintMax
    ensures var r := AddStep(pos, neg, src);
      && InRange(r.pos, r.neg) && Balanced(r.pos, r.neg) && 0 <= r.src <= src
      && r.pos - r.neg + r.src == pos - neg + src
      && (r.src != 0 ==> r.pos == UintMax && r.neg == 0)
  {
  }

  /** Drawing down the opposite side: it shrinks by `src`, or is used up and the rest goes positive (dicounter.hpp:24-33). */
  lemma AddDrawsDown(pos: int, neg: int, src: int)
    requires 0 < neg && 0 < src
    ensures src <= neg ==> AddStep(pos, neg, src) == Step(pos, neg - src, 0)
    ensures neg < src ==> AddStep(pos, neg, src) == Step(src - neg, 0, 0)
  {
  }

  /** With no opposite side, `add` saturates at `UINTMAX_MAX` and leaves the excess in `src` (dicounter.hpp:35-43). */
  lemma AddSaturates(pos: int, src: int)
    requires 0 <= pos <= UintMax && UintMax - pos < src
    ensures AddStep(pos, 0, src) == Step(UintMax, 0, src - (UintMax - pos))
  {
  }

  /**
   * The counter of dicounter.hpp:10-68: `first` is the positive side,
   * `second` the negative side.
   */
  class Counter {
    var positive: int
    var negative: int

    ghost predicate Valid()
      reads this
    {
      InRange(positive, negative)
    }

    /** The default constructor value-initialises both sides to 0. */
    constructor()
      ensures positive == 0 && negative == 0 && Valid()
    {
      positive, negative := 0, 0;
    }

    function Value(): int
      reads this
    {
      positive - negative
    }

    /** `add_capacity`: how much more the positive side can hold (dicounter.hpp:21, 64). */
    function AddCapacity(): (r: int)
      reads this
      requires Valid()
      ensures 0 <= r <= UintMax && positive + r == UintMax
    {
      UintMax - positive
    }

    /** `sub_capacity`: how much more the negative side can hold (dicounter.hpp:21, 65). */
    function SubCapacity(): (r: int)
      reads this
      requires Valid()
      ensures 0 <= r <= UintMax && negative + r == UintMax
    {
      UintMax - negative
    }

    /** `add(src)`, with the in-out `src` returned as `rest` (dicounter.hpp:22-45, 64). */
    method Add(src: int) returns (rest: int)
      requires Valid() && 0 <= src <= UintMax
      modifies this
      ensures Step(positive, negative, rest) == AddStep(old(positive), old(negative), src)
      ensures Valid()
    {
      rest := src;
      if rest == 0 { return; }
      if 0 < negative {
        if rest <= negative {
          negative := negative - rest;
        } else {
          rest := rest - negative;
          negative := 0;
          positive := rest;
        }
        rest := 0;
        return;
      }
      var test := UintMax - positive;
      if test >= rest {
        positive := positive + rest;
        rest := 0;
        return;
      } else if 0 < test {
        positive := UintMax;
        rest := rest - test;
        return;
      }
    }

    /** `sub(src)`: `add` with the two sides exchanged (dicounter.hpp:65). */
    method Sub(src: int) returns (rest: int)
      requires Valid() && 0 <= src <= UintMax
      modifies this
      ensures Step(negative, positive, rest) == AddStep(old(negative), old(positive), src)
      ensures Valid()
    {
      rest := src;
      if rest == 0 { return; }
      if 0 < positive {
        if rest <= positive {
          positive := positive - rest;
        } else {
          rest := rest - positive;
          positive := 0;
          negative := rest;
        }
        rest := 0;
        return;
      }
      var test := UintMax - negative;
      if test >= rest {
        negative := negative + rest;
        rest := 0;
        return;
      } else if 0 < test {
        negative := UintMax;
        rest := rest - test;
        return;
      }
    }

    /**
     * `safe_add`: `add` where the caller promises the result fits, so nothing
     * is left over (dicounter.hpp:46-62, 64).
     */
    method SafeAdd(src: int)
      requires Valid() && 0 <= src <= UintMax
      requires 0 < negative || src <= UintMax - positive
      modifies this
      ensures Step(positive, negative, 0) == AddStep(old(positive), old(negative), src)
      ensures Valid()
    {
      if src == 0 { return; }
      if 0 < negative {
        if src <= negative {
          negative := negative - src;
        } else {
          var rest := src - negative;
          negative := 0;
          positive := rest;
        }
        return;
      }
      positive := positive + src;
    }

    /** `safe_sub`: `safe_add` with the two sides exchanged (dicounter.hpp:46-62, 65). */
    method SafeSub(src: int)
      requires Valid() && 0 <= src <= UintMax
      requires 0 < positive || src <= UintMax - negative
      modifies this
      ensures Step(negative, positive, 0) == AddStep(old(negative), old(positive), src)
      ensures Valid()
    {
      if src == 0 { return; }
      if 0 < positive {
        if src <= positive {
          positive := positive - src;
        } else {
          var rest := src - positive;
          positive := 0;
          negative := rest;
        }
        return;
      }
      negative := negative + src;
    }
  }

  /** Adding `UINTMAX_MAX` to a fresh counter fills the positive side (dicounter.cpp:47-51). */
  method AddMaxToFresh() returns (c: Counter, rest: int)
    ensures c.positive == UintMax && c.negative == 0 && c.AddCapacity() == 0 && rest == 0
  {
    c := new Counter();
    rest := c.Add(UintMax);
  }
}
