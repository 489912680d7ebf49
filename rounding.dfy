/**
 * Python's built-in `round(x)` on a number, taken over the reals: the nearest
 * integer, and on an exact tie (a fraction of one half) the even neighbour
 * ("banker's rounding"). Floating-point representation error is not modelled.
 */
module Rounding {

  function Abs(x: real): (r: real)
    ensures r >= 0.0 && (r == x || r == -x)
  {
    if x >= 0.0 then x else -x
  }

  /** Nearest integer to `x`, ties to even. */
  function RoundHalfEven(x: real): (r: int)
    ensures x - 0.5 <= r as real <= x + 0.5
    ensures (r as real == x - 0.5 || r as real == x + 0.5) ==> r % 2 == 0
  {
    var f := x.Floor;
    var frac := x - f as real;
    if frac < 0.5 then f
    else if frac > 0.5 then f + 1
    else if f % 2 == 0 then f
    else f + 1
  }

  /** An integer strictly within one half of `x` is the rounded value. */
  lemma RoundNearest(x: real, n: int)
    requires x - 0.5 < n as real < x + 0.5
    ensures RoundHalfEven(x) == n
  {
    var r := RoundHalfEven(x);
    assert r as real - n as real < 1.0 && n as real - r as real < 1.0;
  }

  /** Rounding is monotone: it never exceeds an integer bound it starts below. */
  lemma RoundAtMost(x: real, bound: int)
    requires x <= bound as real
    ensures RoundHalfEven(x) <= bound
  {
  }

  /** The tie-break: an exact half goes to the even neighbour, in both directions. */
  lemma TiesToEven()
    ensures RoundHalfEven(0.5) == 0 && RoundHalfEven(1.5) == 2
    ensures RoundHalfEven(2.5) == 2 && RoundHalfEven(118.5) == 118
  {
  }
}
