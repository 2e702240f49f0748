/**
 * Rounding of a coordinate to two decimal places. The coordinates come out of
 * the perspective transform as NumPy float64 values, and `round(v, 2)` on such
 * a value multiplies by 100, rounds half to even, and divides by 100. Here the
 * product is taken exactly and the result is kept as an integer number of
 * hundredths, so that later comparisons are exact.
 */
module Rounding {

  /** How far apart two reals lie. */
  function Gap(a: real, b: real): real {
    if a < b then b - a else a - b
  }

  /** The integer nearest to `t`, ties going to the even neighbour. */
  function RoundHalfEven(t: real): (n: int)
    ensures Gap(t, n as real) <= 0.5
    ensures Gap(t, n as real) == 0.5 ==> n % 2 == 0
  {
    var f := t.Floor;
    var frac := t - f as real;
    if frac < 0.5 then f
    else if frac > 0.5 then f + 1
    else if f % 2 == 0 then f
    else f + 1
  }

  /** `round(v, 2)` expressed in hundredths. */
  function RoundHundredths(v: real): (h: int)
    ensures Gap(v * 100.0, h as real) <= 0.5
    ensures Gap(v * 100.0, h as real) == 0.5 ==> h % 2 == 0
  {
    RoundHalfEven(v * 100.0)
  }

  /** No integer lies closer to `t` than the rounded value. */
  lemma RoundHalfEvenIsNearest(t: real, k: int)
    ensures Gap(t, RoundHalfEven(t) as real) <= Gap(t, k as real)
  {
    var n := RoundHalfEven(t);
    if k != n {
      assert Gap(n as real, k as real) >= 1.0;
    }
  }

  /**
   * The two properties in the contract of RoundHalfEven determine its result:
   * any integer within one half of `t`, and even on a tie, is that result.
   */
  lemma RoundHalfEvenIsUnique(t: real, m: int)
    requires Gap(t, m as real) <= 0.5
    requires Gap(t, m as real) == 0.5 ==> m % 2 == 0
    ensures m == RoundHalfEven(t)
  {
    var n := RoundHalfEven(t);
    assert -1 <= m - n <= 1;
    if m != n {
      assert false;
    }
  }

  /** A value already on the hundredths grid is left as it is. */
  lemma RoundHundredthsOfGridValue(h: int)
    ensures RoundHundredths(h as real / 100.0) == h
  {
    assert (h as real / 100.0) * 100.0 == h as real;
    RoundHalfEvenIsUnique(h as real, h);
  }
}
