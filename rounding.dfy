/** Python's `round(x, 1)` on exact reals. */
module Rounding {

  /** Whole number of tenths. */
  predicate IsTenths(x: real) {
    (x * 10.0).Floor as real == x * 10.0
  }

  /** `round(x, 1)`: the nearest multiple of 0.1, a tie going to the even
      tenth (Python rounds half to even). */
  function Round1(x: real): (r: real)
    ensures IsTenths(r)
    ensures -0.05 <= r - x <= 0.05
    ensures x >= 0.0 ==> r >= 0.0
  {
    var y := x * 10.0;
    var f := y.Floor;
    var d := y - f as real;
    var n := if d < 0.5 then f else if d > 0.5 then f + 1 else if f % 2 == 0 then f else f + 1;
    n as real / 10.0
  }

  /** A value that already has one decimal is left as it is. */
  lemma Round1OfTenths(n: int)
    ensures Round1(n as real / 10.0) == n as real / 10.0
  {
    assert (n as real / 10.0) * 10.0 == n as real;
  }

  /** Every whole number of tenths is a fixed point. */
  lemma Round1Fixed(x: real)
    requires IsTenths(x)
    ensures Round1(x) == x
  {
    var n := (x * 10.0).Floor;
    assert x == n as real / 10.0;
    Round1OfTenths(n);
  }

  lemma Round1Idempotent(x: real)
    ensures Round1(Round1(x)) == Round1(x)
  {
    Round1Fixed(Round1(x));
  }

  lemma Round1Monotone(x: real, y: real)
    requires x <= y
    ensures Round1(x) <= Round1(y)
  {
    var fx, fy := (x * 10.0).Floor, (y * 10.0).Floor;
    assert fx <= fy;
  }
}
