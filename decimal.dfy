/** Rounding to one decimal as numpy's `round(x, 1)` does it (ties to even), and
    Python's `format(x, '.1f')`. Numbers are exact reals here: the binary
    representation of a float is not modelled. */
module Decimal {
  import opened Wrappers
  import opened Text

  /** The integer nearest to `y`; a tie goes to the even neighbour. */
  function RoundHalfEven(y: real): (k: int)
    ensures -0.5 <= k as real - y <= 0.5
    ensures (k as real - y == 0.5 || y - k as real == 0.5) ==> k % 2 == 0
  {
    var f := y.Floor;
    var frac := y - f as real;
    if frac < 0.5 then f
    else if frac > 0.5 then f + 1
    else if f % 2 == 0 then f
    else f + 1
  }

  /** Rounding gives the one integer strictly closer than a half, when there is one. */
  lemma RoundHalfEvenUnique(y: real, k: int)
    requires -0.5 < k as real - y < 0.5
    ensures RoundHalfEven(y) == k
  {
    var r := RoundHalfEven(y);
    assert -1.0 < r as real - k as real < 1.0;
  }

  /** `round(x, 1)` counted in tenths: `round(x, 1) == RoundTenths(x) / 10`. */
  function RoundTenths(x: real): (k: int)
    ensures -0.05 <= k as real / 10.0 - x <= 0.05
  {
    RoundHalfEven(x * 10.0)
  }

  /** Two coordinates that round to the same tenth lie within a tenth of each other. */
  lemma SameTenthIsNear(x: real, y: real)
    requires RoundTenths(x) == RoundTenths(y)
    ensures -0.1 <= x - y <= 0.1
  {
  }

  /** Python's `format(x, '.1f')`: the sign is that of `x` (so -0.04 prints as "-0.0"),
      the digits those of `x` rounded to a tenth. */
  function FormatFixed1(x: real): (s: string)
    ensures |s| > 0 && (s[0] == '-' <==> x < 0.0)
  {
    var k := RoundTenths(x);
    var magnitude: nat := if k < 0 then -k else k;
    var s := DecimalString(x < 0.0, magnitude);
    assert IsDigit(NatToString(magnitude / 10)[0]);
    s
  }

  /** Reading a '.1f' string back gives `x` rounded to the nearest tenth. */
  lemma FormatFixed1RoundTrip(x: real)
    ensures ParseNumber(FormatFixed1(x)) == Some(RoundTenths(x) as real / 10.0)
  {
    var k := RoundTenths(x);
    var magnitude: nat := if k < 0 then -k else k;
    DecimalStringRoundTrip(x < 0.0, magnitude);
    assert x < 0.0 ==> k <= 0;
    assert x >= 0.0 ==> k >= 0;
  }
}
