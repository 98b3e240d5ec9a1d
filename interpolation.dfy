/** `interpolate_rsrp_value`: refining a level between two legend levels. */
module Interpolation {
  import opened Wrappers

  /** The `ValueError` raised for a method other than "linear" or "average". */
  datatype InterpolationError = InvalidMethod

  /** Interpolates between `minRsrp` and `maxRsrp` according to where
      `currentVal` lies between `minVal` and `maxVal`.  A missing mode or
      an empty interval returns `minRsrp` before the mode is examined. */
  function InterpolateRsrpValue(minRsrp: real, maxRsrp: real, minVal: real, maxVal: real,
                                currentVal: real, mode: Option<string>): Result<real, InterpolationError>
  {
    if minVal == maxVal || mode.None? then Ok(minRsrp)
    else if mode.value == "linear" then
      Ok(minRsrp + (maxRsrp - minRsrp) * ((currentVal - minVal) / (maxVal - minVal)))
    else if mode.value == "average" then Ok((minRsrp + maxRsrp) / 2.0)
    else Err(InvalidMethod)
  }

  /** The only failure is an unknown method on a non-empty interval. */
  lemma FailsExactlyOnUnknownMethod(minRsrp: real, maxRsrp: real, minVal: real, maxVal: real,
                                    currentVal: real, mode: Option<string>)
    ensures InterpolateRsrpValue(minRsrp, maxRsrp, minVal, maxVal, currentVal, mode).Err?
        <==> minVal != maxVal && mode.Some? && mode.value != "linear" && mode.value != "average"
  {
  }

  /** With no method, or with `minVal == maxVal`, the result is `minRsrp`
      whatever `currentVal` and the mode name are. */
  lemma DegenerateReturnsMin(minRsrp: real, maxRsrp: real, minVal: real, maxVal: real,
                             currentVal: real, mode: Option<string>)
    requires minVal == maxVal || mode.None?
    ensures InterpolateRsrpValue(minRsrp, maxRsrp, minVal, maxVal, currentVal, mode) == Ok(minRsrp)
  {
  }

  /** Linear interpolation reproduces the end levels at the end values. */
  lemma LinearHitsEndpoints(minRsrp: real, maxRsrp: real, minVal: real, maxVal: real)
    requires minVal != maxVal
    ensures InterpolateRsrpValue(minRsrp, maxRsrp, minVal, maxVal, minVal, Some("linear")) == Ok(minRsrp)
    ensures InterpolateRsrpValue(minRsrp, maxRsrp, minVal, maxVal, maxVal, Some("linear")) == Ok(maxRsrp)
  {
    var span := maxVal - minVal;
    DivSelf(span);
    assert (maxRsrp - minRsrp) * (span / span) == maxRsrp - minRsrp;
    assert InterpolateRsrpValue(minRsrp, maxRsrp, minVal, maxVal, maxVal, Some("linear"))
        == Ok(minRsrp + (maxRsrp - minRsrp) * (span / span));
  }

  lemma DivSelf(x: real)
    requires x != 0.0
    ensures x / x == 1.0
  {
  }

  /** Linear interpolation follows the direction of its slope: it rises with
      `currentVal` when the levels move the same way as the values, and
      falls when they move the opposite way, whichever end value is larger. */
  lemma {:induction false} LinearMonotonic(minRsrp: real, maxRsrp: real, minVal: real, maxVal: real,
                                           c1: real, c2: real)
    requires minVal != maxVal && c1 <= c2
    ensures var f1 := InterpolateRsrpValue(minRsrp, maxRsrp, minVal, maxVal, c1, Some("linear")).value;
            var f2 := InterpolateRsrpValue(minRsrp, maxRsrp, minVal, maxVal, c2, Some("linear")).value;
            && ((maxRsrp - minRsrp) * (maxVal - minVal) >= 0.0 ==> f1 <= f2)
            && ((maxRsrp - minRsrp) * (maxVal - minVal) <= 0.0 ==> f1 >= f2)
  {
    var span, rise := maxVal - minVal, maxRsrp - minRsrp;
    var slope := rise / span;
    LinearAsSlope(minRsrp, maxRsrp, minVal, maxVal, c1);
    LinearAsSlope(minRsrp, maxRsrp, minVal, maxVal, c2);
    assert slope * (span * span) == rise * span;
    assert span * span > 0.0;
    assert rise * span >= 0.0 ==> slope >= 0.0;
    assert rise * span <= 0.0 ==> slope <= 0.0;
    assert slope * (c2 - minVal) - slope * (c1 - minVal) == slope * (c2 - c1);
  }

  /** For a value between the two end values, linear interpolation gives a
      level between the two end levels. */
  lemma LinearStaysBetween(minRsrp: real, maxRsrp: real, minVal: real, maxVal: real, c: real)
    requires minVal != maxVal
    requires minVal <= c <= maxVal || maxVal <= c <= minVal
    ensures var f := InterpolateRsrpValue(minRsrp, maxRsrp, minVal, maxVal, c, Some("linear")).value;
            minRsrp <= f <= maxRsrp || maxRsrp <= f <= minRsrp
  {
    var span, rise := maxVal - minVal, maxRsrp - minRsrp;
    var t := (c - minVal) / span;
    assert t * span == c - minVal;
    assert 0.0 <= t <= 1.0;
    assert rise * t + rise * (1.0 - t) == rise;
    assert rise >= 0.0 ==> rise * t >= 0.0 && rise * (1.0 - t) >= 0.0;
    assert rise <= 0.0 ==> rise * t <= 0.0 && rise * (1.0 - t) <= 0.0;
  }

  /** The linear formula as a slope times the distance from `minVal`. */
  lemma LinearAsSlope(minRsrp: real, maxRsrp: real, minVal: real, maxVal: real, c: real)
    requires minVal != maxVal
    ensures InterpolateRsrpValue(minRsrp, maxRsrp, minVal, maxVal, c, Some("linear")).value
         == minRsrp + (maxRsrp - minRsrp) / (maxVal - minVal) * (c - minVal)
  {
    var span, rise, d := maxVal - minVal, maxRsrp - minRsrp, c - minVal;
    var p, q := rise / span, d / span;
    assert p * span == rise && q * span == d;
    assert rise * q == p * span * q == p * d;
  }

  /** "average" is the midpoint of the two levels, lies between them and
      does not depend on `currentVal`. */
  lemma AverageIsMidpoint(minRsrp: real, maxRsrp: real, minVal: real, maxVal: real,
                          c1: real, c2: real)
    requires minVal != maxVal
    ensures InterpolateRsrpValue(minRsrp, maxRsrp, minVal, maxVal, c1, Some("average"))
         == InterpolateRsrpValue(minRsrp, maxRsrp, minVal, maxVal, c2, Some("average"))
    ensures var r := InterpolateRsrpValue(minRsrp, maxRsrp, minVal, maxVal, c1, Some("average")).value;
            r - minRsrp == maxRsrp - r
  {
  }
}
