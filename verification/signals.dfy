/**
 * Strip signals and the incidence-angle convention they are expressed in.
 * A signal is either the invalid marker (kInvalidMult in the ESD) or an
 * energy-loss value. The trigonometry that turns a strip's pseudo-rapidity
 * into the cosine of its incidence angle is not modelled: that cosine is an
 * input, and it lies in (0, 1] for every strip of the detector.
 */
module Signals {

  datatype Signal = Invalid | Val(v: real)

  /** cos(theta) of the angle at which a particle from the vertex crosses a strip. */
  type AngleFactor = c: real | 0.0 < c <= 1.0 witness 1.0

  /** Scaling by a factor in (0, 1] keeps zero and the sign, and shrinks a non-negative value. */
  lemma ScaleBounds(mult: real, c: AngleFactor)
    ensures mult * c == 0.0 <==> mult == 0.0
    ensures mult * c > 0.0 <==> mult > 0.0
    ensures mult >= 0.0 ==> mult * c <= mult
  {
    if mult > 0.0 {
      assert mult * c > 0.0;
      assert mult - mult * c == mult * (1.0 - c) >= 0.0;
    } else if mult < 0.0 {
      assert mult * c < 0.0;
    }
  }

  /** Projects an energy loss onto the path length of a perpendicular track. */
  function AngleCorrect(mult: real, c: AngleFactor): (r: real)
    ensures r == 0.0 <==> mult == 0.0
    ensures r > 0.0 <==> mult > 0.0
    ensures mult >= 0.0 ==> r <= mult
  {
    ScaleBounds(mult, c);
    mult * c
  }

  /** Undoes AngleCorrect. */
  function DeAngleCorrect(mult: real, c: AngleFactor): (r: real)
    ensures AngleCorrect(r, c) == mult
  {
    mult / c
  }

  lemma AngleCorrectionRoundTrip(mult: real, c: AngleFactor)
    ensures DeAngleCorrect(AngleCorrect(mult, c), c) == mult
  {
  }

  /**
   * The signal of a strip in the convention the filter works in: correctAngles
   * asks for angle-corrected values, esdCorrected says what the ESD holds. The
   * invalid marker, a zero, and a value already in the asked-for convention
   * pass through unchanged.
   */
  function SignalInStrip(raw: Signal, c: AngleFactor, esdCorrected: bool, correctAngles: bool): (r: Signal)
    ensures r.Invalid? <==> raw.Invalid?
    ensures r == Val(0.0) <==> raw == Val(0.0)
    ensures esdCorrected == correctAngles ==> r == raw
    ensures raw.Val? ==> (r.v > 0.0 <==> raw.v > 0.0)
    ensures raw.Val? && correctAngles && !esdCorrected ==> r == Val(AngleCorrect(raw.v, c))
    ensures raw.Val? && !correctAngles && esdCorrected ==> AngleCorrect(r.v, c) == raw.v
  {
    if raw == Invalid || raw == Val(0.0) || (correctAngles && esdCorrected) || (!correctAngles && !esdCorrected) then
      raw
    else if correctAngles then
      Val(AngleCorrect(raw.v, c))
    else
      Val(DeAngleCorrect(raw.v, c))
  }
}
