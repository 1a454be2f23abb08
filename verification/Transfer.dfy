/** The transfer parameters of the WCAG luminance profile, and its two branches. */
module Transfer {
  import opened Fractions

  /** Threshold of the linear branch, its divisor, and the offset and scale of the power branch,
      whose exponent is 12/5. */
  datatype Profile = Profile(split: Fraction, divisor: Fraction, offset: Fraction, scale: Fraction) {
    predicate Usable() {
      0 < split.den && divisor.Positive() && 0 < offset.den && scale.Positive()
    }

    /** Usable, and the power branch never subtracts. */
    predicate Ordinary() { Usable() && 0 <= offset.num }
  }

  function Encoded(code: nat): real { code as real / 255.0 }

  /** Whether a code lies in the linear branch, compared without division. */
  predicate IsLinear(code: nat, p: Profile) {
    code * p.split.den <= p.split.num * 255
  }

  lemma IsLinearIff(code: nat, p: Profile)
    requires p.Usable()
    ensures IsLinear(code, p) <==> Encoded(code) <= p.split.Value()
  {
    FractionOrder(code, 255, p.split.num, p.split.den);
  }
}
