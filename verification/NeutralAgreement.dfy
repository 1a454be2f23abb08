/** Two independent deciders on neutral colours: the interval scan over all colours and the
    root-refining oracle of the neutral axis. Where both answer, they answer alike. */
module NeutralAgreement {
  import opened Products
  import opened Results
  import opened Fractions
  import opened Powers
  import opened Transfer
  import opened FifthRoot
  import Q55Interval
  import Q55Domain
  import Q55Rows
  import NeutralAxis
  import NeutralOracle

  lemma WeightNonNegative(w: Fraction)
    requires w.NonNegative()
    ensures 0.0 <= w.Value() && 0.0 <= Q55Interval.Q as real * w.Value()
  {
    assert w.Value() * w.den as real == w.num as real;
    MulMonoReal(Q55Interval.Q as real, 0.0, w.Value());
  }

  lemma RootOfProduct(x: real, k: real, y: real, b: real, e: nat)
    requires 0.0 <= x && 0.0 <= k && 0.0 <= y && 0 < e
    requires RPow(x, e) == RPow(k, e) * b && RPow(y, e) == b
    ensures x == k * y
  {
    RPowProduct(k, y, e);
    MulMonoReal(k, 0.0, y);
    RPowOrder(x, k * y, e);
  }

  lemma QuotientTimes(k: real, a: real, d: real)
    requires 0.0 < d
    ensures k * a / d == k * (a / d)
  {
    var q := a / d;
    assert q * d == a;
    QuotientOf(k * q, d, k * a);
  }

  /** One channel of a neutral colour contributes its weight of the neutral luminance. */
  lemma NeutralContribution(x: real, w: Fraction, code: nat, p: Profile, y: real)
    requires w.NonNegative() && p.Ordinary() && Q55Rows.IsContribution(x, w, code, p)
    requires NeutralAxis.IsLuminance(y, code, p)
    ensures x == Q55Interval.Q as real * w.Value() * y
  {
    WeightNonNegative(w);
    var k := Q55Interval.Q as real * w.Value();
    if IsLinear(code, p) {
      assert p.divisor.Value() * p.divisor.den as real == p.divisor.num as real;
      QuotientTimes(k, code as real / 255.0, p.divisor.Value());
    } else {
      RootOfProduct(x, k, y, RPow(NeutralAxis.Base(code, p), 12), 5);
    }
  }

  predicate WeightsSumToOne(m: Q55Rows.Model)
    requires m.Usable()
  {
    m.red.Value() + m.green.Value() + m.blue.Value() == 1.0
  }

  /** The luminance of a neutral colour does not depend on the weights. */
  lemma NeutralLuminance(x: real, code: nat, m: Q55Rows.Model, y: real)
    requires m.Usable() && WeightsSumToOne(m) && Q55Rows.IsLuminance(x, Q55Rows.Colour(code, code, code), m)
    requires NeutralAxis.IsLuminance(y, code, m.profile)
    ensures x == Q55Interval.Q as real * y
  {
    var r, g, b :|
      && Q55Rows.IsContribution(r, m.red, code, m.profile)
      && Q55Rows.IsContribution(g, m.green, code, m.profile)
      && Q55Rows.IsContribution(b, m.blue, code, m.profile)
      && x == r + g + b;
    NeutralContribution(r, m.red, code, m.profile, y);
    NeutralContribution(g, m.green, code, m.profile, y);
    NeutralContribution(b, m.blue, code, m.profile, y);
    AddWeights(Q55Interval.Q as real, m.red.Value(), m.green.Value(), m.blue.Value(), y, r, g, b);
  }

  lemma AddWeights(q: real, wr: real, wg: real, wb: real, y: real, r: real, g: real, b: real)
    requires wr + wg + wb == 1.0 && r == q * wr * y && g == q * wg * y && b == q * wb * y
    ensures r + g + b == q * y
  {
    assert q * wr * y + q * wg * y + q * wb * y == q * y * (wr + wg + wb);
  }

  /** The margin of the law is met exactly by a ratio that is reached with the first colour lighter. */
  lemma MarginIsReach(x: real, y: real, ratio: Fraction, o: Fraction)
    requires 0.0 <= x && 0.0 <= y && ratio.Positive() && ratio.den <= ratio.num && o.Positive()
    ensures var q := Q55Interval.Q as real;
            && 0.0 <= q * y && 0.0 <= q * x
            && (0.0 <= Margin(x, y, ratio.Value(), o.Value()) <==>
                y <= x && Q55Rows.Reaches(q * x, q * y, ratio, o))
  {
    var q := Q55Interval.Q as real;
    var a, b := x + o.Value(), y + o.Value();
    assert o.Value() * o.den as real == o.num as real;
    FractionOrder(1, 1, ratio.num, ratio.den);
    MulMonoReal(q, 0.0, x);
    MulMonoReal(q, 0.0, y);
    QuotientOf(x, q, q * x);
    QuotientOf(y, q, q * y);
    RatioReached(a, b, ratio.Value());
    if x < y {
      MulMonoReal(b, 1.0, ratio.Value());
    }
  }

  lemma RatioReached(a: real, b: real, r: real)
    requires 0.0 < b
    ensures 0.0 <= a - r * b <==> r <= a / b
  {
    var q := a / b;
    assert q * b == a;
    if r <= q { MulMonoReal(b, r, q); } else { MulStrictReal(b, q, r); }
  }

  /** The verdict of the oracle on two neutral codes against the decision of the verified interval
      tables on the two neutral colours. The oracle takes the higher code for the lighter colour, so
      its verdict is the decision less the pairs where that is wrong, which one comparison of integers
      tells; there are none when luminance does not fall where the transfer function changes branch. */
  lemma NeutralVerdictsAgree(m: Q55Rows.Model, red: Q55Domain.Table, green: Q55Domain.Table, blue: Q55Domain.Table,
                             ratio: Fraction, o: Fraction, light: nat, dark: nat, verdict: bool,
                             x: real, y: real, u: real, v: real)
    requires m.Usable() && WeightsSumToOne(m) && ratio.Positive() && ratio.den <= ratio.num && o.Positive()
    requires Q55Rows.TightTable(m.red, m.profile, red) && Q55Rows.TightTable(m.green, m.profile, green)
    requires Q55Rows.TightTable(m.blue, m.profile, blue)
    requires Q55Domain.EveryColourPairDecided(red, green, blue, Q55Rows.ThresholdFromProfile(ratio, o))
    requires dark <= light < 256
    requires NeutralAxis.VerdictExact(light, dark, m.profile, ratio, o, verdict)
    requires NeutralAxis.IsLuminance(x, light, m.profile) && NeutralAxis.IsLuminance(y, dark, m.profile)
    requires Q55Rows.IsLuminance(u, Q55Rows.Colour(light, light, light), m)
    requires Q55Rows.IsLuminance(v, Q55Rows.Colour(dark, dark, dark), m)
    ensures var decision := Q55Interval.PairDecision(
              Q55Rows.LuminanceInterval(Q55Rows.Colour(light, light, light), red, green, blue),
              Q55Rows.LuminanceInterval(Q55Rows.Colour(dark, dark, dark), red, green, blue),
              Q55Rows.ThresholdFromProfile(ratio, o));
            && (verdict <==> NeutralAxis.RadicandAtMost(dark, light, m.profile) && decision == Q55Interval.Pass)
            && (NeutralAxis.NoDropAtSplit(m.profile) ==> (verdict <==> decision == Q55Interval.Pass))
  {
    NeutralAxis.LuminanceOrderIff(light, dark, m.profile, x, y);
    NeutralLuminance(u, light, m, x);
    NeutralLuminance(v, dark, m, y);
    MarginIsReach(x, y, ratio, o);
    if NeutralAxis.NoDropAtSplit(m.profile) { NeutralAxis.RadicandsOrdered(dark, light, m.profile); }
    Q55Rows.VerifiedDomainClassifies(m, red, green, blue, ratio, o, Q55Rows.Colour(light, light, light),
                                     Q55Rows.Colour(dark, dark, dark), u, v);
  }

  /// ------------------------------------------------------------ where the higher code is the darker colour

  /// split 0.7, divisor 0.75, no offset, scale 25.6: code 204 has luminance 1/4096, code 153 has 4/5
  const FALLING := Profile(Fraction(7, 10), Fraction(3, 4), Fraction(0, 1), Fraction(128, 5))

  const LIGHT: nat := 204
  const DARK: nat := 153
  const THREE := Fraction(3, 1)
  const OFFSET := Fraction(1, 20)

  lemma FallingLuminances()
    ensures FALLING.Ordinary()
    ensures NeutralAxis.IsLuminance(1.0 / 4096.0, LIGHT, FALLING) && NeutralAxis.IsLuminance(0.8, DARK, FALLING)
  {
    assert FALLING.scale.Value() == 25.6 && FALLING.divisor.Value() == 0.75 && FALLING.offset.Value() == 0.0;
    assert Encoded(LIGHT) == 0.8 && Encoded(DARK) == 0.6;
    assert NeutralAxis.Base(LIGHT, FALLING) == 1.0 / 32.0;
    ThirtySecondPower();
  }

  lemma ThirtySecondPower()
    ensures RPow(1.0 / 4096.0, 5) == RPow(1.0 / 32.0, 12)
  {
    var a, b := 1.0 / 4096.0, 1.0 / 32.0;
    assert RPow(a, 2) == a * a;
    assert RPow(a, 4) == a * (a * RPow(a, 2));
    assert RPow(b, 4) == b * b * b * b;
    assert RPow(b, 8) == b * b * b * b * RPow(b, 4);
    assert RPow(b, 12) == b * b * b * b * RPow(b, 8);
  }

  /** A profile in order on which the oracle's assumption fails: the two colours reach 3:1, and the
      margin it looks at, with the higher code for the lighter colour, is negative. */
  lemma HigherCodeDarker(x: real, y: real)
    requires NeutralAxis.IsLuminance(x, LIGHT, FALLING) && NeutralAxis.IsLuminance(y, DARK, FALLING)
    ensures FALLING.Ordinary() && !NeutralAxis.NoDropAtSplit(FALLING)
    ensures !NeutralAxis.RadicandAtMost(DARK, LIGHT, FALLING)
    ensures Margin(x, y, 3.0, 0.05) < -2.0 && 0.0 <= Margin(y, x, 3.0, 0.05)
  {
    FallingLuminances();
    SameLuminance(x, 1.0 / 4096.0, LIGHT);
    SameLuminance(y, 0.8, DARK);
    FarApart(x, y);
    NeutralAxis.LuminanceOrderIff(LIGHT, DARK, FALLING, x, y);
    NeutralAxis.RisesIffNoDrop(FALLING);
  }

  lemma FarApart(x: real, y: real)
    requires x == 1.0 / 4096.0 && y == 0.8
    ensures x < y && Margin(x, y, 3.0, 0.05) < -2.0 && 0.0 <= Margin(y, x, 3.0, 0.05)
  {
  }

  lemma SameLuminance(x: real, y: real, code: nat)
    requires FALLING.Usable()
    requires NeutralAxis.IsLuminance(x, code, FALLING) && NeutralAxis.IsLuminance(y, code, FALLING)
    ensures x == y
  {
    NeutralAxis.RadicandRoot(code, FALLING, x);
    NeutralAxis.RadicandRoot(code, FALLING, y);
    RPowOrder(x, y, 5);
  }

  lemma RadicandsInRange()
    ensures FALLING.Usable()
    ensures NeutralAxis.Radicand(LIGHT, FALLING).num <= NeutralAxis.Radicand(LIGHT, FALLING).den
    ensures NeutralAxis.Radicand(DARK, FALLING).num <= NeutralAxis.Radicand(DARK, FALLING).den
  {
    FallingLuminances();
    InRange(LIGHT, 1.0 / 4096.0);
    InRange(DARK, 0.8);
  }

  lemma InRange(code: nat, x: real)
    requires FALLING.Usable() && NeutralAxis.IsLuminance(x, code, FALLING) && 0.0 <= x <= 1.0
    ensures NeutralAxis.Radicand(code, FALLING).num <= NeutralAxis.Radicand(code, FALLING).den
  {
    var r := NeutralAxis.Radicand(code, FALLING);
    NeutralAxis.RadicandRoot(code, FALLING, x);
    RPowMono(x, 1.0, 5);
    RPowOne(5);
    FractionOrder(r.num, r.den, 1, 1);
  }

  lemma {:induction false} ShrinksToHalf(k: nat)
    requires 3 <= k
    ensures 0.0 <= RPow(0.75, k) <= 0.5
  {
    if k > 3 { ShrinksToHalf(k - 1); } else { assert RPow(0.75, 2) == 0.75 * 0.75; }
  }

  /** The margin leaves the oracle no way to grant the contrast or to give up. */
  lemma OnlyDenial()
    ensures FALLING.Usable()
    ensures !NeutralAxis.VerdictExact(LIGHT, DARK, FALLING, THREE, OFFSET, true)
    ensures !NeutralAxis.MarginTiny(LIGHT, DARK, FALLING, THREE, OFFSET,
                                    Shrunk(NeutralOracle.MAX_ROOT_REFINEMENTS, 1.0 + THREE.Value()))
  {
    ShrinksToHalf(NeutralOracle.MAX_ROOT_REFINEMENTS);
    FallingLuminances();
    FarApart(1.0 / 4096.0, 0.8);
    assert THREE.Value() == 3.0 && OFFSET.Value() == 0.05;
  }

  /** One question to a new oracle. */
  method AskOnce(p: Profile, offset: Fraction, ratio: Fraction, light: nat, dark: nat)
    returns (r: Result<bool, NeutralOracle.OracleError>)
    requires p.Usable() && offset.NonNegative() && 0 < ratio.den < ratio.num && dark <= light < 256
    requires NeutralAxis.Radicand(light, p).num <= NeutralAxis.Radicand(light, p).den
    requires NeutralAxis.Radicand(dark, p).num <= NeutralAxis.Radicand(dark, p).den
    ensures r.Ok? ==> NeutralAxis.VerdictExact(light, dark, p, ratio, offset, r.value)
    ensures r.Err? ==>
      NeutralAxis.MarginTiny(light, dark, p, ratio, offset,
                             Shrunk(NeutralOracle.MAX_ROOT_REFINEMENTS, 1.0 + ratio.Value()))
  {
    var oracle := new NeutralOracle.Oracle(p, offset, map["only" := ratio]);
    r := oracle.ContrastPasses(light, dark, "only");
  }

  /** The oracle's run on that profile: it denies the contrast. */
  method OracleDeniesContrast() returns (r: Result<bool, NeutralOracle.OracleError>)
    ensures r == Ok(false)
  {
    RadicandsInRange();
    OnlyDenial();
    r := AskOnce(FALLING, OFFSET, THREE, LIGHT, DARK);
  }
}
