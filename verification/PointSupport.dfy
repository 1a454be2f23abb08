/** Contrast distance of two luminance intervals, its surplus over an anchor ratio, and the share
    of a baseline surplus that must be kept. */
module PointSupport {
  import opened Products
  import opened Fractions
  import opened RationalOrder

  const DROP_SCALE: nat := 10000

  datatype Interval = Interval(lower: nat, upper: nat) {
    predicate Ordered() { lower <= upper }

    predicate Contains(x: real) { lower as real <= x <= upper as real }
  }

  datatype Side = ForegroundLighter | BackgroundLighter | Unseparated

  datatype Anchor = Ratio1 | Ratio3 | Ratio45 {
    function Ratio(): real {
      match this
      case Ratio1 => 1.0
      case Ratio3 => 3.0
      case Ratio45 => 4.5
    }
  }

  datatype Distance = Distance(side: Side, gap: nat, denominator: nat)

  function ReferenceDistance(f: Interval, b: Interval, scale: nat): Distance {
    if f.lower > b.upper then Distance(ForegroundLighter, f.lower - b.upper, 20 * b.upper + scale)
    else if b.lower > f.upper then Distance(BackgroundLighter, b.lower - f.upper, 20 * f.upper + scale)
    else Distance(Unseparated, 0, scale)
  }

  function AnchorSurplus(anchor: Anchor, gap: int, denominator: int): Fraction {
    match anchor
    case Ratio1 => Fraction(20 * gap, denominator)
    case Ratio3 => Fraction(20 * gap - 2 * denominator, denominator)
    case Ratio45 => Fraction(40 * gap - 7 * denominator, 2 * denominator)
  }

  /** Contrast of two luminances, lighter over darker, both given in units of 1/scale and raised by
      a twentieth. */
  function Contrast(x: real, y: real, scale: nat): real
    requires 0.0 <= x && 0.0 <= y && 0 < scale
  {
    HigherOverLower(20.0 * x + scale as real, 20.0 * y + scale as real)
  }

  function Surplus(anchor: Anchor, distance: Distance): real
    requires 0 < distance.denominator
  {
    AnchorSurplus(anchor, distance.gap, distance.denominator).Value()
  }

  /** Each anchor's formula is the contrast at the gap, less the ratio. */
  lemma AnchorSurplusIs(anchor: Anchor, gap: int, denominator: int)
    requires 0 < denominator
    ensures AnchorSurplus(anchor, gap, denominator).den > 0
    ensures AnchorSurplus(anchor, gap, denominator).Value() ==
      1.0 + 20.0 * gap as real / denominator as real - anchor.Ratio()
  {
    var g, d := 20.0 * gap as real, denominator as real;
    var q := g / d;
    assert q * d == g;
    match anchor
    case Ratio1 => QuotientOf(q, d, (20 * gap) as real);
    case Ratio3 => QuotientOf(q - 2.0, d, (20 * gap - 2 * denominator) as real);
    case Ratio45 =>
      assert (q - 3.5) * (2.0 * d) == 2.0 * (q * d) - 7.0 * d;
      QuotientOf(q - 3.5, 2.0 * d, (40 * gap - 7 * denominator) as real);
  }

  /** Brighter light and darker dark only raise the contrast. */
  lemma RatioMonotone(x: real, y: real, u: real, v: real, s: real)
    requires 0.0 < s && 0.0 <= y <= v && 0.0 <= u <= x
    ensures (20.0 * u + s) / (20.0 * v + s) <= (20.0 * x + s) / (20.0 * y + s)
  {
    var a, b, c, d := 20.0 * u + s, 20.0 * v + s, 20.0 * x + s, 20.0 * y + s;
    QuotientsOrdered(a, b, c, d);
  }

  lemma QuotientsOrdered(a: real, b: real, c: real, d: real)
    requires 0.0 < a <= c && 0.0 < d <= b
    ensures a / b <= c / d
  {
    var p, q := a / b, c / d;
    assert p * b == a && q * d == c;
    if q < p {
      MulStrictReal(d, q, p);
      PositiveQuotient(a, b);
      MulMonoReal(p, d, b);
    }
  }

  lemma PositiveQuotient(a: real, b: real)
    requires 0.0 < a && 0.0 < b
    ensures 0.0 <= a / b
  {
  }

  /** The surplus at the two end points nearest to each other. */
  lemma EndPointSurplus(anchor: Anchor, light: nat, dark: nat, scale: nat)
    requires dark < light && 0 < scale
    ensures AnchorSurplus(anchor, light - dark, 20 * dark + scale).den > 0
    ensures AnchorSurplus(anchor, light - dark, 20 * dark + scale).Value() ==
      Contrast(light as real, dark as real, scale) - anchor.Ratio()
  {
    var d := 20.0 * dark as real + scale as real;
    AnchorSurplusIs(anchor, light - dark, 20 * dark + scale);
    var q := 20.0 * (light - dark) as real / d;
    assert q * d == 20.0 * (light - dark) as real;
    assert (1.0 + q) * d == d + q * d;
    QuotientOf(1.0 + q, d, 20.0 * light as real + scale as real);
  }

  /** The reference surplus is guaranteed: no luminances the two intervals enclose have less. */
  lemma SurplusGuaranteed(anchor: Anchor, f: Interval, b: Interval, scale: nat, x: real, y: real)
    requires 0 < scale && f.Contains(x) && b.Contains(y)
    ensures ReferenceDistance(f, b, scale).denominator > 0
    ensures Surplus(anchor, ReferenceDistance(f, b, scale)) <= Contrast(x, y, scale) - anchor.Ratio()
  {
    if f.lower > b.upper {
      EndPointSurplus(anchor, f.lower, b.upper, scale);
      RatioMonotone(x, y, f.lower as real, b.upper as real, scale as real);
    } else if b.lower > f.upper {
      EndPointSurplus(anchor, b.lower, f.upper, scale);
      RatioMonotone(y, x, b.lower as real, f.upper as real, scale as real);
    } else {
      AnchorSurplusIs(anchor, 0, scale);
      QuotientOf(0.0, scale as real, 0.0);
      AtLeastOne(x, y, scale);
    }
  }

  lemma AtLeastOne(x: real, y: real, scale: nat)
    requires 0.0 <= x && 0.0 <= y && 0 < scale
    ensures 1.0 <= Contrast(x, y, scale)
    ensures x == y ==> Contrast(x, y, scale) == 1.0
  {
    var s := scale as real;
    var top, bottom := if y <= x then x else y, if y <= x then y else x;
    QuotientsOrdered(20.0 * bottom + s, 20.0 * bottom + s, 20.0 * top + s, 20.0 * bottom + s);
    QuotientOf(1.0, 20.0 * bottom + s, 20.0 * bottom + s);
  }

  /** And it is the best guarantee there is: some enclosed luminances have exactly this surplus. */
  lemma SurplusAttained(anchor: Anchor, f: Interval, b: Interval, scale: nat) returns (x: real, y: real)
    requires 0 < scale && f.Ordered() && b.Ordered()
    ensures f.Contains(x) && b.Contains(y) && ReferenceDistance(f, b, scale).denominator > 0
    ensures Surplus(anchor, ReferenceDistance(f, b, scale)) == Contrast(x, y, scale) - anchor.Ratio()
  {
    if f.lower > b.upper {
      x, y := f.lower as real, b.upper as real;
      EndPointSurplus(anchor, f.lower, b.upper, scale);
    } else if b.lower > f.upper {
      x, y := f.upper as real, b.lower as real;
      EndPointSurplus(anchor, b.lower, f.upper, scale);
    } else {
      x := Max(f.lower, b.lower) as real;
      y := x;
      AnchorSurplusIs(anchor, 0, scale);
      QuotientOf(0.0, scale as real, 0.0);
      AtLeastOne(x, y, scale);
    }
  }

  /** All anchors rank two distances alike, and as the comparator ranks gap over denominator. */
  lemma AnchorsRankAlike(anchor: Anchor, g: nat, d: nat, h: nat, e: nat)
    requires 0 < d && 0 < e
    ensures AnchorSurplus(anchor, g, d).den > 0 && AnchorSurplus(anchor, h, e).den > 0
    ensures AnchorSurplus(anchor, g, d).Value() <= AnchorSurplus(anchor, h, e).Value() <==> OracleOrder(g, d, h, e) <= 0
  {
    AnchorSurplusIs(anchor, g, d);
    AnchorSurplusIs(anchor, h, e);
    FractionOrder(20 * g, d, 20 * h, e);
    assert (20 * g) * e == 20 * (g * e) && (20 * h) * d == 20 * (h * d);
    assert (20 * g) as real == 20.0 * g as real && (20 * h) as real == 20.0 * h as real;
  }

  /** The side is the order of all enclosed luminances, and the gap their least distance. */
  lemma DistanceIs(f: Interval, b: Interval, scale: nat)
    requires f.Ordered() && b.Ordered()
    ensures var d := ReferenceDistance(f, b, scale);
            && (d.side == ForegroundLighter <==> forall x, y :: f.Contains(x) && b.Contains(y) ==> y < x)
            && (d.side == BackgroundLighter <==> forall x, y :: f.Contains(x) && b.Contains(y) ==> x < y)
            && (forall x, y :: f.Contains(x) && b.Contains(y) ==>
                  d.gap as real <= x - y || d.gap as real <= y - x)
            && exists x, y :: f.Contains(x) && b.Contains(y) && (d.gap as real == x - y || d.gap as real == y - x)
  {
    assert f.Contains(f.lower as real) && f.Contains(f.upper as real);
    assert b.Contains(b.lower as real) && b.Contains(b.upper as real);
    var common := Max(f.lower, b.lower) as real;
    if f.lower <= b.upper && b.lower <= f.upper { assert f.Contains(common) && b.Contains(common); }
  }

  /** Swapping foreground and background turns only the side. */
  lemma DistanceSymmetric(f: Interval, b: Interval, scale: nat)
    requires f.Ordered() && b.Ordered()
    ensures var d, e := ReferenceDistance(f, b, scale), ReferenceDistance(b, f, scale);
            && d.gap == e.gap && d.denominator == e.denominator
            && (d.side == ForegroundLighter <==> e.side == BackgroundLighter)
            && (d.side == Unseparated <==> e.side == Unseparated)
  {
  }

  /** The share of a positive baseline surplus that must be kept after a drop in basis points. */
  function RequiredSurplus(baseline: Fraction, drop: nat): Fraction
    requires 0 < baseline.den && drop <= DROP_SCALE
  {
    if baseline.num <= 0 || drop == DROP_SCALE then Fraction(0, 1)
    else Fraction(baseline.num * (DROP_SCALE - drop), baseline.den * DROP_SCALE)
  }

  lemma RequiredNonNegative(baseline: Fraction, drop: nat)
    requires 0 < baseline.den && drop <= DROP_SCALE
    ensures 0 <= RequiredSurplus(baseline, drop).num && 0 < RequiredSurplus(baseline, drop).den
  {
    if baseline.num > 0 { MulMono(baseline.num, 0, DROP_SCALE - drop); }
  }

  /** Meeting the requirement is one integer comparison: with a positive baseline the retained share,
      otherwise just the anchor itself. */
  lemma RetainedIff(current: Fraction, baseline: Fraction, drop: nat)
    requires 0 <= current.num && 0 < current.den && 0 < baseline.den && drop <= DROP_SCALE
    ensures var required := RequiredSurplus(baseline, drop);
            && required.den > 0
            && (OracleOrder(current.num, current.den, required.num, required.den) >= 0 <==>
              required.Value() <= current.Value())
            && (required.Value() <= current.Value() <==>
                  || baseline.num <= 0
                  || baseline.num * (10000 - drop) * current.den <= current.num * (baseline.den * 10000))
  {
    var required := RequiredSurplus(baseline, drop);
    RequiredNonNegative(baseline, drop);
    FractionOrder(required.num, required.den, current.num, current.den);
    MulMono(current.num, 0, baseline.den * DROP_SCALE);
  }

  /** A larger drop never asks for more, no drop asks for the whole baseline, and the requirement
      never exceeds a positive baseline. */
  lemma RequiredFalls(baseline: Fraction, drop: nat, more: nat)
    requires 0 < baseline.den && drop <= more <= DROP_SCALE
    ensures RequiredSurplus(baseline, drop).den > 0 && RequiredSurplus(baseline, more).den > 0
    ensures RequiredSurplus(baseline, more).Value() <= RequiredSurplus(baseline, drop).Value()
    ensures baseline.num > 0 ==> RequiredSurplus(baseline, 0).Value() == baseline.Value()
  {
    RequiredNonNegative(baseline, drop);
    RequiredNonNegative(baseline, more);
    if baseline.num > 0 {
      SameValue(baseline.num * DROP_SCALE, baseline.den * DROP_SCALE, baseline.num, baseline.den);
      assert baseline.num * DROP_SCALE * baseline.den == baseline.num * (baseline.den * DROP_SCALE);
      var less, full := RequiredSurplus(baseline, more), RequiredSurplus(baseline, drop);
      if more < DROP_SCALE {
        MulMono(baseline.num, DROP_SCALE - more, DROP_SCALE - drop);
        MulMono(full.den, less.num, full.num);
      } else {
        MulMono(full.num, 0, 1);
      }
      FractionOrder(less.num, less.den, full.num, full.den);
    }
  }
}
