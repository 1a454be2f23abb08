/** Tight integer rows for the weighted sRGB transfer function, and what the threshold
    decisions built on them say about real luminances. */
module Q55Rows {
  import opened Products
  import opened Results
  import opened Fractions
  import opened Powers
  import opened Transfer
  import opened Q55Interval
  import Q55Domain

  function LinearNumerator(w: Fraction, code: nat, p: Profile): int { Q * w.num * code * p.divisor.den }

  function LinearDenominator(w: Fraction, code: nat, p: Profile): int { w.den * 255 * p.divisor.num }

  function BaseNumerator(code: nat, p: Profile): int {
    (code * p.offset.den + p.offset.num * 255) * p.scale.den
  }

  function BaseDenominator(code: nat, p: Profile): int { 255 * p.offset.den * p.scale.num }

  function PowerRight(w: Fraction, code: nat, p: Profile): int {
    Pow(Q, 5) * Pow(w.num, 5) * Pow(BaseNumerator(code, p), 12)
  }

  function PowerLeft(w: Fraction, code: nat, p: Profile): int {
    Pow(w.den, 5) * Pow(BaseDenominator(code, p), 12)
  }

  /** x is Q * weight * linearize(code): a quotient below the split, and above it the fifth
      root of an exact twelfth power, named through its own fifth power. */
  ghost predicate IsContribution(x: real, w: Fraction, code: nat, p: Profile)
    requires w.NonNegative() && p.Ordinary()
  {
    var encoded := code as real / 255.0;
    if IsLinear(code, p) then x == Q as real * w.Value() * encoded / p.divisor.Value()
    else
      0.0 <= x
      && RPow(x, 5) == RPow(Q as real * w.Value(), 5) * RPow((encoded + p.offset.Value()) / p.scale.Value(), 12)
  }

  /** The binary search of the power branch. */
  method FifthRootFloor(left: int, right: int) returns (lo: nat)
    requires 0 < left && 0 <= right
    ensures lo <= Q && Pow(lo, 5) * left <= right
    ensures lo < Q ==> Pow(lo + 1, 5) * left > right
  {
    var hi := Q;
    lo := 0;
    assert Pow(0, 5) == 0;
    while lo < hi
      invariant 0 <= lo <= hi <= Q
      invariant Pow(lo, 5) * left <= right
      invariant hi < Q ==> Pow(hi + 1, 5) * left > right
    {
      var midpoint := (lo + hi + 1) / 2;
      if Pow(midpoint, 5) * left <= right {
        lo := midpoint;
      } else {
        hi := midpoint - 1;
      }
    }
  }

  /** The committed-row check: an accepted row is the floor and ceiling of the contribution. */
  predicate TightnessCheck(w: Fraction, code: nat, p: Profile, row: Interval)
    requires w.NonNegative() && p.Ordinary()
  {
    && (if IsLinear(code, p) then
          var num, den := LinearNumerator(w, code, p), LinearDenominator(w, code, p);
          && 0 < den
          && row.lower == num / den
          && row.upper == num / den + (if num % den != 0 then 1 else 0)
        else
          var right, left := PowerRight(w, code, p), PowerLeft(w, code, p);
          && Pow(row.lower, 5) * left <= right
          && Pow(row.lower + 1, 5) * left > right
          && row.upper == (if Pow(row.lower, 5) * left == right then row.lower else row.lower + 1))
    && row.lower <= row.upper <= Q
    && row.upper - row.lower <= 1
  }

  lemma ClearedSigns(w: Fraction, code: nat, p: Profile)
    requires w.NonNegative() && p.Ordinary()
    ensures 0 <= LinearNumerator(w, code, p) && 0 < LinearDenominator(w, code, p)
    ensures 0 <= BaseNumerator(code, p) && 0 < BaseDenominator(code, p)
    ensures 0 <= PowerRight(w, code, p) && 0 < PowerLeft(w, code, p)
  {
    MulNonNegative(Q * w.num, code);
    MulNonNegative(Q * w.num * code, p.divisor.den);
    MulPositive(w.den * 255, p.divisor.num);
    MulNonNegative(code, p.offset.den);
    MulNonNegative(code * p.offset.den + p.offset.num * 255, p.scale.den);
    MulPositive(255 * p.offset.den, p.scale.num);
    PowMono(0, Q, 5);
    PowMono(0, w.num, 5);
    PowMono(0, BaseNumerator(code, p), 12);
    PowPositive(w.den, 5);
    PowPositive(BaseDenominator(code, p), 12);
    MulNonNegative(Pow(Q, 5), Pow(w.num, 5));
    MulNonNegative(Pow(Q, 5) * Pow(w.num, 5), Pow(BaseNumerator(code, p), 12));
    MulPositive(Pow(w.den, 5), Pow(BaseDenominator(code, p), 12));
  }

  lemma CompareScaled(a: int, b: int, left: int)
    requires 0 < left && 0 <= a <= b
    ensures Pow(a, 5) * left <= Pow(b, 5) * left
  {
    PowMono(a, b, 5);
  }

  /** The row generator. It answers only when every assertion of the generator holds, and then
      its row is the one row the independent check accepts. */
  method WeightedBounds(w: Fraction, code: nat, p: Profile) returns (r: Option<Interval>)
    requires w.NonNegative() && p.Ordinary()
    ensures r.Some? ==> TightnessCheck(w, code, p, r.value)
    ensures forall row :: TightnessCheck(w, code, p, row) ==> r == Some(row)
  {
    ClearedSigns(w, code, p);
    var lower: nat, upper: int;
    if IsLinear(code, p) {
      var num, den := LinearNumerator(w, code, p), LinearDenominator(w, code, p);
      DivNonNegative(num, den);
      lower := num / den;
      upper := lower + if num % den != 0 then 1 else 0;
    } else {
      var right, left := PowerRight(w, code, p), PowerLeft(w, code, p);
      lower := FifthRootFloor(left, right);
      var isExact := Pow(lower, 5) * left == right;
      upper := if isExact then lower else lower + 1;
      forall row | TightnessCheck(w, code, p, row) ensures row.lower == lower {
        UniqueRootFloor(row.lower, lower, left, right);
      }
      if !(Pow(lower + 1, 5) * left > right) { return None; }
    }
    if !(lower <= upper <= Q) { return None; }
    r := Some(Interval(lower, upper));
  }

  lemma DivNonNegative(n: int, d: int)
    requires 0 <= n && 0 < d
    ensures 0 <= n / d
  {
  }

  lemma UniqueRootFloor(a: nat, b: nat, left: int, right: int)
    requires 0 < left
    requires Pow(a, 5) * left <= right < Pow(a + 1, 5) * left
    requires b <= Q && Pow(b, 5) * left <= right && (b < Q ==> Pow(b + 1, 5) * left > right)
    requires a <= Q
    ensures a == b
  {
    if a < b { CompareScaled(a + 1, b, left); }
    if b < a { CompareScaled(b + 1, a, left); }
  }

  lemma BaseCleared(code: nat, p: Profile)
    requires p.Ordinary()
    ensures 0 < BaseDenominator(code, p)
    ensures (code as real / 255.0 + p.offset.Value()) / p.scale.Value() * BaseDenominator(code, p) as real
         == BaseNumerator(code, p) as real
  {
    var c, on, od := code as real, p.offset.num as real, p.offset.den as real;
    var sn, sd := p.scale.num as real, p.scale.den as real;
    MulPositive(255 * p.offset.den, p.scale.num);
    var e := c / 255.0 + on / od;
    assert e * (255.0 * od) == c * od + on * 255.0 by {
      assert on / od * od == on;
    }
    QuotientCleared(e, sn, sd, 255.0 * od);
  }

  lemma QuotientCleared(e: real, sn: real, sd: real, k: real)
    requires 0.0 < sn && 0.0 < sd
    ensures e / (sn / sd) * (k * sn) == e * k * sd
  {
    var q := e / (sn / sd);
    assert q * (sn / sd) == e;
    assert sn / sd * sd == sn;
    calc {
      q * (k * sn);
      q * (k * (sn / sd * sd));
      (q * (sn / sd)) * (k * sd);
      e * (k * sd);
      e * k * sd;
    }
  }

  lemma PowersCleared(q: real, wv: real, wn: real, wd: real, b: real, bn: real, bd: real, m: nat, n: nat)
    requires wv * wd == wn && b * bd == bn
    ensures RPow(q * wv, m) * RPow(b, n) * (RPow(wd, m) * RPow(bd, n)) == RPow(q, m) * RPow(wn, m) * RPow(bn, n)
  {
    RPowProduct(q, wv, m);
    RPowProduct(wv, wd, m);
    RPowProduct(b, bd, n);
    var A, B, C, D, E := RPow(q, m), RPow(wv, m), RPow(b, n), RPow(wd, m), RPow(bd, n);
    Regroup(A * B, C, D, E);
    assert A * B * D == A * (B * D);
  }

  lemma CastPowers(q: int, wn: int, bn: int, m: nat, n: nat)
    ensures (Pow(q, m) * Pow(wn, m)) as real == RPow(q as real, m) * RPow(wn as real, m)
    ensures (Pow(wn, m) * Pow(bn, n)) as real == RPow(wn as real, m) * RPow(bn as real, n)
    ensures (Pow(q, m) * Pow(wn, m) * Pow(bn, n)) as real ==
      RPow(q as real, m) * RPow(wn as real, m) * RPow(bn as real, n)
  {
    CastPow(q, m);
    CastPow(wn, m);
    CastPow(bn, n);
    CastTriple(Pow(q, m), Pow(wn, m), Pow(bn, n));
  }

  lemma CastTriple(a: int, b: int, c: int)
    ensures (a * b) as real == a as real * b as real
    ensures (b * c) as real == b as real * c as real
    ensures (a * b * c) as real == a as real * b as real * c as real
  {
    CastMul(a * b, c);
  }

  lemma ClearPowers(x: real, q: int, wv: real, wn: int, wd: int, b: real, bn: int, bd: int, m: nat, n: nat)
    requires wv * wd as real == wn as real && b * bd as real == bn as real
    requires x == RPow(q as real * wv, m) * RPow(b, n)
    ensures x * (Pow(wd, m) * Pow(bd, n)) as real == (Pow(q, m) * Pow(wn, m) * Pow(bn, n)) as real
  {
    PowersCleared(q as real, wv, wn as real, wd as real, b, bn as real, bd as real, m, n);
    CastPowers(q, wn, bn, m, n);
    CastPowers(q, wd, bd, m, n);
  }

  /** In the power branch the fifth power of the contribution is the exact quotient the
      integer comparisons are made against. */
  lemma PowerCleared(x: real, w: Fraction, code: nat, p: Profile)
    requires w.NonNegative() && p.Ordinary() && !IsLinear(code, p) && IsContribution(x, w, code, p)
    ensures RPow(x, 5) * PowerLeft(w, code, p) as real == PowerRight(w, code, p) as real
  {
    var b := (code as real / 255.0 + p.offset.Value()) / p.scale.Value();
    BaseCleared(code, p);
    assert w.Value() * w.den as real == w.num as real;
    ClearPowers(RPow(x, 5), Q, w.Value(), w.num, w.den, b, BaseNumerator(code, p), BaseDenominator(code, p), 5, 12);
  }

  /** Integer comparisons of fifth powers bound the root they belong to. */
  lemma RootBounds(lower: nat, x: real, left: int, right: int, e: nat)
    requires 0 < e && 0 < left && 0.0 <= x && RPow(x, e) * left as real == right as real
    requires Pow(lower, e) * left <= right < Pow(lower + 1, e) * left
    ensures lower as real <= x < lower as real + 1.0
    ensures Pow(lower, e) * left == right <==> x == lower as real
  {
    var k := left as real;
    CastPow(lower, e);
    CastPow(lower + 1, e);
    CastMul(Pow(lower, e), left);
    CastMul(Pow(lower + 1, e), left);
    CancelReal(RPow(lower as real, e), RPow(x, e), k);
    CancelReal(RPow((lower + 1) as real, e), RPow(x, e), k);
    RPowOrder(lower as real, x, e);
    RPowOrder((lower + 1) as real, x, e);
  }

  lemma LinearCleared(x: real, w: Fraction, code: nat, p: Profile)
    requires w.NonNegative() && p.Ordinary() && IsLinear(code, p) && IsContribution(x, w, code, p)
    ensures x * LinearDenominator(w, code, p) as real == LinearNumerator(w, code, p) as real
  {
    var q, wn, wd, c := Q as real, w.num as real, w.den as real, code as real;
    var dn, dd := p.divisor.num as real, p.divisor.den as real;
    var e := q * w.Value() * (c / 255.0);
    assert e == q * (wn / wd) * (c / 255.0);
    QuotientCleared(e, dn, dd, wd * 255.0);
    assert wn / wd * wd == wn;
    calc {
      e * (wd * 255.0);
      q * (wn / wd * wd) * (c / 255.0 * 255.0);
      q * wn * c;
    }
  }

  lemma CancelReal(a: real, b: real, k: real)
    requires 0.0 < k
    ensures a * k <= b * k <==> a <= b
    ensures a * k == b * k <==> a == b
  {
  }

  lemma QuotientBounds(x: real, num: int, den: int)
    requires 0 < den && x * den as real == num as real
    ensures (num / den) as real <= x < (num / den) as real + 1.0
    ensures num % den == 0 <==> x == (num / den) as real
  {
    var k, lower := den as real, num / den;
    assert num == lower * den + num % den;
    CastMul(lower, den);
    CastMul(lower + 1, den);
    CancelReal(lower as real, x, k);
    CancelReal((lower + 1) as real, x, k);
  }

  /** Every row the check accepts is the outward rounding of the real contribution. */
  lemma TightRowEncloses(w: Fraction, code: nat, p: Profile, row: Interval, x: real)
    requires w.NonNegative() && p.Ordinary()
    requires TightnessCheck(w, code, p, row) && IsContribution(x, w, code, p)
    ensures row.lower as real <= x <= row.upper as real
    ensures x < row.lower as real + 1.0
    ensures row.lower == row.upper <==> x == row.lower as real
  {
    ClearedSigns(w, code, p);
    if IsLinear(code, p) {
      LinearCleared(x, w, code, p);
      QuotientBounds(x, LinearNumerator(w, code, p), LinearDenominator(w, code, p));
    } else {
      PowerCleared(x, w, code, p);
      RootBounds(row.lower, x, PowerLeft(w, code, p), PowerRight(w, code, p), 5);
    }
  }

  /// ---------------------------------------------------------------- thresholds

  /** The integer law of a ratio n/d: cleared of denominators and reduced. */
  function ThresholdFromProfile(ratio: Fraction, contrastOffset: Fraction): Threshold
    requires ratio.Positive() && ratio.den <= ratio.num && contrastOffset.NonNegative()
  {
    var common := contrastOffset.den;
    var light, dark := ratio.den * common, ratio.num * common;
    var offset := (ratio.num - ratio.den) * contrastOffset.num;
    MulPositive(ratio.den, common);
    MulNonNegative(ratio.num - ratio.den, contrastOffset.num);
    var g := Gcd(Gcd(light, dark), offset);
    Threshold(light / g, dark / g, offset / g)
  }

  /** Reduction keeps the law: it is the cleared one with a common positive factor taken out. */
  lemma ThresholdScaled(ratio: Fraction, o: Fraction) returns (g: nat)
    requires ratio.Positive() && ratio.den <= ratio.num && o.NonNegative()
    ensures 0 < g
    ensures 0 <= ratio.den * o.den && 0 <= ratio.num * o.den && 0 <= (ratio.num - ratio.den) * o.num
    ensures g == Gcd(Gcd(ratio.den * o.den, ratio.num * o.den), (ratio.num - ratio.den) * o.num)
    ensures var t := ThresholdFromProfile(ratio, o);
            && t.Usable()
            && g * t.light == ratio.den * o.den
            && g * t.dark == ratio.num * o.den
            && g * t.offset == (ratio.num - ratio.den) * o.num
  {
    var light, dark := ratio.den * o.den, ratio.num * o.den;
    var offset := (ratio.num - ratio.den) * o.num;
    MulPositive(ratio.den, o.den);
    MulPositive(ratio.num, o.den);
    MulNonNegative(ratio.num - ratio.den, o.num);
    var h := Gcd(light, dark);
    g := Gcd(h, offset);
    DividesThrough(g, h, light);
    DividesThrough(g, h, dark);
    ExactQuotient(light, g);
    ExactQuotient(dark, g);
    ExactQuotient(offset, g);
  }

  /** ... and nothing but one is left common to its three numbers. */
  lemma ThresholdReduced(ratio: Fraction, o: Fraction, k: nat, a: int, b: int, c: int)
    requires ratio.Positive() && ratio.den <= ratio.num && o.NonNegative()
    requires ThresholdFromProfile(ratio, o) == Threshold(k * a, k * b, k * c)
    ensures k == 1
  {
    var t := ThresholdFromProfile(ratio, o);
    MulPositive(ratio.den, o.den);
    MulPositive(ratio.num, o.den);
    MulNonNegative(ratio.num - ratio.den, o.num);
    var g := ThresholdScaled(ratio, o);
    var x, y, z := GcdOfThree(ratio.den * o.den, ratio.num * o.den, (ratio.num - ratio.den) * o.num);
    Combination(g, t.light, t.dark, t.offset, x, y, z);
    MultipleCombination(k, a, b, c, x, y, z);
    UnitFactor(k, a * x + b * y + c * z);
  }

  lemma GcdOfThree(a: nat, b: nat, c: nat) returns (x: int, y: int, z: int)
    ensures a * x + b * y + c * z == Gcd(Gcd(a, b), c)
  {
    var h := Gcd(a, b);
    var u, v := GcdIsCombination(a, b);
    var p, q := GcdIsCombination(h, c);
    x, y, z := u * p, v * p, q;
    SpreadProduct(a, b, u, v, p);
  }

  lemma SpreadProduct(a: int, b: int, u: int, v: int, p: int)
    ensures (a * u + b * v) * p == a * (u * p) + b * (v * p)
  {
  }

  lemma Combination(g: int, l: int, d: int, o: int, x: int, y: int, z: int)
    requires 0 < g && (g * l) * x + (g * d) * y + (g * o) * z == g
    ensures l * x + d * y + o * z == 1
  {
    calc {
      g;
      (g * l) * x + (g * d) * y + (g * o) * z;
      { Associative(g, l, x); Associative(g, d, y); Associative(g, o, z); }
      g * (l * x) + g * (d * y) + g * (o * z);
      g * (l * x + d * y + o * z);
    }
    CancelFactor(g, l * x + d * y + o * z);
  }

  lemma Associative(a: int, b: int, c: int)
    ensures (a * b) * c == a * (b * c)
  {
  }

  lemma MultipleCombination(k: int, a: int, b: int, c: int, x: int, y: int, z: int)
    ensures (k * a) * x + (k * b) * y + (k * c) * z == k * (a * x + b * y + c * z)
  {
    Associative(k, a, x);
    Associative(k, b, y);
    Associative(k, c, z);
  }

  lemma CancelFactor(g: int, n: int)
    requires 0 < g && g == g * n
    ensures n == 1
  {
    if n < 1 { MulMono(g, n, 0); }
    if n > 1 { MulMono(g, 2, n); }
  }

  lemma UnitFactor(k: nat, m: int)
    requires k * m == 1
    ensures k == 1
  {
    if m <= 0 { MulMono(k, m, 0); }
    if k > 1 && m >= 1 { MulMono(k, 1, m); }
  }

  /** How far two luminances are above the law, light over dark. */
  function Slack(light: real, dark: real, t: Threshold): real {
    t.light as real * light - (t.dark as real * dark + (t.offset * Q) as real)
  }

  /** The margins are the worst case over the enclosed luminances: the least slack of a pass, and the
      least shortfall of a fail. */
  lemma MarginsAreWorst(l: Interval, d: Interval, t: Threshold, x: real, y: real)
    requires t.Usable() && Encloses(l, x) && Encloses(d, y)
    ensures PassMargin(l, d, t) as real <= Slack(x, y, t) <= -(FailMargin(l, d, t) as real)
    ensures PassMargin(l, d, t) as real == Slack(l.lower as real, d.upper as real, t)
    ensures FailMargin(l, d, t) as real == -Slack(l.upper as real, d.lower as real, t)
  {
    SlackMonotone(t, l.lower as real, d.upper as real, x, y);
    SlackMonotone(t, x, y, l.upper as real, d.lower as real);
    SlackOfIntegers(t, l.lower, d.upper);
    SlackOfIntegers(t, l.upper, d.lower);
  }

  lemma SlackMonotone(t: Threshold, l: real, d: real, x: real, y: real)
    requires t.Usable() && l <= x && y <= d
    ensures Slack(l, d, t) <= Slack(x, y, t)
  {
    MulMonoReal(t.light as real, l, x);
    MulMonoReal(t.dark as real, y, d);
  }

  lemma SlackOfIntegers(t: Threshold, l: int, d: int)
    ensures Slack(l as real, d as real, t) == (t.light * l - (t.dark * d + t.offset * Q)) as real
  {
    CastMul(t.light, l);
    CastMul(t.dark, d);
  }

  /** Contrast ratio of two relative luminances, lighter over darker, each raised by the offset. */
  function Contrast(x: real, y: real, o: Fraction): real
    requires 0.0 <= x && 0.0 <= y && o.Positive()
  {
    var q := Q as real;
    HigherOverLower(x / q + o.Value(), y / q + o.Value())
  }

  /** One orientation of the real law, in Q-scaled luminances. */
  predicate MeetsLaw(light: real, dark: real, t: Threshold) {
    t.dark as real * dark + (t.offset * Q) as real <= t.light as real * light
  }

  lemma MeetsLawIsRatio(light: real, dark: real, ratio: Fraction, o: Fraction)
    requires ratio.Positive() && ratio.den <= ratio.num && o.Positive()
    ensures var q := Q as real;
            MeetsLaw(light, dark, ThresholdFromProfile(ratio, o)) <==>
            ratio.num as real * (dark / q + o.Value()) <= ratio.den as real * (light / q + o.Value())
  {
    var g := ThresholdScaled(ratio, o);
    ScaledLawIsRatio(light, dark, ThresholdFromProfile(ratio, o), g, ratio, o);
  }

  lemma ScaledLawIsRatio(light: real, dark: real, t: Threshold, g: nat, ratio: Fraction, o: Fraction)
    requires ratio.Positive() && o.Positive() && 0 < g
    requires g * t.light == ratio.den * o.den && g * t.dark == ratio.num * o.den
    requires g * t.offset == (ratio.num - ratio.den) * o.num
    ensures var q := Q as real;
            MeetsLaw(light, dark, t) <==>
            ratio.num as real * (dark / q + o.Value()) <= ratio.den as real * (light / q + o.Value())
  {
    CastMul(g, t.light);
    CastMul(g, t.dark);
    CastMul(g, t.offset);
    CastMul(ratio.den, o.den);
    CastMul(ratio.num, o.den);
    CastMul(ratio.num - ratio.den, o.num);
    CastMul(t.offset, Q);
    assert o.Value() * o.den as real == o.num as real;
    LawCleared(g as real, t.light as real, t.dark as real, t.offset as real, light, dark,
               Q as real, ratio.num as real, ratio.den as real, o.Value(), o.den as real, o.num as real);
  }

  lemma LawCleared(g: real, tl: real, td: real, tc: real, light: real, dark: real,
                   q: real, n: real, d: real, ov: real, od: real, on: real)
    requires 0.0 < g && 0.0 < q && 0.0 < od && ov * od == on
    requires g * tl == d * od && g * td == n * od && g * tc == (n - d) * on
    ensures td * dark + tc * q <= tl * light <==> n * (dark / q + ov) <= d * (light / q + ov)
  {
    ScaleLaw(g, td, dark, tc * q, tl, light);
    CancelReal(td * dark + tc * q, tl * light, g);
    assert g * (tc * q) == (g * tc) * q;
    ClearRatio(n, dark, q, ov, od, on);
    ClearRatio(d, light, q, ov, od, on);
    CancelReal(n * (dark / q + ov), d * (light / q + ov), od * q);
    assert (n - d) * on * q == n * on * q - d * on * q;
  }

  lemma ClearRatio(n: real, x: real, q: real, ov: real, od: real, on: real)
    requires 0.0 < q && ov * od == on
    ensures n * (x / q + ov) * (od * q) == n * od * x + n * on * q
  {
    calc {
      n * (x / q + ov) * (od * q);
      n * od * (x / q * q) + n * (ov * od) * q;
      n * od * x + n * on * q;
    }
  }

  lemma ScaleLaw(g: real, a: real, x: real, c: real, b: real, y: real)
    ensures (a * x + c) * g == (g * a) * x + g * c
    ensures (b * y) * g == (g * b) * y
  {
  }

  /** Whether two real luminances reach a contrast ratio. */
  predicate Reaches(x: real, y: real, ratio: Fraction, o: Fraction)
    requires 0.0 <= x && 0.0 <= y && ratio.Positive() && o.Positive()
  {
    ratio.Value() <= Contrast(x, y, o)
  }

  lemma QuotientAtLeast(a: real, b: real, n: real, d: real)
    requires 0.0 < b && 0.0 < d
    ensures n / d <= a / b <==> n * b <= d * a
  {
    CancelReal(n / d, a / b, b * d);
    assert n / d * (b * d) == n * b by { assert n / d * d == n; }
    assert a / b * (b * d) == a * d by { assert a / b * b == a; }
  }

  /** A ratio of at least one is reached exactly when one of the two orientations meets the law. */
  lemma ReachesIsLaw(x: real, y: real, ratio: Fraction, o: Fraction)
    requires 0.0 <= x && 0.0 <= y && ratio.Positive() && ratio.den <= ratio.num && o.Positive()
    ensures var t := ThresholdFromProfile(ratio, o);
            Reaches(x, y, ratio, o) <==> MeetsLaw(x, y, t) || MeetsLaw(y, x, t)
  {
    MeetsLawIsRatio(x, y, ratio, o);
    MeetsLawIsRatio(y, x, ratio, o);
    var q, n, d := Q as real, ratio.num as real, ratio.den as real;
    assert 0.0 < o.Value();
    var a, b := x / q + o.Value(), y / q + o.Value();
    CancelReal(y / q, x / q, q);
    QuotientAtLeast(a, b, n, d);
    QuotientAtLeast(b, a, n, d);
    OnlyLighterFirst(n, d, a, b);
    OnlyLighterFirst(n, d, b, a);
  }

  lemma OnlyLighterFirst(n: real, d: real, a: real, b: real)
    requires 0.0 < d <= n && 0.0 < a && 0.0 < b
    ensures n * b <= d * a ==> b <= a
  {
    if a < b {
      MulStrictReal(d, a, b);
      MulMonoReal(b, d, n);
    }
  }

  predicate Encloses(i: Interval, x: real) {
    i.lower as real <= x <= i.upper as real
  }

  lemma OrientationSound(l: Interval, d: Interval, t: Threshold, x: real, y: real)
    requires t.Usable() && Encloses(l, x) && Encloses(d, y)
    ensures Orientation(l, d, t) == Pass ==> MeetsLaw(x, y, t)
    ensures Orientation(l, d, t) == Fail ==> !MeetsLaw(x, y, t)
  {
    MulMonoReal(t.light as real, l.lower as real, x);
    MulMonoReal(t.light as real, x, l.upper as real);
    MulMonoReal(t.dark as real, y, d.upper as real);
    MulMonoReal(t.dark as real, d.lower as real, y);
    CastMul(t.light, l.lower);
    CastMul(t.light, l.upper);
    CastMul(t.dark, d.lower);
    CastMul(t.dark, d.upper);
  }

  /** A decision on intervals is the decision on every pair of luminances they enclose. */
  lemma PairDecisionSound(a: Interval, b: Interval, ratio: Fraction, o: Fraction, x: real, y: real)
    requires ratio.Positive() && ratio.den <= ratio.num && o.Positive()
    requires 0.0 <= x && 0.0 <= y && Encloses(a, x) && Encloses(b, y)
    ensures var decision := PairDecision(a, b, ThresholdFromProfile(ratio, o));
            && (decision == Pass ==> Reaches(x, y, ratio, o))
            && (decision == Fail ==> !Reaches(x, y, ratio, o))
  {
    var t := ThresholdFromProfile(ratio, o);
    var g := ThresholdScaled(ratio, o);
    OrientationSound(a, b, t, x, y);
    OrientationSound(b, a, t, y, x);
    ReachesIsLaw(x, y, ratio, o);
  }

  /** The weights and parameters the three tables are generated from. */
  datatype Model = Model(red: Fraction, green: Fraction, blue: Fraction, profile: Profile) {
    predicate Usable() {
      red.NonNegative() && green.NonNegative() && blue.NonNegative() && profile.Ordinary()
    }
  }

  predicate TightTable(w: Fraction, p: Profile, table: Q55Domain.Table)
    requires w.NonNegative() && p.Ordinary()
  {
    |table| == 256 && forall code :: 0 <= code < 256 ==> TightnessCheck(w, code, p, table[code])
  }

  datatype Colour = Colour(r: nat, g: nat, b: nat) {
    predicate InRange() { r < 256 && g < 256 && b < 256 }
  }

  /** x is Q times the relative luminance of the colour. */
  ghost predicate IsLuminance(x: real, c: Colour, m: Model)
    requires m.Usable()
  {
    exists r, g, b ::
      && IsContribution(r, m.red, c.r, m.profile)
      && IsContribution(g, m.green, c.g, m.profile)
      && IsContribution(b, m.blue, c.b, m.profile)
      && x == r + g + b
  }

  function LuminanceInterval(c: Colour, red: Q55Domain.Table, green: Q55Domain.Table, blue: Q55Domain.Table): Interval
    requires c.InRange() && |red| == |green| == |blue| == 256
  {
    Q55Domain.ColourInterval(red[c.r], green[c.g], blue[c.b])
  }

  lemma LuminanceEnclosed(x: real, c: Colour, m: Model, red: Q55Domain.Table, green: Q55Domain.Table,
                          blue: Q55Domain.Table)
    requires m.Usable() && c.InRange() && IsLuminance(x, c, m)
    requires TightTable(m.red, m.profile, red) && TightTable(m.green, m.profile, green)
    requires TightTable(m.blue, m.profile, blue)
    ensures 0.0 <= x && Encloses(LuminanceInterval(c, red, green, blue), x)
  {
    var r, g, b :|
      && IsContribution(r, m.red, c.r, m.profile)
      && IsContribution(g, m.green, c.g, m.profile)
      && IsContribution(b, m.blue, c.b, m.profile)
      && x == r + g + b;
    TightRowEncloses(m.red, c.r, m.profile, red[c.r], r);
    TightRowEncloses(m.green, c.g, m.profile, green[c.g], g);
    TightRowEncloses(m.blue, c.b, m.profile, blue[c.b], b);
  }

  /** The whole argument end to end: when the tables pass the tightness check and the domain scan
      finds no unresolved pair, the integer decision on every pair of colours is the WCAG contrast
      decision on their real luminances. */
  lemma VerifiedDomainClassifies(m: Model, red: Q55Domain.Table, green: Q55Domain.Table, blue: Q55Domain.Table,
                                 ratio: Fraction, o: Fraction, c: Colour, d: Colour, x: real, y: real)
    requires m.Usable() && ratio.Positive() && ratio.den <= ratio.num && o.Positive()
    requires TightTable(m.red, m.profile, red) && TightTable(m.green, m.profile, green)
    requires TightTable(m.blue, m.profile, blue)
    requires Q55Domain.EveryColourPairDecided(red, green, blue, ThresholdFromProfile(ratio, o))
    requires c.InRange() && d.InRange() && IsLuminance(x, c, m) && IsLuminance(y, d, m)
    ensures 0.0 <= x && 0.0 <= y
    ensures Reaches(x, y, ratio, o) <==>
            PairDecision(LuminanceInterval(c, red, green, blue), LuminanceInterval(d, red, green, blue),
                         ThresholdFromProfile(ratio, o)) == Pass
  {
    LuminanceEnclosed(x, c, m, red, green, blue);
    LuminanceEnclosed(y, d, m, red, green, blue);
    PairDecisionSound(LuminanceInterval(c, red, green, blue), LuminanceInterval(d, red, green, blue), ratio, o, x, y);
    assert red[c.r] in red && green[c.g] in green && blue[c.b] in blue;
    assert red[d.r] in red && green[d.g] in green && blue[d.b] in blue;
  }
}
