/** The neutral-axis contrast oracle: a cache of luminance enclosures by sRGB8 code, and decisions
    that are exact for the real luminances. */
module NeutralAxis {
  import opened Products
  import opened Fractions
  import opened Powers
  import opened Transfer
  import opened FifthRoot

  function Base(code: nat, p: Profile): real
    requires p.Usable()
  {
    (Encoded(code) + p.offset.Value()) / p.scale.Value()
  }

  /** x is the relative luminance of the neutral colour with this code. */
  ghost predicate IsLuminance(x: real, code: nat, p: Profile)
    requires p.Usable()
  {
    if IsLinear(code, p) then x == Encoded(code) / p.divisor.Value()
    else 0.0 <= x && RPow(x, 5) == RPow(Base(code, p), 12)
  }

  function Quotient(n: int, d: int): Fraction
    requires 0 < d
  {
    Reduced(Abs(n), d)
  }

  function ToThe(f: Fraction, e: nat): Fraction { Fraction(Pow(f.num, e), Pow(f.den, e)) }

  function LinearQuotient(code: nat, p: Profile): Fraction
    requires p.Usable()
  {
    Quotient(code * p.divisor.den, 255 * p.divisor.num)
  }

  function BaseQuotient(code: nat, p: Profile): Fraction
    requires p.Usable()
  {
    BaseDenominatorPositive(p);
    Quotient((code * p.offset.den + p.offset.num * 255) * p.scale.den, 255 * p.offset.den * p.scale.num)
  }

  lemma BaseDenominatorPositive(p: Profile)
    requires p.Usable()
    ensures 0 < 255 * p.offset.den * p.scale.num
  {
    MulPositive(255 * p.offset.den, p.scale.num);
  }

  /** The exact number whose fifth root is the luminance. An even power forgets the sign of its base. */
  function Radicand(code: nat, p: Profile): Fraction
    requires p.Usable()
  {
    if IsLinear(code, p) then ToThe(LinearQuotient(code, p), 5) else ToThe(BaseQuotient(code, p), 12)
  }

  lemma PowerValue(f: Fraction, e: nat)
    requires 0 <= f.num && 0 < f.den
    ensures 0 <= ToThe(f, e).num && 0 < ToThe(f, e).den && ToThe(f, e).Value() == RPow(f.Value(), e)
  {
    PowPositive(f.den, e);
    PowMono(0, f.num, e);
    CastPow(f.num, e);
    CastPow(f.den, e);
    assert f.Value() * f.den as real == f.num as real;
    RPowProduct(f.Value(), f.den as real, e);
    QuotientOf(RPow(f.Value(), e), ToThe(f, e).den as real, ToThe(f, e).num as real);
  }

  lemma QuotientValue(n: int, d: int, x: real)
    requires 0 < d && x * d as real == n as real
    ensures var f := Quotient(n, d);
            0 <= f.num && 0 < f.den && f.Value() == if x < 0.0 then -x else x
  {
    var f, y := Quotient(n, d), if x < 0.0 then -x else x;
    ReducedIsLowest(Abs(n), d);
    SignOfProduct(x, d as real, n as real);
    QuotientOf(y, d as real, Abs(n) as real);
  }

  lemma SignOfProduct(x: real, d: real, n: real)
    requires 0.0 < d && x * d == n
    ensures x < 0.0 <==> n < 0.0
  {
  }

  lemma {:induction false} EvenPower(x: real, k: nat)
    ensures RPow(-x, 2 * k) == RPow(x, 2 * k)
  {
    if k > 0 {
      EvenPower(x, k - 1);
      TwoFactors(x, 2 * (k - 1));
      TwoFactors(-x, 2 * (k - 1));
      assert (-x) * (-x) == x * x;
    }
  }

  lemma TwoFactors(x: real, e: nat)
    ensures RPow(x, e + 2) == (x * x) * RPow(x, e)
  {
    assert RPow(x, e + 1) == x * RPow(x, e);
    assert x * (x * RPow(x, e)) == (x * x) * RPow(x, e);
  }

  lemma LinearCleared(code: nat, p: Profile)
    requires p.Usable()
    ensures Encoded(code) / p.divisor.Value() * (255 * p.divisor.num) as real == (code * p.divisor.den) as real
  {
    ClearQuotient(code as real, 255.0, p.divisor.num as real, p.divisor.den as real);
  }

  lemma ClearQuotient(a: real, b: real, n: real, d: real)
    requires 0.0 < b && 0.0 < n && 0.0 < d
    ensures a / b / (n / d) * (b * n) == a * d
  {
    var q, v := a / b / (n / d), n / d;
    assert v * d == n && q * v * b == a by {
      assert q * v == a / b;
    }
    calc {
      q * (b * n);
      q * (b * (v * d));
      (q * v * b) * d;
      a * d;
    }
  }

  lemma BaseCleared(code: nat, p: Profile)
    requires p.Usable()
    ensures Base(code, p) * (255 * p.offset.den * p.scale.num) as real
         == ((code * p.offset.den + p.offset.num * 255) * p.scale.den) as real
  {
    var on, od := p.offset.num as real, p.offset.den as real;
    var sum := Encoded(code) + p.offset.Value();
    SumCleared(code as real, on, od, sum);
    ClearQuotient(code as real * od + on * 255.0, 255.0 * od, p.scale.num as real, p.scale.den as real);
    QuotientOf(sum, 255.0 * od, code as real * od + on * 255.0);
  }

  lemma SumCleared(c: real, on: real, od: real, sum: real)
    requires 0.0 < od && sum == c / 255.0 + on / od
    ensures sum * (255.0 * od) == c * od + on * 255.0
  {
    assert on / od * od == on;
  }

  /** The luminance is the fifth root of the radicand, and the only one. */
  lemma RadicandRoot(code: nat, p: Profile, x: real)
    requires p.Usable()
    ensures 0 <= Radicand(code, p).num && 0 < Radicand(code, p).den
    ensures IsRoot(x, Radicand(code, p)) <==> IsLuminance(x, code, p)
  {
    if IsLinear(code, p) {
      LinearRoot(code, p, x);
    } else {
      BaseCleared(code, p);
      BaseDenominatorPositive(p);
      QuotientValue((code * p.offset.den + p.offset.num * 255) * p.scale.den, 255 * p.offset.den * p.scale.num,
                    Base(code, p));
      PowerValue(BaseQuotient(code, p), 12);
      EvenPower(Base(code, p), 6);
    }
  }

  lemma LinearRoot(code: nat, p: Profile, x: real)
    requires p.Usable() && IsLinear(code, p)
    ensures 0 <= Radicand(code, p).num && 0 < Radicand(code, p).den
    ensures IsRoot(x, Radicand(code, p)) <==> IsLuminance(x, code, p)
    ensures IsExactRoot(LinearQuotient(code, p), Radicand(code, p))
    ensures LinearQuotient(code, p).Value() == Encoded(code) / p.divisor.Value()
  {
    var exact, f := Encoded(code) / p.divisor.Value(), LinearQuotient(code, p);
    LinearCleared(code, p);
    SignOfProduct(exact, (255 * p.divisor.num) as real, (code * p.divisor.den) as real);
    QuotientValue(code * p.divisor.den, 255 * p.divisor.num, exact);
    PowerValue(f, 5);
    if 0.0 <= x { RPowOrder(x, exact, 5); }
  }

  /// ------------------------------------------------------------ the order of luminances

  lemma RadicandValue(code: nat, p: Profile)
    requires p.Usable()
    ensures 0 <= Radicand(code, p).num && 0 < Radicand(code, p).den
    ensures Radicand(code, p).Value() ==
            if IsLinear(code, p) then RPow(Encoded(code) / p.divisor.Value(), 5) else RPow(Base(code, p), 12)
  {
    if IsLinear(code, p) {
      LinearRoot(code, p, Encoded(code) / p.divisor.Value());
    } else {
      BaseCleared(code, p);
      BaseDenominatorPositive(p);
      QuotientValue((code * p.offset.den + p.offset.num * 255) * p.scale.den, 255 * p.offset.den * p.scale.num,
                    Base(code, p));
      PowerValue(BaseQuotient(code, p), 12);
      EvenPower(Base(code, p), 6);
    }
  }

  /** The luminance of a is at most that of b: their radicands by cross products. */
  predicate RadicandAtMost(a: nat, b: nat, p: Profile)
    requires p.Usable()
  {
    Radicand(a, p).num * Radicand(b, p).den <= Radicand(b, p).num * Radicand(a, p).den
  }

  lemma RadicandAtMostIs(a: nat, b: nat, p: Profile)
    requires p.Usable()
    ensures 0 < Radicand(a, p).den && 0 < Radicand(b, p).den
    ensures RadicandAtMost(a, b, p) <==> Radicand(a, p).Value() <= Radicand(b, p).Value()
  {
    RadicandValue(a, p);
    RadicandValue(b, p);
    FractionOrder(Radicand(a, p).num, Radicand(a, p).den, Radicand(b, p).num, Radicand(b, p).den);
  }

  /** The last code of the linear branch. */
  predicate SplitAfter(code: nat, p: Profile) { IsLinear(code, p) && !IsLinear(code + 1, p) }

  /** One comparison of integers, at the one code where the branch changes: luminance does not fall there. */
  predicate NoDropAtSplit(p: Profile)
    requires p.Usable()
  {
    forall code: nat :: code < 255 && SplitAfter(code, p) ==> RadicandAtMost(code, code + 1, p)
  }

  lemma QuotientMono(a: real, b: real, d: real)
    requires 0.0 <= a <= b && 0.0 < d
    ensures 0.0 <= a / d <= b / d
  {
    var x, y := a / d, b / d;
    assert x * d == a && y * d == b;
    if x < 0.0 { MulStrictReal(d, x, 0.0); }
    if y < x { MulStrictReal(d, y, x); }
  }

  lemma ProfileSigns(p: Profile)
    requires p.Ordinary()
    ensures 0.0 < p.divisor.Value() && 0.0 < p.scale.Value() && 0.0 <= p.offset.Value()
  {
    FractionOrder(0, 1, p.offset.num, p.offset.den);
  }

  lemma LinearMonotone(a: nat, b: nat, p: Profile)
    requires p.Ordinary() && a <= b && IsLinear(b, p)
    ensures IsLinear(a, p) && RadicandAtMost(a, b, p)
  {
    MulMono(p.split.den, a, b);
    ProfileSigns(p);
    QuotientMono(Encoded(a), Encoded(b), p.divisor.Value());
    RPowMono(Encoded(a) / p.divisor.Value(), Encoded(b) / p.divisor.Value(), 5);
    RadicandValue(a, p);
    RadicandValue(b, p);
    RadicandAtMostIs(a, b, p);
  }

  lemma PowerMonotone(a: nat, b: nat, p: Profile)
    requires p.Ordinary() && a <= b && !IsLinear(a, p) && !IsLinear(b, p)
    ensures RadicandAtMost(a, b, p)
  {
    ProfileSigns(p);
    QuotientMono(Encoded(a) + p.offset.Value(), Encoded(b) + p.offset.Value(), p.scale.Value());
    RPowMono(Base(a, p), Base(b, p), 12);
    RadicandValue(a, p);
    RadicandValue(b, p);
    RadicandAtMostIs(a, b, p);
  }

  lemma {:induction false} SplitBetween(a: nat, b: nat, p: Profile) returns (code: nat)
    requires a <= b && IsLinear(a, p) && !IsLinear(b, p)
    ensures a <= code < b && SplitAfter(code, p)
    decreases b - a
  {
    if IsLinear(a + 1, p) { code := SplitBetween(a + 1, b, p); } else { code := a; }
  }

  lemma RadicandsOrdered(a: nat, b: nat, p: Profile)
    requires p.Ordinary() && NoDropAtSplit(p) && a <= b < 256
    ensures RadicandAtMost(a, b, p)
  {
    if IsLinear(b, p) {
      LinearMonotone(a, b, p);
    } else if !IsLinear(a, p) {
      PowerMonotone(a, b, p);
    } else {
      var code := SplitBetween(a, b, p);
      LinearMonotone(a, code, p);
      PowerMonotone(code + 1, b, p);
      RadicandAtMostIs(a, code, p);
      RadicandAtMostIs(code, code + 1, p);
      RadicandAtMostIs(code + 1, b, p);
      RadicandAtMostIs(a, b, p);
    }
  }

  /** Luminance rises with the code throughout exactly when it does not fall at the split. */
  lemma RisesIffNoDrop(p: Profile)
    requires p.Ordinary()
    ensures NoDropAtSplit(p) <==> forall a: nat, b: nat :: a <= b < 256 ==> RadicandAtMost(a, b, p)
  {
    if NoDropAtSplit(p) {
      forall a: nat, b: nat | a <= b < 256 ensures RadicandAtMost(a, b, p) {
        RadicandsOrdered(a, b, p);
      }
    }
  }

  /// the committed WCAG 2.2 profile: 0.04045, 12.92, 0.055, 1.055
  const COMMITTED := Profile(Fraction(809, 20000), Fraction(323, 25), Fraction(11, 200), Fraction(211, 200))

  /** In the committed profile the branch changes after code 10, and luminance does not fall there. */
  lemma CommittedRises()
    ensures COMMITTED.Ordinary() && NoDropAtSplit(COMMITTED)
  {
    forall code: nat | code < 255 && SplitAfter(code, COMMITTED) ensures RadicandAtMost(code, code + 1, COMMITTED) {
      assert code == 10;
      RadicandValue(10, COMMITTED);
      RadicandValue(11, COMMITTED);
      RadicandAtMostIs(10, 11, COMMITTED);
      CommittedValues();
      RPowMono(Encoded(10) / COMMITTED.divisor.Value(), 0.00304, 5);
      RPowMono(0.093, Base(11, COMMITTED), 12);
      PowersAtSplit();
    }
  }

  lemma CommittedValues()
    ensures 0.0 <= Encoded(10) / COMMITTED.divisor.Value() <= 0.00304 && 0.093 <= Base(11, COMMITTED)
  {
    var d, s, b := COMMITTED.divisor.Value(), COMMITTED.scale.Value(), Base(11, COMMITTED);
    var q := Encoded(10) / d;
    assert d == 12.92 && s == 1.055;
    assert q * d == Encoded(10) && b * s == Encoded(11) + COMMITTED.offset.Value();
  }

  lemma PowersAtSplit()
    ensures RPow(0.00304, 5) <= RPow(0.093, 12)
  {
    assert RPow(0.00304, 2) == 0.00304 * 0.00304;
    assert RPow(0.00304, 4) == 0.00304 * (0.00304 * RPow(0.00304, 2));
    assert RPow(0.093, 4) == 0.093 * 0.093 * 0.093 * 0.093;
    assert RPow(0.093, 8) == 0.093 * 0.093 * 0.093 * 0.093 * RPow(0.093, 4);
    assert RPow(0.093, 12) == 0.093 * 0.093 * 0.093 * 0.093 * RPow(0.093, 8);
  }

  /** Which of two codes is the lighter colour, by one comparison of integers. */
  lemma LuminanceOrderIff(light: nat, dark: nat, p: Profile, x: real, y: real)
    requires p.Usable() && IsLuminance(x, light, p) && IsLuminance(y, dark, p)
    ensures 0.0 <= x && 0.0 <= y && (y <= x <==> RadicandAtMost(dark, light, p))
  {
    RadicandRoot(light, p, x);
    RadicandRoot(dark, p, y);
    RadicandAtMostIs(dark, light, p);
    RPowOrder(y, x, 5);
  }

  /// ------------------------------------------------------------ verdicts

  function LighterOf(a: int, b: int): int { if a < b then b else a }

  function DarkerOf(a: int, b: int): int { if a < b then a else b }

  predicate IsCode(code: int) { 0 <= code <= 255 }

  /** The verdict on two codes, lighter code first, is that of their real luminances. */
  ghost predicate VerdictExact(first: int, second: int, p: Profile, ratio: Fraction, offset: Fraction, verdict: bool)
    requires IsCode(first) && IsCode(second) && p.Usable() && 0 < ratio.den && 0 < offset.den
  {
    forall x, y :: IsLuminance(x, LighterOf(first, second), p) && IsLuminance(y, DarkerOf(first, second), p) ==>
      (verdict <==> 0.0 <= Margin(x, y, ratio.Value(), offset.Value()))
  }

  /** The two luminances are this close to the law's boundary. */
  ghost predicate MarginTiny(first: int, second: int, p: Profile, ratio: Fraction, offset: Fraction, bound: real)
    requires IsCode(first) && IsCode(second) && p.Usable() && 0 < ratio.den && 0 < offset.den
  {
    forall x, y :: IsLuminance(x, LighterOf(first, second), p) && IsLuminance(y, DarkerOf(first, second), p) ==>
      -bound <= Margin(x, y, ratio.Value(), offset.Value()) <= bound
  }

  lemma RootsAreLuminances(light: nat, dark: nat, p: Profile, ratio: real, offset: real, verdict: bool)
    requires p.Usable() && 0 < Radicand(light, p).den && 0 < Radicand(dark, p).den
    requires AllRootsMeet(Radicand(light, p), Radicand(dark, p), ratio, offset, verdict)
    ensures forall x, y :: IsLuminance(x, light, p) && IsLuminance(y, dark, p) ==>
      (verdict <==> 0.0 <= Margin(x, y, ratio, offset))
  {
    forall x, y | IsLuminance(x, light, p) && IsLuminance(y, dark, p)
      ensures verdict <==> 0.0 <= Margin(x, y, ratio, offset)
    {
      RadicandRoot(light, p, x);
      RadicandRoot(dark, p, y);
    }
  }

  lemma RootMarginsAreTiny(light: nat, dark: nat, p: Profile, ratio: real, offset: real, bound: real)
    requires p.Usable() && 0 < Radicand(light, p).den && 0 < Radicand(dark, p).den
    requires AllMarginsWithin(Radicand(light, p), Radicand(dark, p), ratio, offset, bound)
    ensures forall x, y :: IsLuminance(x, light, p) && IsLuminance(y, dark, p) ==>
      -bound <= Margin(x, y, ratio, offset) <= bound
  {
    forall x, y | IsLuminance(x, light, p) && IsLuminance(y, dark, p)
      ensures -bound <= Margin(x, y, ratio, offset) <= bound
    {
      RadicandRoot(light, p, x);
      RadicandRoot(dark, p, y);
    }
  }
}
