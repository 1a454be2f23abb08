/** Exact integer roots, rational fifth roots, and a contrast decision on two shrinking fifth-root
    enclosures. */
module FifthRoot {
  import opened Products
  import opened Results
  import opened Fractions
  import opened Powers
  import opened Bits

  datatype RootError = BadRoot | BadRadicand | NegativeLimit | NotSeparated

  lemma {:induction false} Pow2IsPow(e: nat, d: nat)
    ensures Pow(Pow2(e), d) == Pow2(e * d)
  {
    if d == 0 {
      assert e * d == 0;
    } else {
      Pow2IsPow(e, d - 1);
      Pow2Add(e, e * (d - 1));
      assert e + e * (d - 1) == e * d;
    }
  }

  /** The shift that starts the search: 2 to the bit length divided by the degree, rounded up. */
  function Ceiling(value: nat, degree: nat): nat
    requires 0 < degree
  {
    Pow2((BitLen(value) + degree - 1) / degree)
  }

  lemma CeilingExceeds(value: nat, degree: nat)
    requires 0 < degree && 0 < value
    ensures value < Pow(Ceiling(value, degree), degree)
  {
    var bits := BitLen(value);
    var e := (bits + degree - 1) / degree;
    BitLenBounds(value);
    assert bits <= e * degree by { RoundUp(bits, degree); }
    Pow2IsPow(e, degree);
    Pow2Mono(bits, e * degree);
  }

  lemma RoundUp(n: nat, d: nat)
    requires 0 < d
    ensures n <= (n + d - 1) / d * d
  {
    var q := (n + d - 1) / d;
    assert n + d - 1 == q * d + (n + d - 1) % d;
  }

  ghost predicate IsRootFloor(root: nat, value: int, degree: nat) {
    Pow(root, degree) <= value < Pow(root + 1, degree)
  }

  /** The largest integer whose power does not exceed the value. */
  method IntegerRootFloor(value: int, degree: int) returns (r: Result<nat, RootError>)
    ensures r.Err? <==> value < 0 || degree <= 0
    ensures r.Err? ==> r.error == BadRoot
    ensures r.Ok? ==> IsRootFloor(r.value, value, degree)
  {
    if value < 0 || degree <= 0 { return Err(BadRoot); }
    if value < 2 {
      SmallRoots(degree);
      return Ok(value);
    }
    var low, high := 0, Ceiling(value, degree) as int;
    CeilingExceeds(value, degree);
    PowMono(high, high + 1, degree);
    while low <= high
      invariant 0 <= low <= high + 1
      invariant low > 0 ==> Pow(low - 1, degree) <= value
      invariant value < Pow(high + 1, degree)
    {
      var midpoint := (low + high) / 2;
      if Pow(midpoint, degree) <= value {
        low := midpoint + 1;
      } else {
        high := midpoint - 1;
      }
    }
    if low == 0 { ZeroPower(degree); }
    r := Ok(high);
  }

  lemma ZeroPower(degree: nat)
    requires 0 < degree
    ensures Pow(0, degree) == 0
  {
  }

  lemma {:induction false} OnePower(e: nat)
    ensures Pow(1, e) == 1
  {
    if e > 0 { OnePower(e - 1); }
  }

  lemma SmallRoots(degree: nat)
    requires 0 < degree
    ensures IsRootFloor(0, 0, degree) && IsRootFloor(1, 1, degree)
  {
    ZeroPower(degree);
    OnePower(degree);
    PowMono(1, 2, degree);
  }

  lemma RootFloorOfPower(root: nat, base: nat, degree: nat)
    requires 0 < degree && IsRootFloor(root, Pow(base, degree), degree)
    ensures root == base
  {
    if root < base { PowMono(root + 1, base, degree); }
    if base < root { PowMono(base, root, degree); }
  }

  /** A fraction's root whose parts are the integer roots of the fraction's parts. */
  predicate IsExactRoot(root: Fraction, value: Fraction) {
    0 <= root.num && 0 < root.den && Pow(root.num, 5) == value.num && Pow(root.den, 5) == value.den
  }

  method ExactFifthRoot(value: Fraction) returns (root: Option<Fraction>)
    requires value.NonNegative()
    ensures root.Some? ==> IsExactRoot(root.value, value)
    ensures forall r: Fraction :: IsExactRoot(r, value) ==> root == Some(r)
  {
    var numerator := IntegerRootFloor(value.num, 5);
    var denominator := IntegerRootFloor(value.den, 5);
    var n, d := numerator.value, denominator.value;
    forall r: Fraction | IsExactRoot(r, value) ensures r == Fraction(n, d) {
      RootFloorOfPower(n, r.num, 5);
      RootFloorOfPower(d, r.den, 5);
    }
    if Pow(n, 5) == value.num && Pow(d, 5) == value.den {
      if d == 0 { ZeroPower(5); }
      return Some(Fraction(n, d));
    }
    root := None;
  }

  /** In lowest terms a fraction is a fifth power of a rational exactly when both of its parts are
      fifth powers of integers: where the exact root is missing, no rational root exists. */
  lemma ExactRootIffRational(value: Fraction)
    requires value.NonNegative() && Coprime(value.num, value.den)
    ensures (exists p: nat, q: nat :: IsRationalRoot(p, q, value, 5)) <==>
      exists root: Fraction :: IsExactRoot(root, value)
  {
    forall p: nat, q: nat | IsRationalRoot(p, q, value, 5) ensures IsExactRoot(Reduced(p, q), value) {
      LowestRoot(p, q, value, 5);
    }
    forall root: Fraction | IsExactRoot(root, value) ensures IsRationalRoot(root.num, root.den, value, 5) {
    }
  }

  /** (p/q)^e equals the fraction, with the denominators cleared. */
  ghost predicate IsRationalRoot(p: nat, q: nat, value: Fraction, e: nat) {
    0 < q && Pow(p, e) * value.den == value.num * Pow(q, e)
  }

  lemma LowestRoot(p: nat, q: nat, value: Fraction, e: nat)
    requires value.NonNegative() && Coprime(value.num, value.den) && IsRationalRoot(p, q, value, e)
    ensures var root := Reduced(p, q);
            0 <= root.num && 0 < root.den && Pow(root.num, e) == value.num && Pow(root.den, e) == value.den
  {
    var root := Reduced(p, q);
    ReducedIsLowest(p, q);
    CoprimePows(root.num, root.den, e);
    PowPositive(root.den, e);
    PowPositive(q, e);
    PowProduct(root.num, q, e);
    PowProduct(p, root.den, e);
    SameRatio(Pow(root.num, e), Pow(root.den, e), Pow(p, e), Pow(q, e), value.num, value.den);
    LowestTermsUnique(value.num, value.den, Pow(root.num, e), Pow(root.den, e));
  }

  lemma {:induction false} PowProduct(a: int, b: int, e: nat)
    ensures Pow(a * b, e) == Pow(a, e) * Pow(b, e)
  {
    if e > 0 {
      PowProduct(a, b, e - 1);
      RegroupInt(a, b, Pow(a, e - 1), Pow(b, e - 1));
    }
  }

  lemma SameRatio(a: int, b: int, p: int, q: int, n: int, d: int)
    requires 0 < q && a * q == p * b && p * d == n * q
    ensures n * b == a * d
  {
    calc {
      q * (n * b);
      (n * q) * b;
      (p * d) * b;
      (p * b) * d;
      (a * q) * d;
      q * (a * d);
    }
    assert q * (n * b - a * d) == 0;
  }

  /// ---------------------------------------------------------------- enclosures

  ghost predicate IsRoot(x: real, radicand: Fraction)
    requires 0 < radicand.den
  {
    0.0 <= x && RPow(x, 5) == radicand.Value()
  }

  lemma ExactRootIsRoot(root: Fraction, value: Fraction)
    requires IsExactRoot(root, value) && 0 < value.den
    ensures IsRoot(root.Value(), value)
  {
    var x, d := root.Value(), root.den as real;
    assert x * d == root.num as real;
    RPowProduct(x, d, 5);
    CastPow(root.num, 5);
    CastPow(root.den, 5);
    QuotientOf(RPow(x, 5), value.den as real, value.num as real);
  }

  /** A tightening rational enclosure of one nonnegative fifth root. */
  class FifthRootInterval {
    const radicand: Fraction
    var lower: real
    var upper: real
    var depth: nat

    ghost predicate Valid()
      reads this
    {
      && 0 < radicand.den
      && 0.0 <= lower <= upper
      && RPow(lower, 5) <= radicand.Value() <= RPow(upper, 5)
    }

    function Width(): real
      reads this
    {
      upper - lower
    }

    constructor (radicand: Fraction, lower: real, upper: real)
      ensures this.radicand == radicand && this.lower == lower && this.upper == upper && depth == 0
    {
      this.radicand, this.lower, this.upper, depth := radicand, lower, upper, 0;
    }

    /** Starts at the exact root where there is one, and at [0, 1] otherwise. */
    static method Create(radicand: Fraction) returns (r: Result<FifthRootInterval, RootError>)
      requires 0 < radicand.den
      ensures r.Err? <==> !(0 <= radicand.num <= radicand.den)
      ensures r.Err? ==> r.error == BadRadicand
      ensures r.Ok? ==>
        && fresh(r.value) && r.value.Valid() && r.value.radicand == radicand && r.value.depth == 0
        && (forall root: Fraction :: IsExactRoot(root, radicand) ==> r.value.lower == r.value.upper == root.Value())
        && (r.value.lower == r.value.upper || (r.value.lower == 0.0 && r.value.upper == 1.0))
    {
      if !(0 <= radicand.num <= radicand.den) { return Err(BadRadicand); }
      var exact := ExactFifthRoot(radicand);
      var interval: FifthRootInterval;
      if exact.Some? {
        ExactRootIsRoot(exact.value, radicand);
        interval := new FifthRootInterval(radicand, exact.value.Value(), exact.value.Value());
      } else {
        UnitRadicand(radicand);
        interval := new FifthRootInterval(radicand, 0.0, 1.0);
      }
      r := Ok(interval);
    }

    /** The enclosure, read as bounds on the root itself. */
    lemma Encloses(x: real)
      requires Valid() && IsRoot(x, radicand)
      ensures lower <= x <= upper
    {
      RPowOrder(lower, x, 5);
      RPowOrder(x, upper, 5);
    }

    /** One bisection. Afterwards the enclosure lies inside the old one and is at most half as wide. */
    method Refine()
      requires Valid()
      modifies this
      ensures Valid()
      ensures old(lower) <= lower && upper <= old(upper)
      ensures depth == old(depth) + if old(lower == upper) then 0 else 1
      ensures lower == upper || Width() == old(Width()) / 2.0
    {
      if lower == upper { return; }
      var midpoint := (lower + upper) / 2.0;
      var midpointPower := RPow(midpoint, 5);
      if midpointPower == radicand.Value() {
        lower, upper := midpoint, midpoint;
      } else if midpointPower < radicand.Value() {
        lower := midpoint;
      } else {
        upper := midpoint;
      }
      depth := depth + 1;
    }
  }

  lemma UnitRadicand(radicand: Fraction)
    requires 0 <= radicand.num <= radicand.den && 0 < radicand.den
    ensures RPow(0.0, 5) <= radicand.Value() <= RPow(1.0, 5)
  {
    assert radicand.Value() * radicand.den as real == radicand.num as real;
    assert RPow(0.0, 5) == 0.0 * RPow(0.0, 4);
    RPowOne(5);
  }

  /// ---------------------------------------------------------------- the decision

  /** Contrast margin of a lighter and a darker luminance: nonnegative when the ratio is met. */
  function Margin(light: real, dark: real, ratio: real, offset: real): real {
    light + offset - ratio * (dark + offset)
  }

  /** Width of the interval the margin is known to lie in. */
  function Spread(lightWidth: real, darkWidth: real, ratio: real): real {
    lightWidth + ratio * darkWidth
  }

  lemma MarginMonotone(a: real, b: real, c: real, d: real, ratio: real, offset: real)
    requires 0.0 <= ratio && a <= b && c <= d
    ensures Margin(a, d, ratio, offset) <= Margin(b, c, ratio, offset)
    ensures Margin(b, c, ratio, offset) - Margin(a, d, ratio, offset) == Spread(b - a, d - c, ratio)
  {
    MulMonoReal(ratio, c + offset, d + offset);
  }

  ghost predicate AllRootsMeet(lighter: Fraction, darker: Fraction, ratio: real, offset: real, verdict: bool)
    requires 0 < lighter.den && 0 < darker.den
  {
    forall x, y :: IsRoot(x, lighter) && IsRoot(y, darker) ==> (verdict <==> 0.0 <= Margin(x, y, ratio, offset))
  }

  ghost predicate AllMarginsWithin(lighter: Fraction, darker: Fraction, ratio: real, offset: real, bound: real)
    requires 0 < lighter.den && 0 < darker.den
  {
    forall x, y :: IsRoot(x, lighter) && IsRoot(y, darker) ==> -bound <= Margin(x, y, ratio, offset) <= bound
  }

  lemma RootsMeet(lighter: FifthRootInterval, darker: FifthRootInterval, ratio: real, offset: real, verdict: bool)
    requires lighter.Valid() && darker.Valid() && 0.0 <= ratio
    requires if verdict then 0.0 <= Margin(lighter.lower, darker.upper, ratio, offset)
             else Margin(lighter.upper, darker.lower, ratio, offset) < 0.0
    ensures AllRootsMeet(lighter.radicand, darker.radicand, ratio, offset, verdict)
  {
    forall x, y | IsRoot(x, lighter.radicand) && IsRoot(y, darker.radicand)
      ensures verdict <==> 0.0 <= Margin(x, y, ratio, offset)
    {
      lighter.Encloses(x);
      darker.Encloses(y);
      MarginMonotone(lighter.lower, x, y, darker.upper, ratio, offset);
      MarginMonotone(x, lighter.upper, darker.lower, y, ratio, offset);
    }
  }

  lemma MarginsWithin(lighter: FifthRootInterval, darker: FifthRootInterval, ratio: real, offset: real)
    requires lighter.Valid() && darker.Valid() && 0.0 <= ratio
    requires Margin(lighter.lower, darker.upper, ratio, offset) < 0.0
    requires 0.0 <= Margin(lighter.upper, darker.lower, ratio, offset)
    ensures AllMarginsWithin(lighter.radicand, darker.radicand, ratio, offset,
                             Spread(lighter.Width(), darker.Width(), ratio))
  {
    MarginMonotone(lighter.lower, lighter.upper, darker.lower, darker.upper, ratio, offset);
    forall x, y | IsRoot(x, lighter.radicand) && IsRoot(y, darker.radicand)
      ensures var bound := Spread(lighter.Width(), darker.Width(), ratio);
              -bound <= Margin(x, y, ratio, offset) <= bound
    {
      lighter.Encloses(x);
      darker.Encloses(y);
      MarginMonotone(lighter.lower, x, y, darker.upper, ratio, offset);
      MarginMonotone(x, lighter.upper, darker.lower, y, ratio, offset);
    }
  }

  lemma WiderBound(lighter: Fraction, darker: Fraction, ratio: real, offset: real, bound: real, wider: real)
    requires 0 < lighter.den && 0 < darker.den && bound <= wider
    requires AllMarginsWithin(lighter, darker, ratio, offset, bound)
    ensures AllMarginsWithin(lighter, darker, ratio, offset, wider)
  {
  }

  /** Halving the larger contribution takes at least a quarter off the spread. */
  lemma SpreadShrinks(lw: real, dw: real, lw': real, dw': real, ratio: real)
    requires 0.0 <= ratio && 0.0 <= lw && 0.0 <= dw
    requires if ratio * dw <= lw then lw' <= lw / 2.0 && dw' == dw else lw' == lw && dw' <= dw / 2.0
    ensures Spread(lw', dw', ratio) <= 0.75 * Spread(lw, dw, ratio)
  {
    if ratio * dw > lw {
      MulMonoReal(ratio, dw', dw / 2.0);
      assert ratio * (dw / 2.0) == ratio * dw / 2.0;
    }
  }

  lemma SharedSpreadShrinks(w: real, w': real, ratio: real)
    requires 0.0 <= ratio && 0.0 <= w && w' <= w / 2.0
    ensures Spread(w', w', ratio) <= 0.75 * Spread(w, w, ratio)
  {
    MulMonoReal(ratio, w', w / 2.0);
    assert ratio * (w / 2.0) == ratio * w / 2.0;
    MulMonoReal(ratio, 0.0, w);
  }

  /** The largest spread k refinements can leave. */
  function Shrunk(k: nat, first: real): real { RPow(0.75, k) * first }

  lemma ShrunkAgain(s: real, s': real, first: real, k: nat)
    requires s <= Shrunk(k, first) && s' <= 0.75 * s
    ensures s' <= Shrunk(k + 1, first)
  {
    var p := RPow(0.75, k);
    assert RPow(0.75, k + 1) == 0.75 * p;
    assert (0.75 * p) * first == 0.75 * (p * first);
  }

  /** Steps the two enclosures have taken together; one object counts once. */
  function Depths(lighter: FifthRootInterval, darker: FifthRootInterval): nat
    reads lighter, darker
  {
    if lighter == darker then lighter.depth else lighter.depth + darker.depth
  }

  twostate predicate Tightened(interval: FifthRootInterval)
    reads interval
  {
    interval.Valid() && old(interval.lower) <= interval.lower && interval.upper <= old(interval.upper)
  }

  /** The larger contribution to a positive spread is not zero. */
  lemma LargerIsWide(lw: real, dw: real, ratio: real)
    requires 0.0 <= lw && 0.0 <= dw && 0.0 < ratio && 0.0 < Spread(lw, dw, ratio)
    ensures ratio * dw <= lw ==> 0.0 < lw
    ensures lw < ratio * dw ==> 0.0 < dw
    ensures lw == dw ==> 0.0 < lw
  {
  }

  /** One refinement of an undecided pair: exactly one unresolved enclosure is bisected. */
  method RefineLarger(lighter: FifthRootInterval, darker: FifthRootInterval, ratio: real, offset: real)
    requires lighter.Valid() && darker.Valid() && 0.0 < ratio
    requires Margin(lighter.lower, darker.upper, ratio, offset) < 0.0
    requires 0.0 <= Margin(lighter.upper, darker.lower, ratio, offset)
    modifies lighter, darker
    ensures Tightened(lighter) && Tightened(darker)
    ensures Depths(lighter, darker) == old(Depths(lighter, darker)) + 1
    ensures Spread(lighter.Width(), darker.Width(), ratio) <= 0.75 * old(Spread(lighter.Width(), darker.Width(), ratio))
  {
    ghost var lw, dw := lighter.Width(), darker.Width();
    MarginMonotone(lighter.lower, lighter.upper, darker.lower, darker.upper, ratio, offset);
    LargerIsWide(lw, dw, ratio);
    if darker == lighter {
      lighter.Refine();
      SharedSpreadShrinks(lw, lighter.Width(), ratio);
    } else {
      RefineOne(lighter, darker, ratio);
      SpreadShrinks(lw, dw, lighter.Width(), darker.Width(), ratio);
    }
  }

  /** The larger contribution to the spread is the one refined. */
  method RefineOne(lighter: FifthRootInterval, darker: FifthRootInterval, ratio: real)
    requires lighter.Valid() && darker.Valid() && lighter != darker
    requires if ratio * darker.Width() <= lighter.Width() then 0.0 < lighter.Width() else 0.0 < darker.Width()
    modifies lighter, darker
    ensures Tightened(lighter) && Tightened(darker)
    ensures lighter.depth + darker.depth == old(lighter.depth + darker.depth) + 1
    ensures if old(ratio * darker.Width() <= lighter.Width())
            then lighter.Width() <= old(lighter.Width()) / 2.0 && darker.Width() == old(darker.Width())
            else lighter.Width() == old(lighter.Width()) && darker.Width() <= old(darker.Width()) / 2.0
  {
    if lighter.upper - lighter.lower >= ratio * (darker.upper - darker.lower) {
      lighter.Refine();
    } else {
      darker.Refine();
    }
  }

  /** Bisects until the margin's sign is certain. A verdict is the exact real inequality; giving up
      takes exactly the allowed number of bisections and leaves the margin that close to zero. */
  method ContrastPassesIntervals(lighter: FifthRootInterval, darker: FifthRootInterval,
                                 ratio: real, offset: real, limit: int)
    returns (r: Result<bool, RootError>)
    requires lighter.Valid() && darker.Valid() && 0.0 < ratio
    modifies lighter, darker
    ensures Tightened(lighter) && Tightened(darker)
    ensures r.Ok? ==> AllRootsMeet(lighter.radicand, darker.radicand, ratio, offset, r.value)
    ensures r.Err? ==> r.error == if limit < 0 then NegativeLimit else NotSeparated
    ensures limit < 0 ==> r.Err? && Depths(lighter, darker) == old(Depths(lighter, darker))
    ensures 0 <= limit ==> Depths(lighter, darker) <= old(Depths(lighter, darker)) + limit
    ensures 0 <= limit && r.Err? ==>
      && Depths(lighter, darker) == old(Depths(lighter, darker)) + limit
      && AllMarginsWithin(lighter.radicand, darker.radicand, ratio, offset,
                          Shrunk(limit, old(Spread(lighter.Width(), darker.Width(), ratio))))
  {
    if limit < 0 { return Err(NegativeLimit); }
    ghost var spread := Spread(lighter.Width(), darker.Width(), ratio);
    var refinements := 0;
    assert Shrunk(0, spread) == spread;
    while true
      invariant 0 <= refinements <= limit
      invariant Tightened(lighter) && Tightened(darker)
      invariant Depths(lighter, darker) == old(Depths(lighter, darker)) + refinements
      invariant Spread(lighter.Width(), darker.Width(), ratio) <= Shrunk(refinements, spread)
      decreases limit - refinements
    {
      var minimumMargin := Margin(lighter.lower, darker.upper, ratio, offset);
      var maximumMargin := Margin(lighter.upper, darker.lower, ratio, offset);
      if minimumMargin >= 0.0 {
        RootsMeet(lighter, darker, ratio, offset, true);
        return Ok(true);
      }
      if maximumMargin < 0.0 {
        RootsMeet(lighter, darker, ratio, offset, false);
        return Ok(false);
      }
      if refinements == limit { break; }
      ghost var previous := Spread(lighter.Width(), darker.Width(), ratio);
      RefineLarger(lighter, darker, ratio, offset);
      ShrunkAgain(previous, Spread(lighter.Width(), darker.Width(), ratio), spread, refinements);
      refinements := refinements + 1;
    }
    MarginsWithin(lighter, darker, ratio, offset);
    WiderBound(lighter.radicand, darker.radicand, ratio, offset,
               Spread(lighter.Width(), darker.Width(), ratio), Shrunk(limit, spread));
    r := Err(NotSeparated);
  }
}
