/** The oracle object: it caches one enclosure per code, tightens cached enclosures while it
    decides, and lists the codes that meet a criterion against given neighbours. */
module NeutralOracle {
  import opened Products
  import opened Results
  import opened Sequences
  import opened Fractions
  import opened Powers
  import opened Transfer
  import opened FifthRoot
  import opened NeutralAxis
  import opened CodeRanges

  /// 256 codes times four criteria
  const MAX_ROOT_REFINEMENTS: nat := 1024

  datatype OracleError =
    BadCode | RadicandOutOfRange | UnknownCriterion | Undecided | NoAdjacent | DuplicateAdjacent

  /** Giving up means closer to the law's boundary than 2^-400 of the widest margin. */
  lemma LimitIsFar(first: real)
    requires 0.0 <= first
    ensures 0.0 <= Shrunk(MAX_ROOT_REFINEMENTS, first) <= RPow(0.5, 400) * first
  {
    FivesShrink(200);
    ShrinksOn(1000, MAX_ROOT_REFINEMENTS);
    MulMonoReal(first, RPow(0.75, MAX_ROOT_REFINEMENTS), RPow(0.5, 400));
    MulMonoReal(first, 0.0, RPow(0.75, MAX_ROOT_REFINEMENTS));
  }

  /** Five bisections of the larger of two widths shrink the spread by more than two halvings. */
  lemma {:induction false} FivesShrink(k: nat)
    ensures 0.0 <= RPow(0.75, 5 * k) <= RPow(0.5, 2 * k)
  {
    if k > 0 {
      FivesShrink(k - 1);
      var a, b := RPow(0.75, 5 * (k - 1)), RPow(0.5, 2 * (k - 1));
      var n := 5 * k;
      assert RPow(0.75, n - 4) == 0.75 * a;
      assert RPow(0.75, n - 3) == 0.75 * RPow(0.75, n - 4);
      assert RPow(0.75, n - 2) == 0.75 * RPow(0.75, n - 3);
      assert RPow(0.75, n - 1) == 0.75 * RPow(0.75, n - 2);
      assert RPow(0.75, n) == 0.75 * RPow(0.75, n - 1);
      assert RPow(0.5, 2 * k - 1) == 0.5 * b;
      assert RPow(0.5, 2 * k) == 0.5 * RPow(0.5, 2 * k - 1);
    }
  }

  lemma {:induction false} ShrinksOn(k: nat, n: nat)
    requires k <= n
    ensures 0.0 <= RPow(0.75, n) <= RPow(0.75, k)
    decreases n
  {
    RPowNonNegative(0.75, n);
    if k < n {
      ShrinksOn(k, n - 1);
    }
  }

  predicate RatiosOk(ratios: map<string, Fraction>) {
    forall c :: c in ratios ==> 0 < ratios[c].den < ratios[c].num
  }

  class Oracle {
    const profile: Profile
    const contrastOffset: Fraction
    const ratios: map<string, Fraction>
    var luminances: map<int, FifthRootInterval>

    predicate Settled()
    {
      profile.Usable() && contrastOffset.NonNegative() && RatiosOk(ratios)
    }

    ghost predicate EntryOk(code: int, interval: FifthRootInterval)
      requires profile.Usable()
      reads interval
    {
      && IsCode(code) && interval.Valid() && interval.radicand == Radicand(code, profile)
      && 0 <= interval.radicand.num <= interval.radicand.den
      && interval.Width() <= 1.0
    }

    /** Every cached enclosure is that of its own code, and no two codes share an object. */
    ghost predicate Valid()
      reads this, luminances.Values
    {
      && Settled()
      && (forall c :: c in luminances ==> EntryOk(c, luminances[c]))
      && (forall c, d :: c in luminances && d in luminances && c != d ==> luminances[c] != luminances[d])
    }

    constructor (profile: Profile, contrastOffset: Fraction, ratios: map<string, Fraction>)
      requires profile.Usable() && contrastOffset.NonNegative() && RatiosOk(ratios)
      ensures Valid() && luminances == map[]
      ensures this.profile == profile && this.contrastOffset == contrastOffset && this.ratios == ratios
    {
      this.profile, this.contrastOffset, this.ratios, luminances := profile, contrastOffset, ratios, map[];
    }

    /** The cached enclosure of a code; the same object every time. */
    method Luminance(code: int) returns (r: Result<FifthRootInterval, OracleError>)
      requires Valid()
      modifies this`luminances
      ensures Valid()
      ensures !IsCode(code) <==> r == Err(BadCode)
      ensures r == Err(RadicandOutOfRange) <==>
              IsCode(code) && Radicand(code, profile).num > Radicand(code, profile).den
      ensures r.Err? ==> (r.error == BadCode || r.error == RadicandOutOfRange) && luminances == old(luminances)
      ensures r.Ok? && code in old(luminances) ==> r.value == old(luminances)[code] && luminances == old(luminances)
      ensures r.Ok? && code !in old(luminances) ==>
        fresh(r.value) && luminances == old(luminances)[code := r.value]
      ensures r.Ok? && code !in old(luminances) && IsLinear(code, profile) ==>
        r.value.lower == r.value.upper == Encoded(code) / profile.divisor.Value()
    {
      if !IsCode(code) { return Err(BadCode); }
      RadicandRoot(code, profile, 0.0);
      if code in luminances {
        assert EntryOk(code, luminances[code]);
        return Ok(luminances[code]);
      }
      var created := FifthRootInterval.Create(Radicand(code, profile));
      if created.Err? { return Err(RadicandOutOfRange); }
      if IsLinear(code, profile) { LinearRoot(code, profile, 0.0); }
      luminances := luminances[code := created.value];
      r := Ok(created.value);
    }

    /** Nothing leaves the cache, and no cached enclosure ever widens. */
    twostate predicate CacheKept()
      reads this, luminances.Values
    {
      && (forall c :: c in old(luminances) ==>
            c in luminances && luminances[c] == old(luminances)[c] && Tightened(luminances[c]))
      && fresh(luminances.Values - old(luminances.Values))
    }

    predicate RadicandTooLarge(code: int)
      requires Settled()
    {
      IsCode(code) && Radicand(code, profile).num > Radicand(code, profile).den
    }

    /** When an error is in order. */
    ghost predicate Excused(e: OracleError, first: int, second: int, criterion: string)
      requires Settled()
    {
      match e
      case UnknownCriterion => criterion !in ratios
      case BadCode => !(IsCode(first) && IsCode(second))
      case RadicandOutOfRange => RadicandTooLarge(first) || RadicandTooLarge(second)
      case Undecided =>
        && criterion in ratios && IsCode(first) && IsCode(second)
        && MarginTiny(first, second, profile, ratios[criterion], contrastOffset,
                      Shrunk(MAX_ROOT_REFINEMENTS, 1.0 + ratios[criterion].Value()))
      case _ => false
    }

    /** The decision on two codes: exact for the real luminances; it gives up only when the two lie
        within a bound of the law's boundary that 1024 bisections make vanishingly small. */
    method ContrastPasses(first: int, second: int, criterion: string) returns (r: Result<bool, OracleError>)
      requires Valid()
      modifies this`luminances, luminances.Values
      ensures Valid() && CacheKept()
      ensures r == Err(UnknownCriterion) <==> criterion !in ratios
      ensures criterion in ratios && !(IsCode(first) && IsCode(second)) ==> r.Err?
      ensures r.Ok? ==>
        && criterion in ratios && IsCode(first) && IsCode(second)
        && VerdictExact(first, second, profile, ratios[criterion], contrastOffset, r.value)
      ensures r.Err? ==> Excused(r.error, first, second, criterion)
    {
      if criterion !in ratios { return Err(UnknownCriterion); }
      var problem := CacheBoth(LighterOf(first, second), DarkerOf(first, second));
      if problem.Some? { return Err(problem.value); }
      r := Decide(LighterOf(first, second), DarkerOf(first, second), criterion);
    }

    method CacheBoth(light: int, dark: int) returns (problem: Option<OracleError>)
      requires Valid()
      modifies this`luminances
      ensures Valid() && CacheKept()
      ensures problem.Some? ==>
        || (problem.value == BadCode && !(IsCode(light) && IsCode(dark)))
        || (problem.value == RadicandOutOfRange && (RadicandTooLarge(light) || RadicandTooLarge(dark)))
      ensures !(IsCode(light) && IsCode(dark)) ==> problem.Some?
      ensures problem == None ==> light in luminances && dark in luminances
    {
      var lighter := Luminance(light);
      if lighter.Err? { return Some(lighter.error); }
      var darker := Luminance(dark);
      if darker.Err? { return Some(darker.error); }
      problem := None;
    }

    /** The decision once both enclosures are cached. */
    method Decide(light: int, dark: int, criterion: string) returns (r: Result<bool, OracleError>)
      requires Valid() && light in luminances && dark in luminances && dark <= light && criterion in ratios
      modifies luminances[light], luminances[dark]
      ensures Valid() && Tightened(luminances[light]) && Tightened(luminances[dark])
      ensures IsCode(light) && IsCode(dark)
      ensures r.Ok? ==> VerdictExact(light, dark, profile, ratios[criterion], contrastOffset, r.value)
      ensures r.Err? ==>
        && r.error == Undecided
        && MarginTiny(light, dark, profile, ratios[criterion], contrastOffset,
                      Shrunk(MAX_ROOT_REFINEMENTS, 1.0 + ratios[criterion].Value()))
    {
      var lighter, darker := luminances[light], luminances[dark];
      assert EntryOk(light, lighter) && EntryOk(dark, darker);
      var ratio, offset := ratios[criterion].Value(), contrastOffset.Value();
      RatioPositive(ratios[criterion]);
      ghost var spread := Spread(lighter.Width(), darker.Width(), ratio);
      UnitSpread(lighter.Width(), darker.Width(), ratio);
      var decided := ContrastPassesIntervals(lighter, darker, ratio, offset, MAX_ROOT_REFINEMENTS);
      if decided.Err? {
        ShrunkMono(MAX_ROOT_REFINEMENTS, spread, 1.0 + ratio);
        WiderBound(lighter.radicand, darker.radicand, ratio, offset, Shrunk(MAX_ROOT_REFINEMENTS, spread),
                   Shrunk(MAX_ROOT_REFINEMENTS, 1.0 + ratio));
        RootMarginsAreTiny(light, dark, profile, ratio, offset, Shrunk(MAX_ROOT_REFINEMENTS, 1.0 + ratio));
        return Err(Undecided);
      }
      RootsAreLuminances(light, dark, profile, ratio, offset, decided.value);
      r := Ok(decided.value);
    }

    /** Every neighbour is met, or some neighbour is not. */
    ghost predicate Classified(candidate: int, adjacent: seq<int>, criterion: string, passes: bool)
      requires Settled() && criterion in ratios && IsCode(candidate)
    {
      && (forall a :: a in adjacent ==> IsCode(a))
      && if passes then forall a :: a in adjacent ==> Exact(candidate, a, criterion, true)
         else exists a :: a in adjacent && Exact(candidate, a, criterion, false)
    }

    ghost predicate Exact(candidate: int, other: int, criterion: string, verdict: bool)
      requires Settled() && criterion in ratios && IsCode(candidate)
    {
      IsCode(other) && VerdictExact(candidate, other, profile, ratios[criterion], contrastOffset, verdict)
    }

    method PassesAll(candidate: int, adjacent: seq<int>, criterion: string) returns (r: Result<bool, OracleError>)
      requires Valid() && IsCode(candidate) && adjacent != [] && forall a :: a in adjacent ==> IsCode(a)
      modifies this`luminances, luminances.Values
      ensures Valid() && CacheKept()
      ensures r.Ok? ==> criterion in ratios && Classified(candidate, adjacent, criterion, r.value)
      ensures r.Err? ==> exists a :: a in adjacent && Excused(r.error, candidate, a, criterion)
    {
      for i := 0 to |adjacent|
        invariant Valid() && CacheKept()
        invariant i > 0 ==> criterion in ratios
        invariant criterion in ratios ==> forall k :: 0 <= k < i ==> Exact(candidate, adjacent[k], criterion, true)
      {
        var passes := ContrastPasses(candidate, adjacent[i], criterion);
        if passes.Err? { return passes; }
        assert Exact(candidate, adjacent[i], criterion, passes.value);
        if !passes.value { return passes; }
      }
      r := Ok(true);
    }

    method CacheAll(codes: seq<int>) returns (problem: Option<OracleError>)
      requires Valid()
      modifies this`luminances
      ensures Valid() && CacheKept()
      ensures problem == None ==> forall c :: c in codes ==> IsCode(c)
      ensures problem.Some? ==>
        exists c :: c in codes &&
          if IsCode(c) then problem.value == RadicandOutOfRange && RadicandTooLarge(c) else problem.value == BadCode
    {
      for i := 0 to |codes|
        invariant Valid() && CacheKept()
        invariant forall k :: 0 <= k < i ==> IsCode(codes[k])
      {
        var cached := Luminance(codes[i]);
        if cached.Err? { return Some(cached.error); }
      }
      problem := None;
    }

    /** The codes that meet the criterion against every neighbour, in order. */
    method CandidateSet(adjacent: seq<int>, criterion: string) returns (r: Result<seq<int>, OracleError>)
      requires Valid()
      modifies this`luminances, luminances.Values
      ensures Valid() && CacheKept()
      ensures adjacent == [] ==> r == Err(NoAdjacent)
      ensures !Distinct(adjacent) ==> r == Err(DuplicateAdjacent)
      ensures r.Ok? ==>
        && criterion in ratios && Ascending(r.value) && InByte(r.value)
        && forall c :: IsCode(c) ==> Classified(c, adjacent, criterion, c in r.value)
      ensures r.Err? && adjacent != [] && Distinct(adjacent) ==>
        exists c, a :: IsCode(c) && a in adjacent && Excused(r.error, c, a, criterion)
    {
      if adjacent == [] { return Err(NoAdjacent); }
      if !Distinct(adjacent) { return Err(DuplicateAdjacent); }
      var problem := CacheAll(adjacent);
      if problem.Some? {
        assert IsCode(0) && exists a :: a in adjacent && Excused(problem.value, 0, a, criterion);
        return Err(problem.value);
      }
      var candidates: seq<int> := [];
      for candidate := 0 to 256
        invariant Valid() && CacheKept()
        invariant AscendingBelow(candidates, candidate)
        invariant candidate > 0 ==> criterion in ratios
        invariant criterion in ratios ==>
          forall c :: 0 <= c < candidate ==> Classified(c, adjacent, criterion, c in candidates)
      {
        var passes := PassesAll(candidate, adjacent, criterion);
        if passes.Err? { return Err(passes.error); }
        AppendAscending(candidates, candidate);
        if passes.value { candidates := candidates + [candidate]; }
      }
      r := Ok(candidates);
    }
  }

  predicate AscendingBelow(codes: seq<int>, n: int) {
    Ascending(codes) && forall i :: 0 <= i < |codes| ==> 0 <= codes[i] < n
  }

  lemma AppendAscending(codes: seq<int>, n: nat)
    requires AscendingBelow(codes, n)
    ensures AscendingBelow(codes, n + 1) && AscendingBelow(codes + [n], n + 1)
    ensures n !in codes && forall c :: c < n ==> (c in codes + [n] <==> c in codes)
  {
  }

  lemma RatioPositive(ratio: Fraction)
    requires 0 < ratio.den < ratio.num
    ensures 1.0 < ratio.Value()
  {
    assert ratio.Value() * ratio.den as real == ratio.num as real;
  }

  lemma UnitSpread(lw: real, dw: real, ratio: real)
    requires 0.0 <= ratio && lw <= 1.0 && dw <= 1.0
    ensures Spread(lw, dw, ratio) <= 1.0 + ratio
  {
  }

  lemma ShrunkMono(k: nat, a: real, b: real)
    requires a <= b
    ensures Shrunk(k, a) <= Shrunk(k, b)
  {
    RPowNonNegative(0.75, k);
    MulMonoReal(RPow(0.75, k), a, b);
  }
}
