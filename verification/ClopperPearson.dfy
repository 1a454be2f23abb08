/** Outward Clopper-Pearson interval of a binomial proportion, found on a dyadic grid by
    bisection over exact integer tails, and what makes it a confidence interval. */
module ClopperPearson {
  import opened Products
  import opened Results
  import opened Fractions
  import opened Powers

  /// PROPORTION_GRID = 1 << 32
  const GRID: nat := 4294967296

  /** Number of ways to choose k of n, by Pascal's rule. */
  function Comb(n: nat, k: nat): nat {
    if k == 0 then 1 else if n == 0 then 0 else Comb(n - 1, k - 1) + Comb(n - 1, k)
  }

  /** One summand of the tail, for success weight m and failure weight r. */
  function Term(n: nat, k: nat, m: int, r: int): int {
    if k > n then 0 else Comb(n, k) * Pow(m, k) * Pow(r, n - k)
  }

  /** The exact integer numerator of the upper tail: the sum over k from s to n. */
  function TailNumerator(n: nat, s: nat, m: int, r: int): int
    decreases n + 1 - s
  {
    if s > n then 0 else Term(n, s, m, r) + TailNumerator(n, s + 1, m, r)
  }

  /** The same summand with real weights; with p + q == 1 it is the chance of exactly k successes. */
  function Mass(n: nat, k: nat, p: real, q: real): real {
    if k > n then 0.0 else Weighed(Comb(n, k) as real, RPow(p, k), RPow(q, n - k))
  }

  function Weighed(count: real, x: real, y: real): real { count * x * y }

  /** The weight of at least s successes in n trials, by the outcome of the last trial. */
  function Tail(n: nat, s: nat, p: real, q: real): real {
    if s == 0 then RPow(p + q, n)
    else if n == 0 then 0.0
    else q * Tail(n - 1, s, p, q) + p * Tail(n - 1, s - 1, p, q)
  }

  lemma {:induction false} CombBeyond(n: nat, k: nat)
    requires n < k
    ensures Comb(n, k) == 0
  {
    if n > 0 {
      CombBeyond(n - 1, k - 1);
      CombBeyond(n - 1, k);
    }
  }

  /** What one more trial makes of a quantity: failure with weight q, success with weight p. */
  function OneTrial(p: real, q: real, failed: real, succeeded: real): real { q * failed + p * succeeded }

  lemma PascalExpand(a: real, b: real, p: real, q: real, x: real, y: real)
    ensures Weighed(a + b, p * x, q * y) == OneTrial(p, q, Weighed(b, p * x, y), Weighed(a, x, q * y))
  {
    var z := p * x * (q * y);
    assert (a + b) * (p * x) * (q * y) == (a + b) * z;
    assert q * (b * (p * x) * y) == b * z;
    assert p * (a * x * (q * y)) == a * z;
  }

  lemma AllSucceed(a: real, p: real, q: real, x: real)
    ensures Weighed(a, p * x, 1.0) == OneTrial(p, q, 0.0, Weighed(a, x, 1.0))
  {
    assert a * (p * x) * 1.0 == p * (a * x * 1.0);
  }

  /** Pascal's rule, carried by each term: the last trial fails or succeeds. */
  lemma MassStep(n: nat, k: nat, p: real, q: real)
    requires 0 < k
    ensures Mass(n + 1, k, p, q) == OneTrial(p, q, Mass(n, k, p, q), Mass(n, k - 1, p, q))
  {
    if k <= n {
      MassStepWithin(n, k, p, q);
    } else if k == n + 1 {
      CombBeyond(n, n + 1);
      assert Comb(n + 1, n + 1) == Comb(n, n);
      assert RPow(p, n + 1) == p * RPow(p, n);
      AllSucceed(Comb(n, n) as real, p, q, RPow(p, n));
    }
  }

  lemma MassStepWithin(n: nat, k: nat, p: real, q: real)
    requires 0 < k <= n
    ensures Mass(n + 1, k, p, q) == OneTrial(p, q, Mass(n, k, p, q), Mass(n, k - 1, p, q))
  {
    var x, y := RPow(p, k - 1), RPow(q, n - k);
    PowerStep(p, k - 1);
    PowerStep(q, n - k);
    PascalExpand(Comb(n, k - 1) as real, Comb(n, k) as real, p, q, x, y);
  }

  lemma PowerStep(b: real, e: nat)
    ensures RPow(b, e + 1) == b * RPow(b, e)
  {
  }

  lemma MassNone(n: nat, p: real, q: real)
    ensures Mass(n + 1, 0, p, q) == q * Mass(n, 0, p, q)
  {
  }

  lemma PeelStep(p: real, q: real, a0: real, a1: real, a2: real, m0: real, m1: real, t1: real, t2: real, m: real)
    requires a0 == a1 + m0 && a1 == a2 + m1
    requires t1 == OneTrial(p, q, a1, a0) && t2 == OneTrial(p, q, a2, a1) && m == OneTrial(p, q, m1, m0)
    ensures t1 == t2 + m
  {
  }

  /** The tail is the sum of its terms: dropping the first one leaves the next tail. */
  lemma {:induction false} TailPeel(n: nat, s: nat, p: real, q: real)
    ensures Tail(n, s, p, q) == Tail(n, s + 1, p, q) + Mass(n, s, p, q)
  {
    if n > 0 {
      TailPeel(n - 1, s, p, q);
      if s > 0 {
        TailPeel(n - 1, s - 1, p, q);
        TailPeelLater(n - 1, s, p, q);
      } else {
        MassNone(n - 1, p, q);
        PeelFirst(p, q, RPow(p + q, n - 1), Tail(n - 1, 1, p, q), Mass(n - 1, 0, p, q));
      }
    }
  }

  lemma TailPeelLater(n: nat, s: nat, p: real, q: real)
    requires 0 < s
    requires Tail(n, s, p, q) == Tail(n, s + 1, p, q) + Mass(n, s, p, q)
    requires Tail(n, s - 1, p, q) == Tail(n, s, p, q) + Mass(n, s - 1, p, q)
    ensures Tail(n + 1, s, p, q) == Tail(n + 1, s + 1, p, q) + Mass(n + 1, s, p, q)
  {
    MassStep(n, s, p, q);
    TailUnfold(n, s, p, q);
    TailUnfold(n, s + 1, p, q);
    PeelStep(p, q, Tail(n, s - 1, p, q), Tail(n, s, p, q), Tail(n, s + 1, p, q),
             Mass(n, s - 1, p, q), Mass(n, s, p, q),
             Tail(n + 1, s, p, q), Tail(n + 1, s + 1, p, q), Mass(n + 1, s, p, q));
  }

  lemma TailUnfold(n: nat, s: nat, p: real, q: real)
    requires 0 < s
    ensures Tail(n + 1, s, p, q) == OneTrial(p, q, Tail(n, s, p, q), Tail(n, s - 1, p, q))
  {
  }

  lemma PeelFirst(p: real, q: real, a0: real, a1: real, m0: real)
    requires a0 == a1 + m0
    ensures (p + q) * a0 == (q * a1 + p * a0) + q * m0
  {
  }

  lemma {:induction false} TailBeyond(n: nat, s: nat, p: real, q: real)
    requires n < s
    ensures Tail(n, s, p, q) == 0.0
  {
    if n > 0 {
      TailBeyond(n - 1, s, p, q);
      TailBeyond(n - 1, s - 1, p, q);
    }
  }

  lemma TermCast(n: nat, k: nat, m: int, r: int)
    ensures Term(n, k, m, r) as real == Mass(n, k, m as real, r as real)
  {
    if k <= n {
      CastProduct(Comb(n, k), Pow(m, k), Pow(r, n - k));
      CastPow(m, k);
      CastPow(r, n - k);
    }
  }

  lemma CastProduct(a: int, b: int, c: int)
    ensures (a * b * c) as real == a as real * b as real * c as real
  {
    assert (a * b) as real == a as real * b as real;
  }

  /** The integer the program sums is the tail at the two integer weights. */
  lemma {:induction false} TailNumeratorIsTail(n: nat, s: nat, m: int, r: int)
    ensures TailNumerator(n, s, m, r) as real == Tail(n, s, m as real, r as real)
    decreases n + 1 - s
  {
    if s > n {
      TailBeyond(n, s, m as real, r as real);
    } else {
      TermCast(n, s, m, r);
      TailNumeratorIsTail(n, s + 1, m, r);
      TailPeel(n, s, m as real, r as real);
    }
  }

  lemma MassNonNegative(n: nat, k: nat, p: real, q: real)
    requires 0.0 <= p && 0.0 <= q
    ensures 0.0 <= Mass(n, k, p, q)
  {
    if k <= n {
      RPowNonNegative(p, k);
      RPowNonNegative(q, n - k);
      MulMonoReal(Comb(n, k) as real, 0.0, RPow(p, k));
      MulMonoReal(Comb(n, k) as real * RPow(p, k), 0.0, RPow(q, n - k));
    }
  }

  lemma TailFalls(n: nat, s: nat, t: nat, p: real, q: real)
    requires 0.0 <= p && 0.0 <= q && s <= t
    ensures Tail(n, t, p, q) <= Tail(n, s, p, q)
    decreases t - s
  {
    if s < t {
      TailPeel(n, s, p, q);
      MassNonNegative(n, s, p, q);
      TailFalls(n, s + 1, t, p, q);
    }
  }

  /** Moving weight from failure to success never lowers an upper tail. */
  lemma {:induction false} TailMonotone(n: nat, s: nat, p: real, p': real, g: real)
    requires 0.0 <= p <= p' <= g
    ensures Tail(n, s, p, g - p) <= Tail(n, s, p', g - p')
  {
    if s > 0 && n > 0 {
      TailMonotone(n - 1, s, p, p', g);
      TailMonotone(n - 1, s - 1, p, p', g);
      TailFalls(n - 1, s - 1, s, p', g - p');
      Mix(g, p, p', Tail(n - 1, s, p, g - p), Tail(n - 1, s - 1, p, g - p),
          Tail(n - 1, s, p', g - p'), Tail(n - 1, s - 1, p', g - p'));
    } else if s == 0 {
      assert p + (g - p) == g == p' + (g - p');
    }
  }

  lemma Mix(g: real, p: real, p': real, a: real, b: real, a': real, b': real)
    requires 0.0 <= p <= p' <= g && a <= a' && b <= b' && a' <= b'
    ensures (g - p) * a + p * b <= (g - p') * a' + p' * b'
  {
    MulMonoReal(g - p, a, a');
    MulMonoReal(p, b, b');
    MulMonoReal(p' - p, a', b');
    assert (g - p) * a' == (g - p') * a' + (p' - p) * a';
    assert p' * b' == p * b' + (p' - p) * b';
  }

  /** Success and failure trade places: at least s successes, or at least n+1-s failures. */
  lemma {:induction false} TailSymmetry(n: nat, s: nat, p: real, q: real)
    requires s <= n + 1
    ensures Tail(n, s, p, q) + Tail(n, n + 1 - s, q, p) == RPow(p + q, n)
  {
    if s == 0 {
      TailBeyond(n, n + 1, q, p);
    } else if s == n + 1 {
      TailBeyond(n, n + 1, p, q);
      assert q + p == p + q;
    } else {
      TailSymmetry(n - 1, s, p, q);
      TailSymmetry(n - 1, s - 1, p, q);
      Distribute(p, q, Tail(n - 1, s, p, q), Tail(n - 1, n - s, q, p),
                 Tail(n - 1, s - 1, p, q), Tail(n - 1, n + 1 - s, q, p), RPow(p + q, n - 1));
    }
  }

  lemma Distribute(p: real, q: real, a: real, a': real, b: real, b': real, c: real)
    requires a + a' == c && b + b' == c
    ensures q * a + p * b + (p * b' + q * a') == (p + q) * c
  {
    assert q * a + q * a' == q * c;
    assert p * b + p * b' == p * c;
  }

  /** Tails are homogeneous, so a grid point m stands for the probability m / GRID. */
  lemma {:induction false} TailScaled(n: nat, s: nat, c: real, p: real, q: real, p': real, q': real)
    requires p' == c * p && q' == c * q
    ensures Tail(n, s, p', q') == RPow(c, n) * Tail(n, s, p, q)
  {
    if s == 0 {
      PowScaled(c, p + q, p' + q', n);
    } else if n > 0 {
      TailScaled(n - 1, s, c, p, q, p', q');
      TailScaled(n - 1, s - 1, c, p, q, p', q');
      ScaleStep(c, p, q, RPow(c, n - 1), Tail(n - 1, s, p, q), Tail(n - 1, s - 1, p, q));
    }
  }

  lemma {:induction false} PowScaled(c: real, t: real, t': real, n: nat)
    requires t' == c * t
    ensures RPow(t', n) == RPow(c, n) * RPow(t, n)
  {
    if n > 0 {
      PowScaled(c, t, t', n - 1);
      Regroup(c, t, RPow(c, n - 1), RPow(t, n - 1));
    }
  }

  lemma ScaleStep(c: real, p: real, q: real, k: real, a: real, b: real)
    ensures (c * q) * (k * a) + (c * p) * (k * b) == (c * k) * (q * a + p * b)
  {
    Regroup(c, q, k, a);
    Regroup(c, p, k, b);
  }

  /// ------------------------------------------------------------ the grid search

  /** The comparison the search makes: the tail at grid point m does not exceed the bound. */
  predicate Within(n: nat, s: nat, tail: Fraction, m: int) {
    TailNumerator(n, s, m, GRID - m) * tail.den <= tail.num * Pow(GRID, n)
  }

  /** P(X >= s) <= tail for X counting n trials with success probability p. */
  predicate ChanceWithin(n: nat, s: nat, tail: Fraction, p: real)
    requires 0 < tail.den
  {
    Tail(n, s, p, 1.0 - p) <= tail.num as real / tail.den as real
  }

  lemma CompareCleared(x: real, a: real, b: real, g: real)
    requires 0.0 < b && 0.0 < g
    ensures (g * x) * b <= a * g <==> x <= a / b
  {
    var y := a / b;
    assert y * b == a;
    assert (g * x) * b == (g * b) * x && a * g == (g * b) * y;
    assert 0.0 < g * b;
    if x <= y { MulMonoReal(g * b, x, y); } else { MulStrictReal(g * b, y, x); }
  }

  /** The integer comparison at a grid point is the comparison of probabilities. */
  lemma WithinIsChance(n: nat, s: nat, tail: Fraction, m: int)
    requires 0 < tail.den
    ensures Within(n, s, tail, m) <==> ChanceWithin(n, s, tail, m as real / GRID as real)
  {
    GridComparison(n, s, tail, m, GRID);
  }

  lemma GridComparison(n: nat, s: nat, tail: Fraction, m: int, grid: nat)
    requires 0 < tail.den && 0 < grid
    ensures TailNumerator(n, s, m, grid - m) * tail.den <= tail.num * Pow(grid, n) <==>
            ChanceWithin(n, s, tail, m as real / grid as real)
  {
    var g, p := grid as real, m as real / grid as real;
    NumeratorScaled(n, s, grid, m, p);
    CastPow(grid, n);
    RPowNonNegative(g, n);
    CompareNumerators(TailNumerator(n, s, m, grid - m), Pow(grid, n), tail, Tail(n, s, p, 1.0 - p), RPow(g, n));
  }

  lemma NumeratorScaled(n: nat, s: nat, grid: nat, m: int, p: real)
    requires 0 < grid && p == m as real / grid as real
    ensures TailNumerator(n, s, m, grid - m) as real == RPow(grid as real, n) * Tail(n, s, p, 1.0 - p)
  {
    TailNumeratorIsTail(n, s, m, grid - m);
    GridParts(grid, m, p);
    TailScaled(n, s, grid as real, p, 1.0 - p, m as real, (grid - m) as real);
  }

  lemma GridParts(grid: nat, m: int, p: real)
    requires 0 < grid && p == m as real / grid as real
    ensures m as real == grid as real * p && (grid - m) as real == grid as real * (1.0 - p)
  {
  }

  lemma CompareNumerators(numerator: int, denominator: int, tail: Fraction, x: real, g: real)
    requires 0 < tail.den && 0.0 < g && numerator as real == g * x && denominator as real == g
    ensures numerator * tail.den <= tail.num * denominator <==> x <= tail.num as real / tail.den as real
  {
    CastMul(numerator, tail.den);
    CastMul(tail.num, denominator);
    CompareCleared(x, tail.num as real, tail.den as real, g);
  }

  lemma ChanceMonotone(n: nat, s: nat, tail: Fraction, p: real, p': real)
    requires 0 < tail.den && 0.0 <= p <= p' <= 1.0 && ChanceWithin(n, s, tail, p')
    ensures ChanceWithin(n, s, tail, p)
  {
    TailMonotone(n, s, p, p', 1.0);
  }

  lemma WithinMonotone(n: nat, s: nat, tail: Fraction, m: int, m': int)
    requires 0 < tail.den && 0 <= m <= m' <= GRID && Within(n, s, tail, m')
    ensures Within(n, s, tail, m)
  {
    WithinIsChance(n, s, tail, m);
    WithinIsChance(n, s, tail, m');
    ChanceMonotone(n, s, tail, m as real / GRID as real, m' as real / GRID as real);
  }

  /** With no chance of success no success is seen; with certainty every trial succeeds. */
  lemma {:induction false} TailAtEnds(n: nat, s: nat)
    requires 0 < s
    ensures Tail(n, s, 0.0, 1.0) == 0.0
    ensures s <= n ==> Tail(n, s, 1.0, 0.0) == 1.0
  {
    TailNever(n, s);
    if s <= n {
      TailSymmetry(n, s, 1.0, 0.0);
      TailNever(n, n + 1 - s);
      RPowOne(n);
    }
  }

  lemma {:induction false} TailNever(n: nat, s: nat)
    requires 0 < s
    ensures Tail(n, s, 0.0, 1.0) == 0.0
  {
    if n > 0 { TailNever(n - 1, s); }
  }

  /** What the search is for: the largest grid point whose tail stays within the bound. */
  ghost predicate IsLargestWithin(n: nat, s: nat, tail: Fraction, lo: int) {
    0 <= lo < GRID && forall m :: 0 <= m <= GRID ==> (Within(n, s, tail, m) <==> m <= lo)
  }

  method BinomialLower(successes: nat, trials: nat, tail: Fraction) returns (lo: nat)
    requires successes <= trials && 0 <= tail.num && 0 < tail.den
    ensures successes == 0 ==> lo == 0
    ensures 0 < successes ==> (IsLargestWithin(trials, successes, tail, lo) <==> tail.num < tail.den)
  {
    if successes == 0 { return 0; }
    var hi := GRID;
    lo := 0;
    LowestWithin(trials, successes, tail);
    while hi - lo > 1
      invariant 0 <= lo < hi <= GRID
      invariant Within(trials, successes, tail, lo)
      invariant hi < GRID ==> !Within(trials, successes, tail, hi)
    {
      var midpoint := (lo + hi) / 2;
      if Within(trials, successes, tail, midpoint) {
        lo := midpoint;
      } else {
        hi := midpoint;
      }
    }
    CertainExceeds(trials, successes, tail);
    forall m | 0 <= m <= lo ensures Within(trials, successes, tail, m) {
      WithinMonotone(trials, successes, tail, m, lo);
    }
    if tail.num < tail.den {
      forall m | hi <= m <= GRID ensures !Within(trials, successes, tail, m) {
        if Within(trials, successes, tail, m) { WithinMonotone(trials, successes, tail, hi, m); }
      }
    }
  }

  lemma LowestWithin(n: nat, s: nat, tail: Fraction)
    requires 0 < s && 0 <= tail.num && 0 < tail.den
    ensures Within(n, s, tail, 0)
  {
    TailAtEnds(n, s);
    WithinIsChance(n, s, tail, 0);
    assert 0.0 / GRID as real == 0.0;
  }

  lemma CertainExceeds(n: nat, s: nat, tail: Fraction)
    requires 0 < s <= n && 0 < tail.den
    ensures Within(n, s, tail, GRID) <==> tail.den <= tail.num
  {
    TailAtEnds(n, s);
    WithinIsChance(n, s, tail, GRID);
    assert GRID as real / GRID as real == 1.0;
    CompareCleared(1.0, tail.num as real, tail.den as real, 1.0);
  }

  /// ------------------------------------------------------------ the interval

  /** The lower end for s successes: zero without any, the largest grid point within the tail otherwise. */
  ghost predicate IsLowerEnd(n: nat, s: nat, tail: Fraction, lo: int) {
    if s == 0 then lo == 0 else IsLargestWithin(n, s, tail, lo)
  }

  /** Both ends in units of 1/GRID. */
  datatype Ends = Ends(lower: int, upper: int)

  datatype CountError = BadCounts | BadProbability

  function Half(alpha: Fraction): Fraction { Fraction(alpha.num, 2 * alpha.den) }

  method ProportionInterval(successes: int, trials: int, alpha: Fraction) returns (r: Result<Ends, CountError>)
    requires 0 < alpha.den
    ensures r.Ok? <==> 0 <= successes <= trials && 0 < trials && 0 < alpha.num < alpha.den
    ensures r.Ok? ==>
      && IsLowerEnd(trials, successes, Half(alpha), r.value.lower)
      && IsLowerEnd(trials, trials - successes, Half(alpha), GRID - r.value.upper)
      && 0 <= r.value.lower <= r.value.upper <= GRID
  {
    if !(0 <= successes <= trials && trials > 0) { return Err(BadCounts); }
    if !(0 < alpha.num < alpha.den) { return Err(BadProbability); }
    var lower := BinomialLower(successes, trials, Half(alpha));
    var missing := BinomialLower(trials - successes, trials, Half(alpha));
    EndsOrdered(trials, successes, alpha, lower, missing);
    r := Ok(Ends(lower, GRID - missing));
  }

  /** A lower end in real terms: every smaller probability keeps the tail within the bound, and
      one grid step further up it is already exceeded. */
  lemma LowerEndBracketsExact(n: nat, s: nat, tail: Fraction, lo: int, p: real)
    requires 0 < s <= n && 0 < tail.den && IsLargestWithin(n, s, tail, lo) && 0.0 <= p <= 1.0
    ensures p <= lo as real / GRID as real ==> ChanceWithin(n, s, tail, p)
    ensures (lo + 1) as real / GRID as real <= p ==> !ChanceWithin(n, s, tail, p)
  {
    var g := GRID as real;
    WithinIsChance(n, s, tail, lo);
    WithinIsChance(n, s, tail, lo + 1);
    assert Within(n, s, tail, lo) && !Within(n, s, tail, lo + 1);
    if p <= lo as real / g {
      ChanceMonotone(n, s, tail, p, lo as real / g);
    }
    if (lo + 1) as real / g <= p && ChanceWithin(n, s, tail, p) {
      ChanceMonotone(n, s, tail, (lo + 1) as real / g, p);
    }
  }

  /** More successes never lower the lower end; the upper end follows by symmetry. */
  lemma LowerEndMonotone(n: nat, s: nat, s': nat, tail: Fraction, lo: int, lo': int)
    requires s <= s' <= n && 0 < tail.den
    requires IsLowerEnd(n, s, tail, lo) && IsLowerEnd(n, s', tail, lo')
    ensures lo <= lo'
  {
    if s > 0 {
      assert Within(n, s, tail, lo);
      var p := lo as real / GRID as real;
      WithinIsChance(n, s, tail, lo);
      WithinIsChance(n, s', tail, lo);
      TailFalls(n, s, s', p, 1.0 - p);
    }
  }

  lemma EndsMonotone(n: nat, s: nat, s': nat, alpha: Fraction, e: Ends, e': Ends)
    requires s <= s' <= n && 0 < alpha.den
    requires IsLowerEnd(n, s, Half(alpha), e.lower) && IsLowerEnd(n, n - s, Half(alpha), GRID - e.upper)
    requires IsLowerEnd(n, s', Half(alpha), e'.lower) && IsLowerEnd(n, n - s', Half(alpha), GRID - e'.upper)
    ensures e.lower <= e'.lower && e.upper <= e'.upper
  {
    LowerEndMonotone(n, s, s', Half(alpha), e.lower, e'.lower);
    LowerEndMonotone(n, n - s', n - s, Half(alpha), GRID - e'.upper, GRID - e.upper);
  }

  lemma HalfBound(alpha: Fraction, x: real)
    requires 0 < alpha.den
    ensures x <= Half(alpha).num as real / Half(alpha).den as real <==> 2.0 * x <= alpha.num as real / alpha.den as real
  {
    var a, b := alpha.num as real, alpha.den as real;
    assert a / (2.0 * b) * 2.0 == a / b by {
      assert a / (2.0 * b) * (2.0 * b) == a;
      assert a / b * b == a;
    }
  }

  /** The two one-sided ends do not cross: both tails together leave room for a total below one. */
  lemma EndsOrdered(n: nat, s: nat, alpha: Fraction, lower: int, missing: int)
    requires s <= n && 0 < alpha.num < alpha.den
    requires IsLowerEnd(n, s, Half(alpha), lower) && IsLowerEnd(n, n - s, Half(alpha), missing)
    ensures lower + missing <= GRID
  {
    if 0 < s < n && GRID < lower + missing {
      var g := GRID as real;
      var p, q := lower as real / g, (GRID - lower) as real / g;
      assert q == 1.0 - p;
      assert Within(n, s, Half(alpha), lower) && Within(n, n - s, Half(alpha), missing);
      WithinMonotone(n, n - s, Half(alpha), GRID - lower, missing);
      WithinIsChance(n, s, Half(alpha), lower);
      WithinIsChance(n, n - s, Half(alpha), GRID - lower);
      TailSymmetry(n, s, p, q);
      RPowOne(n);
      TailFalls(n, n - s, n + 1 - s, q, p);
      HalfBound(alpha, Tail(n, s, p, 1.0 - p));
      HalfBound(alpha, Tail(n, n - s, q, 1.0 - q));
      assert 1.0 - q == p;
      BelowOne(alpha);
    }
  }

  lemma BelowOne(alpha: Fraction)
    requires 0 < alpha.num < alpha.den
    ensures alpha.num as real / alpha.den as real < 1.0
  {
  }

  /// ------------------------------------------------------------ coverage

  /** Chance of a count of at least s whose lower end lies above p. */
  function MissedLow(n: nat, s: nat, lows: seq<int>, p: real): real
    requires |lows| == n + 1
    decreases n + 1 - s
  {
    if s > n then 0.0
    else (if p * GRID as real < lows[s] as real then Mass(n, s, p, 1.0 - p) else 0.0) + MissedLow(n, s + 1, lows, p)
  }

  /** Chance of a count below s whose upper end, the mirrored lower end, lies below p. */
  function MissedHigh(n: nat, s: nat, lows: seq<int>, p: real): real
    requires |lows| == n + 1 && s <= n + 1
  {
    if s == 0 then 0.0
    else (if (1.0 - p) * GRID as real < lows[n + 1 - s] as real then Mass(n, s - 1, p, 1.0 - p) else 0.0)
         + MissedHigh(n, s - 1, lows, p)
  }

  ghost predicate AreLowerEnds(n: nat, tail: Fraction, lows: seq<int>) {
    |lows| == n + 1 && forall s: nat :: s <= n ==> IsLowerEnd(n, s, tail, lows[s])
  }

  lemma {:induction false} MissedLowBelowTail(n: nat, s: nat, lows: seq<int>, p: real)
    requires |lows| == n + 1 && 0.0 <= p <= 1.0
    ensures MissedLow(n, s, lows, p) <= Tail(n, s, p, 1.0 - p)
    decreases n + 1 - s
  {
    if s > n {
      TailBeyond(n, s, p, 1.0 - p);
    } else {
      MissedLowBelowTail(n, s + 1, lows, p);
      TailPeel(n, s, p, 1.0 - p);
      MassNonNegative(n, s, p, 1.0 - p);
    }
  }

  lemma BelowEndIsWithin(n: nat, s: nat, tail: Fraction, lows: seq<int>, p: real)
    requires AreLowerEnds(n, tail, lows) && 0 < tail.den && s <= n && 0.0 <= p <= 1.0
    requires p * GRID as real < lows[s] as real
    ensures ChanceWithin(n, s, tail, p)
  {
    assert IsLowerEnd(n, s, tail, lows[s]);
    assert 0 < s;
    var e := lows[s] as real / GRID as real;
    assert e * GRID as real == lows[s] as real;
    assert p <= e;
    LowerEndBracketsExact(n, s, tail, lows[s], p);
  }

  lemma {:induction false} MissedLowBound(n: nat, s: nat, tail: Fraction, lows: seq<int>, p: real)
    requires AreLowerEnds(n, tail, lows) && 0 <= tail.num && 0 < tail.den && 0.0 <= p <= 1.0
    ensures MissedLow(n, s, lows, p) <= tail.num as real / tail.den as real
    decreases n + 1 - s
  {
    if s <= n {
      if p * GRID as real < lows[s] as real {
        BelowEndIsWithin(n, s, tail, lows, p);
        MissedLowBelowTail(n, s, lows, p);
      } else {
        MissedLowBound(n, s + 1, tail, lows, p);
      }
    }
  }

  lemma {:induction false} MissedHighBelowTail(n: nat, s: nat, lows: seq<int>, p: real)
    requires |lows| == n + 1 && s <= n + 1 && 0.0 <= p <= 1.0
    ensures MissedHigh(n, s, lows, p) <= Tail(n, n + 1 - s, 1.0 - p, p)
  {
    LowerSum(n, s, p);
    if s > 0 {
      MissedHighBelowTail(n, s - 1, lows, p);
      LowerSum(n, s - 1, p);
      TailPeel(n, s - 1, p, 1.0 - p);
      MassNonNegative(n, s - 1, p, 1.0 - p);
    } else {
      TailBeyond(n, n + 1, 1.0 - p, p);
    }
  }

  lemma LowerSum(n: nat, s: nat, p: real)
    requires s <= n + 1
    ensures Tail(n, n + 1 - s, 1.0 - p, p) == 1.0 - Tail(n, s, p, 1.0 - p)
  {
    TailSymmetry(n, s, p, 1.0 - p);
    RPowOne(n);
  }

  lemma {:induction false} MissedHighBound(n: nat, s: nat, tail: Fraction, lows: seq<int>, p: real)
    requires AreLowerEnds(n, tail, lows) && 0 <= tail.num && 0 < tail.den && s <= n + 1 && 0.0 <= p <= 1.0
    ensures MissedHigh(n, s, lows, p) <= tail.num as real / tail.den as real
  {
    if s > 0 {
      if (1.0 - p) * GRID as real < lows[n + 1 - s] as real {
        BelowEndIsWithin(n, n + 1 - s, tail, lows, 1.0 - p);
        assert 1.0 - (1.0 - p) == p;
        MissedHighBelowTail(n, s, lows, p);
      } else {
        MissedHighBound(n, s - 1, tail, lows, p);
      }
    }
  }

  /** The confidence statement: whatever the true proportion, the chance of a count whose interval
      misses it is at most alpha. Outward rounding to the grid has not cost any coverage. */
  lemma Coverage(n: nat, alpha: Fraction, lows: seq<int>, p: real)
    requires 0 < alpha.num < alpha.den && AreLowerEnds(n, Half(alpha), lows) && 0.0 <= p <= 1.0
    ensures MissedLow(n, 0, lows, p) + MissedHigh(n, n + 1, lows, p) <= alpha.num as real / alpha.den as real
  {
    MissedLowBound(n, 0, Half(alpha), lows, p);
    MissedHighBound(n, n + 1, Half(alpha), lows, p);
    HalfBound(alpha, MissedLow(n, 0, lows, p));
    HalfBound(alpha, MissedHigh(n, n + 1, lows, p));
  }

  /** Chance of a count below s whose interval contains p. */
  function Covered(n: nat, s: nat, lows: seq<int>, p: real): real
    requires |lows| == n + 1 && s <= n + 1
  {
    if s == 0 then 0.0
    else
      var here := lows[s - 1] as real <= p * GRID as real <= (GRID - lows[n + 1 - s]) as real;
      (if here then Mass(n, s - 1, p, 1.0 - p) else 0.0) + Covered(n, s - 1, lows, p)
  }

  /** Every count is covered, or missed on one side. */
  lemma {:induction false} CoverageSplits(n: nat, s: nat, alpha: Fraction, lows: seq<int>, p: real)
    requires 0 < n && 0 < alpha.num < alpha.den && AreLowerEnds(n, Half(alpha), lows) && 0.0 <= p <= 1.0 && s <= n + 1
    ensures Covered(n, s, lows, p) + MissedHigh(n, s, lows, p) + MissedLow(n, 0, lows, p) - MissedLow(n, s, lows, p) ==
            1.0 - Tail(n, s, p, 1.0 - p)
  {
    if s == 0 {
      RPowOne(n);
    } else {
      CoverageSplits(n, s - 1, alpha, lows, p);
      TailPeel(n, s - 1, p, 1.0 - p);
      assert IsLowerEnd(n, s - 1, Half(alpha), lows[s - 1]) && IsLowerEnd(n, n + 1 - s, Half(alpha), lows[n + 1 - s]);
      EndsOrdered(n, s - 1, alpha, lows[s - 1], lows[n + 1 - s]);
    }
  }

  /** The confidence statement in its own words: the interval contains the true proportion with a chance
      of at least 1 - alpha. */
  lemma CoverageAtLeast(n: nat, alpha: Fraction, lows: seq<int>, p: real)
    requires 0 < n && 0 < alpha.num < alpha.den && AreLowerEnds(n, Half(alpha), lows) && 0.0 <= p <= 1.0
    ensures Covered(n, n + 1, lows, p) + MissedLow(n, 0, lows, p) + MissedHigh(n, n + 1, lows, p) == 1.0
    ensures Covered(n, n + 1, lows, p) >= 1.0 - alpha.Value()
  {
    CoverageSplits(n, n + 1, alpha, lows, p);
    TailBeyond(n, n + 1, p, 1.0 - p);
    Coverage(n, alpha, lows, p);
  }

  /// ------------------------------------------------------------ the interval in real terms

  /** The bound on either side is half of alpha. */
  lemma HalfIs(alpha: Fraction)
    requires 0 < alpha.den
    ensures 0 < Half(alpha).den && Half(alpha).Value() == alpha.Value() / 2.0
  {
    var x := alpha.Value();
    assert x * alpha.den as real == alpha.num as real;
    QuotientOf(x / 2.0, (2 * alpha.den) as real, alpha.num as real);
  }

  /** Both ends on the grid of 2^-32, in terms of chances. At the lower end and below it so many
      successes or more have a chance of at most alpha / 2, and one step above it a greater one; at the
      upper end and above it so many or fewer have a chance of at most alpha / 2, and one step below it
      a greater one. Without successes, or without failures, the end is that of the unit interval. */
  lemma EndsExact(successes: nat, trials: nat, alpha: Fraction, ends: Ends, p: real)
    requires successes <= trials && 0 < alpha.num < alpha.den && 0.0 <= p <= 1.0
    requires IsLowerEnd(trials, successes, Half(alpha), ends.lower)
    requires IsLowerEnd(trials, trials - successes, Half(alpha), GRID - ends.upper)
    ensures successes == 0 ==> ends.lower == 0
    ensures successes == trials ==> ends.upper == 4294967296
    ensures var orMore := Tail(trials, successes, p, 1.0 - p);
            successes > 0 ==>
              && (p <= ends.lower as real / 4294967296.0 ==> orMore <= alpha.Value() / 2.0)
              && (ends.lower as real / 4294967296.0 + 1.0 / 4294967296.0 <= p ==> orMore > alpha.Value() / 2.0)
    ensures var orFewer := 1.0 - Tail(trials, successes + 1, p, 1.0 - p);
            successes < trials ==>
              && (ends.upper as real / 4294967296.0 <= p ==> orFewer <= alpha.Value() / 2.0)
              && (p <= ends.upper as real / 4294967296.0 - 1.0 / 4294967296.0 ==> orFewer > alpha.Value() / 2.0)
  {
    HalfIs(alpha);
    if successes > 0 { LowerEndBracketsExact(trials, successes, Half(alpha), ends.lower, p); }
    if successes < trials {
      LowerEndBracketsExact(trials, trials - successes, Half(alpha), GRID - ends.upper, 1.0 - p);
      LowerSum(trials, successes + 1, p);
      assert 1.0 - (1.0 - p) == p;
    }
  }
}
