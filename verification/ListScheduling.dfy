/** List scheduling of weighted jobs on identical machines: what least-loaded placement guarantees
    against every other assignment, and the sharper bound when jobs come heaviest first. */
module ListScheduling {
  import opened Products
  import opened Sequences

  /** Load of machine j when job i goes to machine a[i]. */
  function Load(w: seq<nat>, a: seq<nat>, j: nat): nat
    requires |w| == |a|
  {
    if w == [] then 0
    else Load(w[..|w|-1], a[..|a|-1], j) + if a[|a|-1] == j then w[|w|-1] else 0
  }

  /** Every job has one of the machines 0 to m-1. */
  predicate Assigns(a: seq<nat>, m: nat) {
    forall i :: 0 <= i < |a| ==> a[i] < m
  }

  /** Machine c has the least load. */
  ghost predicate IsLeast(w: seq<nat>, a: seq<nat>, m: nat, c: nat)
    requires |w| == |a|
  {
    forall j :: 0 <= j < m ==> Load(w, a, c) <= Load(w, a, j)
  }

  /** Each job went to a machine that was least loaded at that moment. */
  ghost predicate LeastLoaded(w: seq<nat>, a: seq<nat>, m: nat)
    requires |w| == |a|
  {
    Assigns(a, m) && forall k :: 0 <= k < |w| ==> IsLeast(w[..k], a[..k], m, a[k])
  }

  function SumLoads(w: seq<nat>, a: seq<nat>, m: nat): nat
    requires |w| == |a|
  {
    if m == 0 then 0 else SumLoads(w, a, m - 1) + Load(w, a, m - 1)
  }

  lemma {:induction false} NoJobs(m: nat)
    ensures SumLoads([], [], m) == 0
  {
    if m > 0 { NoJobs(m - 1); }
  }

  lemma {:induction false} OneJobMore(w: seq<nat>, a: seq<nat>, m: nat)
    requires |w| == |a| > 0
    ensures SumLoads(w, a, m) ==
            SumLoads(w[..|w|-1], a[..|a|-1], m) + if a[|a|-1] < m then w[|w|-1] else 0
  {
    if m > 0 { OneJobMore(w, a, m - 1); }
  }

  /** The loads of all machines add up to the weight of all jobs. */
  lemma {:induction false} SumLoadsIsTotal(w: seq<nat>, a: seq<nat>, m: nat)
    requires |w| == |a| && Assigns(a, m)
    ensures SumLoads(w, a, m) == Total(w)
  {
    if w == [] {
      NoJobs(m);
    } else {
      OneJobMore(w, a, m);
      SumLoadsIsTotal(w[..|w|-1], a[..|a|-1], m);
    }
  }

  ghost predicate AllLoadsAtMost(w: seq<nat>, a: seq<nat>, m: nat, bound: nat)
    requires |w| == |a|
  {
    forall j :: 0 <= j < m ==> Load(w, a, j) <= bound
  }

  ghost predicate AllLoadsAtLeast(w: seq<nat>, a: seq<nat>, m: nat, bound: nat)
    requires |w| == |a|
  {
    forall j :: 0 <= j < m ==> bound <= Load(w, a, j)
  }

  lemma {:induction false} SumAtMost(w: seq<nat>, a: seq<nat>, m: nat, bound: nat)
    requires |w| == |a| && AllLoadsAtMost(w, a, m, bound)
    ensures SumLoads(w, a, m) <= m * bound
  {
    if m > 0 {
      SumAtMost(w, a, m - 1, bound);
      assert m * bound == (m - 1) * bound + bound;
    }
  }

  lemma {:induction false} SumAtLeast(w: seq<nat>, a: seq<nat>, m: nat, bound: nat)
    requires |w| == |a| && AllLoadsAtLeast(w, a, m, bound)
    ensures m * bound <= SumLoads(w, a, m)
  {
    if m > 0 {
      SumAtLeast(w, a, m - 1, bound);
      assert m * bound == (m - 1) * bound + bound;
    }
  }

  lemma {:induction false} TotalPrefix(w: seq<nat>, k: nat)
    requires k < |w|
    ensures Total(w[..k]) + w[k] <= Total(w)
  {
    var front := w[..|w|-1];
    if k < |front| {
      TotalPrefix(front, k);
      assert front[..k] == w[..k];
    }
  }

  /** The last job of machine j, and the load it found there. */
  lemma {:induction false} LastJob(w: seq<nat>, a: seq<nat>, j: nat) returns (k: nat)
    requires |w| == |a| && Load(w, a, j) > 0
    ensures k < |w| && a[k] == j && Load(w, a, j) == Load(w[..k], a[..k], j) + w[k]
  {
    var n := |w| - 1;
    if a[n] == j {
      k := n;
    } else {
      k := LastJob(w[..n], a[..n], j);
      assert w[..n][..k] == w[..k] && a[..n][..k] == a[..k];
    }
  }

  /** The load of a machine against the average: only its last job can push it above. */
  lemma LoadBound(w: seq<nat>, a: seq<nat>, m: nat, j: nat) returns (k: nat)
    requires |w| == |a| && LeastLoaded(w, a, m) && j < m && Load(w, a, j) > 0
    ensures k < |w| && a[k] == j && Load(w, a, j) == Load(w[..k], a[..k], j) + w[k]
    ensures m * Load(w, a, j) <= Total(w) + (m - 1) * w[k]
  {
    k := LastJob(w, a, j);
    var before := Load(w[..k], a[..k], j);
    forall i | 0 <= i < m ensures before <= Load(w[..k], a[..k], i) {
      assert a[k] == j;
    }
    SumAtLeast(w[..k], a[..k], m, before);
    SumLoadsIsTotal(w[..k], a[..k], m);
    TotalPrefix(w, k);
    Average(m, before, w[k], Total(w));
  }

  lemma Average(m: nat, before: nat, last: nat, total: nat)
    requires m * before + last <= total && 0 < m
    ensures m * (before + last) <= total + (m - 1) * last
  {
    assert m * (before + last) == m * before + last + (m - 1) * last;
  }

  ghost predicate AtMost(w: seq<nat>, bound: nat) {
    forall i :: 0 <= i < |w| ==> w[i] <= bound
  }

  /** No two loads differ by more than the largest weight. */
  lemma {:induction false} Spread(w: seq<nat>, a: seq<nat>, m: nat, heaviest: nat, i: nat, j: nat)
    requires |w| == |a| && LeastLoaded(w, a, m) && AtMost(w, heaviest) && i < m && j < m
    ensures Load(w, a, i) <= Load(w, a, j) + heaviest
  {
    if w != [] {
      var n := |w| - 1;
      PrefixLeastLoaded(w, a, m, n);
      Spread(w[..n], a[..n], m, heaviest, i, j);
      assert Load(w[..n], a[..n], a[n]) <= Load(w[..n], a[..n], j);
    }
  }

  lemma PrefixLeastLoaded(w: seq<nat>, a: seq<nat>, m: nat, n: nat)
    requires |w| == |a| && LeastLoaded(w, a, m) && n <= |w|
    ensures LeastLoaded(w[..n], a[..n], m)
  {
    forall k | 0 <= k < n ensures IsLeast(w[..n][..k], a[..n][..k], m, a[..n][k]) {
      assert w[..n][..k] == w[..k] && a[..n][..k] == a[..k];
    }
  }

  /// ---------------------------------------------------------------- against another assignment

  lemma OptimumBounds(w: seq<nat>, b: seq<nat>, m: nat, best: nat, k: nat)
    requires |w| == |b| && Assigns(b, m) && AllLoadsAtMost(w, b, m, best)
    ensures Total(w) <= m * best
    ensures k < |w| ==> w[k] <= best
  {
    SumAtMost(w, b, m, best);
    SumLoadsIsTotal(w, b, m);
    if k < |w| { JobWithinLoad(w, b, k); }
  }

  lemma {:induction false} JobWithinLoad(w: seq<nat>, a: seq<nat>, k: nat)
    requires |w| == |a| && k < |w|
    ensures Load(w[..k+1], a[..k+1], a[k]) <= Load(w, a, a[k])
    ensures w[k] <= Load(w, a, a[k])
  {
    var n := |w| - 1;
    if k < n {
      JobWithinLoad(w[..n], a[..n], k);
      assert w[..n][..k+1] == w[..k+1] && a[..n][..k+1] == a[..k+1];
    } else {
      assert w[..k+1] == w && a[..k+1] == a;
    }
  }

  /** Least-loaded placement in any order: within 2 - 1/m of every assignment. */
  lemma WithinTwice(w: seq<nat>, a: seq<nat>, b: seq<nat>, m: nat, best: nat, j: nat)
    requires |w| == |a| == |b| && LeastLoaded(w, a, m) && j < m
    requires Assigns(b, m) && AllLoadsAtMost(w, b, m, best)
    ensures m * Load(w, a, j) <= (2 * m - 1) * best
  {
    if Load(w, a, j) > 0 {
      var k := LoadBound(w, a, m, j);
      OptimumBounds(w, b, m, best, k);
      HeavyLast(m, Load(w, a, j), Total(w), w[k], best);
    }
  }

  lemma HeavyLast(m: nat, load: nat, total: nat, last: nat, best: nat)
    requires 0 < m && m * load <= total + (m - 1) * last && total <= m * best && last <= best
    ensures m * load <= (2 * m - 1) * best
  {
    MulMono(m - 1, last, best);
    assert m * best + (m - 1) * best == (2 * m - 1) * best;
  }

  /** Heaviest first. */
  predicate Descending(w: seq<nat>) {
    forall i, k :: 0 <= i < k < |w| ==> w[k] <= w[i]
  }

  /** Heaviest first, least-loaded placement is within 4/3 - 1/(3m) of every assignment. */
  lemma WithinFourThirds(w: seq<nat>, a: seq<nat>, b: seq<nat>, m: nat, best: nat, j: nat)
    requires |w| == |a| == |b| && LeastLoaded(w, a, m) && Descending(w) && j < m
    requires Assigns(b, m) && AllLoadsAtMost(w, b, m, best)
    ensures 3 * m * Load(w, a, j) <= (4 * m - 1) * best
  {
    if Load(w, a, j) > 0 {
      var k := LoadBound(w, a, m, j);
      OptimumBounds(w, b, m, best, k);
      if 3 * w[k] <= best {
        MulMono(m - 1, 3 * w[k], best);
        LightLast(m, Load(w, a, j), Total(w), w[k], best);
      } else {
        HeavyFits(w, a, b, m, best, k + 1, w[k]);
        assert Load(w[..k+1], a[..k+1], j) == Load(w, a, j) by {
          assert w[..k+1][..k] == w[..k] && a[..k+1][..k] == a[..k];
        }
        WithinBest(m, Load(w, a, j), best);
      }
    }
  }

  /// ---------------------------------------------------------------- heavy jobs fit

  function Ones(n: nat): seq<nat> { seq(n, _ => 1 as nat) }

  /** How many jobs a machine has. */
  function Count(a: seq<nat>, j: nat): nat { Load(Ones(|a|), a, j) }

  lemma OnesPrefix(n: nat)
    requires 0 < n
    ensures Ones(n)[..n-1] == Ones(n - 1)
  {
  }

  lemma {:induction false} NoJobNoLoad(w: seq<nat>, a: seq<nat>, j: nat)
    requires |w| == |a|
    ensures Count(a, j) == 0 ==> Load(w, a, j) == 0
  {
    if w != [] {
      OnesPrefix(|a|);
      NoJobNoLoad(w[..|w|-1], a[..|a|-1], j);
    }
  }

  /** The only job of a machine is its load. */
  lemma {:induction false} OnlyJob(w: seq<nat>, a: seq<nat>, i: nat)
    requires |w| == |a| && i < |a| && Count(a, a[i]) == 1
    ensures Load(w, a, a[i]) == w[i]
  {
    var n := |a| - 1;
    OnesPrefix(|a|);
    if i == n {
      NoJobNoLoad(w[..n], a[..n], a[i]);
    } else {
      SomeJob(a[..n], i);
      OnlyJob(w[..n], a[..n], i);
    }
  }

  lemma {:induction false} SomeJob(a: seq<nat>, i: nat)
    requires i < |a|
    ensures 1 <= Count(a, a[i])
  {
    OnesPrefix(|a|);
    if i < |a| - 1 { SomeJob(a[..|a|-1], i); }
  }

  lemma {:induction false} JobOf(a: seq<nat>, j: nat) returns (i: nat)
    requires 0 < Count(a, j)
    ensures i < |a| && a[i] == j
  {
    OnesPrefix(|a|);
    if a[|a|-1] == j { i := |a| - 1; } else { i := JobOf(a[..|a|-1], j); }
  }

  lemma {:induction false} CountWithinLoad(v: seq<nat>, a: seq<nat>, j: nat)
    requires |v| == |a| && forall i :: 0 <= i < |v| ==> 1 <= v[i]
    ensures Count(a, j) <= Load(v, a, j)
  {
    if v != [] {
      OnesPrefix(|a|);
      CountWithinLoad(v[..|v|-1], a[..|a|-1], j);
    }
  }

  /** A job that has a machine to itself counts double. */
  function Doubled(a: seq<nat>): (v: seq<nat>)
    ensures |v| == |a| && forall i :: 0 <= i < |a| ==> v[i] == if Count(a, a[i]) == 1 then 2 else 1
  {
    seq(|a|, i requires 0 <= i < |a| => if Count(a, a[i]) == 1 then 2 else 1)
  }

  lemma TwoOnEach(w: seq<nat>, a: seq<nat>, j: nat)
    requires |w| == |a| && 0 < Load(w, a, j)
    ensures 2 <= Load(Doubled(a), a, j)
  {
    NoJobNoLoad(w, a, j);
    CountWithinLoad(Doubled(a), a, j);
    if Count(a, j) == 1 {
      var i := JobOf(a, j);
      OnlyJob(Doubled(a), a, i);
    }
  }

  /** The least load that doubled counts of 0, 1, 2 or more stand for, when every job weighs at
      least unit, and a job counted twice does not fit beside another one. */
  function Floor(count: nat, unit: nat, best: nat): nat
    requires unit <= best
  {
    if count == 0 then 0
    else if count == 1 then unit
    else if count == 2 then Min(2 * unit, Max(unit, best - unit + 1))
    else best + 1
  }

  lemma {:induction false} CountWeighs(w: seq<nat>, v: seq<nat>, b: seq<nat>, j: nat, unit: nat, best: nat)
    requires |w| == |v| == |b| && unit <= best < 3 * unit
    requires forall i :: 0 <= i < |w| ==> unit <= w[i] && (v[i] == 1 || (v[i] == 2 && best < w[i] + unit))
    ensures Floor(Load(v, b, j), unit, best) <= Load(w, b, j)
  {
    if w != [] {
      var n := |w| - 1;
      CountWeighs(w[..n], v[..n], b[..n], j, unit, best);
    }
  }

  /** The last of these jobs fits where it is put: otherwise the machines would hold, single jobs
      counted twice, two jobs each, and the other assignment would have to hold one more. */
  lemma LastFits(w: seq<nat>, a: seq<nat>, b: seq<nat>, m: nat, best: nat, unit: nat, k: nat)
    requires |w| == |a| == |b| == k + 1 && LeastLoaded(w, a, m) && Assigns(b, m) && AllLoadsAtMost(w, b, m, best)
    requires unit == w[k] && best < 3 * unit && forall i :: 0 <= i <= k ==> unit <= w[i]
    ensures Load(w[..k], a[..k], a[k]) + unit <= best
  {
    OptimumBounds(w, b, m, best, k);
    if best < Load(w[..k], a[..k], a[k]) + unit {
      var v := Doubled(a[..k]);
      forall j | 0 <= j < m ensures 2 <= Load(v, a[..k], j) {
        assert Load(w[..k], a[..k], a[k]) <= Load(w[..k], a[..k], j);
        TwoOnEach(w[..k], a[..k], j);
      }
      SumAtLeast(v, a[..k], m, 2);
      SumLoadsIsTotal(v, a[..k], m);
      TwoAtMost(w, a, b, m, best, unit, k);
    }
  }

  lemma TwoAtMost(w: seq<nat>, a: seq<nat>, b: seq<nat>, m: nat, best: nat, unit: nat, k: nat)
    requires |w| == |a| == |b| == k + 1 && LeastLoaded(w, a, m) && Assigns(b, m) && AllLoadsAtMost(w, b, m, best)
    requires unit == w[k] <= best < 3 * unit && forall i :: 0 <= i <= k ==> unit <= w[i]
    requires best < Load(w[..k], a[..k], a[k]) + unit
    ensures Total(Doubled(a[..k])) + 1 <= m * 2
  {
    var v := Doubled(a[..k]) + [1];
    forall i | 0 <= i <= k ensures v[i] == 1 || (v[i] == 2 && best < w[i] + unit) {
      if i < k && v[i] == 2 {
        OnlyJob(w[..k], a[..k], i);
        assert Load(w[..k], a[..k], a[k]) <= Load(w[..k], a[..k], a[i]);
      }
    }
    forall j | 0 <= j < m ensures Load(v, b, j) <= 2 {
      CountWeighs(w, v, b, j, unit, best);
    }
    SumAtMost(v, b, m, 2);
    SumLoadsIsTotal(v, b, m);
    assert v[..k] == Doubled(a[..k]);
  }

  /** As long as no job is lighter than a third of what the other assignment reaches, all loads
      stay within it. */
  lemma {:induction false} HeavyFits(w: seq<nat>, a: seq<nat>, b: seq<nat>, m: nat, best: nat, n: nat, unit: nat)
    requires |w| == |a| == |b| && n <= |w| && LeastLoaded(w, a, m) && Descending(w)
    requires Assigns(b, m) && AllLoadsAtMost(w, b, m, best)
    requires best < 3 * unit && forall i :: 0 <= i < n ==> unit <= w[i]
    ensures AllLoadsAtMost(w[..n], a[..n], m, best)
    decreases n
  {
    if n > 0 {
      var k := n - 1;
      HeavyFits(w, a, b, m, best, k, unit);
      PrefixLeastLoaded(w, a, m, n);
      PrefixLoads(w, b, m, best, n);
      assert w[..n][..k] == w[..k] && a[..n][..k] == a[..k];
      LastFits(w[..n], a[..n], b[..n], m, best, w[k], k);
    }
  }

  lemma PrefixLoads(w: seq<nat>, b: seq<nat>, m: nat, best: nat, n: nat)
    requires |w| == |b| && n <= |w| && Assigns(b, m) && AllLoadsAtMost(w, b, m, best)
    ensures Assigns(b[..n], m) && AllLoadsAtMost(w[..n], b[..n], m, best)
  {
    forall j | 0 <= j < m ensures Load(w[..n], b[..n], j) <= best {
      LoadGrows(w, b, j, n);
    }
  }

  lemma {:induction false} LoadGrows(w: seq<nat>, a: seq<nat>, j: nat, n: nat)
    requires |w| == |a| && n <= |w|
    ensures Load(w[..n], a[..n], j) <= Load(w, a, j)
  {
    if n < |w| {
      LoadGrows(w[..|w|-1], a[..|a|-1], j, n);
      assert w[..|w|-1][..n] == w[..n] && a[..|a|-1][..n] == a[..n];
    } else {
      assert w[..n] == w && a[..n] == a;
    }
  }

  /// ---------------------------------------------------------------- no idle machine

  /** With jobs enough to go round and no weightless job, no machine stays idle. */
  lemma NoneIdle(w: seq<nat>, a: seq<nat>, m: nat, j: nat)
    requires |w| == |a| && LeastLoaded(w, a, m) && m <= |w| && j < m
    requires forall i :: 0 <= i < |w| ==> 0 < w[i]
    ensures 0 < Count(a, j)
  {
    FirstGoAlone(w, a, m, m);
    if Count(a[..m], j) == 0 { OneMissing(a[..m], m, j); }
    OnesOf(|a|, m);
    LoadGrows(Ones(|a|), a, j, m);
  }

  lemma OnesOf(n: nat, k: nat)
    requires k <= n
    ensures Ones(n)[..k] == Ones(k)
  {
  }

  lemma {:induction false} TotalOnes(n: nat)
    ensures Total(Ones(n)) == n
  {
    if n > 0 {
      OnesPrefix(n);
      TotalOnes(n - 1);
    }
  }

  ghost predicate AtMostOneEach(a: seq<nat>, m: nat) {
    forall j :: 0 <= j < m ==> Count(a, j) <= 1
  }

  /** The first m jobs all go to different machines. */
  lemma {:induction false} FirstGoAlone(w: seq<nat>, a: seq<nat>, m: nat, n: nat)
    requires |w| == |a| && LeastLoaded(w, a, m) && n <= m && n <= |w|
    requires forall i :: 0 <= i < |w| ==> 0 < w[i]
    ensures AtMostOneEach(a[..n], m)
    decreases n
  {
    OnesOf(|a|, n);
    if n > 0 {
      var k := n - 1;
      FirstGoAlone(w, a, m, k);
      var idle := SomeIdle(a[..k], m);
      NoJobNoLoad(w[..k], a[..k], idle);
      assert Load(w[..k], a[..k], a[k]) <= Load(w[..k], a[..k], idle);
      CountWithinLoad(w[..k], a[..k], a[k]);
      OnesPrefix(n);
      assert a[..n][..k] == a[..k];
      forall j | 0 <= j < m ensures Count(a[..n], j) <= 1 {
        assert Count(a[..k], j) <= 1;
      }
    }
  }

  lemma SomeIdle(a: seq<nat>, m: nat) returns (j: nat)
    requires Assigns(a, m) && |a| < m
    ensures j < m && Count(a, j) == 0
  {
    if forall j :: 0 <= j < m ==> 1 <= Count(a, j) {
      forall j | 0 <= j < m ensures 1 <= Load(Ones(|a|), a, j) {
        assert 1 <= Count(a, j);
      }
      SumAtLeast(Ones(|a|), a, m, 1);
      SumLoadsIsTotal(Ones(|a|), a, m);
      TotalOnes(|a|);
    }
    j :| 0 <= j < m && Count(a, j) == 0;
  }

  lemma {:induction false} OneIdleSum(a: seq<nat>, m: nat, j: nat)
    requires AtMostOneEach(a, m) && j < m && Count(a, j) == 0
    ensures SumLoads(Ones(|a|), a, m) <= m - 1
    decreases m
  {
    assert Count(a, m - 1) <= 1;
    if j < m - 1 {
      OneIdleSum(a, m - 1, j);
    } else {
      forall j | 0 <= j < m - 1 ensures Load(Ones(|a|), a, j) <= 1 {
        assert Count(a, j) <= 1;
      }
      SumAtMost(Ones(|a|), a, m - 1, 1);
    }
  }

  lemma OneMissing(a: seq<nat>, m: nat, j: nat)
    requires Assigns(a, m) && AtMostOneEach(a, m) && j < m && Count(a, j) == 0
    ensures |a| < m
  {
    OneIdleSum(a, m, j);
    SumLoadsIsTotal(Ones(|a|), a, m);
    TotalOnes(|a|);
  }

  lemma WithinBest(m: nat, load: nat, best: nat)
    requires 0 < m && load <= best
    ensures 3 * m * load <= (4 * m - 1) * best
  {
    MulMono(3 * m, load, best);
    assert (4 * m - 1) * best == 3 * m * best + (m - 1) * best;
  }

  lemma LightLast(m: nat, load: nat, total: nat, last: nat, best: nat)
    requires 0 < m && m * load <= total + (m - 1) * last && total <= m * best && (m - 1) * (3 * last) <= (m - 1) * best
    ensures 3 * m * load <= (4 * m - 1) * best
  {
    assert 3 * (m * load) <= 3 * (m * best) + (m - 1) * (3 * last);
    assert 3 * (m * best) + (m - 1) * best == (4 * m - 1) * best;
    assert 3 * m * load == 3 * (m * load);
  }
}
