/** The monotone two-pointer scan that argues that no pair of luminance intervals
    is left undecided by a contrast threshold. */
module Q55Scan {
  import opened Products
  import opened Results
  import opened Q55Interval
  import opened FiniteSets

  function Lo(packed: nat): nat { Unpack(packed).lower }

  function Hi(packed: nat): int { Unpack(packed).upper }

  predicate Sorted(xs: seq<nat>) {
    forall i, k :: 0 <= i < k < |xs| ==> xs[i] <= xs[k]
  }

  predicate WidthsWithin(xs: seq<nat>, maxWidth: nat) {
    forall i :: 0 <= i < |xs| ==> Unpack(xs[i]).Width() <= maxWidth
  }

  /// Floor of a quotient by a positive divisor, and the ceiling built from it.
  function FloorDiv(n: int, d: int): (q: int)
    requires 0 < d
    ensures d * q <= n < d * q + d
  {
    n / d
  }

  function CeilDiv(n: int, d: int): (q: int)
    requires 0 < d
    ensures d * q - d < n <= d * q
  {
    -FloorDiv(-n, d)
  }

  /** The least numerator whose light-fold reaches dark times x plus the offset. */
  function LowerEdge(light: int, dark: int, x: int, offset: int): int
    requires 0 < light
  {
    CeilDiv(dark * x + offset, light)
  }

  function UpperEdge(light: int, dark: int, x: int, offset: int): int
    requires 0 < light
  {
    FloorDiv(dark * x + offset - 1, light)
  }

  function BandLower(darker: nat, maxWidth: nat, t: Threshold): int
    requires t.Usable()
  {
    LowerEdge(t.light, t.dark, Lo(darker), t.offset * Q) - maxWidth
  }

  function BandUpper(darker: nat, maxWidth: nat, t: Threshold): int
    requires t.Usable()
  {
    UpperEdge(t.light, t.dark, Lo(darker) + maxWidth, t.offset * Q)
  }

  /** The band is exactly what the widths leave open: with every interval as wide as allowed, the lighter
      one reaches the law with its upper end and misses it with its lower end. */
  lemma BandIff(lighter: nat, darker: nat, maxWidth: nat, t: Threshold)
    requires t.Usable()
    ensures InBand(lighter, darker, maxWidth, t) <==>
            && t.dark * Lo(darker) + t.offset * Q <= t.light * (Lo(lighter) + maxWidth)
            && t.light * Lo(lighter) < t.dark * (Lo(darker) + maxWidth) + t.offset * Q
  {
    LowerEdgeIff(t.light, t.dark * Lo(darker) + t.offset * Q, Lo(lighter) + maxWidth);
    UpperEdgeIff(t.light, t.dark * (Lo(darker) + maxWidth) + t.offset * Q, Lo(lighter));
  }

  lemma LowerEdgeIff(light: int, right: int, x: int)
    requires 0 < light
    ensures CeilDiv(right, light) <= x <==> right <= light * x
  {
    var edge := CeilDiv(right, light);
    if edge <= x { MulMono(light, edge, x); } else { MulMono(light, x, edge - 1); }
  }

  lemma UpperEdgeIff(light: int, right: int, x: int)
    requires 0 < light
    ensures x <= FloorDiv(right - 1, light) <==> light * x < right
  {
    var edge := FloorDiv(right - 1, light);
    if x <= edge { MulMono(light, x, edge); } else { MulMono(light, edge + 1, x); }
  }

  lemma CeilDivMono(a: int, b: int, d: int)
    requires 0 < d && a <= b
    ensures CeilDiv(a, d) <= CeilDiv(b, d)
  {
    var x, y := CeilDiv(a, d), CeilDiv(b, d);
    if y < x { MulMono(d, y, x - 1); }
  }

  lemma FloorDivMono(a: int, b: int, d: int)
    requires 0 < d && a <= b
    ensures FloorDiv(a, d) <= FloorDiv(b, d)
  {
    var x, y := FloorDiv(a, d), FloorDiv(b, d);
    if y < x { MulMono(d, y + 1, x); }
  }

  /** Both band edges move right when the darker interval moves right. */
  lemma BandMonotone(d1: nat, d2: nat, maxWidth: nat, t: Threshold)
    requires t.Usable() && d1 <= d2
    ensures BandLower(d1, maxWidth, t) <= BandLower(d2, maxWidth, t)
    ensures BandUpper(d1, maxWidth, t) <= BandUpper(d2, maxWidth, t)
  {
    LoMonotone(d1, d2);
    EdgesMonotone(t.light, t.dark, Lo(d1), Lo(d2), t.offset * Q);
    EdgesMonotone(t.light, t.dark, Lo(d1) + maxWidth, Lo(d2) + maxWidth, t.offset * Q);
  }

  lemma LoMonotone(d1: nat, d2: nat)
    requires d1 <= d2
    ensures Lo(d1) <= Lo(d2)
  {
  }

  lemma EdgesMonotone(light: int, dark: int, x: int, y: int, offset: int)
    requires 0 < light && 0 <= dark && x <= y
    ensures LowerEdge(light, dark, x, offset) <= LowerEdge(light, dark, y, offset)
    ensures UpperEdge(light, dark, x, offset) <= UpperEdge(light, dark, y, offset)
  {
    MulMono(dark, x, y);
    CeilDivMono(dark * x + offset, dark * y + offset, light);
    FloorDivMono(dark * x + offset - 1, dark * y + offset - 1, light);
  }

  /** Everything below the band definitely fails as the lighter colour. */
  lemma BelowBandFails(l: nat, d: nat, maxWidth: nat, t: Threshold)
    requires t.Usable() && Unpack(l).Width() <= maxWidth
    requires Lo(l) < BandLower(d, maxWidth, t)
    ensures FailMargin(Unpack(l), Unpack(d), t) > 0
    ensures Orientation(Unpack(l), Unpack(d), t) == Fail
  {
    BelowBandMargin(t.light, t.dark, Hi(l), Lo(d), t.offset * Q);
    OrientationByMargins(Unpack(l), Unpack(d), t);
  }

  lemma BelowBandMargin(light: int, dark: int, upper: int, lower: int, offset: int)
    requires 0 < light && upper < LowerEdge(light, dark, lower, offset)
    ensures dark * lower + offset - light * upper > 0
  {
    MulMono(light, upper, LowerEdge(light, dark, lower, offset) - 1);
  }

  /** Everything above the band definitely passes as the lighter colour. */
  lemma AboveBandPasses(l: nat, d: nat, maxWidth: nat, t: Threshold)
    requires t.Usable() && Unpack(d).Width() <= maxWidth
    requires BandUpper(d, maxWidth, t) < Lo(l)
    ensures PassMargin(Unpack(l), Unpack(d), t) >= 0
    ensures Orientation(Unpack(l), Unpack(d), t) == Pass
  {
    AboveBandMargin(t.light, t.dark, Lo(l), Hi(d), Lo(d) + maxWidth, t.offset * Q);
    OrientationByMargins(Unpack(l), Unpack(d), t);
  }

  lemma AboveBandMargin(light: int, dark: int, lower: int, upper: int, cap: int, offset: int)
    requires 0 < light && 0 <= dark && upper <= cap && UpperEdge(light, dark, cap, offset) < lower
    ensures light * lower - (dark * upper + offset) >= 0
  {
    MulMono(light, UpperEdge(light, dark, cap, offset) + 1, lower);
    MulMono(dark, upper, cap);
  }

  /** The scan looks at a pair only when the lighter one is in the band of the darker one. */
  ghost predicate Covered(l: nat, d: nat, maxWidth: nat, t: Threshold)
    requires t.Usable()
  {
    || Lo(l) < BandLower(d, maxWidth, t)
    || BandUpper(d, maxWidth, t) < Lo(l)
    || Decided(l, d, t)
  }

  predicate Decided(l: nat, d: nat, t: Threshold) {
    PairDecision(Unpack(l), Unpack(d), t) != Unresolved
  }

  ghost predicate AllDecided(xs: seq<nat>, t: Threshold) {
    forall i, k :: 0 <= i < |xs| && 0 <= k < |xs| ==> Decided(xs[i], xs[k], t)
  }

  /** One orientation decides nothing by itself when it fails; the other orientation of
      the same pair is covered too, and that is what decides the pair. */
  lemma CoveredBothWaysDecides(a: nat, b: nat, maxWidth: nat, t: Threshold)
    requires t.Usable()
    requires Unpack(a).Width() <= maxWidth && Unpack(b).Width() <= maxWidth
    requires Covered(a, b, maxWidth, t) && Covered(b, a, maxWidth, t)
    ensures Decided(a, b, t)
  {
    if Lo(a) < BandLower(b, maxWidth, t) {
      BelowBandFails(a, b, maxWidth, t);
      if Lo(b) < BandLower(a, maxWidth, t) {
        BelowBandFails(b, a, maxWidth, t);
      } else if BandUpper(a, maxWidth, t) < Lo(b) {
        AboveBandPasses(b, a, maxWidth, t);
      }
    } else if BandUpper(b, maxWidth, t) < Lo(a) {
      AboveBandPasses(a, b, maxWidth, t);
    }
  }

  /** A margin together with the packed pair that attains it. */
  datatype Best = Best(margin: int, lighter: nat, darker: nat)

  datatype ScanResult =
    | UnresolvedPair(lighter: nat, darker: nat)
    | NoPassMargin
    | NoFailMargin
    | Report(checks: nat, pass: Best, fail: Best)

  function Improve(best: Option<Best>, candidate: Best): Option<Best> {
    if best == None || candidate.margin < best.value.margin then Some(candidate) else best
  }

  /** The recorded margin, if any, belongs to a pair of the array with that verdict. */
  ghost predicate Witnessed(xs: seq<nat>, best: Option<Best>, v: Verdict, t: Threshold) {
    best.Some? ==>
      && best.value.lighter in xs && best.value.darker in xs
      && DecisionMargin(Unpack(best.value.lighter), Unpack(best.value.darker), t) == Some((v, best.value.margin))
  }

  /** A recorded failing pair has its lighter member in the band, or next to it from below. */
  ghost predicate NearBand(xs: seq<nat>, best: Option<Best>, maxWidth: nat, t: Threshold)
    requires t.Usable()
  {
    best.Some? ==> exists i :: AtBand(xs, i, best.value.lighter, best.value.darker, maxWidth, t)
  }

  predicate AtBand(xs: seq<nat>, i: int, lighter: nat, darker: nat, maxWidth: nat, t: Threshold)
    requires t.Usable()
  {
    && 0 <= i < |xs| && xs[i] == lighter
    && (i + 1 < |xs| && Lo(xs[i+1]) < BandLower(darker, maxWidth, t) ==> BandLower(darker, maxWidth, t) <= Lo(lighter))
  }

  predicate AtMost(best: Option<Best>, margin: int) {
    best.Some? && best.value.margin <= margin
  }

  /** Every passing pair whose darker member is among the first n has at least the recorded margin. */
  ghost predicate LeastPass(xs: seq<nat>, n: nat, best: Option<Best>, t: Threshold)
    requires n <= |xs|
  {
    forall k :: 0 <= k < n ==> PassesAtMost(xs, 0, |xs|, xs[k], best, t)
  }

  /** The same for failing pairs, up to a slack. */
  ghost predicate LeastFail(xs: seq<nat>, n: nat, best: Option<Best>, slack: int, t: Threshold)
    requires n <= |xs|
  {
    forall k :: 0 <= k < n ==> FailsAtMost(xs, 0, |xs|, xs[k], best, slack, t)
  }

  /** The pairs that lie in a band, counted over the first n darker intervals. */
  ghost function Band(xs: seq<nat>, darker: nat, maxWidth: nat, t: Threshold): set<int>
    requires t.Usable()
  {
    set i | 0 <= i < |xs| && BandLower(darker, maxWidth, t) <= Lo(xs[i]) <= BandUpper(darker, maxWidth, t)
  }

  ghost function BandTotal(xs: seq<nat>, n: nat, maxWidth: nat, t: Threshold): nat
    requires t.Usable() && n <= |xs|
  {
    if n == 0 then 0 else BandTotal(xs, n - 1, maxWidth, t) + |Band(xs, xs[n-1], maxWidth, t)|
  }

  /** Every passing (failing) pair with a lighter index in a range has at least the recorded margin. */
  ghost predicate PassesAtMost(xs: seq<nat>, left: nat, right: nat, d: nat, best: Option<Best>, t: Threshold)
    requires right <= |xs|
  {
    forall i :: left <= i < right && Orientation(Unpack(xs[i]), Unpack(d), t) == Pass ==>
      AtMost(best, PassMargin(Unpack(xs[i]), Unpack(d), t))
  }

  ghost predicate FailsAtMost(xs: seq<nat>, left: nat, right: nat, d: nat, best: Option<Best>, slack: int, t: Threshold)
    requires right <= |xs|
  {
    forall i :: left <= i < right && Orientation(Unpack(xs[i]), Unpack(d), t) == Fail ==>
      AtMost(best, FailMargin(Unpack(xs[i]), Unpack(d), t) + slack)
  }

  /** Every failing pair whose lighter member is at the band has at least the recorded margin: for one
      darker interval, and for the first n of them. */
  ghost predicate NearAtMost(xs: seq<nat>, d: nat, best: Option<Best>, maxWidth: nat, t: Threshold)
    requires t.Usable()
  {
    forall i ::
      0 <= i < |xs| && AtBand(xs, i, xs[i], d, maxWidth, t) && Orientation(Unpack(xs[i]), Unpack(d), t) == Fail ==>
        AtMost(best, FailMargin(Unpack(xs[i]), Unpack(d), t))
  }

  ghost predicate NearLeast(xs: seq<nat>, n: nat, best: Option<Best>, maxWidth: nat, t: Threshold)
    requires t.Usable() && n <= |xs|
  {
    forall k :: 0 <= k < n ==> NearAtMost(xs, xs[k], best, maxWidth, t)
  }

  /** A failing pair at the band whose margin is the least of all failing pairs. */
  ghost predicate LeastAt(xs: seq<nat>, i: int, k: int, maxWidth: nat, t: Threshold)
    requires t.Usable()
  {
    && 0 <= i < |xs| && 0 <= k < |xs| && AtBand(xs, i, xs[i], xs[k], maxWidth, t)
    && Orientation(Unpack(xs[i]), Unpack(xs[k]), t) == Fail
    && LeastFail(xs, |xs|, Some(Best(FailMargin(Unpack(xs[i]), Unpack(xs[k]), t), xs[i], xs[k])), 0, t)
  }

  method ScanBand(xs: seq<nat>, left: nat, right: nat, darker: nat, maxWidth: nat, t: Threshold,
                  pass0: Option<Best>, fail0: Option<Best>)
    returns (unresolved: Option<nat>, checks: nat, pass: Option<Best>, fail: Option<Best>)
    requires left <= right <= |xs| && darker in xs && t.Usable()
    requires forall i :: left <= i < |xs| ==> BandLower(darker, maxWidth, t) <= Lo(xs[i])
    requires Witnessed(xs, pass0, Pass, t) && Witnessed(xs, fail0, Fail, t) && NearBand(xs, fail0, maxWidth, t)
    ensures unresolved.Some? ==> unresolved.value in xs && !Decided(unresolved.value, darker, t)
    ensures unresolved == None ==> checks == right - left && forall i :: left <= i < right ==> Decided(xs[i], darker, t)
    ensures Witnessed(xs, pass, Pass, t) && Witnessed(xs, fail, Fail, t) && NearBand(xs, fail, maxWidth, t)
    ensures forall m :: AtMost(pass0, m) ==> AtMost(pass, m)
    ensures forall m :: AtMost(fail0, m) ==> AtMost(fail, m)
    ensures unresolved == None ==> PassesAtMost(xs, left, right, darker, pass, t)
    ensures unresolved == None ==> FailsAtMost(xs, left, right, darker, fail, 0, t)
  {
    unresolved, checks, pass, fail := None, 0, pass0, fail0;
    for index := left to right
      invariant checks == index - left
      invariant forall i :: left <= i < index ==> Decided(xs[i], darker, t)
      invariant Witnessed(xs, pass, Pass, t) && Witnessed(xs, fail, Fail, t) && NearBand(xs, fail, maxWidth, t)
      invariant forall m :: AtMost(pass0, m) ==> AtMost(pass, m)
      invariant forall m :: AtMost(fail0, m) ==> AtMost(fail, m)
      invariant PassesAtMost(xs, left, index, darker, pass, t)
      invariant FailsAtMost(xs, left, index, darker, fail, 0, t)
    {
      var lighter := xs[index];
      assert AtBand(xs, index, lighter, darker, maxWidth, t);
      checks := checks + 1;
      if PairDecision(Unpack(lighter), Unpack(darker), t) == Unresolved {
        unresolved := Some(lighter);
        return;
      }
      match DecisionMargin(Unpack(lighter), Unpack(darker), t) {
        case Some((Pass, margin)) => pass := Improve(pass, Best(margin, lighter, darker));
        case Some((Fail, margin)) => fail := Improve(fail, Best(margin, lighter, darker));
        case _ =>
      }
    }
  }

  /** What is settled once the first n darker intervals have been scanned: the pointers ... */
  ghost predicate Pointers(xs: seq<nat>, n: nat, left: nat, right: nat, maxWidth: nat, t: Threshold)
    requires t.Usable() && n <= |xs|
  {
    && left <= right <= |xs|
    && (forall k :: n <= k < |xs| ==> LeftOf(xs, left, xs[k], maxWidth, t))
    && (forall k :: n <= k < |xs| ==> NotAbove(xs, left, right, xs[k], maxWidth, t))
  }

  /** ... the pairs that the band test or a decision covers ... */
  ghost predicate ColumnsCovered(xs: seq<nat>, n: nat, maxWidth: nat, t: Threshold)
    requires t.Usable() && n <= |xs|
  {
    forall i, k :: 0 <= i < |xs| && 0 <= k < n ==> Covered(xs[i], xs[k], maxWidth, t)
  }

  /** ... and the recorded margins. */
  ghost predicate PassRecord(xs: seq<nat>, n: nat, best: Option<Best>, t: Threshold)
    requires n <= |xs|
  {
    Witnessed(xs, best, Pass, t) && LeastPass(xs, n, best, t)
  }

  ghost predicate FailRecord(xs: seq<nat>, n: nat, best: Option<Best>, maxWidth: nat, t: Threshold)
    requires t.Usable() && n <= |xs|
  {
    && Witnessed(xs, best, Fail, t) && NearBand(xs, best, maxWidth, t)
    && LeastFail(xs, n, best, t.light * maxWidth, t)
    && (UppersSorted(xs) ==> LeastFail(xs, n, best, 0, t))
    && NearLeast(xs, n, best, maxWidth, t)
  }

  ghost predicate Scanned(xs: seq<nat>, n: nat, left: nat, right: nat, checks: nat,
                          pass: Option<Best>, fail: Option<Best>, maxWidth: nat, t: Threshold)
    requires t.Usable() && n <= |xs|
  {
    && Pointers(xs, n, left, right, maxWidth, t)
    && ColumnsCovered(xs, n, maxWidth, t)
    && checks == BandTotal(xs, n, maxWidth, t)
    && PassRecord(xs, n, pass, t)
    && FailRecord(xs, n, fail, maxWidth, t)
  }

  ghost predicate LeftOf(xs: seq<nat>, left: nat, d: nat, maxWidth: nat, t: Threshold)
    requires t.Usable() && left <= |xs|
  {
    forall i :: 0 <= i < left ==> Lo(xs[i]) < BandLower(d, maxWidth, t)
  }

  ghost predicate NotAbove(xs: seq<nat>, left: nat, right: nat, d: nat, maxWidth: nat, t: Threshold)
    requires t.Usable() && left <= right <= |xs|
  {
    forall i :: left <= i < right ==> Lo(xs[i]) <= BandUpper(d, maxWidth, t)
  }

  /** Upper ends follow the order of the array too. */
  ghost predicate UppersSorted(xs: seq<nat>) {
    forall i, k :: 0 <= i < k < |xs| ==> Hi(xs[i]) <= Hi(xs[k])
  }

  /** The two pointers cut the array into what is below, in and above the band. */
  ghost predicate Cut(xs: seq<nat>, left: nat, right: nat, d: nat, maxWidth: nat, t: Threshold)
    requires t.Usable()
  {
    && left <= right <= |xs|
    && LeftOf(xs, left, d, maxWidth, t)
    && NotAbove(xs, left, right, d, maxWidth, t)
    && (forall i :: left <= i < |xs| ==> BandLower(d, maxWidth, t) <= Lo(xs[i]))
    && (forall i :: right <= i < |xs| ==> BandUpper(d, maxWidth, t) < Lo(xs[i]))
  }

  method AdvancePointers(xs: seq<nat>, left0: nat, right0: nat, d: nat, maxWidth: nat, t: Threshold)
    returns (left: nat, right: nat)
    requires t.Usable() && Sorted(xs) && left0 <= right0 <= |xs|
    requires LeftOf(xs, left0, d, maxWidth, t) && NotAbove(xs, left0, right0, d, maxWidth, t)
    ensures Cut(xs, left, right, d, maxWidth, t)
  {
    left, right := left0, right0;
    while left < |xs| && Lo(xs[left]) < BandLower(d, maxWidth, t)
      invariant left0 <= left <= |xs|
      invariant LeftOf(xs, left, d, maxWidth, t)
    {
      left := left + 1;
    }
    if right < left { right := left; }
    while right < |xs| && Lo(xs[right]) <= BandUpper(d, maxWidth, t)
      invariant left <= right <= |xs|
      invariant NotAbove(xs, left, right, d, maxWidth, t)
    {
      right := right + 1;
    }
    LowersSorted(xs);
  }

  lemma LowersSorted(xs: seq<nat>)
    requires Sorted(xs)
    ensures forall i, k :: 0 <= i < k < |xs| ==> Lo(xs[i]) <= Lo(xs[k])
  {
  }

  lemma MulDistributes(k: int, a: int, b: int)
    ensures k * (a + b) == k * a + k * b
  {
  }

  /** The neighbour just below the band stands for everything below it, up to the width bound. */
  lemma BelowNeighbourFails(xs: seq<nat>, left: nat, d: nat, maxWidth: nat, t: Threshold, i: nat)
    requires t.Usable() && Sorted(xs) && WidthsWithin(xs, maxWidth)
    requires i < left <= |xs|
    ensures FailMargin(Unpack(xs[left-1]), Unpack(d), t)
         <= FailMargin(Unpack(xs[i]), Unpack(d), t) + t.light * maxWidth
    ensures UppersSorted(xs) ==>
      FailMargin(Unpack(xs[left-1]), Unpack(d), t) <= FailMargin(Unpack(xs[i]), Unpack(d), t)
  {
    LowersSorted(xs);
    var hi, neighbour := Hi(xs[i]), Hi(xs[left-1]);
    assert hi <= neighbour + maxWidth;
    MulMono(t.light, hi, neighbour + maxWidth);
    MulDistributes(t.light, neighbour, maxWidth);
    if UppersSorted(xs) {
      assert hi <= neighbour;
      MulMono(t.light, hi, neighbour);
    }
  }

  /** Exactly when the neighbour has the least fail margin of everything below the band: no upper end
      before it exceeds its own. */
  lemma NeighbourLeastIff(xs: seq<nat>, left: nat, d: nat, t: Threshold)
    requires t.Usable() && 0 < left <= |xs|
    ensures (forall i :: 0 <= i < left ==>
              FailMargin(Unpack(xs[left-1]), Unpack(d), t) <= FailMargin(Unpack(xs[i]), Unpack(d), t)) <==>
            forall i :: 0 <= i < left ==> Hi(xs[i]) <= Hi(xs[left-1])
  {
    forall i | 0 <= i < left
      ensures Hi(xs[i]) <= Hi(xs[left-1]) <==>
              FailMargin(Unpack(xs[left-1]), Unpack(d), t) <= FailMargin(Unpack(xs[i]), Unpack(d), t)
    {
      FailMarginFalls(Unpack(xs[i]), Unpack(xs[left-1]), Unpack(d), t);
    }
  }

  lemma FailMarginFalls(l: Interval, m: Interval, d: Interval, t: Threshold)
    requires t.Usable()
    ensures l.upper <= m.upper <==> FailMargin(m, d, t) <= FailMargin(l, d, t)
  {
    if l.upper <= m.upper { MulMono(t.light, l.upper, m.upper); } else { MulMono(t.light, m.upper, l.upper); }
  }

  /** The neighbour just above the band has the least pass margin of everything above it. */
  lemma AboveNeighbourPasses(xs: seq<nat>, right: nat, d: nat, t: Threshold, i: nat)
    requires t.Usable() && Sorted(xs) && right <= i < |xs|
    ensures PassMargin(Unpack(xs[right]), Unpack(d), t) <= PassMargin(Unpack(xs[i]), Unpack(d), t)
  {
    LowersSorted(xs);
    MulMono(t.light, Lo(xs[right]), Lo(xs[i]));
  }

  /** The neighbour below the band is recorded, and stands for what is below it. */
  ghost predicate BelowRecorded(xs: seq<nat>, left: nat, d: nat, best: Option<Best>, maxWidth: nat, t: Threshold)
    requires left <= |xs|
  {
    && (left > 0 ==> AtMost(best, FailMargin(Unpack(xs[left-1]), Unpack(d), t)))
    && (forall i :: 0 <= i < left ==> AtMost(best, FailMargin(Unpack(xs[i]), Unpack(d), t) + t.light * maxWidth))
    && (UppersSorted(xs) ==> forall i :: 0 <= i < left ==> AtMost(best, FailMargin(Unpack(xs[i]), Unpack(d), t)))
  }

  /** The neighbour below the band, recorded after the band of the darker interval has been scanned. */
  method RecordBelow(xs: seq<nat>, left: nat, d: nat, maxWidth: nat, t: Threshold, fail0: Option<Best>)
    returns (fail: Option<Best>)
    requires t.Usable() && Sorted(xs) && WidthsWithin(xs, maxWidth) && d in xs
    requires left <= |xs| && LeftOf(xs, left, d, maxWidth, t)
    requires forall i :: left <= i < |xs| ==> BandLower(d, maxWidth, t) <= Lo(xs[i])
    requires Witnessed(xs, fail0, Fail, t) && NearBand(xs, fail0, maxWidth, t)
    ensures Witnessed(xs, fail, Fail, t) && NearBand(xs, fail, maxWidth, t)
    ensures forall m :: AtMost(fail0, m) ==> AtMost(fail, m)
    ensures BelowRecorded(xs, left, d, fail, maxWidth, t)
  {
    fail := fail0;
    if left > 0 {
      var margin := FailMargin(Unpack(xs[left-1]), Unpack(d), t);
      BelowBandFails(xs[left-1], d, maxWidth, t);
      assert margin > 0;
      assert AtBand(xs, left - 1, xs[left-1], d, maxWidth, t);
      fail := Improve(fail, Best(margin, xs[left-1], d));
      forall i | 0 <= i < left
        ensures AtMost(fail, FailMargin(Unpack(xs[i]), Unpack(d), t) + t.light * maxWidth)
        ensures UppersSorted(xs) ==> AtMost(fail, FailMargin(Unpack(xs[i]), Unpack(d), t))
      {
        BelowNeighbourFails(xs, left, d, maxWidth, t, i);
      }
    }
  }

  /** The neighbour above the band. */
  method RecordAbove(xs: seq<nat>, right: nat, d: nat, maxWidth: nat, t: Threshold, pass0: Option<Best>)
    returns (pass: Option<Best>)
    requires t.Usable() && Sorted(xs) && WidthsWithin(xs, maxWidth) && d in xs
    requires right <= |xs| && forall i :: right <= i < |xs| ==> BandUpper(d, maxWidth, t) < Lo(xs[i])
    requires Witnessed(xs, pass0, Pass, t)
    ensures Witnessed(xs, pass, Pass, t)
    ensures forall m :: AtMost(pass0, m) ==> AtMost(pass, m)
    ensures forall i :: right <= i < |xs| ==> AtMost(pass, PassMargin(Unpack(xs[i]), Unpack(d), t))
  {
    pass := pass0;
    if right < |xs| {
      var margin := PassMargin(Unpack(xs[right]), Unpack(d), t);
      assert Unpack(d).Width() <= maxWidth;
      AboveBandPasses(xs[right], d, maxWidth, t);
      assert margin >= 0;
      pass := Improve(pass, Best(margin, xs[right], d));
      forall i | right <= i < |xs|
        ensures AtMost(pass, PassMargin(Unpack(xs[i]), Unpack(d), t))
      {
        AboveNeighbourPasses(xs, right, d, t, i);
      }
    }
  }

  lemma ColumnCovered(xs: seq<nat>, left: nat, right: nat, d: nat, maxWidth: nat, t: Threshold)
    requires t.Usable() && Cut(xs, left, right, d, maxWidth, t)
    requires forall i :: left <= i < right ==> Decided(xs[i], d, t)
    ensures forall i :: 0 <= i < |xs| ==> Covered(xs[i], d, maxWidth, t)
    ensures |Band(xs, d, maxWidth, t)| == right - left
  {
    assert Band(xs, d, maxWidth, t) == Range(left, right);
  }

  lemma ColumnsExtend(xs: seq<nat>, k: nat, left: nat, right: nat, checks: nat, maxWidth: nat, t: Threshold)
    requires t.Usable() && k < |xs| && ColumnsCovered(xs, k, maxWidth, t) && Cut(xs, left, right, xs[k], maxWidth, t)
    requires (forall i :: left <= i < right ==> Decided(xs[i], xs[k], t)) && checks == BandTotal(xs, k, maxWidth, t)
    ensures ColumnsCovered(xs, k + 1, maxWidth, t) && checks + right - left == BandTotal(xs, k + 1, maxWidth, t)
  {
    ColumnCovered(xs, left, right, xs[k], maxWidth, t);
  }

  lemma ColumnPasses(xs: seq<nat>, left: nat, right: nat, d: nat, best: Option<Best>, maxWidth: nat, t: Threshold)
    requires t.Usable() && WidthsWithin(xs, maxWidth) && Cut(xs, left, right, d, maxWidth, t)
    requires PassesAtMost(xs, left, right, d, best, t)
    requires forall i :: right <= i < |xs| ==> AtMost(best, PassMargin(Unpack(xs[i]), Unpack(d), t))
    ensures PassesAtMost(xs, 0, |xs|, d, best, t)
  {
    forall i | 0 <= i < left ensures Orientation(Unpack(xs[i]), Unpack(d), t) == Fail {
      BelowBandFails(xs[i], d, maxWidth, t);
    }
  }

  lemma ColumnFails(xs: seq<nat>, left: nat, right: nat, d: nat, best: Option<Best>, slack: int, maxWidth: nat,
                    t: Threshold)
    requires t.Usable() && d in xs && WidthsWithin(xs, maxWidth) && Cut(xs, left, right, d, maxWidth, t) && 0 <= slack
    requires FailsAtMost(xs, left, right, d, best, 0, t)
    requires forall i :: 0 <= i < left ==> AtMost(best, FailMargin(Unpack(xs[i]), Unpack(d), t) + slack)
    ensures FailsAtMost(xs, 0, |xs|, d, best, slack, t)
  {
    var k :| 0 <= k < |xs| && xs[k] == d;
    forall i | right <= i < |xs| ensures Orientation(Unpack(xs[i]), Unpack(d), t) == Pass {
      AboveBandPasses(xs[i], d, maxWidth, t);
    }
  }

  /** At the band are the band itself and the neighbour below it; what lies above passes. */
  lemma ColumnNear(xs: seq<nat>, left: nat, right: nat, d: nat, best: Option<Best>, maxWidth: nat, t: Threshold)
    requires t.Usable() && d in xs && WidthsWithin(xs, maxWidth) && Cut(xs, left, right, d, maxWidth, t)
    requires FailsAtMost(xs, left, right, d, best, 0, t)
    requires left > 0 ==> AtMost(best, FailMargin(Unpack(xs[left-1]), Unpack(d), t))
    ensures NearAtMost(xs, d, best, maxWidth, t)
  {
    var k :| 0 <= k < |xs| && xs[k] == d;
    forall i | right <= i < |xs| ensures Orientation(Unpack(xs[i]), Unpack(d), t) == Pass {
      AboveBandPasses(xs[i], d, maxWidth, t);
    }
    forall i | 0 <= i < left - 1 ensures !AtBand(xs, i, xs[i], d, maxWidth, t) {
      assert Lo(xs[i+1]) < BandLower(d, maxWidth, t);
    }
  }

  lemma NearLeastExtends(xs: seq<nat>, k: nat, best0: Option<Best>, best: Option<Best>, maxWidth: nat, t: Threshold)
    requires t.Usable() && k < |xs| && NearLeast(xs, k, best0, maxWidth, t)
    requires forall m :: AtMost(best0, m) ==> AtMost(best, m)
    requires NearAtMost(xs, xs[k], best, maxWidth, t)
    ensures NearLeast(xs, k + 1, best, maxWidth, t)
  {
    forall n | 0 <= n < k ensures NearAtMost(xs, xs[n], best, maxWidth, t) {
      assert NearAtMost(xs, xs[n], best0, maxWidth, t);
    }
  }

  /** The record is the least margin of all exactly when some pair at the band has it. */
  lemma LeastIffAtBand(xs: seq<nat>, best: Best, maxWidth: nat, t: Threshold)
    requires t.Usable() && FailRecord(xs, |xs|, Some(best), maxWidth, t)
    ensures LeastFail(xs, |xs|, Some(best), 0, t) <==> exists i, k :: LeastAt(xs, i, k, maxWidth, t)
  {
    if LeastFail(xs, |xs|, Some(best), 0, t) {
      var i :| AtBand(xs, i, best.lighter, best.darker, maxWidth, t);
      var k :| 0 <= k < |xs| && xs[k] == best.darker;
      assert LeastAt(xs, i, k, maxWidth, t);
    }
    forall i, k | LeastAt(xs, i, k, maxWidth, t) ensures LeastFail(xs, |xs|, Some(best), 0, t) {
      var least := Best(FailMargin(Unpack(xs[i]), Unpack(xs[k]), t), xs[i], xs[k]);
      assert NearAtMost(xs, xs[k], Some(best), maxWidth, t);
      LowerIsLeast(xs, best, least, t);
    }
  }

  lemma LowerIsLeast(xs: seq<nat>, best: Best, least: Best, t: Threshold)
    requires best.margin <= least.margin && LeastFail(xs, |xs|, Some(least), 0, t)
    ensures LeastFail(xs, |xs|, Some(best), 0, t)
  {
    forall k | 0 <= k < |xs| ensures FailsAtMost(xs, 0, |xs|, xs[k], Some(best), 0, t) {
      assert FailsAtMost(xs, 0, |xs|, xs[k], Some(least), 0, t);
    }
  }

  /** The pointers never have to move back. */
  lemma PointersCarryOver(xs: seq<nat>, k: nat, left: nat, right: nat, maxWidth: nat, t: Threshold)
    requires t.Usable() && Sorted(xs) && k < |xs| && Cut(xs, left, right, xs[k], maxWidth, t)
    ensures Pointers(xs, k + 1, left, right, maxWidth, t)
  {
    forall n | k <= n < |xs|
      ensures LeftOf(xs, left, xs[n], maxWidth, t) && NotAbove(xs, left, right, xs[n], maxWidth, t)
    {
      BandMonotone(xs[k], xs[n], maxWidth, t);
    }
  }

  lemma UndecidedPair(xs: seq<nat>, a: nat, b: nat, t: Threshold)
    requires a in xs && b in xs && !Decided(a, b, t)
    ensures !AllDecided(xs, t)
  {
    var i :| 0 <= i < |xs| && xs[i] == a;
    var k :| 0 <= k < |xs| && xs[k] == b;
    assert !Decided(xs[i], xs[k], t);
  }

  lemma FullyCoveredIsDecided(xs: seq<nat>, maxWidth: nat, t: Threshold)
    requires t.Usable() && WidthsWithin(xs, maxWidth)
    requires ColumnsCovered(xs, |xs|, maxWidth, t)
    ensures AllDecided(xs, t)
  {
    forall i, k | 0 <= i < |xs| && 0 <= k < |xs| ensures Decided(xs[i], xs[k], t) {
      CoveredBothWaysDecides(xs[i], xs[k], maxWidth, t);
    }
  }

  lemma PassRecordExtends(xs: seq<nat>, k: nat, best0: Option<Best>, best: Option<Best>, t: Threshold)
    requires k < |xs| && PassRecord(xs, k, best0, t) && Witnessed(xs, best, Pass, t)
    requires forall m :: AtMost(best0, m) ==> AtMost(best, m)
    requires PassesAtMost(xs, 0, |xs|, xs[k], best, t)
    ensures PassRecord(xs, k + 1, best, t)
  {
    forall n | 0 <= n < k ensures PassesAtMost(xs, 0, |xs|, xs[n], best, t) {
      assert PassesAtMost(xs, 0, |xs|, xs[n], best0, t);
    }
  }

  lemma LeastFailExtends(xs: seq<nat>, k: nat, best0: Option<Best>, best: Option<Best>, slack: int, t: Threshold)
    requires k < |xs| && LeastFail(xs, k, best0, slack, t)
    requires forall m :: AtMost(best0, m) ==> AtMost(best, m)
    requires FailsAtMost(xs, 0, |xs|, xs[k], best, slack, t)
    ensures LeastFail(xs, k + 1, best, slack, t)
  {
    forall n | 0 <= n < k ensures FailsAtMost(xs, 0, |xs|, xs[n], best, slack, t) {
      assert FailsAtMost(xs, 0, |xs|, xs[n], best0, slack, t);
    }
  }

  lemma FailRecordExtends(xs: seq<nat>, k: nat, left: nat, right: nat, best0: Option<Best>, best: Option<Best>,
                          maxWidth: nat, t: Threshold)
    requires t.Usable() && WidthsWithin(xs, maxWidth) && k < |xs| && FailRecord(xs, k, best0, maxWidth, t)
    requires Witnessed(xs, best, Fail, t) && NearBand(xs, best, maxWidth, t)
    requires Cut(xs, left, right, xs[k], maxWidth, t)
    requires forall m :: AtMost(best0, m) ==> AtMost(best, m)
    requires FailsAtMost(xs, left, right, xs[k], best, 0, t)
    requires BelowRecorded(xs, left, xs[k], best, maxWidth, t)
    ensures FailRecord(xs, k + 1, best, maxWidth, t)
  {
    MulMono(t.light, 0, maxWidth);
    ColumnFails(xs, left, right, xs[k], best, t.light * maxWidth, maxWidth, t);
    LeastFailExtends(xs, k, best0, best, t.light * maxWidth, t);
    ColumnNear(xs, left, right, xs[k], best, maxWidth, t);
    NearLeastExtends(xs, k, best0, best, maxWidth, t);
    if UppersSorted(xs) {
      ColumnFails(xs, left, right, xs[k], best, 0, maxWidth, t);
      LeastFailExtends(xs, k, best0, best, 0, t);
    }
  }

  /** One round of the scan: the column of darker interval k joins those already settled. */
  method ScanColumn(xs: seq<nat>, k: nat, left0: nat, right0: nat, checks0: nat,
                    pass0: Option<Best>, fail0: Option<Best>, maxWidth: nat, t: Threshold)
    returns (unresolved: Option<nat>, left: nat, right: nat, checks: nat, pass: Option<Best>, fail: Option<Best>)
    requires t.Usable() && Sorted(xs) && WidthsWithin(xs, maxWidth) && k < |xs|
    requires Scanned(xs, k, left0, right0, checks0, pass0, fail0, maxWidth, t)
    ensures unresolved.Some? ==> unresolved.value in xs && !Decided(unresolved.value, xs[k], t)
    ensures unresolved == None ==> Scanned(xs, k + 1, left, right, checks, pass, fail, maxWidth, t)
  {
    var more;
    left, right := AdvancePointers(xs, left0, right0, xs[k], maxWidth, t);
    unresolved, more, pass, fail := ScanBand(xs, left, right, xs[k], maxWidth, t, pass0, fail0);
    checks := checks0 + more;
    if unresolved.Some? {
      return;
    }
    ghost var bandPass, bandFail := pass, fail;
    fail := RecordBelow(xs, left, xs[k], maxWidth, t, fail);
    pass := RecordAbove(xs, right, xs[k], maxWidth, t, pass);
    PointersCarryOver(xs, k, left, right, maxWidth, t);
    ColumnsExtend(xs, k, left, right, checks0, maxWidth, t);
    PassesTransfer(xs, left, right, xs[k], bandPass, pass, t);
    FailsTransfer(xs, left, right, xs[k], bandFail, fail, t);
    ColumnPasses(xs, left, right, xs[k], pass, maxWidth, t);
    PassRecordExtends(xs, k, pass0, pass, t);
    FailRecordExtends(xs, k, left, right, fail0, fail, maxWidth, t);
  }

  lemma PassesTransfer(xs: seq<nat>, left: nat, right: nat, d: nat, best0: Option<Best>, best: Option<Best>,
                       t: Threshold)
    requires right <= |xs| && PassesAtMost(xs, left, right, d, best0, t)
    requires forall m :: AtMost(best0, m) ==> AtMost(best, m)
    ensures PassesAtMost(xs, left, right, d, best, t)
  {
  }

  lemma FailsTransfer(xs: seq<nat>, left: nat, right: nat, d: nat, best0: Option<Best>, best: Option<Best>,
                      t: Threshold)
    requires right <= |xs| && FailsAtMost(xs, left, right, d, best0, 0, t)
    requires forall m :: AtMost(best0, m) ==> AtMost(best, m)
    ensures FailsAtMost(xs, left, right, d, best, 0, t)
  {
  }

  lemma FinalRecord(xs: seq<nat>, best: Option<Best>, maxWidth: nat, t: Threshold)
    requires t.Usable() && FailRecord(xs, |xs|, best, maxWidth, t)
    ensures best == None ==> LeastFail(xs, |xs|, None, 0, t)
    ensures best.Some? ==> (LeastFail(xs, |xs|, best, 0, t) <==> exists i, k :: LeastAt(xs, i, k, maxWidth, t))
  {
    if best.Some? {
      LeastIffAtBand(xs, best.value, maxWidth, t);
    } else {
      forall k | 0 <= k < |xs| ensures FailsAtMost(xs, 0, |xs|, xs[k], None, 0, t) {
        assert FailsAtMost(xs, 0, |xs|, xs[k], best, t.light * maxWidth, t);
      }
    }
  }

  /** The pairs of positions in which the lighter one lies in the band of the darker one. */
  ghost function BandPairs(xs: seq<nat>, maxWidth: nat, t: Threshold): set<(int, int)>
    requires t.Usable()
  {
    BandPairsBelow(xs, |xs|, maxWidth, t)
  }

  ghost function BandPairsBelow(xs: seq<nat>, n: nat, maxWidth: nat, t: Threshold): set<(int, int)>
    requires t.Usable() && n <= |xs|
  {
    set i, k | 0 <= i < |xs| && 0 <= k < n && InBand(xs[i], xs[k], maxWidth, t) :: (i, k)
  }

  predicate InBand(lighter: nat, darker: nat, maxWidth: nat, t: Threshold)
    requires t.Usable()
  {
    BandLower(darker, maxWidth, t) <= Lo(lighter) <= BandUpper(darker, maxWidth, t)
  }

  lemma {:induction false} BandTotalCounts(xs: seq<nat>, n: nat, maxWidth: nat, t: Threshold)
    requires t.Usable() && n <= |xs|
    ensures BandTotal(xs, n, maxWidth, t) == |BandPairsBelow(xs, n, maxWidth, t)|
  {
    if n > 0 {
      BandTotalCounts(xs, n - 1, maxWidth, t);
      BandPairsStep(xs, n, maxWidth, t);
    } else {
      NoBandPairs(xs, maxWidth, t);
    }
  }

  lemma NoBandPairs(xs: seq<nat>, maxWidth: nat, t: Threshold)
    requires t.Usable()
    ensures |BandPairsBelow(xs, 0, maxWidth, t)| == 0
  {
    assert BandPairsBelow(xs, 0, maxWidth, t) == {};
  }

  lemma BandPairsStep(xs: seq<nat>, n: nat, maxWidth: nat, t: Threshold)
    requires t.Usable() && 0 < n <= |xs|
    ensures |BandPairsBelow(xs, n, maxWidth, t)| ==
            |BandPairsBelow(xs, n - 1, maxWidth, t)| + |Band(xs, xs[n-1], maxWidth, t)|
  {
    var before, column := BandPairsBelow(xs, n - 1, maxWidth, t), Paired(Band(xs, xs[n-1], maxWidth, t), n - 1);
    forall p: (int, int) ensures p in BandPairsBelow(xs, n, maxWidth, t) <==> p in before || p in column {
      InBandPairs(xs, n, maxWidth, t, p);
      InBandPairs(xs, n - 1, maxWidth, t, p);
      assert p in column <==> p.0 in Band(xs, xs[n-1], maxWidth, t) && p.1 == n - 1;
    }
    forall p | p in before ensures p !in column {
      InBandPairs(xs, n - 1, maxWidth, t, p);
    }
    PairedSize(Band(xs, xs[n-1], maxWidth, t), n - 1);
    UnionSize(BandPairsBelow(xs, n, maxWidth, t), before, column);
  }

  lemma InBandPairs(xs: seq<nat>, n: nat, maxWidth: nat, t: Threshold, p: (int, int))
    requires t.Usable() && n <= |xs|
    ensures p in BandPairsBelow(xs, n, maxWidth, t) <==>
            0 <= p.0 < |xs| && 0 <= p.1 < n && InBand(xs[p.0], xs[p.1], maxWidth, t)
  {
  }

  /** What the scan's answer says of the array. */
  ghost predicate Answers(r: ScanResult, xs: seq<nat>, maxWidth: nat, t: Threshold)
    requires t.Usable()
  {
    match r
    case UnresolvedPair(lighter, darker) => lighter in xs && darker in xs && !Decided(lighter, darker, t)
    case NoPassMargin => LeastPass(xs, |xs|, None, t)
    case NoFailMargin => LeastFail(xs, |xs|, None, 0, t)
    case Report(checks, pass, fail) =>
      && checks == |BandPairs(xs, maxWidth, t)|
      && Witnessed(xs, Some(pass), Pass, t) && LeastPass(xs, |xs|, Some(pass), t)
      && Witnessed(xs, Some(fail), Fail, t) && LeastFail(xs, |xs|, Some(fail), t.light * maxWidth, t)
  }

  /** The scan itself. It names an unresolved pair exactly when there is one among all ordered
      pairs, most of which never lie in a band. The pass margin is the least one. The fail margin is
      least up to the width bound, and least outright exactly when some pair at its band has the least
      one, as when upper ends are sorted as well. */
  method ScanThreshold(xs: seq<nat>, maxWidth: nat, t: Threshold) returns (r: ScanResult)
    requires t.Usable() && Sorted(xs) && WidthsWithin(xs, maxWidth)
    ensures Answers(r, xs, maxWidth, t)
    ensures !r.UnresolvedPair? <==> AllDecided(xs, t)
    ensures r.Report? ==>
      && (UppersSorted(xs) ==> LeastFail(xs, |xs|, Some(r.fail), 0, t))
      && (LeastFail(xs, |xs|, Some(r.fail), 0, t) <==> exists i, k :: LeastAt(xs, i, k, maxWidth, t))
      && NearBand(xs, Some(r.fail), maxWidth, t)
  {
    var left, right, checks := 0, 0, 0;
    var pass: Option<Best>, fail: Option<Best> := None, None;
    for k := 0 to |xs|
      invariant Scanned(xs, k, left, right, checks, pass, fail, maxWidth, t)
    {
      var unresolved;
      unresolved, left, right, checks, pass, fail := ScanColumn(xs, k, left, right, checks, pass, fail, maxWidth, t);
      if unresolved.Some? {
        UndecidedPair(xs, unresolved.value, xs[k], t);
        return UnresolvedPair(unresolved.value, xs[k]);
      }
    }
    FullyCoveredIsDecided(xs, maxWidth, t);
    FinalRecord(xs, fail, maxWidth, t);
    BandTotalCounts(xs, |xs|, maxWidth, t);
    if pass == None { return NoPassMargin; }
    if fail == None { return NoFailMargin; }
    r := Report(checks, pass.value, fail.value);
  }

  const WIDE_BELOW_NARROW: seq<nat> :=
    [0, 19, 20, 4 * Q]

  lemma WideBelowNarrow()
    ensures Unpack(0) == Interval(0, 0) && Unpack(19) == Interval(4, 7)
    ensures Unpack(20) == Interval(5, 5) && Unpack(4 * Q) == Interval(Q, Q)
  {
  }

  const THREE_TO_ONE := Threshold(10, 30, 1)

  lemma WideBelowNarrowSorted()
    ensures Sorted(WIDE_BELOW_NARROW) && WidthsWithin(WIDE_BELOW_NARROW, 3)
  {
    WideBelowNarrow();
  }

  lemma WideBelowNarrowDecided()
    ensures Sorted(WIDE_BELOW_NARROW) && WidthsWithin(WIDE_BELOW_NARROW, 3)
    ensures AllDecided(WIDE_BELOW_NARROW, THREE_TO_ONE)
  {
    WideBelowNarrowSorted();
    var xs := WIDE_BELOW_NARROW;
    forall i, k | 0 <= i < |xs| && 0 <= k < |xs| ensures Decided(xs[i], xs[k], THREE_TO_ONE) {
      DecidedAgainstAll(i, k);
    }
  }

  lemma DecidedAgainstAll(i: nat, k: nat)
    requires i < 4 && k < 4
    ensures Decided(WIDE_BELOW_NARROW[i], WIDE_BELOW_NARROW[k], THREE_TO_ONE)
  {
    WideBelowNarrow();
  }

  lemma WideBelowNarrowRecord(i: int, k: int)
    requires 0 <= i < 4 && 0 <= k < 4
    requires Orientation(Unpack(WIDE_BELOW_NARROW[i]), Unpack(WIDE_BELOW_NARROW[k]), THREE_TO_ONE) == Fail
    requires i == 1 && k == 0 ==> BandLower(0, 3, THREE_TO_ONE) <= 5
    ensures FailMargin(Unpack(WIDE_BELOW_NARROW[i]), Unpack(WIDE_BELOW_NARROW[k]), THREE_TO_ONE) > Q - 70
  {
    WideBelowNarrow();
    assert BandLower(0, 3, THREE_TO_ONE) > 5;
    OrientationByMargins(Unpack(WIDE_BELOW_NARROW[i]), Unpack(WIDE_BELOW_NARROW[k]), THREE_TO_ONE);
  }

  lemma RecordExceeds(i: int, k: int, margin: int)
    requires 0 <= k < 4 && 0 <= i < 4
    requires AtBand(WIDE_BELOW_NARROW, i, WIDE_BELOW_NARROW[i], WIDE_BELOW_NARROW[k], 3, THREE_TO_ONE)
    requires DecisionMargin(Unpack(WIDE_BELOW_NARROW[i]), Unpack(WIDE_BELOW_NARROW[k]), THREE_TO_ONE) ==
      Some((Fail, margin))
    ensures margin > Q - 70
  {
    WideBelowNarrow();
    WideBelowNarrowRecord(i, k);
  }

  lemma WideFails()
    ensures Orientation(Unpack(19), Unpack(0), THREE_TO_ONE) == Fail
    ensures FailMargin(Unpack(19), Unpack(0), THREE_TO_ONE) == Q - 70
  {
    WideBelowNarrow();
  }

  lemma RecordedMargin(best: Best)
    requires Witnessed(WIDE_BELOW_NARROW, Some(best), Fail, THREE_TO_ONE)
    requires NearBand(WIDE_BELOW_NARROW, Some(best), 3, THREE_TO_ONE)
    ensures best.margin > Q - 70
  {
    var i :| AtBand(WIDE_BELOW_NARROW, i, best.lighter, best.darker, 3, THREE_TO_ONE);
    var k :| 0 <= k < |WIDE_BELOW_NARROW| && WIDE_BELOW_NARROW[k] == best.darker;
    RecordExceeds(i, k, best.margin);
  }

  /** The recorded fail margin is not always the least one: sorted by lower end, a wider interval
      further down reaches closer to the boundary than the neighbour does. The array is scanned
      without an unresolved pair, and no margin the scan can record for it is the least. */
  lemma FailMarginNotLeast(best: Best)
    requires Witnessed(WIDE_BELOW_NARROW, Some(best), Fail, THREE_TO_ONE)
    requires NearBand(WIDE_BELOW_NARROW, Some(best), 3, THREE_TO_ONE)
    ensures var xs, t := WIDE_BELOW_NARROW, THREE_TO_ONE;
            && Sorted(xs) && WidthsWithin(xs, 3) && AllDecided(xs, t)
            && 0 in xs && 19 in xs && Orientation(Unpack(19), Unpack(0), t) == Fail
            && FailMargin(Unpack(19), Unpack(0), t) < best.margin
  {
    assert WIDE_BELOW_NARROW[0] == 0 && WIDE_BELOW_NARROW[1] == 19;
    WideBelowNarrowDecided();
    WideFails();
    RecordedMargin(best);
  }

  /** The scan of that array: it reports, and the fail margin it reports is not the least one. */
  method ReportedMarginNotLeast() returns (r: ScanResult)
    ensures r.Report? && r.fail.margin > FailMargin(Unpack(19), Unpack(0), THREE_TO_ONE)
  {
    WideBelowNarrowDecided();
    BothMarginsExist();
    r := ScanThreshold(WIDE_BELOW_NARROW, 3, THREE_TO_ONE);
    FailMarginNotLeast(r.fail);
  }

  lemma BothMarginsExist()
    ensures !LeastPass(WIDE_BELOW_NARROW, 4, None, THREE_TO_ONE)
    ensures !LeastFail(WIDE_BELOW_NARROW, 4, None, 0, THREE_TO_ONE)
  {
    var xs, t := WIDE_BELOW_NARROW, THREE_TO_ONE;
    WideBelowNarrow();
    WideFails();
    assert xs[0] == 0 && xs[1] == 19 && xs[3] == 4 * Q;
    assert Orientation(Unpack(xs[3]), Unpack(xs[0]), t) == Pass;
    assert !PassesAtMost(xs, 0, 4, xs[0], None, t);
    assert !FailsAtMost(xs, 0, 4, xs[0], None, 0, t);
  }
}
