/** The k-way merge that lists every colour's packed luminance interval once, in order,
    and the full-domain check that joins it to the threshold scan. */
module Q55Domain {
  import opened Results
  import opened Q55Interval
  import opened Sorting
  import opened Sequences
  import Q55Scan

  const COLOR_COUNT: nat := 16777216
  const WORD_LIMIT: nat := 18446744073709551616

  type Table = seq<Interval>

  datatype BuildError = WidthOverflow | EmptyTable | WordOverflow | WrongCount

  /// One entry of the merge heap, ordered as a tuple.
  datatype Entry = Entry(packed: nat, code: nat, index: nat)

  predicate Before(a: Entry, b: Entry) {
    || a.packed < b.packed
    || (a.packed == b.packed && (a.code < b.code || (a.code == b.code && a.index <= b.index)))
  }

  predicate AllPackable(rows: seq<Interval>) {
    forall i :: 0 <= i < |rows| ==> Packable(rows[i])
  }

  function Shifted(first: Interval, rows: seq<Interval>): (s: seq<Interval>)
    ensures |s| == |rows| && forall i :: 0 <= i < |s| ==> s[i] == first.Plus(rows[i])
  {
    seq(|rows|, i requires 0 <= i < |rows| => first.Plus(rows[i]))
  }

  /** The sums of one red and one green row, red-major. */
  function Sums(red: Table, green: Table): seq<Interval> {
    if red == [] then [] else Shifted(red[0], green) + Sums(red[1..], green)
  }

  ghost predicate IsSum(s: Interval, red: Table, green: Table) {
    exists r, g :: r in red && g in green && s == r.Plus(g)
  }

  lemma {:induction false} SumsAre(red: Table, green: Table)
    ensures |Sums(red, green)| == |red| * |green|
    ensures forall s :: s in Sums(red, green) <==> IsSum(s, red, green)
  {
    if red != [] {
      SumsAre(red[1..], green);
      assert |red| * |green| == |red[1..]| * |green| + |green|;
      assert red == [red[0]] + red[1..];
      forall s | s in Sums(red, green) ensures IsSum(s, red, green) {
        if s in Shifted(red[0], green) {
          var i :| 0 <= i < |green| && s == red[0].Plus(green[i]);
          assert green[i] in green;
        } else {
          assert IsSum(s, red[1..], green);
        }
      }
      forall s | IsSum(s, red, green) ensures s in Sums(red, green) {
        var r, g :| r in red && g in green && s == r.Plus(g);
        if r == red[0] {
          var i :| 0 <= i < |green| && green[i] == g;
          assert Shifted(red[0], green)[i] == s;
        } else {
          assert r in red[1..];
          assert IsSum(s, red[1..], green);
        }
      }
    }
  }

  function PackAll(rows: seq<Interval>): (p: seq<nat>)
    requires AllPackable(rows)
    ensures |p| == |rows| && forall i :: 0 <= i < |p| ==> p[i] == Pack(rows[i])
  {
    seq(|rows|, i requires 0 <= i < |rows| => Pack(rows[i]))
  }

  lemma {:induction false} TotalBump(xs: seq<nat>, k: nat)
    requires k < |xs|
    ensures Total(xs[k := xs[k] + 1]) == Total(xs) + 1
  {
    var ys := xs[k := xs[k] + 1];
    if k == |xs| - 1 {
      assert ys[..|ys|-1] == xs[..|xs|-1];
    } else {
      assert ys[..|ys|-1] == xs[..|xs|-1][k := xs[k] + 1];
      TotalBump(xs[..|xs|-1], k);
    }
  }

  lemma {:induction false} TotalConstant(xs: seq<nat>, n: nat)
    requires forall i :: 0 <= i < |xs| ==> xs[i] == n
    ensures Total(xs) == n * |xs|
  {
    if xs != [] { TotalConstant(xs[..|xs|-1], n); }
  }

  lemma {:induction false} TotalBound(xs: seq<nat>, n: nat)
    requires forall i :: 0 <= i < |xs| ==> xs[i] <= n
    ensures Total(xs) <= n * |xs|
  {
    if xs != [] { TotalBound(xs[..|xs|-1], n); }
  }

  function EntryOf(rg: seq<nat>, blue: seq<nat>, b: nat, index: nat): Entry
    requires b < |blue| && index < |rg|
  {
    Entry(Stream(rg, blue[b], index), b, index)
  }

  /** The merge state: taken says how many sums of each blue code were consumed, and the heap
      holds exactly the next sum of every code that has one left. */
  ghost predicate HeapOk(heap: set<Entry>, taken: seq<nat>, rg: seq<nat>, blue: seq<nat>) {
    && |taken| == |blue|
    && (forall e :: e in heap ==>
          e.code < |blue| && e.index == taken[e.code] < |rg| && e == EntryOf(rg, blue, e.code, e.index))
    && (forall b :: 0 <= b < |taken| ==>
          taken[b] <= |rg| && (taken[b] < |rg| ==> EntryOf(rg, blue, b, taken[b]) in heap))
  }

  ghost predicate Above(heap: set<Entry>, bound: int) {
    forall e :: e in heap ==> bound <= e.packed
  }

  predicate Increasing(xs: seq<nat>) {
    forall i, k :: 0 <= i < k < |xs| ==> xs[i] < xs[k]
  }

  /** Element j of the sorted stream that one blue offset contributes. */
  function Stream(rg: seq<nat>, offset: nat, j: nat): nat
    requires j < |rg|
  {
    rg[j] + offset
  }

  ghost predicate IsPairSum(x: nat, rg: seq<nat>, blue: seq<nat>) {
    exists j, b :: 0 <= j < |rg| && 0 <= b < |blue| && x == Stream(rg, blue[b], j)
  }

  /** What the output holds: only sums, every sum taken so far, in increasing order up to previous. */
  ghost predicate OutputOk(unique: seq<nat>, previous: int, taken: seq<nat>, rg: seq<nat>, blue: seq<nat>) {
    && Increasing(unique)
    && previous == (if unique == [] then -1 else unique[|unique|-1])
    && (forall x :: x in unique ==> IsPairSum(x, rg, blue))
    && |taken| == |blue|
    && (forall b :: 0 <= b < |blue| ==> taken[b] <= |rg| && Emitted(unique, rg, blue[b], taken[b]))
  }

  ghost predicate Emitted(unique: seq<nat>, rg: seq<nat>, offset: nat, n: nat)
    requires n <= |rg|
  {
    forall j :: 0 <= j < n ==> Stream(rg, offset, j) in unique
  }

  lemma {:induction false} LeastExists(heap: set<Entry>)
    requires heap != {}
    ensures exists e :: e in heap && forall m :: m in heap ==> Before(e, m)
  {
    var x :| x in heap;
    if heap != {x} {
      LeastExists(heap - {x});
      var y :| y in heap - {x} && forall m :: m in heap - {x} ==> Before(y, m);
      var e := if Before(x, y) then x else y;
      forall m | m in heap ensures Before(e, m) {
        assert m == x || m in heap - {x};
      }
    }
  }

  /** The heap after its least entry has been consumed: popped when its stream is exhausted,
      replaced by the next entry of that stream otherwise. */
  function Advance(heap: set<Entry>, e: Entry, rg: seq<nat>, blue: seq<nat>): set<Entry>
    requires e.code < |blue|
  {
    if e.index + 1 >= |rg| then heap - {e}
    else heap - {e} + {EntryOf(rg, blue, e.code, e.index + 1)}
  }

  lemma HeapAdvances(heap: set<Entry>, e: Entry, taken: seq<nat>, rg: seq<nat>, blue: seq<nat>)
    requires HeapOk(heap, taken, rg, blue) && e in heap && Q55Scan.Sorted(rg)
    requires forall m :: m in heap ==> Before(e, m)
    ensures HeapOk(Advance(heap, e, rg, blue), taken[e.code := e.index + 1], rg, blue)
    ensures Above(Advance(heap, e, rg, blue), e.packed)
  {
  }

  function Append(unique: seq<nat>, previous: int, packed: nat): seq<nat> {
    if packed != previous then unique + [packed] else unique
  }

  lemma OutputAdvances(unique: seq<nat>, previous: int, e: Entry, taken: seq<nat>, rg: seq<nat>, blue: seq<nat>)
    requires OutputOk(unique, previous, taken, rg, blue)
    requires e.code < |blue| && e.index == taken[e.code] < |rg| && e.packed == rg[e.index] + blue[e.code]
    requires previous <= e.packed
    ensures OutputOk(Append(unique, previous, e.packed), e.packed, taken[e.code := e.index + 1], rg, blue)
  {
    var unique' := Append(unique, previous, e.packed);
    var taken' := taken[e.code := e.index + 1];
    assert e.packed == Stream(rg, blue[e.code], e.index);
    assert e.packed in unique' by { assert unique'[|unique'|-1] == e.packed; }
    forall b | 0 <= b < |blue| ensures Emitted(unique', rg, blue[b], taken'[b]) {
      assert Emitted(unique, rg, blue[b], taken[b]);
    }
  }

  /** Where the merge stands. */
  ghost predicate Merging(heap: set<Entry>, unique: seq<nat>, previous: int, generated: nat, taken: seq<nat>,
                          rg: seq<nat>, blue: seq<nat>)
  {
    && HeapOk(heap, taken, rg, blue) && Above(heap, previous)
    && OutputOk(unique, previous, taken, rg, blue)
    && generated == Total(taken) <= |rg| * |blue|
  }

  lemma MergeAdvances(heap: set<Entry>, unique: seq<nat>, previous: int, generated: nat, taken: seq<nat>,
                      rg: seq<nat>, blue: seq<nat>, e: Entry)
    requires Merging(heap, unique, previous, generated, taken, rg, blue) && Q55Scan.Sorted(rg)
    requires e in heap && forall m :: m in heap ==> Before(e, m)
    ensures e.code < |blue| == |taken| && IsPairSum(e.packed, rg, blue)
    ensures Merging(Advance(heap, e, rg, blue), Append(unique, previous, e.packed), e.packed, generated + 1,
                    taken[e.code := e.index + 1], rg, blue)
  {
    OutputAdvances(unique, previous, e, taken, rg, blue);
    HeapAdvances(heap, e, taken, rg, blue);
    assert e.packed == Stream(rg, blue[e.code], e.index);
    TotalBump(taken, e.code);
    TotalBound(taken[e.code := e.index + 1], |rg|);
  }

  /** The merge of the |blue| sorted streams rg + blue[b]. */
  method Merge(rg: seq<nat>, blue: seq<nat>) returns (r: Result<(seq<nat>, nat), BuildError>)
    requires rg != [] && Q55Scan.Sorted(rg)
    ensures r.Err? ==> r.error == WordOverflow && exists x :: IsPairSum(x, rg, blue) && WORD_LIMIT <= x
    ensures r.Ok? ==> Increasing(r.value.0) && r.value.1 == |rg| * |blue|
    ensures r.Ok? ==> forall x :: x in r.value.0 <==> IsPairSum(x, rg, blue)
  {
    var heap := set b | 0 <= b < |blue| :: EntryOf(rg, blue, b, 0);
    ghost var taken: seq<nat> := seq(|blue|, b => 0 as nat);
    TotalConstant(taken, 0);
    var unique: seq<nat>, previous: int, generated: nat := [], -1, 0;
    while heap != {}
      invariant Merging(heap, unique, previous, generated, taken, rg, blue)
      decreases |rg| * |blue| - generated
    {
      LeastExists(heap);
      var e :| e in heap && forall m :: m in heap ==> Before(e, m);
      MergeAdvances(heap, unique, previous, generated, taken, rg, blue, e);
      generated := generated + 1;
      if e.packed != previous && WORD_LIMIT <= e.packed { return Err(WordOverflow); }
      unique := Append(unique, previous, e.packed);
      previous := e.packed;
      heap := Advance(heap, e, rg, blue);
      taken := taken[e.code := e.index + 1];
    }
    MergeComplete(unique, previous, taken, rg, blue);
    r := Ok((unique, generated));
  }

  lemma MergeComplete(unique: seq<nat>, previous: int, taken: seq<nat>, rg: seq<nat>, blue: seq<nat>)
    requires HeapOk({}, taken, rg, blue) && OutputOk(unique, previous, taken, rg, blue)
    ensures Total(taken) == |rg| * |blue|
    ensures forall x :: x in unique <==> IsPairSum(x, rg, blue)
  {
    forall b | 0 <= b < |blue| ensures taken[b] == |rg| {
    }
    TotalConstant(taken, |rg|);
    forall x | IsPairSum(x, rg, blue) ensures x in unique {
      var j, b :| 0 <= j < |rg| && 0 <= b < |blue| && x == Stream(rg, blue[b], j);
      assert Emitted(unique, rg, blue[b], taken[b]);
    }
  }

  /** A colour's packed word as the merge forms it: a packed red-green sum plus a packed blue row. */
  ghost predicate IsColour(x: nat, red: Table, green: Table, blue: Table) {
    exists r, g, b :: IsColourOf(x, r, g, b, red, green, blue)
  }

  ghost predicate IsColourOf(x: nat, r: Interval, g: Interval, b: Interval, red: Table, green: Table, blue: Table) {
    && r in red && g in green && b in blue
    && Packable(r.Plus(g)) && Packable(b) && x == Pack(r.Plus(g)) + Pack(b)
  }

  lemma PairSumsAreColours(rg: seq<nat>, red: Table, green: Table, blue: Table)
    requires AllPackable(Sums(red, green)) && AllPackable(blue)
    requires multiset(rg) == multiset(PackAll(Sums(red, green)))
    ensures forall x :: IsPairSum(x, rg, PackAll(blue)) <==> IsColour(x, red, green, blue)
  {
    var sums, offsets := Sums(red, green), PackAll(blue);
    SumsAre(red, green);
    PermutationMembers(rg, PackAll(sums));
    forall x | IsPairSum(x, rg, offsets) ensures IsColour(x, red, green, blue) {
      var j, k :| 0 <= j < |rg| && 0 <= k < |offsets| && x == Stream(rg, offsets[k], j);
      assert rg[j] in PackAll(sums);
      var i :| 0 <= i < |sums| && Pack(sums[i]) == rg[j];
      assert IsSum(sums[i], red, green);
      var r, g :| r in red && g in green && sums[i] == r.Plus(g);
      assert IsColourOf(x, r, g, blue[k], red, green, blue);
    }
    forall x | IsColour(x, red, green, blue) ensures IsPairSum(x, rg, offsets) {
      var r, g, b :| IsColourOf(x, r, g, b, red, green, blue);
      assert IsSum(r.Plus(g), red, green);
      var i :| 0 <= i < |sums| && sums[i] == r.Plus(g);
      var k :| 0 <= k < |blue| && blue[k] == b;
      assert PackAll(sums)[i] in rg;
      var j :| 0 <= j < |rg| && rg[j] == PackAll(sums)[i];
      assert x == Stream(rg, offsets[k], j);
    }
  }

  /** Lists every colour once: the output increases strictly, holds exactly the packed colours,
      and was produced by visiting each of the |R|*|G|*|B| colours once. */
  method BuildUniqueColorIntervals(red: Table, green: Table, blue: Table)
    returns (r: Result<(seq<nat>, nat), BuildError>)
    ensures r.Ok? ==> AllPackable(Sums(red, green)) && AllPackable(blue)
    ensures r.Ok? ==> Increasing(r.value.0) && r.value.1 == |red| * |green| * |blue| == COLOR_COUNT
    ensures r.Ok? ==> forall x :: x in r.value.0 <==> IsColour(x, red, green, blue)
    ensures r.Err? && r.error == WidthOverflow <==> !AllPackable(Sums(red, green)) || !AllPackable(blue)
    ensures r.Err? && r.error == WordOverflow ==> exists x :: IsColour(x, red, green, blue) && WORD_LIMIT <= x
    ensures r.Err? && (r.error == WrongCount || r.error == EmptyTable) ==> |red| * |green| * |blue| != COLOR_COUNT
  {
    var sums := Sums(red, green);
    SumsAre(red, green);
    if !AllPackable(sums) || !AllPackable(blue) { return Err(WidthOverflow); }
    var le := (a: nat, b: nat) => a <= b;
    var rg := Sort(PackAll(sums), le);
    SortSorts(PackAll(sums), le);
    PermutationMembers(rg, PackAll(sums));
    assert |rg| == |red| * |green|;
    if blue == [] { return Err(WrongCount); }
    if rg == [] { return Err(EmptyTable); }
    var merged := Merge(rg, PackAll(blue));
    PairSumsAreColours(rg, red, green, blue);
    if merged.Err? { return merged; }
    if merged.value.1 != COLOR_COUNT { return Err(WrongCount); }
    r := merged;
  }

  function MaxWidth(table: Table): int
    requires table != []
  {
    if |table| == 1 then table[0].Width()
    else
      var rest := MaxWidth(table[1..]);
      if rest < table[0].Width() then table[0].Width() else rest
  }

  lemma {:induction false} MaxWidthBounds(table: Table)
    requires table != []
    ensures forall row :: row in table ==> row.Width() <= MaxWidth(table)
    ensures exists row :: row in table && row.Width() == MaxWidth(table)
  {
    assert table[0] in table;
    if |table| > 1 {
      MaxWidthBounds(table[1..]);
      assert table == [table[0]] + table[1..];
      var row :| row in table[1..] && row.Width() == MaxWidth(table[1..]);
      assert row in table;
    }
  }

  function WidthBound(red: Table, green: Table, blue: Table): int
    requires red != [] && green != [] && blue != []
  {
    MaxWidth(red) + MaxWidth(green) + MaxWidth(blue)
  }

  function ColourInterval(r: Interval, g: Interval, b: Interval): Interval {
    r.Plus(g).Plus(b)
  }

  /** Below the width mask a packed colour word unpacks to the sum of its three rows. */
  lemma ColourUnpacks(x: nat, r: Interval, g: Interval, b: Interval, red: Table, green: Table, blue: Table)
    requires red != [] && green != [] && blue != []
    requires MaxWidth(red) + MaxWidth(green) + MaxWidth(blue) <= PACK_WIDTH_MASK
    requires IsColourOf(x, r, g, b, red, green, blue)
    ensures Unpack(x) == ColourInterval(r, g, b)
    ensures Unpack(x).Width() <= MaxWidth(red) + MaxWidth(green) + MaxWidth(blue)
  {
    MaxWidthBounds(red);
    MaxWidthBounds(green);
    MaxWidthBounds(blue);
    PackedSum(r.Plus(g), b);
  }

  ghost predicate EveryColourPairDecided(red: Table, green: Table, blue: Table, t: Threshold) {
    forall r, g, b, r', g', b' |
      r in red && g in green && b in blue && r' in red && g' in green && b' in blue ::
      PairDecision(ColourInterval(r, g, b), ColourInterval(r', g', b'), t) != Unresolved
  }

  ghost predicate IsColourInterval(i: Interval, red: Table, green: Table, blue: Table) {
    exists r, g, b :: r in red && g in green && b in blue && i == ColourInterval(r, g, b)
  }

  /** No two colours, the first taken for the lighter, have this verdict. */
  ghost predicate NoPairHas(v: Verdict, red: Table, green: Table, blue: Table, t: Threshold) {
    forall i, j | IsColourInterval(i, red, green, blue) && IsColourInterval(j, red, green, blue) ::
      Orientation(i, j, t) != v
  }

  ghost predicate PassMarginsFrom(margin: int, red: Table, green: Table, blue: Table, t: Threshold) {
    forall i, j | IsColourInterval(i, red, green, blue) && IsColourInterval(j, red, green, blue) ::
      Orientation(i, j, t) == Pass ==> margin <= PassMargin(i, j, t)
  }

  ghost predicate FailMarginsFrom(margin: int, red: Table, green: Table, blue: Table, t: Threshold) {
    forall i, j | IsColourInterval(i, red, green, blue) && IsColourInterval(j, red, green, blue) ::
      Orientation(i, j, t) == Fail ==> margin <= FailMargin(i, j, t)
  }

  /** A recorded pair is one of colours, with the verdict and the margin it is recorded for. */
  ghost predicate IsRecord(best: Q55Scan.Best, v: Verdict, red: Table, green: Table, blue: Table, t: Threshold) {
    && IsColour(best.lighter, red, green, blue) && IsColour(best.darker, red, green, blue)
    && DecisionMargin(Unpack(best.lighter), Unpack(best.darker), t) == Some((v, best.margin))
  }

  /** The colours listed once each, in the order of their words. */
  ghost predicate IsListing(xs: seq<nat>, red: Table, green: Table, blue: Table) {
    Increasing(xs) && forall x :: x in xs <==> IsColour(x, red, green, blue)
  }

  /** What the scan's answer says of all pairs of colours. */
  ghost predicate AnswersFor(r: Q55Scan.ScanResult, width: int, red: Table, green: Table, blue: Table, t: Threshold)
    requires t.Usable() && 0 <= width
  {
    match r
    case UnresolvedPair(lighter, darker) =>
      && IsColour(lighter, red, green, blue) && IsColour(darker, red, green, blue)
      && PairDecision(Unpack(lighter), Unpack(darker), t) == Unresolved
    case NoPassMargin => NoPairHas(Pass, red, green, blue, t)
    case NoFailMargin => NoPairHas(Fail, red, green, blue, t)
    case Report(checks, pass, fail) =>
      && IsRecord(pass, Pass, red, green, blue, t) && PassMarginsFrom(pass.margin, red, green, blue, t)
      && IsRecord(fail, Fail, red, green, blue, t)
      && FailMarginsFrom(fail.margin - t.light * width, red, green, blue, t)
      && exists xs :: IsListing(xs, red, green, blue) && checks == |Q55Scan.BandPairs(xs, width, t)|
  }

  datatype DomainVerdict =
    | NotBuilt(error: BuildError)
    | TooWide
    | Scanned(colors: nat, result: Q55Scan.ScanResult)

  /** The whole check for one threshold: build the colour list, bound its widths, scan it.
      The scan comes back without an unresolved pair exactly when all pairs of colours, the
      square of the colour count many, are decided by the two-orientation test. It scans unless
      some width does not fit its bits, some colour its word, or the colours are not as many as
      they should be. */
  method VerifyDomain(red: Table, green: Table, blue: Table, t: Threshold) returns (v: DomainVerdict)
    requires t.Usable()
    ensures v == NotBuilt(WidthOverflow) <==> !AllPackable(Sums(red, green)) || !AllPackable(blue)
    ensures v == NotBuilt(WordOverflow) ==> exists x :: IsColour(x, red, green, blue) && 0x1_0000_0000_0000_0000 <= x
    ensures v == NotBuilt(WrongCount) || v == NotBuilt(EmptyTable) ==> |red| * |green| * |blue| != 256 * 256 * 256
    ensures v == TooWide ==>
      && red != [] && green != [] && blue != []
      && PACK_WIDTH_MASK < WidthBound(red, green, blue)
    ensures v.Scanned? ==>
      && red != [] && green != [] && blue != [] && 0 <= WidthBound(red, green, blue) <= PACK_WIDTH_MASK
      && AnswersFor(v.result, WidthBound(red, green, blue), red, green, blue, t)
    ensures v.Scanned? ==> v.colors == 256 * 256 * 256
    ensures v.Scanned? ==> (!v.result.UnresolvedPair? <==> EveryColourPairDecided(red, green, blue, t))
  {
    var built := BuildUniqueColorIntervals(red, green, blue);
    if built.Err? { return NotBuilt(built.error); }
    var xs := built.value.0;
    NonEmptyTables(|red|, |green|, |blue|);
    var maxWidth := WidthBound(red, green, blue);
    if maxWidth > PACK_WIDTH_MASK { return TooWide; }
    forall i | 0 <= i < |xs| ensures Unpack(xs[i]).Width() <= maxWidth {
      assert IsColour(xs[i], red, green, blue);
      var r, g, b :| IsColourOf(xs[i], r, g, b, red, green, blue);
      ColourUnpacks(xs[i], r, g, b, red, green, blue);
    }
    WidthNonNegative(red, green, blue);
    var result := Q55Scan.ScanThreshold(xs, maxWidth, t);
    DecidedOnColours(xs, red, green, blue, t);
    AnswerIsForColours(xs, result, maxWidth, red, green, blue, t);
    v := Scanned(built.value.1, result);
  }

  /** What holds over the listed words holds over all pairs of colours. */
  lemma AnswerIsForColours(xs: seq<nat>, r: Q55Scan.ScanResult, width: nat, red: Table, green: Table, blue: Table,
                           t: Threshold)
    requires red != [] && green != [] && blue != [] && t.Usable()
    requires AllPackable(Sums(red, green)) && AllPackable(blue)
    requires width == WidthBound(red, green, blue) <= PACK_WIDTH_MASK && IsListing(xs, red, green, blue)
    requires Q55Scan.Answers(r, xs, width, t)
    ensures AnswersFor(r, width, red, green, blue, t)
  {
    match r
    case UnresolvedPair(_, _) =>
    case NoPassMargin => PassesOnColours(xs, None, red, green, blue, t);
    case NoFailMargin => FailsOnColours(xs, None, 0, red, green, blue, t);
    case Report(checks, pass, fail) =>
      PassesOnColours(xs, Some(pass), red, green, blue, t);
      FailsOnColours(xs, Some(fail), t.light * width, red, green, blue, t);
  }

  lemma PassesOnColours(xs: seq<nat>, best: Option<Q55Scan.Best>, red: Table, green: Table, blue: Table, t: Threshold)
    requires red != [] && green != [] && blue != []
    requires AllPackable(Sums(red, green)) && AllPackable(blue)
    requires WidthBound(red, green, blue) <= PACK_WIDTH_MASK && IsListing(xs, red, green, blue)
    requires Q55Scan.LeastPass(xs, |xs|, best, t)
    ensures best == None ==> NoPairHas(Pass, red, green, blue, t)
    ensures best.Some? ==> PassMarginsFrom(best.value.margin, red, green, blue, t)
  {
    forall i, j | IsColourInterval(i, red, green, blue) && IsColourInterval(j, red, green, blue)
      ensures Orientation(i, j, t) == Pass ==> best.Some? && best.value.margin <= PassMargin(i, j, t)
    {
      var n := IntervalIndex(xs, i, red, green, blue);
      var k := IntervalIndex(xs, j, red, green, blue);
      assert Q55Scan.PassesAtMost(xs, 0, |xs|, xs[k], best, t);
    }
  }

  lemma FailsOnColours(xs: seq<nat>, best: Option<Q55Scan.Best>, slack: int, red: Table, green: Table, blue: Table,
                       t: Threshold)
    requires red != [] && green != [] && blue != []
    requires AllPackable(Sums(red, green)) && AllPackable(blue)
    requires WidthBound(red, green, blue) <= PACK_WIDTH_MASK && IsListing(xs, red, green, blue)
    requires Q55Scan.LeastFail(xs, |xs|, best, slack, t)
    ensures best == None ==> NoPairHas(Fail, red, green, blue, t)
    ensures best.Some? ==> FailMarginsFrom(best.value.margin - slack, red, green, blue, t)
  {
    forall i, j | IsColourInterval(i, red, green, blue) && IsColourInterval(j, red, green, blue)
      ensures Orientation(i, j, t) == Fail ==> best.Some? && best.value.margin - slack <= FailMargin(i, j, t)
    {
      var n := IntervalIndex(xs, i, red, green, blue);
      var k := IntervalIndex(xs, j, red, green, blue);
      assert Q55Scan.FailsAtMost(xs, 0, |xs|, xs[k], best, slack, t);
    }
  }

  lemma IntervalIndex(xs: seq<nat>, i: Interval, red: Table, green: Table, blue: Table) returns (n: nat)
    requires red != [] && green != [] && blue != []
    requires AllPackable(Sums(red, green)) && AllPackable(blue)
    requires WidthBound(red, green, blue) <= PACK_WIDTH_MASK && IsListing(xs, red, green, blue)
    requires IsColourInterval(i, red, green, blue)
    ensures n < |xs| && Unpack(xs[n]) == i
  {
    var r, g, b :| r in red && g in green && b in blue && i == ColourInterval(r, g, b);
    n := ColourIndex(xs, r, g, b, red, green, blue);
  }

  lemma NonEmptyTables(r: nat, g: nat, b: nat)
    requires r * g * b == COLOR_COUNT
    ensures 0 < r && 0 < g && 0 < b
  {
  }

  lemma WidthNonNegative(red: Table, green: Table, blue: Table)
    requires red != [] && green != [] && blue != []
    requires AllPackable(Sums(red, green)) && AllPackable(blue)
    ensures 0 <= MaxWidth(red) + MaxWidth(green) + MaxWidth(blue)
  {
    SumsAre(red, green);
    assert IsSum(red[0].Plus(green[0]), red, green);
    MaxWidthBounds(red);
    MaxWidthBounds(green);
    MaxWidthBounds(blue);
  }

  lemma DecidedOnColours(xs: seq<nat>, red: Table, green: Table, blue: Table, t: Threshold)
    requires red != [] && green != [] && blue != []
    requires AllPackable(Sums(red, green)) && AllPackable(blue)
    requires MaxWidth(red) + MaxWidth(green) + MaxWidth(blue) <= PACK_WIDTH_MASK
    requires forall x :: x in xs <==> IsColour(x, red, green, blue)
    ensures Q55Scan.AllDecided(xs, t) <==> EveryColourPairDecided(red, green, blue, t)
  {
    SumsAre(red, green);
    if Q55Scan.AllDecided(xs, t) {
      forall r, g, b, r', g', b' | r in red && g in green && b in blue && r' in red && g' in green && b' in blue
        ensures PairDecision(ColourInterval(r, g, b), ColourInterval(r', g', b'), t) != Unresolved
      {
        var i := ColourIndex(xs, r, g, b, red, green, blue);
        var k := ColourIndex(xs, r', g', b', red, green, blue);
        assert Q55Scan.Decided(xs[i], xs[k], t);
      }
    }
    if EveryColourPairDecided(red, green, blue, t) {
      forall i, k | 0 <= i < |xs| && 0 <= k < |xs| ensures Q55Scan.Decided(xs[i], xs[k], t) {
        assert IsColour(xs[i], red, green, blue) && IsColour(xs[k], red, green, blue);
        var r, g, b :| IsColourOf(xs[i], r, g, b, red, green, blue);
        var r', g', b' :| IsColourOf(xs[k], r', g', b', red, green, blue);
        ColourUnpacks(xs[i], r, g, b, red, green, blue);
        ColourUnpacks(xs[k], r', g', b', red, green, blue);
      }
    }
  }

  lemma ColourIndex(xs: seq<nat>, r: Interval, g: Interval, b: Interval, red: Table, green: Table, blue: Table)
    returns (i: nat)
    requires r in red && g in green && b in blue
    requires AllPackable(Sums(red, green)) && AllPackable(blue)
    requires MaxWidth(red) + MaxWidth(green) + MaxWidth(blue) <= PACK_WIDTH_MASK
    requires forall x :: x in xs <==> IsColour(x, red, green, blue)
    ensures i < |xs| && Unpack(xs[i]) == ColourInterval(r, g, b)
  {
    SumsAre(red, green);
    assert IsSum(r.Plus(g), red, green);
    var x := Pack(r.Plus(g)) + Pack(b);
    assert IsColourOf(x, r, g, b, red, green, blue);
    ColourUnpacks(x, r, g, b, red, green, blue);
    assert x in xs;
    i :| i < |xs| && xs[i] == x;
  }
}
