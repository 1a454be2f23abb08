/** Sets of sRGB8 codes as lists of ranges, and the conversion in both directions. */
module CodeRanges {
  import opened Results

  datatype RangeError = Unordered | NotAscending

  datatype CodeRange = CodeRange(first: int, last: int)

  function Front<T>(xs: seq<T>): seq<T>
    requires xs != []
  {
    xs[..|xs|-1]
  }

  function Last<T>(xs: seq<T>): T
    requires xs != []
  {
    xs[|xs|-1]
  }

  predicate Ascending(codes: seq<int>) {
    forall i, k :: 0 <= i < k < |codes| ==> codes[i] < codes[k]
  }

  predicate InByte(codes: seq<int>) {
    forall i :: 0 <= i < |codes| ==> 0 <= codes[i] <= 255
  }

  predicate RangeOk(range: CodeRange, previousEnd: int) {
    0 <= range.first <= range.last <= 255 && previousEnd < range.first
  }

  function PreviousEnd(ranges: seq<CodeRange>): int {
    if ranges == [] then -1 else Last(ranges).last
  }

  /** Ordered, disjoint ranges of sRGB8 codes. */
  predicate WellFormed(ranges: seq<CodeRange>) {
    ranges == [] || (WellFormed(Front(ranges)) && RangeOk(Last(ranges), PreviousEnd(Front(ranges))))
  }

  /** No two neighbouring ranges touch. */
  predicate Gapped(ranges: seq<CodeRange>) {
    |ranges| < 2 || (Gapped(Front(ranges)) && Last(Front(ranges)).last + 1 < Last(ranges).first)
  }

  /** The codes of a range up to its n-th. */
  function Span(first: int, n: nat): seq<int> { seq(n, i => first + i) }

  function SpanOf(range: CodeRange): seq<int>
    requires range.first <= range.last
  {
    Span(range.first, range.last - range.first + 1)
  }

  /** The codes the ranges stand for, in order. */
  function Codes(ranges: seq<CodeRange>): seq<int>
    requires WellFormed(ranges)
  {
    if ranges == [] then [] else Codes(Front(ranges)) + SpanOf(Last(ranges))
  }

  lemma ExtendWellFormed(ranges: seq<CodeRange>, range: CodeRange)
    requires WellFormed(ranges)
    ensures WellFormed(ranges + [range]) <==> RangeOk(range, PreviousEnd(ranges))
    ensures RangeOk(range, PreviousEnd(ranges)) ==> Codes(ranges + [range]) == Codes(ranges) + SpanOf(range)
  {
    assert Front(ranges + [range]) == ranges;
  }

  lemma {:induction false} PrefixWellFormed(ranges: seq<CodeRange>, n: nat)
    requires WellFormed(ranges) && n <= |ranges|
    ensures WellFormed(ranges[..n])
  {
    if n < |ranges| {
      PrefixWellFormed(Front(ranges), n);
      assert Front(ranges)[..n] == ranges[..n];
    } else {
      assert ranges[..n] == ranges;
    }
  }

  /** Maximal runs of consecutive codes. */
  function Runs(codes: seq<int>): seq<CodeRange> {
    if codes == [] then [] else Extended(Runs(Front(codes)), Last(codes))
  }

  function Extended(runs: seq<CodeRange>, code: int): seq<CodeRange> {
    if runs != [] && Last(runs).last + 1 == code then Front(runs) + [CodeRange(Last(runs).first, code)]
    else runs + [CodeRange(code, code)]
  }

  method ExpandRanges(ranges: seq<CodeRange>) returns (r: Result<seq<int>, RangeError>)
    ensures r.Ok? <==> WellFormed(ranges)
    ensures r.Ok? ==> r.value == Codes(ranges)
  {
    var result: seq<int> := [];
    var previousEnd := -1;
    for n := 0 to |ranges|
      invariant WellFormed(ranges[..n]) && result == Codes(ranges[..n]) && previousEnd == PreviousEnd(ranges[..n])
    {
      ExtendWellFormed(ranges[..n], ranges[n]);
      assert ranges[..n+1] == ranges[..n] + [ranges[n]];
      if !RangeOk(ranges[n], previousEnd) {
        if WellFormed(ranges) { PrefixWellFormed(ranges, n + 1); }
        return Err(Unordered);
      }
      result := result + SpanOf(ranges[n]);
      previousEnd := ranges[n].last;
    }
    assert ranges[..|ranges|] == ranges;
    r := Ok(result);
  }

  method CompressRanges(codes: seq<int>) returns (r: Result<seq<CodeRange>, RangeError>)
    ensures r.Ok? <==> Ascending(codes)
    ensures r.Ok? ==> r.value == Runs(codes)
  {
    if !Ascending(codes) { return Err(NotAscending); }
    if codes == [] { return Ok([]); }
    var result: seq<CodeRange> := [];
    var start, previous := codes[0], codes[0];
    assert codes[..1] == [codes[0]] && Front([codes[0]]) == [];
    for n := 1 to |codes|
      invariant previous == codes[n-1] && Runs(codes[..n]) == result + [CodeRange(start, previous)]
    {
      assert Front(codes[..n+1]) == codes[..n];
      if codes[n] == previous + 1 {
        previous := codes[n];
      } else {
        result := result + [CodeRange(start, previous)];
        start, previous := codes[n], codes[n];
      }
    }
    assert codes[..|codes|] == codes;
    r := Ok(result + [CodeRange(start, previous)]);
  }

  /** Expanding the runs of an ascending list of codes gives the list back. */
  lemma {:induction false} RunsExpandBack(codes: seq<int>)
    requires Ascending(codes) && InByte(codes)
    ensures WellFormed(Runs(codes)) && Gapped(Runs(codes)) && Codes(Runs(codes)) == codes
    ensures codes != [] ==> Runs(codes) != [] && PreviousEnd(Runs(codes)) == Last(codes)
  {
    if codes != [] {
      RunsExpandBack(Front(codes));
      ExtendedExpands(Runs(Front(codes)), Last(codes));
      assert codes == Front(codes) + [Last(codes)];
    }
  }

  ghost predicate OneCodeMore(longer: seq<CodeRange>, runs: seq<CodeRange>, code: int)
    requires WellFormed(runs)
  {
    WellFormed(longer) && Gapped(longer) && PreviousEnd(longer) == code && Codes(longer) == Codes(runs) + [code]
  }

  lemma ExtendedExpands(runs: seq<CodeRange>, code: int)
    requires WellFormed(runs) && Gapped(runs) && PreviousEnd(runs) < code <= 255 && 0 <= code
    ensures OneCodeMore(Extended(runs, code), runs, code)
  {
    if runs != [] && Last(runs).last + 1 == code {
      LongerRun(runs, Front(runs), Last(runs), code);
    } else {
      NewRun(runs, code);
    }
  }

  lemma NewRun(runs: seq<CodeRange>, code: int)
    requires WellFormed(runs) && Gapped(runs) && PreviousEnd(runs) < code <= 255 && 0 <= code
    requires runs != [] ==> Last(runs).last + 1 < code
    ensures OneCodeMore(runs + [CodeRange(code, code)], runs, code)
  {
    ExtendWellFormed(runs, CodeRange(code, code));
    ExtendGapped(runs, CodeRange(code, code));
    assert SpanOf(CodeRange(code, code)) == [code];
  }

  lemma LongerRun(runs: seq<CodeRange>, rest: seq<CodeRange>, run: CodeRange, code: int)
    requires WellFormed(runs) && Gapped(runs) && runs == rest + [run] && run.last + 1 == code <= 255
    ensures OneCodeMore(rest + [CodeRange(run.first, code)], runs, code)
  {
    var next := CodeRange(run.first, code);
    assert Front(runs) == rest;
    ExtendWellFormed(rest, run);
    ExtendWellFormed(rest, next);
    ExtendGapped(rest, run);
    ExtendGapped(rest, next);
    LongerSpan(run, code);
    assert Codes(rest) + (SpanOf(run) + [code]) == Codes(rest) + SpanOf(run) + [code];
  }

  lemma LongerSpan(run: CodeRange, code: int)
    requires run.first <= run.last && run.last + 1 == code
    ensures SpanOf(CodeRange(run.first, code)) == SpanOf(run) + [code]
  {
  }

  lemma ExtendGapped(runs: seq<CodeRange>, run: CodeRange)
    ensures Gapped(runs + [run]) <==> runs == [] || (Gapped(runs) && Last(runs).last + 1 < run.first)
  {
    assert Front(runs + [run]) == runs;
  }

  /** Compressing expanded ranges gives the ranges back exactly when no two of them touch. */
  lemma CodesCompressBack(ranges: seq<CodeRange>)
    requires WellFormed(ranges)
    ensures Runs(Codes(ranges)) == ranges <==> Gapped(ranges)
  {
    CodesAscend(ranges);
    RunsExpandBack(Codes(ranges));
    if Gapped(ranges) { GappedCompressBack(ranges); }
  }

  lemma {:induction false} CodesAscend(ranges: seq<CodeRange>)
    requires WellFormed(ranges)
    ensures Ascending(Codes(ranges)) && InByte(Codes(ranges))
    ensures ranges != [] ==> Codes(ranges) != [] && Last(Codes(ranges)) == PreviousEnd(ranges)
  {
    if ranges != [] {
      var codes := Codes(Front(ranges));
      CodesAscend(Front(ranges));
      forall i | 0 <= i < |codes| ensures codes[i] <= PreviousEnd(Front(ranges)) {
        assert codes[i] <= Last(codes);
      }
    }
  }

  lemma {:induction false} GappedCompressBack(ranges: seq<CodeRange>)
    requires WellFormed(ranges) && Gapped(ranges)
    ensures Runs(Codes(ranges)) == ranges
  {
    if ranges != [] {
      var rest, range := Front(ranges), Last(ranges);
      GappedCompressBack(rest);
      RunsOfSpan(Codes(rest), range.first, range.last - range.first + 1);
      assert ranges == rest + [range];
    }
  }

  lemma {:induction false} RunsOfSpan(codes: seq<int>, first: int, n: nat)
    requires 0 < n && (Runs(codes) != [] ==> PreviousEnd(Runs(codes)) + 1 < first)
    ensures Runs(codes + Span(first, n)) == Runs(codes) + [CodeRange(first, first + n - 1)]
  {
    var all := codes + Span(first, n);
    assert Front(all) == codes + Span(first, n - 1);
    if n == 1 {
      assert Front(all) == codes;
    } else {
      RunsOfSpan(codes, first, n - 1);
      assert Front(Runs(codes) + [CodeRange(first, first + n - 2)]) == Runs(codes);
    }
  }
}
