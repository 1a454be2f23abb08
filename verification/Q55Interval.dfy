/** Fixed-point luminance intervals in units of 1/Q, their packed form, and the
    three-valued contrast decision on a pair of intervals. */
module Q55Interval {
  import opened Products
  import opened Results

  /// 1 << 55
  const Q: int := 36028797018963968

  /// 1 << PACK_WIDTH_BITS with PACK_WIDTH_BITS == 2, and the mask one below it
  const PACK_BASE: nat := 4
  const PACK_WIDTH_MASK: nat := 3

  datatype Interval = Interval(lower: nat, upper: int) {
    predicate Ordered() { lower <= upper }

    function Width(): int { upper - lower }

    function Plus(other: Interval): Interval {
      Interval(lower + other.lower, upper + other.upper)
    }
  }

  predicate Packable(i: Interval) {
    0 <= i.Width() <= PACK_WIDTH_MASK
  }

  function Pack(i: Interval): nat
    requires Packable(i)
  {
    i.lower * PACK_BASE + i.Width()
  }

  function Unpack(packed: nat): (i: Interval)
    ensures Packable(i) && Pack(i) == packed
  {
    Interval(packed / PACK_BASE, packed / PACK_BASE + packed % PACK_BASE)
  }

  lemma UnpackPack(i: Interval)
    requires Packable(i)
    ensures Unpack(Pack(i)) == i
  {
    assert Pack(i) / PACK_BASE == i.lower;
  }

  /** Packed words are ordered by lower end, then by upper end. */
  lemma PackOrder(a: Interval, b: Interval)
    requires Packable(a) && Packable(b)
    ensures Pack(a) <= Pack(b) <==> a.lower < b.lower || (a.lower == b.lower && a.upper <= b.upper)
  {
  }

  /** Adding packed words adds the intervals exactly when the widths leave no carry
      into the lower end. */
  lemma PackedSum(a: Interval, b: Interval)
    requires Packable(a) && Packable(b)
    ensures Unpack(Pack(a) + Pack(b)) == a.Plus(b) <==> a.Width() + b.Width() <= PACK_WIDTH_MASK
  {
    if a.Width() + b.Width() <= PACK_WIDTH_MASK {
      assert Pack(a) + Pack(b) == Pack(a.Plus(b));
      UnpackPack(a.Plus(b));
    }
  }

  datatype Threshold = Threshold(light: int, dark: int, offset: int) {
    /** What every profile-derived threshold satisfies. */
    predicate Usable() { 0 < light && 0 <= dark }
  }

  datatype Verdict = Pass | Fail | Unresolved

  function PassMargin(lighter: Interval, darker: Interval, t: Threshold): int {
    t.light * lighter.lower - t.dark * darker.upper - t.offset * Q
  }

  function FailMargin(lighter: Interval, darker: Interval, t: Threshold): int {
    t.dark * darker.lower + t.offset * Q - t.light * lighter.upper
  }

  function Orientation(lighter: Interval, darker: Interval, t: Threshold): Verdict {
    var passRhs := t.dark * darker.upper + t.offset * Q;
    var failRhs := t.dark * darker.lower + t.offset * Q;
    var passes := t.light * lighter.lower >= passRhs;
    var fails := t.light * lighter.upper < failRhs;
    if passes && !fails then Pass
    else if fails && !passes then Fail
    else Unresolved
  }

  function PairDecision(first: Interval, second: Interval, t: Threshold): Verdict {
    var forward := Orientation(first, second, t);
    var reverse := Orientation(second, first, t);
    if forward == Pass || reverse == Pass then Pass
    else if forward == Fail && reverse == Fail then Fail
    else Unresolved
  }

  function DecisionMargin(lighter: Interval, darker: Interval, t: Threshold): Option<(Verdict, int)> {
    match Orientation(lighter, darker, t)
    case Pass => Some((Pass, PassMargin(lighter, darker, t)))
    case Fail => Some((Fail, FailMargin(lighter, darker, t)))
    case Unresolved => None
  }

  /** On ordered intervals the two tests exclude each other, so the verdict is the sign of a margin. */
  lemma OrientationByMargins(l: Interval, d: Interval, t: Threshold)
    requires t.Usable() && l.Ordered() && d.Ordered()
    ensures Orientation(l, d, t) == Pass <==> PassMargin(l, d, t) >= 0
    ensures Orientation(l, d, t) == Fail <==> FailMargin(l, d, t) > 0
  {
    MulMono(t.light, l.lower, l.upper);
    MulMono(t.dark, d.lower, d.upper);
  }
}
