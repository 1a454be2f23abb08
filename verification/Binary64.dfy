/** IEEE 754 binary64 as exact dyadic integers: decoding, and rounding to nearest with
    ties to even in integer arithmetic. */
module Binary64 {
  import opened Bits
  import opened Products
  import opened Results

  const TWO52: nat := 4503599627370496
  const TWO53: nat := 9007199254740992

  lemma Pow2Values()
    ensures Pow2(52) == TWO52 && Pow2(53) == TWO53
  {
    assert Pow2(10) == 1024;
    Pow2Add(10, 10);
    Pow2Add(20, 20);
    Pow2Add(40, 10);
    Pow2Add(50, 2);
    Pow2Add(50, 3);
  }

  /// ------------------------------------------------------------ integer round-half-even

  /** The integer nearest to n / d, ties to even. */
  function HalfEven(n: nat, d: nat): nat
    requires 0 < d
  {
    var q, r := n / d, n % d;
    if 2 * r > d || (2 * r == d && q % 2 == 1) then q + 1 else q
  }

  /** What that means, without reference to quotients. */
  predicate IsHalfEven(n: int, d: int, r: int) {
    var gap := 2 * (n - r * d);
    -d <= gap <= d && (gap == d || gap == -d ==> r % 2 == 0)
  }

  lemma HalfEvenIs(n: nat, d: nat)
    requires 0 < d
    ensures IsHalfEven(n, d, HalfEven(n, d))
  {
    var q, r := n / d, n % d;
    assert n == q * d + r;
    assert (q + 1) * d == q * d + d;
  }

  lemma HalfEvenMonotone(n: int, n': int, d: int, r: int, r': int)
    requires 0 < d && n <= n' && IsHalfEven(n, d, r) && IsHalfEven(n', d, r')
    ensures r <= r'
  {
    if r' < r {
      MulMono(d, 1, r - r');
    }
  }

  lemma HalfEvenUnique(n: int, d: int, r: int, r': int)
    requires 0 < d && IsHalfEven(n, d, r) && IsHalfEven(n, d, r')
    ensures r == r'
  {
    HalfEvenMonotone(n, n, d, r, r');
    HalfEvenMonotone(n, n, d, r', r);
  }

  lemma HalfEvenMultiple(k: nat, d: nat)
    requires 0 < d
    ensures HalfEven(k * d, d) == k
  {
    HalfEvenIs(k * d, d);
    HalfEvenUnique(k * d, d, k, HalfEven(k * d, d));
  }

  lemma ScaledGap(n: int, d: int, r: int, c: nat)
    requires 0 < c && IsHalfEven(n, d, r)
    ensures IsHalfEven(n * c, d * c, r)
  {
    var gap := 2 * (n - r * d);
    assert 2 * (n * c - r * (d * c)) == c * gap;
    MulMono(c, -d, gap);
    MulMono(c, gap, d);
    assert c * -d == -(d * c);
  }

  lemma HalfEvenScaled(n: nat, d: nat, c: nat)
    requires 0 < d && 0 < c
    ensures 0 < d * c && HalfEven(n * c, d * c) == HalfEven(n, d)
  {
    MulMono(c, 1, d);
    var r := HalfEven(n, d);
    HalfEvenIs(n, d);
    HalfEvenIs(n * c, d * c);
    ScaledGap(n, d, r, c);
    HalfEvenUnique(n * c, d * c, r, HalfEven(n * c, d * c));
  }

  /// ------------------------------------------------------------ 53-bit rounding

  /** How many low bits do not fit a 53-bit significand. */
  function Discarded(m: nat): nat {
    if BitLen(m) <= 53 then 0 else BitLen(m) - 53
  }

  function RoundMagnitude(m: nat): nat {
    var unit := Pow2(Discarded(m));
    Pow2Positive(Discarded(m));
    HalfEven(m, unit) * unit
  }

  /** The signed integer with a 53-bit significand nearest to n. Dividing both by a power of two
      makes it the rounding of every dyadic number, as long as no exponent leaves its range. */
  function Round53(n: int): int { Signed(n, RoundMagnitude(Abs(n))) }

  function Signed(n: int, magnitude: int): int { if n < 0 then -magnitude else magnitude }

  /** n is an integer a 53-bit significand can carry. */
  ghost predicate Representable(n: int) {
    exists s, k: nat :: Carries(n, s, k)
  }

  predicate Carries(n: int, s: int, k: nat) {
    n == s * Pow2(k) && Abs(s) <= TWO53
  }

  lemma MagnitudeRange(m: nat)
    requires 0 < m
    ensures var e := Discarded(m);
            && m < TWO53 * Pow2(e)
            && (0 < e ==> TWO52 * Pow2(e) <= m)
  {
    Pow2Values();
    BitLenBounds(m);
    if BitLen(m) > 53 {
      Pow2Add(52, BitLen(m) - 53);
      Pow2Add(53, BitLen(m) - 53);
    } else {
      Pow2Mono(BitLen(m), 53);
    }
  }

  lemma RoundRange(m: nat)
    ensures var e := Discarded(m);
            RoundMagnitude(m) <= TWO53 * Pow2(e) && (0 < e ==> TWO52 * Pow2(e) <= RoundMagnitude(m))
  {
    if m > 0 {
      var unit := Pow2(Discarded(m));
      Pow2Positive(Discarded(m));
      MagnitudeRange(m);
      HalfEvenIs(m, unit);
      HalfEvenMultiple(TWO53, unit);
      HalfEvenIs(TWO53 * unit, unit);
      HalfEvenMonotone(m, TWO53 * unit, unit, HalfEven(m, unit), TWO53);
      MulMono(unit, HalfEven(m, unit), TWO53);
      if Discarded(m) > 0 {
        HalfEvenMultiple(TWO52, unit);
        HalfEvenIs(TWO52 * unit, unit);
        HalfEvenMonotone(TWO52 * unit, m, unit, TWO52, HalfEven(m, unit));
        MulMono(unit, TWO52, HalfEven(m, unit));
      }
    }
  }

  lemma MagnitudeMonotone(m: nat, m': nat)
    requires m <= m'
    ensures RoundMagnitude(m) <= RoundMagnitude(m')
  {
    var e, e' := Discarded(m), Discarded(m');
    Pow2Positive(e);
    Pow2Positive(e');
    if m == 0 {
      assert RoundMagnitude(0) == 0;
    } else if e == e' {
      HalfEvenIs(m, Pow2(e));
      HalfEvenIs(m', Pow2(e));
      HalfEvenMonotone(m, m', Pow2(e), HalfEven(m, Pow2(e)), HalfEven(m', Pow2(e)));
      MulMono(Pow2(e), HalfEven(m, Pow2(e)), HalfEven(m', Pow2(e)));
    } else {
      BitLenMonotone(m, m');
      RoundRange(m);
      RoundRange(m');
      Pow2Mono(e, e');
    }
  }

  lemma BitLenMonotone(m: nat, m': nat)
    requires m <= m'
    ensures BitLen(m) <= BitLen(m')
  {
    if m > 0 {
      BitLenBounds(m);
      BitLenBounds(m');
      Pow2Reflects(BitLen(m) - 1, BitLen(m'));
    }
  }

  /** Rounding is monotone ... */
  lemma Round53Monotone(n: int, n': int)
    requires n <= n'
    ensures Round53(n) <= Round53(n')
  {
    if 0 <= n {
      MagnitudeMonotone(n, n');
    } else if n' < 0 {
      MagnitudeMonotone(-n', -n);
    }
  }

  /** ... odd ... */
  lemma Round53Odd(n: int)
    ensures Round53(-n) == -Round53(n)
  {
    assert RoundMagnitude(0) == 0;
  }

  lemma ExactMultiple(m: nat, k: nat)
    requires m == k * Pow2(Discarded(m))
    ensures RoundMagnitude(m) == m
  {
    Pow2Positive(Discarded(m));
    HalfEvenMultiple(k, Pow2(Discarded(m)));
  }

  lemma CarriedMagnitude(m: nat, s: nat, k: nat)
    requires m == s * Pow2(k) && s <= TWO53
    ensures RoundMagnitude(m) == m
  {
    if m == 0 {
    } else if s == TWO53 {
      CarryMagnitude(m, k);
    } else {
      ShortMagnitude(m, s, k);
    }
  }

  lemma CarryMagnitude(m: nat, k: nat)
    requires m == TWO53 * Pow2(k)
    ensures RoundMagnitude(m) == m
  {
    Pow2Values();
    BitLenUnique(TWO53, 54);
    BitLenScaled(TWO53, k);
    Pow2Add(53, k);
    Pow2Add(52, k + 1);
    ExactMultiple(m, TWO52);
  }

  lemma ShortMagnitude(m: nat, s: nat, k: nat)
    requires m == s * Pow2(k) && 0 < s < TWO53
    ensures RoundMagnitude(m) == m
  {
    BitLenScaled(s, k);
    BitLenShort(s);
    var e := Discarded(m);
    Pow2Add(k - e, e);
    Associate(s, Pow2(k - e), Pow2(e));
    ExactMultiple(m, s * Pow2(k - e));
  }

  lemma BitLenShort(s: nat)
    requires 0 < s < TWO53
    ensures BitLen(s) <= 53
  {
    Pow2Values();
    BitLenBounds(s);
    if BitLen(s) > 53 { Pow2Mono(53, BitLen(s) - 1); }
  }

  lemma Associate(a: int, b: int, c: int)
    ensures a * (b * c) == (a * b) * c
  {
  }

  /** ... and the identity on what a significand can carry. */
  lemma Round53Exact(n: int, s: int, k: nat)
    requires Carries(n, s, k)
    ensures Round53(n) == n
  {
    Pow2Positive(k);
    if s < 0 {
      MulMono(Pow2(k), s, -1);
      CarriedMagnitude(-n, -s, k);
    } else {
      MulMono(Pow2(k), 0, s);
      CarriedMagnitude(n, s, k);
    }
  }

  /** The rounded value is one that a 53-bit significand carries. */
  lemma RoundedIsCarried(n: int)
    ensures Representable(Round53(n))
  {
    var m := Abs(n);
    var e := Discarded(m);
    Pow2Positive(e);
    if m == 0 {
      assert Carries(0, 0, 0);
    } else {
      HalfEvenIs(m, Pow2(e));
      MagnitudeRange(m);
      HalfEvenMultiple(TWO53, Pow2(e));
      HalfEvenIs(TWO53 * Pow2(e), Pow2(e));
      HalfEvenMonotone(m, TWO53 * Pow2(e), Pow2(e), HalfEven(m, Pow2(e)), TWO53);
      var s := HalfEven(m, Pow2(e));
      var signed: int := if n < 0 then -(s as int) else s;
      assert Carries(Round53(n), signed, e);
    }
  }

  lemma UnfoldMagnitude(m: nat, unit: nat)
    requires unit == Pow2(Discarded(m)) && 0 < unit
    ensures RoundMagnitude(m) == HalfEven(m, unit) * unit
  {
  }

  lemma LongMagnitudeScaled(m: nat, k: nat, m': nat)
    requires 53 <= BitLen(m) && m' == m * Pow2(k)
    ensures RoundMagnitude(m') == RoundMagnitude(m) * Pow2(k)
  {
    var e := BitLen(m) - 53;
    BitLenScaled(m, k);
    Pow2Positive(k);
    Pow2Positive(e);
    Pow2Add(e, k);
    UnitScaled(m, m', Pow2(e), Pow2(k));
  }

  lemma UnitScaled(m: nat, m': nat, u: nat, p: nat)
    requires 0 < u && 0 < p && m' == m * p && u == Pow2(Discarded(m)) && u * p == Pow2(Discarded(m'))
    ensures RoundMagnitude(m') == RoundMagnitude(m) * p
  {
    RoundedScaled(m, u, p);
    UnfoldMagnitude(m, u);
    UnfoldMagnitude(m', u * p);
  }

  lemma RoundedScaled(m: nat, u: nat, p: nat)
    requires 0 < u && 0 < p
    ensures 0 < u * p && HalfEven(m * p, u * p) * (u * p) == HalfEven(m, u) * u * p
  {
    MulPositive(u, p);
    HalfEvenScaled(m, u, p);
    Associate(HalfEven(m, u), u, p);
  }

  lemma ShortMagnitudeScaled(m: nat, k: nat, m': nat)
    requires 0 < m && BitLen(m) < 53 && m' == m * Pow2(k)
    ensures RoundMagnitude(m') == RoundMagnitude(m) * Pow2(k)
  {
    BelowTwo53(m);
    assert m * Pow2(0) == m;
    CarriedMagnitude(m, m, 0);
    CarriedMagnitude(m', m, k);
  }

  lemma BelowTwo53(m: nat)
    requires BitLen(m) <= 53
    ensures m < TWO53
  {
    if m > 0 {
      Pow2Values();
      BitLenBounds(m);
      Pow2Mono(BitLen(m), 53);
    }
  }

  lemma MagnitudeScaled(m: nat, k: nat, m': nat)
    requires m' == m * Pow2(k)
    ensures RoundMagnitude(m') == RoundMagnitude(m) * Pow2(k)
  {
    if m == 0 {
      assert RoundMagnitude(0) == 0;
    } else if BitLen(m) >= 53 {
      LongMagnitudeScaled(m, k, m');
    } else {
      ShortMagnitudeScaled(m, k, m');
    }
  }

  /** Rounding commutes with scaling by powers of two. */
  lemma Round53Scaled(n: int, k: nat)
    ensures Round53(n * Pow2(k)) == Round53(n) * Pow2(k)
  {
    Pow2Positive(k);
    ScaledSign(n, Pow2(k));
    MagnitudeScaled(Abs(n), k, Abs(n) * Pow2(k));
    SignedTimes(n, RoundMagnitude(Abs(n)), Pow2(k));
    SameSign(n, n * Pow2(k), RoundMagnitude(Abs(n) * Pow2(k)));
  }

  lemma ScaledSign(n: int, p: nat)
    requires 0 < p
    ensures n < 0 <==> n * p < 0
    ensures Abs(n * p) == Abs(n) * p
  {
    SignedProduct(n, Abs(n), p);
    if n < 0 { MulMono(p, 1, -n); } else { MulMono(p, 0, n); }
  }

  lemma SignedTimes(n: int, r: int, p: int)
    ensures Signed(n, r * p) == Signed(n, r) * p
  {
    SignedProduct(Signed(n, r), r, p);
  }

  lemma SameSign(n: int, n': int, r: int)
    requires n < 0 <==> n' < 0
    ensures Signed(n, r) == Signed(n', r)
  {
  }

  lemma SignedProduct(n: int, m: int, k: int)
    requires n == m || n == -m
    ensures n == m ==> n * k == m * k
    ensures n == -m ==> n * k == -(m * k)
  {
  }

  lemma NearerThan(n: int, u: int, x: int, y: int)
    requires -u <= 2 * (n - x) <= u && (y == x || x + u <= y || y <= x - u)
    ensures Abs(n - x) <= Abs(n - y)
  {
  }

  lemma NearestMultiple(n: nat, u: nat, t: int)
    requires 0 < u
    ensures Abs(n - HalfEven(n, u) * u) <= Abs(n - t * u)
  {
    var r: int := HalfEven(n, u);
    HalfEvenIs(n, u);
    MultiplesApart(u, r, t);
    NearerThan(n, u, r * u, t * u);
  }

  lemma MultiplesApart(u: nat, r: int, t: int)
    requires 0 < u
    ensures t * u == r * u || r * u + u <= t * u || t * u <= r * u - u
  {
    assert (r + 1) * u == r * u + u && (r - 1) * u == r * u - u;
    if r < t { MulMono(u, r + 1, t); }
    if t < r { MulMono(u, t, r - 1); }
  }

  /** A significand of at most 53 bits that lies above the binade floor of m is a multiple of its unit. */
  lemma CarriedAboveFloor(s: nat, k: nat, e: nat, j: nat)
    requires s <= TWO53 && TWO52 * Pow2(e + j) < s * Pow2(k)
    ensures e + j <= k && s * Pow2(k) == s * Pow2(k - e - j) * Pow2(e) * Pow2(j)
  {
    Pow2Values();
    Pow2Positive(k);
    MulMono(Pow2(k), s, TWO53);
    Pow2Add(53, k);
    Pow2Add(52, e + j);
    if k < e + j { Pow2Mono(53 + k, 52 + e + j); }
    Pow2Add(k - e - j, e + j);
    Pow2Add(e, j);
    Associate(s, Pow2(k - e - j), Pow2(e + j));
    Associate(s * Pow2(k - e - j), Pow2(e), Pow2(j));
  }

  /** Against values below the binade floor of m ... */
  lemma NearestBelowFloor(m: nat, u: nat, p: nat, y: int)
    requires 0 < u && 0 < p && TWO52 * u <= m && y <= TWO52 * u * p
    ensures Abs(m - HalfEven(m, u) * u) * p <= Abs(m * p - y)
  {
    NearestMultiple(m, u, TWO52);
    var gap := m - TWO52 * u;
    MulMono(p, Abs(m - HalfEven(m, u) * u), gap);
    MulMono(p, 0, gap);
    assert gap * p == m * p - TWO52 * u * p;
  }

  /** ... and against the multiples of its unit above that floor. */
  lemma NearestAboveFloor(m: nat, u: nat, p: nat, t: int)
    requires 0 < u
    ensures Abs(m - HalfEven(m, u) * u) * p <= Abs(m * p - t * u * p)
  {
    NearestMultiple(m, u, t);
    MulMono(p, Abs(m - HalfEven(m, u) * u), Abs(m - t * u));
    DifferenceScaled(m, t * u, p);
  }

  lemma MagnitudeNearest(m: nat, s: int, k: nat, j: nat)
    requires s <= TWO53
    ensures Abs(m - RoundMagnitude(m)) * Pow2(j) <= Abs(m * Pow2(j) - s * Pow2(k))
  {
    var e := Discarded(m);
    var u, p := Pow2(e), Pow2(j);
    Pow2Positive(e);
    Pow2Positive(j);
    UnfoldMagnitude(m, u);
    if e == 0 {
      assert u == 1;
      HalfEvenMultiple(m, 1);
    } else {
      MagnitudeRange(m);
      Pow2Add(e, j);
      Associate(TWO52, u, p);
      if s * Pow2(k) <= TWO52 * u * p {
        NearestBelowFloor(m, u, p, s * Pow2(k));
      } else {
        AboveFloorPositive(s, k, TWO52 * u, p);
        CarriedAboveFloor(s, k, e, j);
        NearestAboveFloor(m, u, p, s * Pow2(k - e - j));
      }
    }
  }

  lemma AboveFloorPositive(s: int, k: nat, floor: nat, p: nat)
    requires floor * p < s * Pow2(k)
    ensures 0 < s
  {
    Pow2Positive(k);
    MulMono(p, 0, floor);
    if s <= 0 { MulMono(Pow2(k), s, 0); }
  }

  lemma DifferenceScaled(a: int, b: int, p: nat)
    ensures Abs(a * p - b * p) == Abs(a - b) * p
  {
    MulMono(p, 0, if a < b then b - a else a - b);
    assert a * p - b * p == (a - b) * p;
  }

  /** The rounded value has a 53-bit significand, and no 53-bit significand with any exponent,
      s * 2^k / 2^j, is nearer to n. */
  lemma Round53Nearest(n: int, s: int, k: nat, j: nat)
    requires Abs(s) <= TWO53
    ensures Representable(Round53(n))
    ensures Abs(n - Round53(n)) * Pow2(j) <= Abs(n * Pow2(j) - s * Pow2(k))
  {
    RoundedIsCarried(n);
    if n < 0 {
      MagnitudeNearest(-n, -s, k, j);
      SignedProduct(n, -n, Pow2(j));
      SignedProduct(s, -s, Pow2(k));
    } else {
      MagnitudeNearest(n, s, k, j);
    }
  }

  /** When the two neighbours are equally near, the one with the even significand is taken. */
  lemma Round53TiesToEven(n: int)
    ensures var u := Pow2(Discarded(Abs(n)));
            2 * Abs(n - Round53(n)) <= u &&
            (2 * Abs(n - Round53(n)) == u ==> exists t :: t % 2 == 0 && Round53(n) == t * u)
  {
    var m := Abs(n);
    var u := Pow2(Discarded(m));
    Pow2Positive(Discarded(m));
    var t := HalfEven(m, u);
    HalfEvenIs(m, u);
    if 2 * Abs(n - Round53(n)) == u {
      var signed: int := if n < 0 then -(t as int) else t;
      SignedProduct(signed, t, u);
      assert signed % 2 == 0 && Round53(n) == signed * u;
    }
  }

  /// ------------------------------------------------------------ the encoding

  /** The three bit fields of a binary64 value. */
  datatype Float = Float(negative: bool, exponent: nat, fraction: nat) {
    predicate Valid() { exponent < 2048 && fraction < TWO52 }
  }

  const ZERO := Float(false, 0, 0)

  /** The exact numerator and power-of-two denominator; None where the decoder's assertions fail. */
  function ExactDyadic(v: Float): Option<(int, nat)> {
    if v.exponent == 2047 then None
    else if v.exponent == 0 && v.fraction == 0 then Some((0, 0))
    else if v.exponent == 0 then None
    else
      var mantissa: int := if v.negative then -(v.fraction + TWO52) else v.fraction + TWO52;
      var binaryExponent := v.exponent - 1023 - 52;
      if binaryExponent >= 0 then Some((mantissa * Pow2(binaryExponent), 0))
      else if -binaryExponent < 120 then Some((mantissa, -binaryExponent))
      else None
  }

  /** The significand of r brought to a width of w bits. */
  function Normalized(r: nat, w: nat): int {
    Pow2Positive(BitLen(r));
    r * Pow2(w) / Pow2(BitLen(r))
  }

  /** What rounding n / 2^shift must encode: the 53-bit value of the same dyadic, or None where the
      exponent leaves the normal range. */
  function RoundDyadic(n: int, shift: nat): Option<Float> {
    if n == 0 then Some(ZERO) else Encoded(n < 0, Abs(Round53(n)), shift)
  }

  function Encoded(negative: bool, r: nat, shift: nat): Option<Float> {
    Packed(negative, BitLen(r) - 1 - shift, Normalized(r, 53))
  }

  function Packed(negative: bool, e: int, normalized: int): Option<Float> {
    if -1022 <= e <= 1023 && TWO52 <= normalized then Some(Float(negative, e + 1023, normalized - TWO52)) else None
  }

  lemma CancelScale(a: int, b: int, k: nat)
    requires a * Pow2(k) == b * Pow2(k)
    ensures a == b
  {
    Pow2Positive(k);
    if a < b { MulMono(Pow2(k), a, b); }
    if b < a { MulMono(Pow2(k), b, a); }
  }

  lemma QuotientExact(n: nat, q: nat, d: nat)
    requires 0 < d && n == q * d
    ensures n / d == q
  {
    var k := n / d;
    assert n == k * d + n % d;
    if k < q { MulMono(d, k + 1, q); }
    if q < k { MulMono(d, q + 1, k); }
  }

  lemma ShiftedUp(sig: nat, d: nat, b: nat, w: nat)
    requires b <= w
    ensures sig * Pow2(w - b) * Pow2(b + d) == sig * Pow2(d) * Pow2(w)
  {
    Pow2Add(w - b, b + d);
    Pow2Add(w, d);
    Associate(sig, Pow2(w - b), Pow2(b + d));
    Associate(sig, Pow2(d), Pow2(w));
  }

  lemma ShiftedRange(sig: nat, b: nat, w: nat)
    requires 0 < b <= w && Pow2(b - 1) <= sig < Pow2(b)
    ensures Pow2(w - 1) <= sig * Pow2(w - b) < Pow2(w)
  {
    Pow2Positive(w - b);
    RangeScaled(Pow2(b - 1), sig, Pow2(b), Pow2(w - b));
    Pow2Add(b - 1, w - b);
    Pow2Add(b, w - b);
  }

  lemma RangeScaled(lo: int, x: int, hi: int, p: nat)
    requires lo <= x < hi && 0 < p
    ensures lo * p <= x * p < hi * p
  {
    MulMono(p, lo, x);
    MulMono(p, x, hi);
  }

  lemma NormalizedTo(r: nat, sig: nat, d: nat, w: nat)
    requires 0 < sig && r == sig * Pow2(d) && BitLen(sig) <= w
    ensures BitLen(r) == BitLen(sig) + d
    ensures Normalized(r, w) == sig * Pow2(w - BitLen(sig))
    ensures Pow2(w - 1) <= Normalized(r, w) < Pow2(w)
    ensures Normalized(r, w) * Pow2(BitLen(r)) == r * Pow2(w)
  {
    BitLenScaled(sig, d);
    BitLenBounds(sig);
    var b := BitLen(sig);
    ShiftedUp(sig, d, b, w);
    Pow2Positive(b + d);
    NormalizedQuotient(r, w, b + d, sig * Pow2(w - b));
    ShiftedRange(sig, b, w);
  }

  lemma NormalizedQuotient(r: nat, w: nat, l: nat, q: nat)
    requires BitLen(r) == l && 0 < Pow2(l) && q * Pow2(l) == r * Pow2(w)
    ensures Normalized(r, w) == q
  {
    QuotientExact(r * Pow2(w), q, Pow2(l));
  }

  /** sig has at most 53 bits and carries r at scale 2^d: then shifting it up to 53 bits is the
      normalized significand, and its length gives the length of r. */
  lemma NormalizedIs(r: nat, sig: nat, d: nat)
    requires 0 < sig < TWO53 && r == sig * Pow2(d)
    ensures BitLen(sig) <= 53 && BitLen(r) == BitLen(sig) + d
    ensures Normalized(r, 53) == sig * Pow2(53 - BitLen(sig))
    ensures TWO52 <= Normalized(r, 53) < TWO53
    ensures Normalized(r, 53) * Pow2(BitLen(r)) == r * Pow2(53)
  {
    BitLenShort(sig);
    NormalizedTo(r, sig, d, 53);
    Pow2Values();
  }

  /** The encoding from any significand that carries the rounded magnitude. */
  lemma RoundDyadicIs(n: int, shift: nat, sig: nat, d: nat)
    requires n != 0 && 0 < sig < TWO53 && Abs(Round53(n)) == sig * Pow2(d)
    ensures BitLen(sig) <= 53 && TWO52 <= sig * Pow2(53 - BitLen(sig))
    ensures RoundDyadic(n, shift) == Packed(n < 0, d - shift + BitLen(sig) - 1, sig * Pow2(53 - BitLen(sig)))
  {
    EncodedIs(n < 0, Abs(Round53(n)), shift, sig, d);
  }

  lemma EncodedIs(negative: bool, r: nat, shift: nat, sig: nat, d: nat)
    requires 0 < sig < TWO53 && r == sig * Pow2(d)
    ensures BitLen(sig) <= 53 && TWO52 <= sig * Pow2(53 - BitLen(sig))
    ensures Encoded(negative, r, shift) == Packed(negative, d - shift + BitLen(sig) - 1, sig * Pow2(53 - BitLen(sig)))
  {
    NormalizedIs(r, sig, d);
    EncodedFrom(negative, r, shift, BitLen(sig) + d, sig * Pow2(53 - BitLen(sig)));
  }

  lemma EncodedFrom(negative: bool, r: nat, shift: nat, l: nat, normalized: nat)
    requires BitLen(r) == l && Normalized(r, 53) == normalized
    ensures Encoded(negative, r, shift) == Packed(negative, l - 1 - shift, normalized)
  {
  }

  lemma FullWidth(sig: nat)
    requires TWO52 <= sig < TWO53
    ensures BitLen(sig) == 53 && sig * Pow2(53 - BitLen(sig)) == sig
  {
    Pow2Values();
    BitLenUnique(sig, 53);
    assert Pow2(0) == 1;
  }

  /** The parts of a decoded normal value. */
  lemma DecodedParts(v: Float) returns (sig: nat, d: nat)
    requires v.Valid() && v.exponent != 0 && ExactDyadic(v).Some?
    ensures sig == v.fraction + TWO52 < TWO53
    ensures var (m, s) := ExactDyadic(v).value;
            && Abs(m) == sig * Pow2(d) && m != 0 && (m < 0 <==> v.negative) && d - s == v.exponent - 1075
            && Round53(m) == m
  {
    var (m, s) := ExactDyadic(v).value;
    sig, d := v.fraction + TWO52, if v.exponent >= 1075 then v.exponent - 1075 else 0;
    var signed: int := if v.negative then -(sig as int) else sig;
    Pow2Positive(d);
    MulMono(Pow2(d), 1, sig);
    SignedProduct(signed, sig, Pow2(d));
    assert Pow2(0) == 1;
    Round53Exact(m, signed, d);
  }

  /** The significand rounded to nearest, ties to even, after the discarded bits are shifted out. */
  method RoundSignificand(magnitude: nat) returns (significand: nat, discarded: nat)
    requires 0 < magnitude
    ensures 0 < significand < TWO53 && RoundMagnitude(magnitude) == significand * Pow2(discarded)
  {
    discarded := Discarded(magnitude);
    var unit := Pow2(discarded);
    Pow2Positive(discarded);
    significand := magnitude / unit;
    if discarded != 0 {
      var remainder, half := magnitude % unit, Pow2(discarded - 1);
      if remainder > half || (remainder == half && significand % 2 == 1) {
        significand := significand + 1;
      }
    }
    assert significand == HalfEven(magnitude, unit);
    SignificandRange(magnitude);
    UnfoldMagnitude(magnitude, unit);
    if significand == TWO53 {
      significand := significand / 2;
      discarded := discarded + 1;
      Associate(TWO52, 2, unit);
    }
  }

  /** The fields of an encoded value stand for the rounded dyadic: sign, a 53-bit significand and its
      exponent, both sides cleared of powers of two. */
  lemma EncodedValue(n: int, shift: nat)
    requires RoundDyadic(n, shift).Some? && n != 0
    ensures var v := RoundDyadic(n, shift).value;
            && (v.negative <==> n < 0) && 1 <= v.exponent <= 2046 && v.Valid()
            && (v.fraction + TWO52) * (Pow2(v.exponent) * Pow2(shift)) == Abs(Round53(n)) * Pow2(1075)
  {
    var v := RoundDyadic(n, shift).value;
    var sig, d := RoundedSignificand(n);
    var b := BitLen(sig);
    RoundDyadicIs(n, shift, sig, d);
    NormalizedIs(Abs(Round53(n)), sig, d);
    Pow2Add(v.exponent, shift);
    Pow2Add(53 - b, v.exponent + shift);
    Pow2Add(d, 1075);
    Associate(sig, Pow2(53 - b), Pow2(v.exponent + shift));
    Associate(sig, Pow2(d), Pow2(1075));
  }

  /** A dyadic is encoded exactly when its rounded magnitude lies in the normal range, from 2^-1022 up to
      2^1024. */
  lemma EncodedIff(n: int, shift: nat)
    requires n != 0
    ensures RoundDyadic(n, shift).Some? <==>
            && Pow2(shift) <= Abs(Round53(n)) * Pow2(1022) && Abs(Round53(n)) < Pow2(1024 + shift)
  {
    var sig, d := RoundedSignificand(n);
    var r := Abs(Round53(n));
    Pow2Positive(d);
    MulPositive(sig, Pow2(d));
    RoundDyadicIs(n, shift, sig, d);
    NormalizedIs(r, sig, d);
    LengthWithin(r, shift, 1022, 1024);
  }

  lemma LengthWithin(r: nat, shift: nat, low: nat, high: nat)
    requires 0 < r
    ensures Pow2(shift) <= r * Pow2(low) && r < Pow2(high + shift) <==>
            shift < BitLen(r) + low && BitLen(r) <= high + shift
  {
    Pow2Positive(low);
    MulPositive(r, Pow2(low));
    BitLenScaled(r, low);
    LengthAtLeast(r * Pow2(low), shift);
    LengthAtLeast(r, high + shift);
  }

  lemma LengthAtLeast(m: nat, k: nat)
    requires 0 < m
    ensures Pow2(k) <= m <==> k < BitLen(m)
  {
    BitLenBounds(m);
    if k < BitLen(m) { Pow2Mono(k, BitLen(m) - 1); } else { Pow2Mono(BitLen(m), k); }
  }

  method RoundDyadicToBinary64(numerator: int, denominatorShift: nat) returns (r: Option<Float>)
    ensures r == RoundDyadic(numerator, denominatorShift)
  {
    if numerator == 0 { return Some(ZERO); }
    var negative, magnitude := numerator < 0, Abs(numerator);
    var significand, discarded := RoundSignificand(magnitude);
    assert Abs(Round53(numerator)) == RoundMagnitude(magnitude);
    RoundDyadicIs(numerator, denominatorShift, significand, discarded);
    var significandBits := BitLen(significand);
    var valuePower := discarded - denominatorShift;
    var unbiasedExponent := valuePower + significandBits - 1;
    if !(-1022 <= unbiasedExponent <= 1023) { return None; }
    var normalized := significand * Pow2(53 - significandBits);
    r := Some(Float(negative, unbiasedExponent + 1023, normalized - TWO52));
  }

  lemma SignificandRange(m: nat)
    requires 0 < m
    ensures var u := Pow2(Discarded(m));
            0 < u && 0 < HalfEven(m, u) <= TWO53
  {
    var u := Pow2(Discarded(m));
    Pow2Positive(Discarded(m));
    MagnitudeRange(m);
    HalfEvenIs(m, u);
    HalfEvenMultiple(TWO53, u);
    HalfEvenIs(TWO53 * u, u);
    HalfEvenMonotone(m, TWO53 * u, u, HalfEven(m, u), TWO53);
    if Discarded(m) > 0 {
      HalfEvenMultiple(TWO52, u);
      HalfEvenIs(TWO52 * u, u);
      HalfEvenMonotone(TWO52 * u, m, u, TWO52, HalfEven(m, u));
    } else {
      assert u == 1;
      HalfEvenMultiple(m, 1);
    }
  }

  /** A nonzero rounded value is carried by a nonzero significand below 2^53. */
  lemma RoundedSignificand(n: int) returns (sig: nat, d: nat)
    requires n != 0
    ensures 0 < sig < TWO53 && Abs(Round53(n)) == sig * Pow2(d)
    ensures Round53(n) < 0 <==> n < 0
  {
    var m := Abs(n);
    var u := Pow2(Discarded(m));
    SignificandRange(m);
    sig, d := HalfEven(m, u), Discarded(m);
    MulMono(u, 1, sig);
    if sig == TWO53 {
      sig, d := TWO52, d + 1;
      Associate(TWO52, 2, u);
    }
  }

  /** Decoding a rounded value gives back, as a fraction, the rounded numerator over 2^shift. */
  lemma DecodeRounded(n: int, shift: nat)
    requires RoundDyadic(n, shift).Some? && ExactDyadic(RoundDyadic(n, shift).value).Some?
    ensures RoundDyadic(n, shift).value.Valid()
    ensures var (m, s) := ExactDyadic(RoundDyadic(n, shift).value).value;
            m * Pow2(shift) == Round53(n) * Pow2(s)
  {
    if n == 0 {
      assert Round53(0) == 0;
    } else {
      var sig, d := RoundedSignificand(n);
      var r := Abs(Round53(n));
      NormalizedIs(r, sig, d);
      var v := RoundDyadic(n, shift).value;
      var (m, s) := ExactDyadic(v).value;
      SignOfDecoded(v);
      DecodedMagnitude(r, BitLen(r), Normalized(r, 53), shift, s, Abs(m));
      SameSignedProduct(m, Pow2(shift), Round53(n), Pow2(s));
    }
  }

  lemma SameSignedProduct(m: int, p: int, x: int, q: int)
    requires Abs(m) * p == Abs(x) * q && (m < 0 <==> x < 0)
    ensures m * p == x * q
  {
    SignedProduct(m, Abs(m), p);
    SignedProduct(x, Abs(x), q);
  }

  lemma SignOfDecoded(v: Float)
    requires ExactDyadic(v).Some? && v.exponent != 0
    ensures var (m, s) := ExactDyadic(v).value;
            && (m < 0 <==> v.negative)
            && (if v.exponent >= 1075 then Abs(m) == (v.fraction + TWO52) * Pow2(v.exponent - 1075) && s == 0
                else Abs(m) == v.fraction + TWO52 && s == 1075 - v.exponent)
  {
    if v.exponent >= 1075 {
      var sig: int := v.fraction + TWO52;
      Pow2Positive(v.exponent - 1075);
      MulMono(Pow2(v.exponent - 1075), 1, sig);
      SignedProduct(if v.negative then -sig else sig, sig, Pow2(v.exponent - 1075));
    }
  }

  lemma DecodedMagnitude(r: nat, l: nat, n: nat, shift: nat, s: nat, m: nat)
    requires n * Pow2(l) == r * Pow2(53)
    requires if l >= 53 + shift then m == n * Pow2(l - 53 - shift) && s == 0 else m == n && s == 53 + shift - l
    ensures m * Pow2(shift) == r * Pow2(s)
  {
    if l >= 53 + shift {
      Pow2Add(l - 53 - shift, shift);
      Associate(n, Pow2(l - 53 - shift), Pow2(shift));
      Pow2Add(l - 53, 53);
      Associate(n, Pow2(l - 53), Pow2(53));
      CancelScale(n * Pow2(l - 53), r, 53);
      assert r * Pow2(0) == r;
    } else {
      Pow2Add(s, l);
      Pow2Add(53, shift);
      Associate(r, Pow2(s), Pow2(l));
      Associate(r, Pow2(53), Pow2(shift));
      Swap(n, Pow2(l), Pow2(shift));
      CancelScale(n * Pow2(shift), r * Pow2(s), l);
    }
  }

  lemma Swap(a: int, b: int, c: int)
    ensures a * b * c == a * c * b
  {
  }

  /** Every decodable value but negative zero is its own rounding. */
  lemma RoundDecoded(v: Float)
    requires v.Valid() && ExactDyadic(v).Some?
    ensures var (m, s) := ExactDyadic(v).value;
            RoundDyadic(m, s) == Some(v) <==> v != Float(true, 0, 0)
  {
    var (m, s) := ExactDyadic(v).value;
    if v.exponent != 0 {
      var sig, d := DecodedParts(v);
      FullWidth(sig);
      RoundDyadicIs(m, s, sig, d);
      assert RoundDyadic(m, s) == Packed(v.negative, d - s + 52, sig);
    }
  }
}
