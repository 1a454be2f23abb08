/** The exact source-over oracle on encoded sRGB bytes: two binary64 roundings and one
    half-up quantisation, and the replay of a layer stack with one layer removed. */
module SourceOver {
  import opened Products
  import opened Results
  import opened Bytes
  import opened Binary64
  import opened Bits
  import opened LayerStack

  datatype Rgb = Rgb(r: Byte, g: Byte, b: Byte)

  /** Half-up quotient, as the oracle quantises. */
  function HalfUp(n: int, d: nat): int
    requires 0 < d
  {
    (n + d / 2) / d
  }

  /** One channel, step by step; None stands for a failed assertion or conversion. */
  function Channel(tint: Byte, alphaNumerator: int, alphaShift: nat, backdrop: Byte): Option<Byte> {
    var delta := tint - backdrop;
    var roundedProduct :- RoundDyadic(delta * alphaNumerator, alphaShift);
    var (productNumerator, productShift) :- ExactDyadic(roundedProduct);
    var sumNumerator := backdrop * Pow2(productShift) + productNumerator;
    var roundedSum :- RoundDyadic(sumNumerator, productShift);
    var (numerator, shift) :- ExactDyadic(roundedSum);
    Pow2Positive(shift);
    var quantised := HalfUp(numerator, Pow2(shift));
    if 0 <= quantised < 256 then Some(quantised) else None
  }

  /** The same over one common denominator 2^shift, with no encoding in between. */
  function Blend(tint: nat, alpha: int, shift: nat, backdrop: nat): int {
    Pow2Positive(shift);
    HalfUp(BlendNumerator(tint, alpha, shift, backdrop), Pow2(shift))
  }

  function BlendNumerator(tint: nat, alpha: int, shift: nat, backdrop: nat): int {
    Round53(backdrop * Pow2(shift) + Round53((tint - backdrop) * alpha))
  }

  /// the sign bit of the oracle's integers
  const SIGN_BIT: nat := 127

  predicate FitsBelow(n: int, signBit: nat) { Abs(n) < Pow2(signBit) }

  predicate UnitAlpha(alpha: int, shift: nat) { 0 <= alpha <= Pow2(shift) }

  /// ------------------------------------------------------------ the value of the blend

  lemma HalfUpIs(n: int, s: nat)
    ensures 0 < Pow2(s)
    ensures var d := Pow2(s);
            2 * (d * HalfUp(n, d)) <= 2 * n + d < 2 * (d * HalfUp(n, d)) + 2 * d
  {
    Pow2Positive(s);
    var d := Pow2(s);
    var q := (n + d / 2) / d;
    assert n + d / 2 == d * q + (n + d / 2) % d;
    if s == 0 { assert d == 1; } else { assert d == 2 * Pow2(s - 1); }
  }

  /** Quantisation respects the order of fractions, whatever their denominators. */
  lemma HalfUpMonotone(n: int, s: nat, n': int, s': nat)
    requires n * Pow2(s') <= n' * Pow2(s)
    ensures 0 < Pow2(s) && 0 < Pow2(s') && HalfUp(n, Pow2(s)) <= HalfUp(n', Pow2(s'))
  {
    HalfUpIs(n, s);
    HalfUpIs(n', s');
    QuotientOrder(n, Pow2(s), HalfUp(n, Pow2(s)), n', Pow2(s'), HalfUp(n', Pow2(s')));
  }

  lemma QuotientOrder(n: int, d: nat, q: int, n': int, d': nat, q': int)
    requires 0 < d && 0 < d' && n * d' <= n' * d
    requires 2 * (d * q) <= 2 * n + d && 2 * n' + d' < 2 * (d' * q') + 2 * d'
    ensures q <= q'
  {
    var k := d * d';
    MulMono(d', 2 * (d * q), 2 * n + d);
    assert d' * (2 * (d * q)) == 2 * (k * q);
    assert d' * (2 * n + d) == 2 * (n * d') + k;
    MulMono(d, 2 * n' + d', 2 * (d' * q') + 2 * d');
    assert d * (2 * (d' * q') + 2 * d') == 2 * (k * (q' + 1));
    assert d * (2 * n' + d') == 2 * (n' * d) + k;
    StrictCancel(k, q, q' + 1);
  }

  lemma StrictCancel(k: nat, a: int, b: int)
    requires k * a < k * b
    ensures a < b
  {
    if b <= a { MulMono(k, b, a); }
  }

  lemma HalfUpSame(n: int, s: nat, n': int, s': nat)
    requires n * Pow2(s') == n' * Pow2(s)
    ensures 0 < Pow2(s) && 0 < Pow2(s') && HalfUp(n, Pow2(s)) == HalfUp(n', Pow2(s'))
  {
    HalfUpMonotone(n, s, n', s');
    HalfUpMonotone(n', s', n, s);
  }

  lemma HalfUpExact(k: int, s: nat)
    ensures 0 < Pow2(s) && HalfUp(k * Pow2(s), Pow2(s)) == k
  {
    assert Pow2(0) == 1;
    HalfUpSame(k * Pow2(s), s, k, 0);
  }

  lemma SmallMultipleExact(k: int, s: nat)
    requires -256 < k < 256
    ensures Round53(k * Pow2(s)) == k * Pow2(s)
  {
    Round53Exact(k * Pow2(s), k, s);
  }

  lemma UpwardProduct(delta: nat, alpha: int, shift: nat)
    requires delta < 256 && UnitAlpha(alpha, shift)
    ensures 0 <= Round53(delta * alpha) <= delta * Pow2(shift)
  {
    SmallMultipleExact(delta, shift);
    SmallMultipleExact(0, shift);
    MulMono(delta, 0, alpha);
    MulMono(delta, alpha, Pow2(shift));
    Round53Monotone(0, delta * alpha);
    Round53Monotone(delta * alpha, delta * Pow2(shift));
  }

  /** The rounded product stays between zero and the full step, on the side of the tint. */
  lemma ProductRange(delta: int, alpha: int, shift: nat)
    requires -256 < delta < 256 && UnitAlpha(alpha, shift)
    ensures 0 <= delta ==> 0 <= Round53(delta * alpha) <= delta * Pow2(shift)
    ensures delta <= 0 ==> delta * Pow2(shift) <= Round53(delta * alpha) <= 0
  {
    if 0 <= delta { UpwardProduct(delta, alpha, shift); }
    if delta <= 0 {
      UpwardProduct(-delta, alpha, shift);
      Round53Odd(delta * alpha);
      SignedProduct(delta, -delta, alpha);
      SignedProduct(delta, -delta, Pow2(shift));
    }
  }

  lemma BlendNumeratorRange(tint: Byte, alpha: int, shift: nat, backdrop: Byte)
    requires UnitAlpha(alpha, shift)
    ensures var n, d := BlendNumerator(tint, alpha, shift, backdrop), Pow2(shift);
            && (backdrop <= tint ==> backdrop * d <= n <= tint * d)
            && (tint <= backdrop ==> tint * d <= n <= backdrop * d)
  {
    var d := Pow2(shift);
    ProductRange(tint - backdrop, alpha, shift);
    ScaledDifference(tint, backdrop, d);
    SmallMultipleExact(tint, shift);
    SmallMultipleExact(backdrop, shift);
    RoundedBetween(backdrop * d, tint * d, Round53((tint - backdrop) * alpha));
  }

  lemma ScaledDifference(a: int, b: int, d: int)
    ensures (a - b) * d == a * d - b * d
  {
  }

  lemma RoundedBetween(from: int, to: int, p: int)
    requires Round53(from) == from && Round53(to) == to
    requires from <= to ==> 0 <= p <= to - from
    requires to <= from ==> to - from <= p <= 0
    ensures from <= to ==> from <= Round53(from + p) <= to
    ensures to <= from ==> to <= Round53(from + p) <= from
  {
    if from <= to {
      Round53Monotone(from, from + p);
      Round53Monotone(from + p, to);
    }
    if to <= from {
      Round53Monotone(to, from + p);
      Round53Monotone(from + p, from);
    }
  }

  /** Through both roundings and the quantisation the blend lies between its two colours. */
  lemma BlendBetween(tint: Byte, alpha: int, shift: nat, backdrop: Byte)
    requires UnitAlpha(alpha, shift)
    ensures backdrop <= tint ==> backdrop <= Blend(tint, alpha, shift, backdrop) <= tint
    ensures tint <= backdrop ==> tint <= Blend(tint, alpha, shift, backdrop) <= backdrop
  {
    var n, d := BlendNumerator(tint, alpha, shift, backdrop), Pow2(shift);
    BlendNumeratorRange(tint, alpha, shift, backdrop);
    HalfUpExact(tint, shift);
    HalfUpExact(backdrop, shift);
    Pow2Positive(shift);
    ScaleBoth(n, tint * d, d);
    ScaleBoth(n, backdrop * d, d);
    if backdrop <= tint {
      HalfUpMonotone(backdrop * d, shift, n, shift);
      HalfUpMonotone(n, shift, tint * d, shift);
    } else {
      HalfUpMonotone(tint * d, shift, n, shift);
      HalfUpMonotone(n, shift, backdrop * d, shift);
    }
  }

  lemma ScaleBoth(a: int, b: int, d: nat)
    ensures a <= b ==> a * d <= b * d
    ensures b <= a ==> b * d <= a * d
  {
    if a <= b { MulMono(d, a, b); }
    if b <= a { MulMono(d, b, a); }
  }

  lemma BlendFrom(tint: Byte, alpha: int, shift: nat, backdrop: Byte, k: Byte)
    requires Round53((tint - backdrop) * alpha) == (k - backdrop) * Pow2(shift)
    ensures Blend(tint, alpha, shift, backdrop) == k
  {
    SmallMultipleExact(k, shift);
    assert (k - backdrop) * Pow2(shift) == k * Pow2(shift) - backdrop * Pow2(shift);
    HalfUpExact(k, shift);
  }

  /** Transparent keeps the backdrop, opaque gives the tint, and equal colours are fixed. */
  lemma BlendEnds(tint: Byte, shift: nat, backdrop: Byte)
    ensures Blend(tint, 0, shift, backdrop) == backdrop
    ensures Blend(tint, Pow2(shift), shift, backdrop) == tint
    ensures forall alpha :: Blend(tint, alpha, shift, tint) == tint
  {
    SmallMultipleExact(0, shift);
    SmallMultipleExact(tint - backdrop, shift);
    BlendFrom(tint, 0, shift, backdrop, backdrop);
    BlendFrom(tint, Pow2(shift), shift, backdrop, tint);
    forall alpha ensures Blend(tint, alpha, shift, tint) == tint {
      BlendFrom(tint, alpha, shift, tint, tint);
    }
  }

  /** More alpha never moves the blend away from the tint, also across denominators. */
  lemma BlendMonotone(tint: Byte, alpha: int, shift: nat, alpha': int, shift': nat, backdrop: Byte)
    requires UnitAlpha(alpha, shift) && UnitAlpha(alpha', shift')
    requires alpha * Pow2(shift') <= alpha' * Pow2(shift)
    ensures backdrop <= tint ==> Blend(tint, alpha, shift, backdrop) <= Blend(tint, alpha', shift', backdrop)
    ensures tint <= backdrop ==> Blend(tint, alpha', shift', backdrop) <= Blend(tint, alpha, shift, backdrop)
  {
    if backdrop <= tint {
      NumeratorMonotone(tint - backdrop, alpha, shift, alpha', shift', backdrop);
      HalfUpMonotone(BlendNumerator(tint, alpha, shift, backdrop), shift,
                     BlendNumerator(tint, alpha', shift', backdrop), shift');
    }
    if tint <= backdrop {
      FlippedOrder(tint - backdrop, alpha * Pow2(shift'), alpha' * Pow2(shift));
      NumeratorOrder(tint - backdrop, alpha', shift', alpha, shift, backdrop);
      HalfUpMonotone(BlendNumerator(tint, alpha', shift', backdrop), shift',
                     BlendNumerator(tint, alpha, shift, backdrop), shift);
    }
  }

  lemma FlippedOrder(delta: int, a: int, b: int)
    requires delta <= 0 && a <= b
    ensures delta * b <= delta * a
  {
  }

  lemma NumeratorMonotone(delta: int, alpha: int, shift: nat, alpha': int, shift': nat, backdrop: nat)
    requires 0 <= delta && AtScale(alpha, shift') <= AtScale(alpha', shift)
    ensures AtScale(Round53(AtScale(backdrop, shift) + Round53(delta * alpha)), shift')
         <= AtScale(Round53(AtScale(backdrop, shift') + Round53(delta * alpha')), shift)
  {
    MulMono(delta, AtScale(alpha, shift'), AtScale(alpha', shift));
    NumeratorOrder(delta, alpha, shift, alpha', shift', backdrop);
  }

  lemma NumeratorOrder(delta: int, alpha: int, shift: nat, alpha': int, shift': nat, backdrop: nat)
    requires delta * AtScale(alpha, shift') <= delta * AtScale(alpha', shift)
    ensures AtScale(Round53(AtScale(backdrop, shift) + Round53(delta * alpha)), shift')
         <= AtScale(Round53(AtScale(backdrop, shift') + Round53(delta * alpha')), shift)
  {
    ProductAtScale(delta, alpha, shift');
    ProductAtScale(delta, alpha', shift);
    SumsOrder(delta * alpha, shift, delta * alpha', shift', backdrop);
  }

  lemma ProductAtScale(delta: int, alpha: int, k: nat)
    ensures AtScale(delta * alpha, k) == delta * AtScale(alpha, k)
  {
    Associate(delta, alpha, Pow2(k));
  }

  function AtScale(x: int, k: nat): int { x * Pow2(k) }

  lemma SumsOrder(x: int, shift: nat, x': int, shift': nat, backdrop: nat)
    requires AtScale(x, shift') <= AtScale(x', shift)
    ensures AtScale(Round53(AtScale(backdrop, shift) + Round53(x)), shift')
         <= AtScale(Round53(AtScale(backdrop, shift') + Round53(x')), shift)
  {
    ScaledOrder(x, shift', x', shift);
    AddedOrder(Round53(x), shift, Round53(x'), shift', backdrop);
    ScaledOrder(AtScale(backdrop, shift) + Round53(x), shift', AtScale(backdrop, shift') + Round53(x'), shift);
  }

  lemma AddedOrder(y: int, shift: nat, y': int, shift': nat, backdrop: nat)
    requires AtScale(y, shift') <= AtScale(y', shift)
    ensures AtScale(AtScale(backdrop, shift) + y, shift') <= AtScale(AtScale(backdrop, shift') + y', shift)
  {
    SumOrder(backdrop, Pow2(shift), y, Pow2(shift'), y');
  }

  /** Rounding keeps the order of dyadics over different denominators. */
  lemma ScaledOrder(x: int, k: nat, y: int, l: nat)
    requires AtScale(x, k) <= AtScale(y, l)
    ensures AtScale(Round53(x), k) <= AtScale(Round53(y), l)
  {
    Round53Scaled(x, k);
    Round53Scaled(y, l);
    Round53Monotone(AtScale(x, k), AtScale(y, l));
  }

  lemma SumOrder(b: int, d: int, p: int, d': int, p': int)
    requires p * d' <= p' * d
    ensures (b * d + p) * d' <= (b * d' + p') * d
  {
    SumScaled(b, d, p, d');
    SumScaled(b, d', p', d);
    Swap(b, d, d');
  }

  lemma SumScaled(b: int, d: int, p: int, d': int)
    ensures (b * d + p) * d' == b * (d * d') + p * d'
  {
  }

  /// ------------------------------------------------------------ the steps compute the blend

  lemma RoundDefined(n: int, shift: nat)
    requires shift < 120 && Abs(n) <= 255 * Pow2(shift)
    ensures RoundDyadic(n, shift).Some?
  {
    if n != 0 {
      var sig, d := RoundedSignificand(n);
      RoundDyadicIs(n, shift, sig, d);
      NormalizedIs(Abs(Round53(n)), sig, d);
      SmallMultipleExact(255, shift);
      SmallMultipleExact(-255, shift);
      Pow2Positive(shift);
      Round53Monotone(n, 255 * Pow2(shift));
      Round53Monotone(-255 * Pow2(shift), n);
      BitLenMonotone(Abs(Round53(n)), 255 * Pow2(shift));
      BitLenScaled(255, shift);
      assert BitLen(255) == 8;
      BitLenBounds(sig);
    }
  }

  /** The decoder accepts a rounded value whose leading bit is not below 2^-67. */
  lemma DecodeDefined(n: int, shift: nat)
    requires RoundDyadic(n, shift).Some?
    requires n == 0 || shift <= 67 || Pow2(shift - 67) <= Abs(Round53(n))
    ensures ExactDyadic(RoundDyadic(n, shift).value).Some?
  {
    if n != 0 {
      var sig, d := RoundedSignificand(n);
      RoundDyadicIs(n, shift, sig, d);
      NormalizedIs(Abs(Round53(n)), sig, d);
      BitLenBounds(sig);
      if shift > 67 {
        BitLenMonotone(Pow2(shift - 67), Abs(Round53(n)));
        Pow2Positive(shift - 67);
        BitLenUnique(Pow2(shift - 67), shift - 66);
      }
    }
  }

  /** What the decoder yields: zero, or a 53-bit numerator unless the denominator is one. */
  lemma DecodedShape(v: Float)
    requires v.Valid() && ExactDyadic(v).Some?
    ensures var (m, s) := ExactDyadic(v).value;
            && s < 120
            && (m == 0 ==> s == 0)
            && (m != 0 ==> TWO52 <= Abs(m))
            && (s > 0 ==> Abs(m) < TWO53)
            && (s == 0 || v.exponent == 1075 - s)
  {
    if v.exponent != 0 {
      SignOfDecoded(v);
      if v.exponent >= 1075 {
        Pow2Positive(v.exponent - 1075);
        MulMono(v.fraction + TWO52, 1, Pow2(v.exponent - 1075));
      }
    }
  }

  /** The alphas the oracle is defined on: decodable, and between zero and one. */
  predicate OracleAlpha(v: Float) {
    v.Valid() && ExactDyadic(v).Some? && UnitAlpha(ExactDyadic(v).value.0, ExactDyadic(v).value.1)
  }

  /** What decodes is zero and everything finite from 2^-67 up, with a numerator that keeps clear of the
      sign bit, bit 127, exactly below 2^127. The alphas the oracle takes are zero of either sign, and
      2^-67 up to one. */
  lemma OracleAlphaIff(v: Float)
    requires v.Valid()
    ensures ExactDyadic(v).Some? <==> (v.exponent == 0 && v.fraction == 0) || 956 <= v.exponent < 2047
    ensures ExactDyadic(v).Some? ==> (FitsBelow(ExactDyadic(v).value.0, SIGN_BIT) <==> v.exponent < 1150)
    ensures OracleAlpha(v) <==>
      || (v.exponent == 0 && v.fraction == 0)
      || (!v.negative && 956 <= v.exponent && (v.exponent < 1023 || (v.exponent == 1023 && v.fraction == 0)))
  {
    Pow2Values();
    if ExactDyadic(v).Some? { DecodedWidth(v); }
    if 956 <= v.exponent < 2047 {
      if v.exponent < 1023 {
        Pow2Mono(53, 1075 - v.exponent);
      } else if v.exponent < 1075 {
        Pow2Mono(1075 - v.exponent, 52);
        if v.exponent > 1023 { Pow2Mono(1075 - v.exponent, 51); }
      } else {
        Pow2Positive(v.exponent - 1075);
        MulMono(v.fraction + TWO52, 1, Pow2(v.exponent - 1075));
      }
    }
  }

  lemma DecodedWidth(v: Float)
    requires v.Valid() && ExactDyadic(v).Some?
    ensures FitsBelow(ExactDyadic(v).value.0, SIGN_BIT) <==> v.exponent < 1150
  {
    Pow2Values();
    Pow2Positive(SIGN_BIT);
    if v.exponent >= 1075 {
      var k, mantissa := v.exponent - 1075, v.fraction + TWO52;
      SignedProduct(-mantissa, mantissa, Pow2(k));
      ShiftedWidth(mantissa, k);
    } else if v.exponent != 0 {
      Pow2Mono(53, SIGN_BIT);
    }
  }

  lemma ShiftedWidth(mantissa: nat, k: nat)
    requires TWO52 <= mantissa < TWO53
    ensures 0 <= mantissa * Pow2(k)
    ensures mantissa * Pow2(k) < Pow2(SIGN_BIT) <==> k < 75
  {
    Pow2Values();
    Pow2Positive(k);
    if k < 75 {
      Pow2Add(53, k);
      MulMono(Pow2(k), mantissa, TWO53);
      Pow2Mono(53 + k, SIGN_BIT);
    } else {
      Pow2Add(52, k);
      MulMono(Pow2(k), TWO52, mantissa);
      Pow2Mono(SIGN_BIT, 52 + k);
    }
  }

  /** An alpha in [0, 1] that the oracle does not take: the decoder's shift assertion refuses 2^-100. */
  lemma SmallAlphaRefused()
    ensures var v := Float(false, 923, 0);
            v.Valid() && ExactDyadic(v) == None && !OracleAlpha(v)
  {
    OracleAlphaIff(Float(false, 923, 0));
  }

  lemma AboveFloor(n: int, k: nat)
    requires Pow2(k) <= Abs(n)
    ensures Pow2(k) <= Abs(Round53(n))
  {
    Pow2Positive(k);
    assert 1 * Pow2(k) == Pow2(k);
    Round53Exact(Pow2(k), 1, k);
    Round53Monotone(Pow2(k), Abs(n));
    Round53Odd(n);
  }

  lemma ProductBounds(delta: int, alpha: int, shift: nat)
    requires -256 < delta < 256 && UnitAlpha(alpha, shift)
    ensures Abs(delta * alpha) <= 255 * Pow2(shift)
    ensures delta != 0 ==> alpha <= Abs(delta * alpha)
  {
    var m := Abs(delta);
    MulMono(m, alpha, Pow2(shift));
    MulMono(Pow2(shift), m, 255);
    SignedProduct(delta, m, alpha);
    MulMono(m, 0, alpha);
    if delta != 0 { MulMono(alpha, 1, m); }
  }

  /** The first rounding and its decoding never fail. */
  lemma ProductDefined(delta: int, v: Float)
    requires -256 < delta < 256 && OracleAlpha(v)
    ensures var (alpha, shift) := ExactDyadic(v).value;
            && RoundDyadic(delta * alpha, shift).Some?
            && RoundDyadic(delta * alpha, shift).value.Valid()
            && ExactDyadic(RoundDyadic(delta * alpha, shift).value).Some?
  {
    var (alpha, shift) := ExactDyadic(v).value;
    DecodedShape(v);
    ProductBounds(delta, alpha, shift);
    RoundDefined(delta * alpha, shift);
    if delta * alpha != 0 && shift > 67 {
      Pow2Values();
      Pow2Mono(shift - 67, 52);
      AboveFloor(delta * alpha, shift - 67);
    }
    DecodeDefined(delta * alpha, shift);
    DecodeRounded(delta * alpha, shift);
  }

  /** The second numerator stands for the exact sum of backdrop and rounded product. */
  lemma SumValue(backdrop: int, p: int, shift: nat, m: int, s: nat)
    requires m * Pow2(shift) == p * Pow2(s)
    ensures (backdrop * Pow2(s) + m) * Pow2(shift) == (backdrop * Pow2(shift) + p) * Pow2(s)
  {
    SumScaled(backdrop, Pow2(s), m, Pow2(shift));
    SumScaled(backdrop, Pow2(shift), p, Pow2(s));
    assert Pow2(s) * Pow2(shift) == Pow2(shift) * Pow2(s);
  }

  lemma SumRange(n: int, s: nat, full: int, shift: nat)
    requires n * Pow2(shift) == full * Pow2(s) && 0 <= full <= 255 * Pow2(shift)
    ensures 0 <= n <= 255 * Pow2(s)
  {
    Pow2Positive(s);
    Pow2Positive(shift);
    ScaledRange(n, Pow2(s), full, Pow2(shift), 255);
  }

  lemma ScaledRange(n: int, u: int, full: int, v: int, top: int)
    requires 0 < u && 0 < v && n * v == full * u && 0 <= full <= top * v
    ensures 0 <= n <= top * u
  {
    MulMono(u, 0, full);
    MulMono(u, full, top * v);
    Swap(top, v, u);
    if n < 0 { MulMono(v, n, -1); }
    if top * u < n { MulMono(v, top * u, n); }
  }

  /** The second rounding and its decoding never fail. */
  lemma SumDefined(backdrop: Byte, m: int, s: nat, n: int)
    requires s < 120 && (m != 0 ==> TWO52 <= Abs(m)) && (s > 0 ==> Abs(m) < TWO53)
    requires n == backdrop * Pow2(s) + m && 0 <= n <= 255 * Pow2(s)
    ensures RoundDyadic(n, s).Some? && RoundDyadic(n, s).value.Valid() && ExactDyadic(RoundDyadic(n, s).value).Some?
  {
    RoundDefined(n, s);
    if s > 67 && n != 0 {
      SumAboveFloor(backdrop, Pow2(s), m, s);
      AboveFloor(n, s - 67);
    }
    DecodeDefined(n, s);
    DecodeRounded(n, s);
  }

  lemma SumAboveFloor(backdrop: nat, d: nat, m: int, s: nat)
    requires 67 < s < 120 && d == Pow2(s) && (m != 0 ==> TWO52 <= Abs(m)) && Abs(m) < TWO53
    requires 0 <= backdrop * d + m && backdrop * d + m != 0
    ensures Pow2(s - 67) <= backdrop * d + m
  {
    Pow2Values();
    if backdrop == 0 {
      Pow2Mono(s - 67, 52);
    } else {
      MulMono(d, 1, backdrop);
      Pow2Mono(53, s - 1);
      Pow2Mono(s - 67, s - 1);
    }
  }

  /** Both roundings commute with the change of denominator between them. */
  lemma SameBlend(full: int, shift: nat, n: int, s: nat, m: int, t: nat)
    requires n * Pow2(shift) == full * Pow2(s) && m * Pow2(s) == Round53(n) * Pow2(t)
    ensures m * Pow2(shift) == Round53(full) * Pow2(t)
  {
    Round53Scaled(n, shift);
    Round53Scaled(full, s);
    var r, f := Round53(n), Round53(full);
    assert r * Pow2(shift) == f * Pow2(s);
    Swap(m, Pow2(shift), Pow2(s));
    Swap(r, Pow2(t), Pow2(shift));
    Swap(f, Pow2(s), Pow2(t));
    CancelScale(m * Pow2(shift), f * Pow2(t), s);
  }

  /** The oracle's channel: on every alpha it is defined on, no assertion fails, no conversion
      overflows, and the two encoded roundings compute the blend. */
  lemma ChannelIsBlend(tint: Byte, v: Float, backdrop: Byte)
    requires OracleAlpha(v)
    ensures var (alpha, shift) := ExactDyadic(v).value;
            Channel(tint, alpha, shift, backdrop).Some? &&
            Channel(tint, alpha, shift, backdrop).value == Blend(tint, alpha, shift, backdrop)
  {
    var (alpha, shift) := ExactDyadic(v).value;
    var delta := tint - backdrop;
    var p := Round53(delta * alpha);
    ProductDefined(delta, v);
    DecodeRounded(delta * alpha, shift);
    var product := RoundDyadic(delta * alpha, shift).value;
    DecodedShape(product);
    var (m, s) := ExactDyadic(product).value;
    ExactSumRange(tint, alpha, shift, backdrop);
    SecondRounding(backdrop, p, shift, m, s, backdrop * Pow2(s) + m, backdrop * Pow2(shift) + p);
    BlendBetween(tint, alpha, shift, backdrop);
  }

  /** From the decoded product on: sum, second rounding, decoding and quantisation. */
  lemma SecondRounding(backdrop: Byte, p: int, shift: nat, m: int, s: nat, n: int, full: int)
    requires m * Pow2(shift) == p * Pow2(s)
    requires s < 120 && (m != 0 ==> TWO52 <= Abs(m)) && (s > 0 ==> Abs(m) < TWO53)
    requires n == backdrop * Pow2(s) + m && full == backdrop * Pow2(shift) + p && 0 <= full <= 255 * Pow2(shift)
    ensures 0 < Pow2(shift) && RoundDyadic(n, s).Some? && ExactDyadic(RoundDyadic(n, s).value).Some?
    ensures var (k, t) := ExactDyadic(RoundDyadic(n, s).value).value;
            0 < Pow2(t) && HalfUp(k, Pow2(t)) == HalfUp(Round53(full), Pow2(shift))
  {
    SecondSumWithin(backdrop, p, shift, m, s, n, full);
    SumDefined(backdrop, m, s, n);
    SameQuantised(full, shift, n, s);
  }

  lemma SecondSumWithin(backdrop: Byte, p: int, shift: nat, m: int, s: nat, n: int, full: int)
    requires m * Pow2(shift) == p * Pow2(s)
    requires n == backdrop * Pow2(s) + m && full == backdrop * Pow2(shift) + p && 0 <= full <= 255 * Pow2(shift)
    ensures n * Pow2(shift) == full * Pow2(s)
    ensures 0 <= n <= 255 * Pow2(s)
  {
    SumValue(backdrop, p, shift, m, s);
    SumRange(n, s, full, shift);
  }

  lemma SameQuantised(full: int, shift: nat, n: int, s: nat)
    requires n * Pow2(shift) == full * Pow2(s)
    requires RoundDyadic(n, s).Some? && ExactDyadic(RoundDyadic(n, s).value).Some?
    ensures var (k, t) := ExactDyadic(RoundDyadic(n, s).value).value;
            0 < Pow2(t) && 0 < Pow2(shift) && HalfUp(k, Pow2(t)) == HalfUp(Round53(full), Pow2(shift))
  {
    DecodeRounded(n, s);
    var (k, t) := ExactDyadic(RoundDyadic(n, s).value).value;
    SameBlend(full, shift, n, s, k, t);
    HalfUpSame(k, t, Round53(full), shift);
  }

  lemma ExactSumRange(tint: Byte, alpha: int, shift: nat, backdrop: Byte)
    requires UnitAlpha(alpha, shift)
    ensures 0 <= backdrop * Pow2(shift) + Round53((tint - backdrop) * alpha) <= 255 * Pow2(shift)
  {
    Pow2Positive(shift);
    ProductRange(tint - backdrop, alpha, shift);
    SumWithin(tint, backdrop, Pow2(shift), Round53((tint - backdrop) * alpha));
  }

  lemma SumWithin(tint: Byte, backdrop: Byte, d: nat, p: int)
    requires 0 <= p <= (tint - backdrop) * d || (tint - backdrop) * d <= p <= 0
    ensures 0 <= backdrop * d + p <= 255 * d
  {
    assert (tint - backdrop) * d == tint * d - backdrop * d;
    MulMono(d, 0, tint);
    MulMono(d, tint, 255);
    MulMono(d, 0, backdrop);
    MulMono(d, backdrop, 255);
  }

  /// ------------------------------------------------------------ layers

  /** The integers of one channel: the product, the shifted backdrop, the sum, the last denominator
      and the numerator it is added to for rounding. */
  ghost predicate ChannelFits(tint: Byte, alpha: int, shift: nat, backdrop: Byte, signBit: nat) {
    var delta := tint - backdrop;
    && FitsBelow(delta * alpha, signBit)
    && RoundDyadic(delta * alpha, shift).Some? && ExactDyadic(RoundDyadic(delta * alpha, shift).value).Some?
    && var (m, s) := ExactDyadic(RoundDyadic(delta * alpha, shift).value).value;
       FitsBelow(backdrop * Pow2(s), signBit) && SumFits(backdrop * Pow2(s) + m, s, signBit)
  }

  ghost predicate SumFits(n: int, s: nat, signBit: nat) {
    && FitsBelow(n, signBit)
    && RoundDyadic(n, s).Some? && ExactDyadic(RoundDyadic(n, s).value).Some?
    && var (k, t) := ExactDyadic(RoundDyadic(n, s).value).value;
       FitsBelow(Pow2(t), signBit) && FitsBelow(k + Pow2(t) / 2, signBit)
  }

  /** Whatever the oracle shifts, adds or halves stays below bit 127, the sign bit of its integers. */
  lemma ChannelStaysInRange(tint: Byte, v: Float, backdrop: Byte)
    requires OracleAlpha(v)
    ensures ChannelFits(tint, ExactDyadic(v).value.0, ExactDyadic(v).value.1, backdrop, SIGN_BIT)
  {
    ChannelFitsBelow(tint, v, backdrop, SIGN_BIT);
  }

  lemma ChannelFitsBelow(tint: Byte, v: Float, backdrop: Byte, signBit: nat)
    requires OracleAlpha(v) && 127 <= signBit
    ensures ChannelFits(tint, ExactDyadic(v).value.0, ExactDyadic(v).value.1, backdrop, signBit)
  {
    var (alpha, shift) := ExactDyadic(v).value;
    var delta := tint - backdrop;
    DecodedShape(v);
    ProductBounds(delta, alpha, shift);
    ByteScaleFits(Abs(delta * alpha), shift, signBit);
    ProductDefined(delta, v);
    DecodeRounded(delta * alpha, shift);
    DecodedShape(RoundDyadic(delta * alpha, shift).value);
    var (m, s) := ExactDyadic(RoundDyadic(delta * alpha, shift).value).value;
    BackdropFits(backdrop, s, signBit);
    var p := Round53(delta * alpha);
    FullRange(tint, alpha, shift, backdrop, p, backdrop * Pow2(shift) + p);
    RoundedSumFits(backdrop, p, shift, m, s, backdrop * Pow2(s) + m, backdrop * Pow2(shift) + p, signBit);
  }

  lemma BackdropFits(backdrop: Byte, s: nat, signBit: nat)
    requires s < 120 && 127 <= signBit
    ensures FitsBelow(backdrop * Pow2(s), signBit)
  {
    Pow2Positive(s);
    MulMono(Pow2(s), 0, backdrop);
    MulMono(Pow2(s), backdrop, 255);
    ByteScaleFits(backdrop * Pow2(s), s, signBit);
  }

  lemma FullRange(tint: Byte, alpha: int, shift: nat, backdrop: Byte, p: int, full: int)
    requires UnitAlpha(alpha, shift) && p == Round53((tint - backdrop) * alpha) && full == backdrop * Pow2(shift) + p
    ensures 0 <= full <= 255 * Pow2(shift) && 0 <= Round53(full) <= 255 * Pow2(shift)
  {
    ExactSumRange(tint, alpha, shift, backdrop);
    BlendNumeratorRange(tint, alpha, shift, backdrop);
    ByteRange(tint, backdrop, Pow2(shift), BlendNumerator(tint, alpha, shift, backdrop));
  }

  lemma RoundedSumFits(backdrop: Byte, p: int, shift: nat, m: int, s: nat, n: int, full: int, signBit: nat)
    requires m * Pow2(shift) == p * Pow2(s) && 127 <= signBit
    requires s < 120 && (m != 0 ==> TWO52 <= Abs(m)) && (s > 0 ==> Abs(m) < TWO53)
    requires n == backdrop * Pow2(s) + m && full == backdrop * Pow2(shift) + p && 0 <= full <= 255 * Pow2(shift)
    requires 0 <= Round53(full) <= 255 * Pow2(shift)
    ensures SumFits(n, s, signBit)
  {
    SecondSumWithin(backdrop, p, shift, m, s, n, full);
    SumDefined(backdrop, m, s, n);
    QuotientFits(full, shift, n, s, signBit);
  }

  lemma QuotientFits(full: int, shift: nat, n: int, s: nat, signBit: nat)
    requires s < 120 && 127 <= signBit && 0 <= n <= 255 * Pow2(s) && n * Pow2(shift) == full * Pow2(s)
    requires 0 <= Round53(full) <= 255 * Pow2(shift)
    requires RoundDyadic(n, s).Some? && RoundDyadic(n, s).value.Valid() && ExactDyadic(RoundDyadic(n, s).value).Some?
    ensures SumFits(n, s, signBit)
  {
    ByteScaleFits(n, s, signBit);
    DecodedShape(RoundDyadic(n, s).value);
    DecodeRounded(n, s);
    var (k, t) := ExactDyadic(RoundDyadic(n, s).value).value;
    SameBlend(full, shift, n, s, k, t);
    SumRange(k, t, Round53(full), shift);
    ByteScaleFits(k, t, signBit);
  }

  lemma ByteRange(tint: Byte, backdrop: Byte, d: nat, n: int)
    requires backdrop <= tint ==> backdrop * d <= n <= tint * d
    requires tint <= backdrop ==> tint * d <= n <= backdrop * d
    ensures 0 <= n <= 255 * d
  {
    MulMono(d, 0, tint);
    MulMono(d, 0, backdrop);
    MulMono(d, tint, 255);
    MulMono(d, backdrop, 255);
  }

  lemma ByteScaleFits(n: int, s: nat, signBit: nat)
    requires s < 120 && 127 <= signBit && 0 <= n <= 255 * Pow2(s)
    ensures FitsBelow(n, signBit) && FitsBelow(Pow2(s), signBit) && FitsBelow(n + Pow2(s) / 2, signBit)
  {
    Pow2Positive(s);
    TimesByte(s);
    Pow2Mono(s + 8, signBit);
  }

  lemma TimesByte(s: nat)
    ensures Pow2(s + 8) == 256 * Pow2(s)
  {
    Pow2Add(s, 8);
    assert Pow2(8) == 256;
  }

  /** All three channels of one layer over a backdrop. */
  function ExactSourceOver(tint: Rgb, v: Float, backdrop: Rgb): Rgb
    requires OracleAlpha(v)
  {
    var (alpha, shift) := ExactDyadic(v).value;
    ChannelIsBlend(tint.r, v, backdrop.r);
    ChannelIsBlend(tint.g, v, backdrop.g);
    ChannelIsBlend(tint.b, v, backdrop.b);
    Rgb(Channel(tint.r, alpha, shift, backdrop.r).value,
        Channel(tint.g, alpha, shift, backdrop.g).value,
        Channel(tint.b, alpha, shift, backdrop.b).value)
  }

  /** k is the integer nearest to the doubly rounded sum of a channel, halves going up. */
  predicate IsNearest(k: int, tint: Byte, a: int, s: nat, backdrop: Byte) {
    var x := Round53(backdrop * Pow2(s) + Round53((tint - backdrop) * a));
    (2 * k - 1) * Pow2(s) <= 2 * x < (2 * k + 1) * Pow2(s)
  }

  lemma ChannelNearest(tint: Byte, v: Float, backdrop: Byte)
    requires OracleAlpha(v)
    ensures var (a, s) := ExactDyadic(v).value;
            Channel(tint, a, s, backdrop).Some? && IsNearest(Channel(tint, a, s, backdrop).value, tint, a, s, backdrop)
  {
    var (a, s) := ExactDyadic(v).value;
    ChannelIsBlend(tint, v, backdrop);
    BlendNearest(tint, a, s, backdrop);
  }

  lemma BlendNearest(tint: Byte, a: int, s: nat, backdrop: Byte)
    ensures IsNearest(Blend(tint, a, s, backdrop), tint, a, s, backdrop)
  {
    var x := Round53(backdrop * Pow2(s) + Round53((tint - backdrop) * a));
    HalfUpIs(x, s);
    AroundMultiple(HalfUp(x, Pow2(s)), Pow2(s));
  }

  lemma AroundMultiple(k: int, d: int)
    ensures (2 * k - 1) * d == 2 * (d * k) - d && (2 * k + 1) * d == 2 * (d * k) + d
  {
  }

  /** Every byte of the result is the doubly rounded sum brought to the nearest integer, halves up. */
  lemma SourceOverNearest(tint: Rgb, v: Float, backdrop: Rgb)
    requires OracleAlpha(v)
    ensures var (a, s) := ExactDyadic(v).value;
            var out := ExactSourceOver(tint, v, backdrop);
            && IsNearest(out.r, tint.r, a, s, backdrop.r)
            && IsNearest(out.g, tint.g, a, s, backdrop.g)
            && IsNearest(out.b, tint.b, a, s, backdrop.b)
  {
    ChannelNearest(tint.r, v, backdrop.r);
    ChannelNearest(tint.g, v, backdrop.g);
    ChannelNearest(tint.b, v, backdrop.b);
  }

  predicate Between(x: nat, a: nat, b: nat) { a <= x <= b || b <= x <= a }

  /** From `from` towards `to`, y is at least as far as x. */
  predicate Towards(from: nat, x: nat, y: nat, to: nat) {
    (from <= to ==> x <= y) && (to <= from ==> y <= x)
  }

  lemma SourceOverBetween(tint: Rgb, v: Float, backdrop: Rgb)
    requires OracleAlpha(v)
    ensures var out := ExactSourceOver(tint, v, backdrop);
            && Between(out.r, tint.r, backdrop.r)
            && Between(out.g, tint.g, backdrop.g)
            && Between(out.b, tint.b, backdrop.b)
  {
    var (alpha, shift) := ExactDyadic(v).value;
    ChannelIsBlend(tint.r, v, backdrop.r);
    ChannelIsBlend(tint.g, v, backdrop.g);
    ChannelIsBlend(tint.b, v, backdrop.b);
    BlendBetween(tint.r, alpha, shift, backdrop.r);
    BlendBetween(tint.g, alpha, shift, backdrop.g);
    BlendBetween(tint.b, alpha, shift, backdrop.b);
  }

  /** alpha(v) <= alpha(w), compared without division. */
  predicate AlphaAtMost(v: Float, w: Float)
    requires OracleAlpha(v) && OracleAlpha(w)
  {
    var (a, s) := ExactDyadic(v).value;
    var (b, t) := ExactDyadic(w).value;
    a * Pow2(t) <= b * Pow2(s)
  }

  lemma SourceOverMonotone(tint: Rgb, v: Float, w: Float, backdrop: Rgb)
    requires OracleAlpha(v) && OracleAlpha(w) && AlphaAtMost(v, w)
    ensures var x, y := ExactSourceOver(tint, v, backdrop), ExactSourceOver(tint, w, backdrop);
            && Towards(backdrop.r, x.r, y.r, tint.r)
            && Towards(backdrop.g, x.g, y.g, tint.g)
            && Towards(backdrop.b, x.b, y.b, tint.b)
  {
    ChannelMonotone(tint.r, v, w, backdrop.r);
    ChannelMonotone(tint.g, v, w, backdrop.g);
    ChannelMonotone(tint.b, v, w, backdrop.b);
  }

  lemma ChannelMonotone(tint: Byte, v: Float, w: Float, backdrop: Byte)
    requires OracleAlpha(v) && OracleAlpha(w) && AlphaAtMost(v, w)
    ensures var (a, s) := ExactDyadic(v).value;
            var (b, t) := ExactDyadic(w).value;
            && Channel(tint, a, s, backdrop).Some? && Channel(tint, b, t, backdrop).Some?
            && Towards(backdrop, Channel(tint, a, s, backdrop).value, Channel(tint, b, t, backdrop).value, tint)
  {
    var (a, s) := ExactDyadic(v).value;
    var (b, t) := ExactDyadic(w).value;
    ChannelIsBlend(tint, v, backdrop);
    ChannelIsBlend(tint, w, backdrop);
    BlendMonotone(tint, a, s, b, t, backdrop);
  }

  /// 1.0 as a binary64 value
  const ONE := Float(false, 1023, 0)

  lemma OneIsUnit()
    ensures ExactDyadic(ONE) == Some((TWO52 as int, 52)) && OracleAlpha(ONE) && OracleAlpha(ZERO)
    ensures Pow2(52) == TWO52
  {
    Pow2Values();
    assert Pow2(0) == 1;
  }

  /** A transparent layer changes nothing, an opaque one replaces everything, and a layer of the
      backdrop's own colour is invisible. */
  lemma SourceOverEnds(tint: Rgb, v: Float, backdrop: Rgb)
    requires OracleAlpha(v)
    ensures OracleAlpha(ZERO) && ExactSourceOver(tint, ZERO, backdrop) == backdrop
    ensures OracleAlpha(ONE) && ExactSourceOver(tint, ONE, backdrop) == tint
    ensures ExactSourceOver(tint, v, tint) == tint
  {
    OneIsUnit();
    ChannelEnds(tint.r, v, backdrop.r);
    ChannelEnds(tint.g, v, backdrop.g);
    ChannelEnds(tint.b, v, backdrop.b);
  }

  lemma ChannelEnds(tint: Byte, v: Float, backdrop: Byte)
    requires OracleAlpha(v) && OracleAlpha(ZERO) && OracleAlpha(ONE)
    ensures Channel(tint, 0, 0, backdrop) == Some(backdrop)
    ensures Channel(tint, TWO52, 52, backdrop) == Some(tint)
    ensures Channel(tint, ExactDyadic(v).value.0, ExactDyadic(v).value.1, tint) == Some(tint)
  {
    OneIsUnit();
    ChannelIsBlend(tint, ZERO, backdrop);
    ChannelIsBlend(tint, ONE, backdrop);
    ChannelIsBlend(tint, v, tint);
    BlendEnds(tint, 0, backdrop);
    BlendEnds(tint, 52, backdrop);
    BlendEnds(tint, ExactDyadic(v).value.1, backdrop);
  }

  datatype Layer = Layer(tint: Rgb, alpha: Float)

  predicate AllOracle(layers: seq<Layer>) {
    forall i :: 0 <= i < |layers| ==> OracleAlpha(layers[i].alpha)
  }

  /** One layer laid on what is below; the oracle takes no other alpha. */
  function Over(layer: Layer, below: Rgb): Rgb {
    if OracleAlpha(layer.alpha) then ExactSourceOver(layer.tint, layer.alpha, below) else below
  }

  /** The stack replayed from the bottom, with the result after every layer. */
  method NormalOracle(layers: seq<Layer>, backdrop: Rgb) returns (outputs: seq<Rgb>)
    requires AllOracle(layers)
    ensures |outputs| == |layers|
    ensures forall i :: 0 <= i < |layers| ==> outputs[i] == Fold(Over, layers[..i+1], backdrop)
  {
    outputs := Outputs(Over, layers, backdrop);
  }

  /** The stack composited without one layer. */
  method AbsentOracle(layers: seq<Layer>, backdrop: Rgb, target: nat) returns (current: Rgb)
    requires AllOracle(layers) && target < |layers|
    ensures current == Fold(Over, Without(layers, target), backdrop)
  {
    var normal := NormalOracle(layers, backdrop);
    var below := if target == 0 then backdrop else normal[target-1];
    current := Replay(Over, layers, backdrop, target, below);
  }

  /** Zero of either sign. */
  predicate IsTransparent(alpha: Float) { alpha.exponent == 0 && alpha.fraction == 0 }

  /** Removing a transparent layer changes nothing. */
  lemma TransparentIsAbsent(layers: seq<Layer>, backdrop: Rgb, target: nat)
    requires target < |layers| && IsTransparent(layers[target].alpha)
    ensures Fold(Over, Without(layers, target), backdrop) == Fold(Over, layers, backdrop)
  {
    forall below ensures Over(layers[target], below) == below {
      TransparentShows(layers[target], below);
    }
    NeutralLayer(Over, layers, backdrop, target);
  }

  lemma TransparentShows(layer: Layer, below: Rgb)
    requires IsTransparent(layer.alpha)
    ensures Over(layer, below) == below
  {
    OneIsUnit();
    SourceOverEnds(layer.tint, ZERO, below);
    assert ExactDyadic(layer.alpha) == ExactDyadic(ZERO);
  }

  lemma OpaqueHides(layer: Layer, below: Rgb)
    requires OracleAlpha(layer.alpha) && layer.alpha == ONE
    ensures Over(layer, below) == layer.tint
  {
    SourceOverEnds(layer.tint, layer.alpha, below);
  }

  /** A later opaque layer erases the target: the stack looks the same with and without it. */
  lemma LaterOpaqueErases(layers: seq<Layer>, backdrop: Rgb, target: nat, cover: nat)
    requires target < cover < |layers| && OracleAlpha(layers[cover].alpha) && layers[cover].alpha == ONE
    ensures Fold(Over, Without(layers, target), backdrop) == Fold(Over, layers, backdrop)
  {
    forall below ensures Over(layers[cover], below) == layers[cover].tint {
      OpaqueHides(layers[cover], below);
    }
    HidingLayer(Over, layers, backdrop, target, cover);
  }
}
