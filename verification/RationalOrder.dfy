/** Comparing nonnegative rationals by their continued fractions, without a product larger than
    the inputs, in a number of rounds that Fibonacci numbers bound. */
module RationalOrder {
  import opened Products

  function Sign(x: int): int { if x > 0 then 1 else if x < 0 then -1 else 0 }

  /** The order by cross products. */
  function OracleOrder(a: int, b: int, c: int, d: int): int { Sign(a * d - c * b) }

  function Oriented(order: int, isReversed: bool): int { if isReversed then -order else order }

  function Fib(n: nat): nat { if n < 2 then n else Fib(n - 1) + Fib(n - 2) }

  /** Different integer parts decide. */
  lemma QuotientsDecide(a: int, b: int, c: int, d: int, q: int, r: int, p: int, s: int)
    requires 0 < b && 0 < d && a == q * b + r && c == p * d + s && 0 <= r < b && 0 <= s < d && q < p
    ensures a * d < c * b
  {
    MulMono(d, a, (q + 1) * b);
    BelowNextPart(b, c, d, q, p, s);
    assert ((q + 1) * b) * d == ((q + 1) * d) * b;
  }

  lemma BelowNextPart(b: int, c: int, d: int, q: int, p: int, s: int)
    requires 0 < b && 0 < d && c == p * d + s && 0 <= s && q < p
    ensures ((q + 1) * d) * b <= c * b
  {
    MulMono(d, q + 1, p);
    assert (q + 1) * d <= c;
    MulMono(b, (q + 1) * d, c);
  }

  /** Equal integer parts drop out. */
  lemma EqualParts(a: int, b: int, c: int, d: int, q: int, r: int, s: int)
    requires a == q * b + r && c == q * d + s
    ensures a * d - c * b == r * d - s * b
  {
    calc {
      a * d - c * b;
      (q * b + r) * d - (q * d + s) * b;
      (q * b) * d + r * d - (q * d) * b - s * b;
      { assert (q * b) * d == (q * d) * b; }
      r * d - s * b;
    }
  }

  /** Reciprocals of the remaining fractions are ordered the other way round. */
  lemma ReciprocalsReverse(a: int, b: int, c: int, d: int, q: int, r: int, s: int)
    requires a == q * b + r && c == q * d + s
    ensures OracleOrder(a, b, c, d) == -OracleOrder(b, r, d, s)
  {
    EqualParts(a, b, c, d, q, r, s);
    assert b * s - d * r == -(r * d - s * b);
  }

  lemma RemainderDecides(a: int, b: int, c: int, d: int, q: int, r: int, s: int)
    requires 0 < b && 0 < d && a == q * b + r && c == q * d + s && 0 <= r && 0 <= s && (r == 0 || s == 0)
    ensures OracleOrder(a, b, c, d) == (if r > 0 then 1 else 0) - (if s > 0 then 1 else 0)
  {
    EqualParts(a, b, c, d, q, r, s);
    if r > 0 { MulPositive(r, d); }
    if s > 0 { MulPositive(s, b); }
  }

  /** The first denominator in terms of where the chain of remainders stands after t >= 1 rounds. */
  ghost predicate ChainBound(first: int, t: nat, a: int, b: int) {
    0 < t && b < a && Fib(t) * a + Fib(t - 1) * b <= first
  }

  lemma ChainStarts(b: int, r: int)
    requires r < b
    ensures ChainBound(b, 1, b, r)
  {
  }

  lemma ChainContinues(first: int, t: nat, a: int, b: int, q: int, r: int)
    requires ChainBound(first, t, a, b) && 0 < b && a == q * b + r && 0 <= r < b
    ensures ChainBound(first, t + 1, b, r)
  {
    GoesAtLeastOnce(a, b, q, r);
    assert Fib(t + 1) == Fib(t) + Fib(t - 1);
    ShiftChain(first, Fib(t), Fib(t - 1), a, b, r);
  }

  lemma GoesAtLeastOnce(a: int, b: int, q: int, r: int)
    requires 0 < b < a && a == q * b + r && r < b
    ensures b + r <= a
  {
    if q < 1 { MulMono(b, q, 0); }
    MulMono(b, 1, q);
  }

  lemma ShiftChain(first: int, f: nat, g: nat, a: int, b: int, r: int)
    requires f * a + g * b <= first && b + r <= a
    ensures (f + g) * b + f * r <= first
  {
    MulMono(f, b + r, a);
    assert f * (b + r) + g * b == (f + g) * b + f * r;
  }

  lemma ChainEnds(first: int, t: nat, a: int, b: int)
    requires ChainBound(first, t, a, b) && 0 < b
    ensures Fib(t + 2) <= first
  {
    assert Fib(t + 2) == 2 * Fib(t) + Fib(t - 1);
    MulMono(Fib(t), 2, a);
    MulMono(Fib(t - 1), 1, b);
  }

  /** Rounds taken so far against both denominators. */
  ghost predicate Progressing(rounds: nat, b0: int, d0: int, a: int, b: int, c: int, d: int) {
    if rounds == 0 then b == b0 && d == d0
    else ChainBound(b0, rounds, a, b) && ChainBound(d0, rounds, c, d)
  }

  lemma Progresses(rounds: nat, b0: int, d0: int, a: int, b: int, c: int, d: int, q: int, r: int, s: int)
    requires 0 < b && 0 < d && a == q * b + r && c == q * d + s && 0 < r < b && 0 < s < d
    requires Progressing(rounds, b0, d0, a, b, c, d)
    ensures Progressing(rounds + 1, b0, d0, b, r, d, s)
  {
    if rounds == 0 {
      ChainStarts(b, r);
      ChainStarts(d, s);
    } else {
      ChainContinues(b0, rounds, a, b, q, r);
      ChainContinues(d0, rounds, c, d, q, s);
    }
  }

  lemma RoundsBound(rounds: nat, b0: int, d0: int, a: int, b: int, c: int, d: int)
    requires 0 < b && 0 < d && Progressing(rounds, b0, d0, a, b, c, d)
    ensures Fib(rounds + 2) <= Min(b0, d0)
  {
    if rounds > 0 {
      ChainEnds(b0, rounds, a, b);
      ChainEnds(d0, rounds, c, d);
    }
  }

  lemma DivMod(x: int, y: int)
    requires 0 <= x && 0 < y
    ensures x == x / y * y + x % y && 0 <= x / y <= x && 0 <= x % y <= x
  {
    var q := x / y;
    assert x == y * q + x % y;
    if q < 0 { MulMono(y, q, -1); }
    MulMono(q, 1, y);
  }

  /** The comparison. peak is the largest number any variable held, rounds the passes of the loop. */
  method CompareNonnegativeRationals(a0: int, b0: int, c0: int, d0: int)
    returns (order: int, ghost peak: int, ghost rounds: nat)
    requires 0 <= a0 && 0 <= c0 && 0 < b0 && 0 < d0
    ensures order == OracleOrder(a0, b0, c0, d0)
    ensures peak <= Max(Max(a0, b0), Max(c0, d0))
    ensures 0 < rounds && Fib(rounds + 1) <= Min(b0, d0)
  {
    var a, b, c, d, isReversed := a0, b0, c0, d0, false;
    ghost var limit := Max(Max(a0, b0), Max(c0, d0));
    peak, rounds := limit, 1;
    while true
      invariant 0 <= a <= limit && 0 < b <= limit && 0 <= c <= limit && 0 < d <= limit
      invariant peak == limit && 0 < rounds && Progressing(rounds - 1, b0, d0, a, b, c, d)
      invariant OracleOrder(a0, b0, c0, d0) == Oriented(OracleOrder(a, b, c, d), isReversed)
      decreases b
    {
      var leftQuotient, leftRemainder := a / b, a % b;
      var rightQuotient, rightRemainder := c / d, c % d;
      DivMod(a, b);
      DivMod(c, d);
      peak := Max(peak, Max(Max(leftQuotient, leftRemainder), Max(rightQuotient, rightRemainder)));
      RoundsBound(rounds - 1, b0, d0, a, b, c, d);
      if leftQuotient != rightQuotient {
        order := if leftQuotient > rightQuotient then 1 else -1;
        PartsDecide(a, b, c, d);
        return Oriented(order, isReversed), peak, rounds;
      }
      if leftRemainder == 0 || rightRemainder == 0 {
        order := (if leftRemainder > 0 then 1 else 0) - (if rightRemainder > 0 then 1 else 0);
        RemainderDecides(a, b, c, d, leftQuotient, leftRemainder, rightRemainder);
        return Oriented(order, isReversed), peak, rounds;
      }
      ReciprocalsReverse(a, b, c, d, leftQuotient, leftRemainder, rightRemainder);
      Progresses(rounds - 1, b0, d0, a, b, c, d, leftQuotient, leftRemainder, rightRemainder);
      a, b := b, leftRemainder;
      c, d := d, rightRemainder;
      isReversed := !isReversed;
      rounds := rounds + 1;
    }
  }

  lemma PartsDecide(a: int, b: int, c: int, d: int)
    requires 0 <= a && 0 < b && 0 <= c && 0 < d && a / b != c / d
    ensures OracleOrder(a, b, c, d) == if a / b > c / d then 1 else -1
  {
    DivMod(a, b);
    DivMod(c, d);
    if a / b < c / d {
      QuotientsDecide(a, b, c, d, a / b, a % b, c / d, c % d);
    } else {
      QuotientsDecide(c, d, a, b, c / d, c % d, a / b, a % b);
    }
  }
}
