/** Products, quotients and their order, one step at a time. */
module Products {
  function Abs(n: int): nat { if n < 0 then -n else n }

  function Min(x: int, y: int): int { if x <= y then x else y }

  function Max(x: int, y: int): int { if x <= y then y else x }

  lemma MulMono(k: int, a: int, b: int)
    requires 0 <= k && a <= b
    ensures k * a <= k * b
    ensures 0 < k && a < b ==> k * a < k * b
  {
  }

  lemma MulPositive(a: int, b: int)
    requires 0 < a && 0 < b
    ensures 0 < a * b
  {
  }

  lemma MulNonNegative(a: int, b: int)
    requires 0 <= a && 0 <= b
    ensures 0 <= a * b
  {
  }

  lemma MulMonoReal(k: real, a: real, b: real)
    requires 0.0 <= k && a <= b
    ensures k * a <= k * b
  {
  }

  lemma MulStrictReal(k: real, a: real, b: real)
    requires 0.0 < k && a < b
    ensures k * a < k * b
  {
  }

  lemma QuotientOf(x: real, d: real, n: real)
    requires 0.0 < d && x * d == n
    ensures x == n / d
  {
    assert (x - n / d) * d == 0.0;
  }

  /** The quotient of two numbers, the higher over the lower. */
  function HigherOverLower(a: real, b: real): real
    requires 0.0 < a && 0.0 < b
  {
    if b <= a then a / b else b / a
  }

  lemma CastMul(a: int, b: int)
    ensures (a * b) as real == a as real * b as real
  {
  }

  lemma Regroup(a: real, b: real, c: real, d: real)
    ensures (a * b) * (c * d) == (a * c) * (b * d)
  {
    calc {
      (a * b) * (c * d);
      a * (b * (c * d));
      a * ((b * c) * d);
      a * ((c * b) * d);
      a * (c * (b * d));
      (a * c) * (b * d);
    }
  }

  lemma RegroupInt(a: int, b: int, c: int, d: int)
    ensures (a * b) * (c * d) == (a * c) * (b * d)
  {
    calc {
      (a * b) * (c * d);
      a * (b * (c * d));
      a * ((b * c) * d);
      a * ((c * b) * d);
      a * (c * (b * d));
      (a * c) * (b * d);
    }
  }
}
