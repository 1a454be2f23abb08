/** Natural powers of integers and reals, with the monotonicity that root bounds rest on. */
module Powers {
  import opened Products

  function Pow(b: int, e: nat): int {
    if e == 0 then 1 else b * Pow(b, e - 1)
  }

  function RPow(b: real, e: nat): real {
    if e == 0 then 1.0 else b * RPow(b, e - 1)
  }

  lemma {:induction false} CastPow(b: int, e: nat)
    ensures Pow(b, e) as real == RPow(b as real, e)
  {
    if e > 0 { CastPow(b, e - 1); }
  }

  lemma {:induction false} RPowNonNegative(b: real, e: nat)
    requires 0.0 <= b
    ensures 0.0 <= RPow(b, e)
    ensures 0.0 < b ==> 0.0 < RPow(b, e)
  {
    if e > 0 { RPowNonNegative(b, e - 1); }
  }

  lemma {:induction false} PowPositive(b: int, e: nat)
    requires 0 < b
    ensures 0 < Pow(b, e)
  {
    if e > 0 { PowPositive(b, e - 1); }
  }

  lemma {:induction false} RPowMono(a: real, b: real, e: nat)
    requires 0.0 <= a <= b
    ensures RPow(a, e) <= RPow(b, e)
  {
    if e > 0 {
      RPowMono(a, b, e - 1);
      RPowNonNegative(a, e - 1);
      MulMonoReal(a, RPow(a, e - 1), RPow(b, e - 1));
      RPowNonNegative(b, e - 1);
      MulMonoReal(RPow(b, e - 1), a, b);
    }
  }

  lemma {:induction false} RPowStrict(a: real, b: real, e: nat)
    requires 0.0 <= a < b && 0 < e
    ensures RPow(a, e) < RPow(b, e)
  {
    if e == 1 {
      assert RPow(a, 1) == a * RPow(a, 0) && RPow(b, 1) == b * RPow(b, 0);
    } else {
      RPowStrict(a, b, e - 1);
      RPowNonNegative(a, e - 1);
      MulMonoReal(a, RPow(a, e - 1), RPow(b, e - 1));
      assert 0.0 < RPow(b, e - 1);
      MulStrictReal(RPow(b, e - 1), a, b);
    }
  }

  /** On nonnegative bases the order of powers is the order of bases. */
  lemma RPowOrder(a: real, b: real, e: nat)
    requires 0.0 <= a && 0.0 <= b && 0 < e
    ensures RPow(a, e) <= RPow(b, e) <==> a <= b
    ensures RPow(a, e) == RPow(b, e) <==> a == b
  {
    if a < b { RPowStrict(a, b, e); }
    if b < a { RPowStrict(b, a, e); }
  }

  lemma {:induction false} RPowProduct(a: real, b: real, e: nat)
    ensures RPow(a * b, e) == RPow(a, e) * RPow(b, e)
  {
    if e > 0 {
      RPowProduct(a, b, e - 1);
      Regroup(a, b, RPow(a, e - 1), RPow(b, e - 1));
    }
  }

  lemma PowMono(a: int, b: int, e: nat)
    requires 0 <= a <= b
    ensures 0 <= Pow(a, e) <= Pow(b, e)
    ensures a < b && 0 < e ==> Pow(a, e) < Pow(b, e)
  {
    CastPow(a, e);
    CastPow(b, e);
    RPowMono(a as real, b as real, e);
    RPowNonNegative(a as real, e);
    if a < b && 0 < e { RPowStrict(a as real, b as real, e); }
  }

  lemma {:induction false} RPowOne(e: nat)
    ensures RPow(1.0, e) == 1.0
  {
    if e > 0 { RPowOne(e - 1); }
  }
}
