/** Powers of two and binary lengths. */
module Bits {
  import opened Products

  function Pow2(e: nat): nat {
    if e == 0 then 1 else 2 * Pow2(e - 1)
  }

  function BitLen(m: nat): nat {
    if m == 0 then 0 else 1 + BitLen(m / 2)
  }

  lemma {:induction false} Pow2Positive(e: nat)
    ensures 0 < Pow2(e)
  {
    if e > 0 { Pow2Positive(e - 1); }
  }

  lemma {:induction false} Pow2Add(a: nat, b: nat)
    ensures Pow2(a + b) == Pow2(a) * Pow2(b)
  {
    if a > 0 {
      Pow2Add(a - 1, b);
      assert 2 * Pow2(a - 1) * Pow2(b) == 2 * (Pow2(a - 1) * Pow2(b));
    }
  }

  lemma {:induction false} Pow2Mono(a: nat, b: nat)
    requires a <= b
    ensures Pow2(a) <= Pow2(b)
    ensures a < b ==> 2 * Pow2(a) <= Pow2(b)
  {
    if a < b { Pow2Mono(a, b - 1); }
  }

  lemma Pow2Reflects(a: nat, b: nat)
    ensures Pow2(a) < Pow2(b) ==> a < b
  {
    if b <= a { Pow2Mono(b, a); }
  }

  lemma {:induction false} BitLenBounds(m: nat)
    requires 0 < m
    ensures 0 < BitLen(m) && Pow2(BitLen(m) - 1) <= m < Pow2(BitLen(m))
  {
    if m > 1 { BitLenBounds(m / 2); }
  }

  lemma BitLenUnique(m: nat, k: nat)
    requires 0 < k && Pow2(k - 1) <= m < Pow2(k)
    ensures BitLen(m) == k
  {
    Pow2Positive(k - 1);
    BitLenBounds(m);
    if BitLen(m) < k { Pow2Mono(BitLen(m), k - 1); }
    if k < BitLen(m) { Pow2Mono(k, BitLen(m) - 1); }
  }

  lemma BitLenScaled(m: nat, k: nat)
    requires 0 < m
    ensures BitLen(m * Pow2(k)) == BitLen(m) + k
  {
    var l := BitLen(m);
    BitLenBounds(m);
    Pow2Add(l - 1, k);
    Pow2Add(l, k);
    Pow2Positive(k);
    MulMono(Pow2(k), Pow2(l - 1), m);
    MulMono(Pow2(k), m, Pow2(l));
    BitLenUnique(m * Pow2(k), l + k);
  }
}
