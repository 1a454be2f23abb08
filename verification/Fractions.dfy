/** Fractions, their reduction to lowest terms, and why a fraction in lowest terms has a rational
    root exactly when both of its parts have integer ones. */
module Fractions {
  import opened Powers

  datatype Fraction = Fraction(num: int, den: int) {
    predicate NonNegative() { 0 <= num && 0 < den }

    predicate Positive() { 0 < num && 0 < den }

    function Value(): real
      requires 0 < den
    {
      num as real / den as real
    }
  }

  function Gcd(a: nat, b: nat): (g: nat)
    ensures 0 < a || 0 < b ==> 0 < g
    ensures g > 0 ==> a % g == 0 && b % g == 0
    decreases b
  {
    if b == 0 then a
    else
      var g := Gcd(b, a % b);
      DividesSum(a, b, g);
      g
  }

  lemma DividesSum(a: nat, b: nat, g: nat)
    requires 0 < b && 0 < g && b % g == 0 && (a % b) % g == 0
    ensures a % g == 0
  {
    var i, j := b / g, (a % b) / g;
    assert b == g * i && a % b == g * j;
    var k := a / b;
    assert a == b * k + a % b;
    calc {
      a;
      (g * i) * k + g * j;
      g * (i * k + j);
    }
    ModMultiple(g, i * k + j);
  }

  lemma ModMultiple(g: int, k: int)
    requires 0 < g
    ensures (g * k) % g == 0
  {
    var q, r := (g * k) / g, (g * k) % g;
    assert g * k == g * q + r;
    SmallMultiple(g, k - q, r);
  }

  lemma SmallMultiple(g: int, k: int, r: int)
    requires 0 < g && r == g * k && -g < r < g
    ensures r == 0
  {
    assert 0 < k ==> g * 1 <= g * k;
    assert k < 0 ==> g * k <= g * -1;
  }

  lemma ExactQuotient(a: nat, g: nat)
    requires 0 < g && a % g == 0
    ensures a == g * (a / g)
    ensures 0 < a ==> 0 < a / g
  {
  }

  lemma DividesThrough(g: nat, h: nat, a: nat)
    requires 0 < g && 0 < h && h % g == 0 && a % h == 0
    ensures a % g == 0
  {
    var i, j := h / g, a / h;
    assert h == g * i && a == h * j;
    assert a == g * (i * j);
    ModMultiple(g, i * j);
  }

  /// ---------------------------------------------------------------- lowest terms

  ghost predicate Bezout(a: int, b: int, x: int, y: int) { a * x + b * y == 1 }

  ghost predicate Coprime(a: int, b: int) {
    exists x, y :: Bezout(a, b, x, y)
  }

  lemma CoprimeSwap(a: int, b: int)
    requires Coprime(a, b)
    ensures Coprime(b, a)
  {
    var x, y :| Bezout(a, b, x, y);
    assert Bezout(b, a, y, x);
  }

  lemma CoprimeProduct(a: int, b: int, c: int)
    requires Coprime(a, b) && Coprime(a, c)
    ensures Coprime(a, b * c)
  {
    var x, y :| Bezout(a, b, x, y);
    var z, w :| Bezout(a, c, z, w);
    calc {
      1;
      (a * x + b * y) * (a * z + c * w);
      a * x * (a * z + c * w) + b * y * (a * z) + b * y * (c * w);
      a * (x * (a * z + c * w) + b * y * z) + (b * c) * (y * w);
    }
    assert Bezout(a, b * c, x * (a * z + c * w) + b * y * z, y * w);
  }

  lemma {:induction false} CoprimePow(a: int, b: int, e: nat)
    requires Coprime(a, b)
    ensures Coprime(a, Pow(b, e))
  {
    if e == 0 {
      assert Bezout(a, 1, 0, 1);
    } else {
      CoprimePow(a, b, e - 1);
      CoprimeProduct(a, b, Pow(b, e - 1));
    }
  }

  lemma CoprimePows(a: int, b: int, e: nat)
    requires Coprime(a, b)
    ensures Coprime(Pow(a, e), Pow(b, e))
  {
    CoprimePow(a, b, e);
    CoprimeSwap(a, Pow(b, e));
    CoprimePow(Pow(b, e), a, e);
    CoprimeSwap(Pow(b, e), Pow(a, e));
  }

  /** Euclid's lemma: a factor coprime to one side of a product divides the other. */
  lemma Euclid(a: int, b: int, c: int, k: int) returns (m: int)
    requires Coprime(a, b) && b * c == a * k
    ensures c == a * m
  {
    var x, y :| Bezout(a, b, x, y);
    m := c * x + k * y;
    calc {
      c;
      c * (a * x + b * y);
      a * (c * x) + (b * c) * y;
      a * (c * x) + (a * k) * y;
      a * (c * x + k * y);
    }
  }

  lemma MutualDivisors(d: int, q: int, m: int, k: int)
    requires 0 < d && 0 < q && q == d * m && d == q * k
    ensures d == q
  {
    assert 0 < m && 0 < k;
    assert d * 1 <= d * m && q * 1 <= q * k;
  }

  /** A rational number has one form in lowest terms. */
  lemma LowestTermsUnique(n: int, d: int, p: int, q: int)
    requires 0 < d && 0 < q && Coprime(n, d) && Coprime(p, q) && n * q == p * d
    ensures n == p && d == q
  {
    CoprimeSwap(n, d);
    CoprimeSwap(p, q);
    var m := Euclid(d, n, q, p);
    var k := Euclid(q, p, d, n);
    MutualDivisors(d, q, m, k);
    assert (n - p) * d == 0;
  }

  lemma BezoutStep(a: nat, b: nat, g: nat, x: int, y: int)
    requires 0 < b && b * x + (a % b) * y == g
    ensures a * y + b * (x - (a / b) * y) == g
  {
    var k := a / b;
    assert a == b * k + a % b;
    calc {
      g;
      b * x + (a - b * k) * y;
      a * y + b * (x - k * y);
    }
  }

  lemma {:induction false} GcdIsCombination(a: nat, b: nat) returns (x: int, y: int)
    ensures a * x + b * y == Gcd(a, b)
    decreases b
  {
    if b == 0 {
      x, y := 1, 0;
    } else {
      var u, v := GcdIsCombination(b, a % b);
      BezoutStep(a, b, Gcd(a, b), u, v);
      x, y := v, u - (a / b) * v;
    }
  }

  /** The form a fraction is kept in: lowest terms over a positive denominator. */
  function Reduced(num: nat, den: nat): Fraction
    requires 0 < den
  {
    var g := Gcd(num, den);
    Fraction(num / g, den / g)
  }

  lemma CombinationReduces(p: int, q: int, g: int, x: int, y: int)
    requires 0 < g && g * p * x + g * q * y == g
    ensures p * x + q * y == 1
  {
    assert g * (p * x + q * y - 1) == 0;
  }

  lemma ReducedIsLowest(num: nat, den: nat)
    requires 0 < den
    ensures var f := Reduced(num, den);
            && 0 <= f.num && 0 < f.den && Coprime(f.num, f.den)
            && f.num * den == num * f.den
            && f.Value() == num as real / den as real
  {
    var f, g := Reduced(num, den), Gcd(num, den);
    ExactQuotient(num, g);
    ExactQuotient(den, g);
    var x, y := GcdIsCombination(num, den);
    CombinationReduces(f.num, f.den, g, x, y);
    assert Bezout(f.num, f.den, x, y);
    assert f.num * (g * f.den) == (g * f.num) * f.den;
    SameValue(f.num, f.den, num, den);
  }

  lemma SameValue(n: int, d: int, p: int, q: int)
    requires 0 < d && 0 < q
    ensures n * q == p * d <==> n as real / d as real == p as real / q as real
  {
    var a, b := n as real / d as real, p as real / q as real;
    assert a * d as real == n as real && b * q as real == p as real;
    CrossEqual(a, b, d as real, q as real);
    assert (n * q) as real == n as real * q as real && (p * d) as real == p as real * d as real;
  }

  lemma CrossEqual(a: real, b: real, d: real, q: real)
    requires 0.0 < d && 0.0 < q
    ensures (a * d) * q == (b * q) * d <==> a == b
  {
    assert (a * d) * q - (b * q) * d == (a - b) * (d * q);
    assert 0.0 < d * q;
  }

  /** The order of fractions by cross products. */
  lemma FractionOrder(n: int, d: int, p: int, q: int)
    requires 0 < d && 0 < q
    ensures n * q <= p * d <==> n as real / d as real <= p as real / q as real
  {
    var a, b := n as real / d as real, p as real / q as real;
    assert a * d as real == n as real && b * q as real == p as real;
    CrossOrder(a, b, d as real, q as real);
    assert (n * q) as real == n as real * q as real && (p * d) as real == p as real * d as real;
  }

  lemma CrossOrder(a: real, b: real, d: real, q: real)
    requires 0.0 < d && 0.0 < q
    ensures (a * d) * q <= (b * q) * d <==> a <= b
  {
    assert (a * d) * q - (b * q) * d == (a - b) * (d * q);
    SignByPositive(a - b, d * q);
  }

  lemma SignByPositive(x: real, k: real)
    requires 0.0 < k
    ensures x * k <= 0.0 <==> x <= 0.0
  {
  }
}
