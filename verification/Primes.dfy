/**
 * Fermat's little theorem for an arbitrary prime, which is what the repository's
 * square-and-multiply inverses rest on.
 */
module Primes {
  import opened Sums

  ghost predicate IsPrime(p: nat) {
    p > 1 && forall d: nat :: 1 < d < p ==> p % d != 0
  }

  lemma MulAtLeast(k: int, d: int)
    requires k >= 1 && d > 0
    ensures k * d >= d
  {
    assert k * d == (k - 1) * d + d && (k - 1) * d >= 0;
  }

  lemma DivMod(a: int, d: int, q: int, r: int)
    requires d > 0 && a == q * d + r && 0 <= r < d
    ensures a % d == r && a / d == q
  {
    var q', r' := a / d, a % d;
    assert (q - q') * d == r' - r;
    if q > q' {
      MulAtLeast(q - q', d);
    } else if q < q' {
      MulAtLeast(q' - q, d);
    }
  }

  lemma MultipleMod(k: int, d: int)
    requires d > 0
    ensures (k * d) % d == 0
  {
    DivMod(k * d, d, k, 0);
  }

  /** Euclid's algorithm with its certificate: a combination of a and b that divides both. */
  lemma {:induction false} Bezout(a: nat, b: nat) returns (x: int, y: int, g: nat)
    requires a > 0 || b > 0
    ensures g > 0 && a * x + b * y == g
    ensures a % g == 0 && b % g == 0
    decreases b
  {
    if b == 0 {
      x, y, g := 1, 0, a;
      DivMod(a, a, 1, 0);
    } else {
      var x', y', g' := Bezout(b, a % b);
      var q := a / b;
      x, y, g := y', x' - q * y', g';
      assert a == q * b + a % b;
      assert b * x' + (a - q * b) * y' == a * y' + b * (x' - q * y');
      assert a == (q * (b / g) + (a % b) / g) * g by {
        assert b == (b / g) * g && a % b == ((a % b) / g) * g;
      }
      MultipleMod(q * (b / g) + (a % b) / g, g);
    }
  }

  /** A prime that divides a product divides a factor. */
  lemma EuclidsLemma(p: nat, a: nat, b: int)
    requires IsPrime(p) && (a * b) % p == 0 && a % p != 0
    ensures b % p == 0
  {
    var x, y, g := Bezout(a, p);
    assert g <= p by {
      if g > p { DivMod(p, g, 0, p); }
    }
    assert g == 1 by {
      assert g != p && p % g == 0;
    }
    var k := (a * b) / p;
    assert a * b == k * p;
    assert b == (a * x + p * y) * b == (k * x + y * b) * p by {
      assert (a * x + p * y) * b == (a * b) * x + p * (y * b);
      assert (k * p) * x == (k * x) * p;
    }
    MultipleMod(k * x + y * b, p);
  }

  // ---- Binomial coefficients ------------------------------------------------

  ghost function Choose(n: nat, k: nat): nat {
    if k == 0 then 1 else if n == 0 then 0 else Choose(n - 1, k - 1) + Choose(n - 1, k)
  }

  lemma {:induction false} ChooseTop(n: nat)
    ensures forall k: nat :: k > n ==> Choose(n, k) == 0
    ensures Choose(n, n) == 1
  {
    if n > 0 { ChooseTop(n - 1); }
  }

  lemma AbsorptionStep(n: int, k: int, c0: int, c1: int, d0: int, d1: int)
    requires (k - 1) * c0 == (n - 1) * d0 && k * c1 == (n - 1) * d1 && c0 == d0 + d1
    ensures k * (c0 + c1) == n * c0
  {
    assert k * (c0 + c1) == (k - 1) * c0 + c0 + k * c1;
    assert (n - 1) * (d0 + d1) == (n - 1) * d0 + (n - 1) * d1;
  }

  lemma {:induction false} Absorption(n: nat, k: nat)
    requires n > 0 && k > 0
    ensures k * Choose(n, k) == n * Choose(n - 1, k - 1)
  {
    if n == 1 {
      ChooseTop(0);
      if k > 1 { assert Choose(1, k) == Choose(0, k - 1) + Choose(0, k) == 0; }
    } else if k == 1 {
      Absorption(n - 1, 1);
      assert Choose(n, 1) == 1 + Choose(n - 1, 1);
      assert Choose(n - 1, 0) == 1 && Choose(n - 2, 0) == 1;
    } else {
      Absorption(n - 1, k - 1);
      Absorption(n - 1, k);
      AbsorptionStep(n, k, Choose(n - 1, k - 1), Choose(n - 1, k), Choose(n - 2, k - 2), Choose(n - 2, k - 1));
    }
  }

  lemma PascalStep(c: int, d: int, a: int, p: int)
    ensures (c + d) * (a * p) == a * (c * p) + d * (a * p)
  {
    assert c * (a * p) == a * (c * p);
  }

  ghost function Term(n: nat, a: int, k: int): int {
    if k < 0 then 0 else Choose(n, k) * Pow(a, k)
  }

  lemma PascalTerm(n: nat, a: int, k: nat)
    requires n > 0
    ensures Term(n, a, k) == a * Term(n - 1, a, k - 1) + Term(n - 1, a, k)
  {
    if k > 0 {
      PascalStep(Choose(n - 1, k - 1), Choose(n - 1, k), a, Pow(a, k - 1));
    }
  }

  lemma {:induction false} SumShifted(n: nat, f: int -> int, u: int -> int, g: int -> int)
    requires f(0) == g(0)
    requires forall k :: 0 < k < n + 1 ==> f(k) == u(k - 1) + g(k)
    ensures Sum(n + 1, f) == Sum(n, u) + Sum(n + 1, g)
  {
    assert Sum(n + 1, f) == Sum(n, f) + f(n) && Sum(n + 1, g) == Sum(n, g) + g(n);
    if n > 0 {
      SumShifted(n - 1, f, u, g);
    }
  }

  lemma PlusOne(x: int, a: int)
    ensures (a + 1) * x == a * x + x
  {
  }

  lemma {:induction false} Binomial(a: int, n: nat)
    ensures Pow(a + 1, n) == Sum(n + 1, k => Term(n, a, k))
  {
    var f := k => Term(n, a, k);
    if n == 0 {
      assert Sum(1, f) == Sum(0, f) + f(0);
    } else {
      var g := k => Term(n - 1, a, k);
      var u := k => a * g(k);
      Binomial(a, n - 1);
      ChooseTop(n - 1);
      forall k | 0 <= k < n + 1 ensures f(k) == (if k == 0 then 0 else u(k - 1)) + g(k) {
        PascalTerm(n, a, k);
      }
      SumShifted(n, f, u, g);
      SumScale(n, a, g);
      PlusOne(Pow(a + 1, n - 1), a);
      assert Sum(n + 1, g) == Sum(n, g) + g(n) && g(n) == 0;
    }
  }

  lemma AddMultiples(a: int, b: int, d: nat)
    requires d > 0 && a % d == 0 && b % d == 0
    ensures (a + b) % d == 0
  {
    var q, r := a / d, b / d;
    assert a + b == (q + r) * d;
    MultipleMod(q + r, d);
  }

  lemma ScaleMultiple(a: int, b: int, d: nat)
    requires d > 0 && a % d == 0
    ensures (a * b) % d == 0
  {
    var q := a / d;
    assert a * b == (q * d) * b == (q * b) * d;
    MultipleMod(q * b, d);
  }

  lemma {:induction false} SumOfMultiples(n: nat, f: int -> int, d: nat)
    requires d > 0 && forall k :: 0 <= k < n ==> f(k) % d == 0
    ensures Sum(n, f) % d == 0
  {
    if n > 0 {
      SumOfMultiples(n - 1, f, d);
      AddMultiples(Sum(n - 1, f), f(n - 1), d);
    }
  }

  lemma PrimeDividesChoose(p: nat, k: nat)
    requires IsPrime(p) && 0 < k < p
    ensures Choose(p, k) % p == 0
  {
    hide Choose;
    Absorption(p, k);
    MultipleMod(Choose(p - 1, k - 1), p);
    DivMod(k, p, 0, k);
    EuclidsLemma(p, k, Choose(p, k));
  }

  /** The binomial expansion of (b+1)^p keeps only its two ends. */
  lemma ExpansionModPrime(p: nat, b: nat)
    requires IsPrime(p)
    ensures (Pow(b + 1, p) - 1 - Pow(b, p)) % p == 0
  {
    Binomial(b, p);
    ChooseTop(p);
    var f := k => Term(p, b, k);
    SumFront(p + 1, f);
    var mid := k => f(k + 1);
    assert Sum(p, mid) == Sum(p - 1, mid) + mid(p - 1);
    forall k | 0 <= k < p - 1 ensures mid(k) % p == 0 {
      PrimeDividesChoose(p, k + 1);
      ScaleMultiple(Choose(p, k + 1), Pow(b, k + 1), p);
    }
    SumOfMultiples(p - 1, mid, p);
  }

  lemma DifferenceChain(x: int, y: int, a: int, p: nat)
    requires p > 0 && (x - 1 - y) % p == 0 && (y - (a - 1)) % p == 0
    ensures (x - a) % p == 0
  {
    AddMultiples(x - 1 - y, y - (a - 1), p);
  }

  lemma PowZero(n: nat)
    requires n > 0
    ensures Pow(0, n) == 0
  {
  }

  /** a^p and a leave the same remainder. */
  lemma {:induction false} FermatPower(p: nat, a: nat)
    requires IsPrime(p)
    ensures (Pow(a, p) - a) % p == 0
  {
    hide Pow;
    if a == 0 {
      PowZero(p);
    } else {
      FermatPower(p, a - 1);
      ExpansionModPrime(p, a - 1);
      DifferenceChain(Pow(a - 1 + 1, p), Pow(a - 1, p), a, p);
    }
  }

  /** Fermat's little theorem: a^(p-2) inverts every a that p does not divide. */
  lemma FermatInverse(p: nat, a: nat)
    requires IsPrime(p) && a % p != 0
    ensures (a * Pow(a, p - 2)) % p == 1
  {
    FermatPower(p, a);
    assert Pow(a, p) == a * Pow(a, p - 1);
    assert Pow(a, p) - a == a * (Pow(a, p - 1) - 1);
    EuclidsLemma(p, a, Pow(a, p - 1) - 1);
    var q := (Pow(a, p - 1) - 1) / p;
    DivMod(Pow(a, p - 1), p, q, 1);
    assert Pow(a, p - 1) == a * Pow(a, p - 2);
  }

  // ---- There are primes as large as one likes -------------------------------------

  function Factorial(n: nat): (f: nat)
    ensures f > 0
  {
    if n == 0 then 1 else n * Factorial(n - 1)
  }

  lemma {:induction false} FactorialDivides(n: nat, k: nat)
    requires 1 <= k <= n
    ensures Factorial(n) % k == 0
  {
    if k == n {
      assert Factorial(n) == Factorial(n - 1) * n;
      MultipleMod(Factorial(n - 1), n);
    } else {
      FactorialDivides(n - 1, k);
      ScaleMultiple(Factorial(n - 1), n, k);
      assert Factorial(n) == Factorial(n - 1) * n;
    }
  }

  lemma DividesOn(m: nat, d: nat, k: nat)
    requires d > 0 && k > 0 && m % d == 0 && d % k == 0
    ensures m % k == 0
  {
    ScaleMultiple(d, m / d, k);
    assert d * (m / d) == m;
  }

  /** The least divisor above one, looked for from d on. */
  lemma LeastDivisor(m: nat, d: nat) returns (p: nat)
    requires 1 < d <= m && forall k: nat :: 1 < k < d ==> m % k != 0
    ensures IsPrime(p) && m % p == 0
    decreases m - d
  {
    if m % d == 0 {
      p := d;
      forall k: nat | 1 < k < d && d % k == 0 ensures m % k == 0 {
        DividesOn(m, d, k);
      }
    } else {
      Itself(m);
      p := LeastDivisor(m, d + 1);
    }
  }

  lemma Itself(m: nat)
    requires m > 0
    ensures m % m == 0
  {
    DivMod(m, m, 1, 0);
  }

  lemma OneMore(f: int, p: nat)
    requires p > 1 && f % p == 0
    ensures (f + 1) % p != 0
  {
    assert f == f / p * p;
    DivMod(f + 1, p, f / p, 1);
  }

  lemma PrimeAbove(n: nat) returns (p: nat)
    requires n > 0
    ensures IsPrime(p) && p > n
  {
    hide Factorial;
    p := LeastDivisor(Factorial(n) + 1, 2);
    if p <= n {
      FactorialDivides(n, p);
      OneMore(Factorial(n), p);
    }
  }
}
