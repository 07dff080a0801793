/**
 * Scalars modulo the group order L, as bulletproofplus.ts and monerosign.ts compute them.
 *
 * L is any prime above 2^64; the repository's L = 2^252 + 27742317777372353535851937790883648493 is one.
 * R(x) is the canonical representative, so congruence of integers is equality of R, and the
 * C-suffixed lemmas say that the ring operations respect it.
 */
module Scalars {
  import opened Sums
  import opened Primes

  type Modulus = n: nat | n > 1 witness 2

  const TWO_64 := 0x1_0000_0000_0000_0000

  datatype Field = Field(L: Modulus) {

    ghost predicate Valid() {
      IsPrime(L) && L > TWO_64
    }

    function R(x: int): (r: nat) {
      x % L
    }

    function Add(a: int, b: int): int { R(a + b) }
    function Sub(a: int, b: int): int { R(a - b) }
    function Mul(a: int, b: int): int { R(a * b) }
    function MulAdd(a: int, b: int, c: int): int { R(a * b + c) }

    /** The value of the square-and-multiply loop: a^(L-2). */
    ghost function Inverse(a: int): (r: int) {
      R(Pow(R(a), L - 2))
    }

    // ---- Congruence -----------------------------------------------------------

    lemma Range(x: int)
      ensures 0 <= R(x) < L
      ensures 0 <= x < L ==> R(x) == x
    {
      if 0 <= x < L { DivMod(x, L, 0, x); }
    }

    lemma Idem(x: int)
      ensures R(R(x)) == R(x)
    {
      Range(R(x));
    }

    lemma Shift(a: int, k: int)
      ensures R(a + k * L) == R(a)
    {
      assert a + k * L == (a / L + k) * L + a % L;
      DivMod(a + k * L, L, a / L + k, a % L);
    }

    /** The quotient that a congruence stands for. */
    lemma Quotient(a: int, b: int) returns (k: int)
      requires R(a) == R(b)
      ensures a == b + k * L
    {
      k := a / L - b / L;
      assert a == (a / L) * L + a % L && b == (b / L) * L + b % L;
    }

    lemma AddOne(a: int, a': int, b: int)
      requires R(a) == R(a')
      ensures R(a + b) == R(a' + b) && R(b - a) == R(b - a')
    {
      var k := Quotient(a, a');
      hide R;
      Shift(a' + b, k);
      Shift(b - a, k);
    }

    lemma AddC(a: int, a': int, b: int, b': int)
      requires R(a) == R(a') && R(b) == R(b')
      ensures R(a + b) == R(a' + b')
    {
      hide R;
      AddOne(a, a', b);
      AddOne(b, b', a');
    }

    lemma SubC(a: int, a': int, b: int, b': int)
      requires R(a) == R(a') && R(b) == R(b')
      ensures R(a - b) == R(a' - b')
    {
      hide R;
      AddOne(a, a', -b);
      AddOne(b, b', a');
    }

    lemma ScaleC(c: int, b: int, b': int)
      requires R(b) == R(b')
      ensures R(c * b) == R(c * b')
    {
      var m := Quotient(b, b');
      assert c * b == c * b' + (c * m) * L;
      Shift(c * b', c * m);
    }

    lemma MulC(a: int, a': int, b: int, b': int)
      requires R(a) == R(a') && R(b) == R(b')
      ensures R(a * b) == R(a' * b')
    {
      hide R;
      ScaleC(a, b, b');
      ScaleC(b', a, a');
      assert a * b' == b' * a && a' * b' == b' * a';
    }

    lemma MulR(a: int, b: int)
      ensures R(R(a) * b) == R(a * b)
      ensures R(a * R(b)) == R(a * b)
      ensures R(R(a) * R(b)) == R(a * b)
    {
      Idem(a);
      Idem(b);
      hide R;
      MulC(R(a), a, b, b);
      MulC(a, a, R(b), b);
      MulC(R(a), a, R(b), b);
    }

    lemma AddR(a: int, b: int)
      ensures R(R(a) + b) == R(a + b)
      ensures R(a + R(b)) == R(a + b)
      ensures R(R(a) + R(b)) == R(a + b)
    {
      Idem(a);
      Idem(b);
      hide R;
      AddC(R(a), a, b, b);
      AddC(a, a, R(b), b);
      AddC(R(a), a, R(b), b);
    }

    // The code's operations, read as the integers they stand for.

    lemma MulV(a: int, a': int, b: int, b': int)
      requires R(a) == R(a') && R(b) == R(b')
      ensures R(Mul(a, b)) == R(a' * b')
    {
      Idem(a * b);
      hide R;
      MulC(a, a', b, b');
    }

    lemma AddV(a: int, a': int, b: int, b': int)
      requires R(a) == R(a') && R(b) == R(b')
      ensures R(Add(a, b)) == R(a' + b')
    {
      Idem(a + b);
      hide R;
      AddC(a, a', b, b');
    }

    lemma SubV(a: int, a': int, b: int, b': int)
      requires R(a) == R(a') && R(b) == R(b')
      ensures R(Sub(a, b)) == R(a' - b')
    {
      Idem(a - b);
      hide R;
      SubC(a, a', b, b');
    }

    lemma MulAddV(a: int, a': int, b: int, b': int, c: int, c': int)
      requires R(a) == R(a') && R(b) == R(b') && R(c) == R(c')
      ensures R(MulAdd(a, b, c)) == R(a' * b' + c')
    {
      Idem(a * b + c);
      hide R;
      MulC(a, a', b, b');
      AddC(a * b, a' * b', c, c');
    }

    lemma {:induction false} PowC(a: int, b: int, n: nat)
      requires R(a) == R(b)
      ensures R(Pow(a, n)) == R(Pow(b, n))
    {
      hide R;
      if n > 0 {
        PowC(a, b, n - 1);
        MulC(a, b, Pow(a, n - 1), Pow(b, n - 1));
      }
    }

    lemma {:induction false} SumC(n: nat, f: int -> int, g: int -> int)
      requires forall i :: 0 <= i < n ==> R(f(i)) == R(g(i))
      ensures R(Sum(n, f)) == R(Sum(n, g))
    {
      hide R;
      if n > 0 {
        SumC(n - 1, f, g);
        AddC(Sum(n - 1, f), Sum(n - 1, g), f(n - 1), g(n - 1));
      }
    }

    // ---- Inverses -------------------------------------------------------------

    /** What the square-and-multiply loop returns really inverts every nonzero scalar. */
    lemma InverseWorks(a: int)
      requires IsPrime(L) && R(a) != 0
      ensures R(a * Inverse(a)) == R(1) == 1
    {
      Range(a);
      Range(1);
      Idem(a);
      FermatInverse(L, R(a));
      var p := Pow(R(a), L - 2);
      assert R(R(a) * p) == 1;
      Idem(p);
      hide R;
      MulR(a, p);
      MulC(a, a, R(p), p);
    }

    /** c·c' cancels out of any product when c' inverts c. */
    lemma Cancel(c: int, c': int, x: int)
      requires R(c * c') == R(1)
      ensures R((c * c') * x) == R(x)
    {
      hide R;
      MulC(c * c', 1, x, x);
    }

    /** What is multiplied by something that is not zero can be read off the product. */
    lemma Divide(c: int, x: int, y: int)
      requires IsPrime(L) && R(c) != 0 && R(c * x) == R(c * y)
      ensures R(x) == R(y)
    {
      InverseWorks(c);
      var i := Inverse(c);
      hide R, Inverse, IsPrime;
      ScaleC(i, c * x, c * y);
      assert i * (c * x) == (c * i) * x && i * (c * y) == (c * i) * y by { Swap(i, c, x); Swap(i, c, y); }
      Cancel(c, i, x);
      Cancel(c, i, y);
    }

    lemma {:induction false} PowCancel(c: int, c': int, n: nat)
      requires R(c * c') == R(1)
      ensures R(Pow(c, n) * Pow(c', n)) == R(1)
    {
      hide R;
      PowDistributes(c, c', n);
      PowC(c * c', 1, n);
      PowOne(n);
    }

    lemma NonzeroProduct(a: int, b: int)
      requires IsPrime(L) && R(a) != 0 && R(b) != 0
      ensures R(a * b) != 0
    {
      MulR(a, b);
      Idem(a);
      if R(a * b) == 0 {
        EuclidsLemma(L, R(a), b);
      }
    }
  }

  /**
   * `inv`: Fermat's exponentiation, one bit of L - 2 at a time.
   * bulletproofplus.ts:74-85; the same loop computes INV8 in monerosign.ts:82-93.
   */
  method Inv(F: Field, a: int) returns (result: int)
    requires F.L > 2
    ensures result == F.Inverse(a)
    ensures F.Valid() && F.R(a) != 0 ==> F.R(a * result) == 1
  {
    result := 1;
    var base := F.R(a);
    var e := F.L - 2;
    ghost var goal := Pow(base, e);
    F.Range(1);
    while e > 0
      invariant e >= 0
      invariant F.R(result) == result
      invariant F.R(result * Pow(base, e)) == F.R(goal)
    {
      InvStep(F, result, base, e, goal);
      if e % 2 == 1 {
        result := F.Mul(result, base);
      }
      base := F.Mul(base, base);
      e := e / 2;
    }
    if F.Valid() && F.R(a) != 0 {
      F.InverseWorks(a);
    }
  }

  lemma Swap(i: int, c: int, x: int)
    ensures i * (c * x) == (c * i) * x
  {
  }

  lemma InvStep(F: Field, result: int, base: int, e: nat, goal: int)
    requires e > 0 && F.R(result * Pow(base, e)) == F.R(goal)
    ensures F.R((if e % 2 == 1 then F.Mul(result, base) else result) * Pow(F.Mul(base, base), e / 2)) == F.R(goal)
    ensures F.R(F.Mul(result, base)) == F.Mul(result, base)
  {
    var h := e / 2;
    var sq := base * base;
    F.Idem(result * base);
    F.Idem(sq);
    hide Field.R;
    F.PowC(F.R(sq), sq, h);
    PowMul(base, 2, h);
    assert Pow(base, 2) == sq by { assert Pow(base, 2) == base * Pow(base, 1) == base * (base * Pow(base, 0)); }
    var half := Pow(sq, h);
    if e % 2 == 1 {
      assert Pow(base, e) == base * half;
      F.MulC(F.R(result * base), result * base, Pow(F.R(sq), h), half);
      assert (result * base) * half == result * (base * half);
    } else {
      F.MulC(result, result, Pow(F.R(sq), h), half);
    }
  }
}
