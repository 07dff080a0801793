/** Powers and finite sums of integers: the vocabulary every algebraic statement here is written in. */
module Sums {

  function Pow(x: int, n: nat): int {
    if n == 0 then 1 else x * Pow(x, n - 1)
  }

  /** 1 << n. */
  function Pow2(n: nat): (r: nat)
    ensures r > 0 && r == Pow(2, n)
  {
    if n == 0 then 1 else 2 * Pow2(n - 1)
  }

  /** f(0) + ... + f(n-1). */
  ghost function Sum(n: nat, f: int -> int): int {
    if n == 0 then 0 else Sum(n - 1, f) + f(n - 1)
  }

  lemma SumLast(n: nat, f: int -> int)
    ensures Sum(0, f) == 0
    ensures Sum(n + 1, f) == Sum(n, f) + f(n)
  {
  }

  lemma {:induction false} PowAdd(x: int, m: nat, n: nat)
    ensures Pow(x, m + n) == Pow(x, m) * Pow(x, n)
  {
    if m == 0 {
    } else {
      PowAdd(x, m - 1, n);
      assert Pow(x, m + n) == x * Pow(x, m - 1 + n);
      assert x * (Pow(x, m - 1) * Pow(x, n)) == (x * Pow(x, m - 1)) * Pow(x, n);
    }
  }

  lemma PowOne(n: nat)
    ensures Pow(1, n) == 1
  {
  }

  lemma {:induction false} PowMul(x: int, m: nat, n: nat)
    ensures Pow(Pow(x, m), n) == Pow(x, m * n)
  {
    if n == 0 {
    } else {
      PowMul(x, m, n - 1);
      assert m + m * (n - 1) == m * n;
      PowAdd(x, m, m * (n - 1));
    }
  }

  lemma Distribute(c: int, s: int, t: int)
    ensures c * (s + t) == c * s + c * t
  {
  }

  lemma Associate(a: int, b: int, c: int)
    ensures (a * b) * c == a * (b * c)
  {
  }

  lemma SameScale(c: int, x: int, x': int)
    requires x == x'
    ensures c * x == c * x'
  {
  }

  lemma ProductSwap(x: int, y: int, p: int, q: int)
    ensures (x * y) * (p * q) == (x * p) * (y * q)
  {
    assert (x * y) * (p * q) == x * (y * (p * q)) == x * (p * (y * q));
  }

  lemma {:induction false} PowDistributes(x: int, y: int, n: nat)
    ensures Pow(x * y, n) == Pow(x, n) * Pow(y, n)
  {
    if n == 0 {
    } else {
      PowDistributes(x, y, n - 1);
      ProductSwap(x, y, Pow(x, n - 1), Pow(y, n - 1));
    }
  }

  lemma {:induction false} SumExt(n: nat, f: int -> int, g: int -> int)
    requires forall i :: 0 <= i < n ==> f(i) == g(i)
    ensures Sum(n, f) == Sum(n, g)
  {
    if n > 0 {
      SumExt(n - 1, f, g);
    }
  }

  lemma {:induction false} SumAdd(n: nat, f: int -> int, g: int -> int)
    ensures Sum(n, i => f(i) + g(i)) == Sum(n, f) + Sum(n, g)
  {
    if n > 0 {
      SumAdd(n - 1, f, g);
    }
  }

  lemma {:induction false} SumScale(n: nat, c: int, f: int -> int)
    ensures Sum(n, i => c * f(i)) == c * Sum(n, f)
  {
    if n > 0 {
      SumScale(n - 1, c, f);
      assert c * (Sum(n - 1, f) + f(n - 1)) == c * Sum(n - 1, f) + c * f(n - 1);
    }
  }

  /** A sum over 2n indices, by its even and odd ones. */
  lemma {:induction false} SumInterleave(n: nat, f: int -> int, even: int -> int, odd: int -> int)
    requires forall i :: 0 <= i < n ==> f(2 * i) == even(i) && f(2 * i + 1) == odd(i)
    ensures Sum(2 * n, f) == Sum(n, even) + Sum(n, odd)
  {
    if n > 0 {
      SumInterleave(n - 1, f, even, odd);
      SumTwoMore(n - 1, f);
    }
  }

  lemma {:induction false} SumMultiple(n: nat, f: int -> int, c: int, g: int -> int)
    requires forall i :: 0 <= i < n ==> f(i) == c * g(i)
    ensures Sum(n, f) == c * Sum(n, g)
  {
    SumScale(n, c, g);
    SumExt(n, f, i => c * g(i));
  }

  lemma {:induction false} SumSplit(m: nat, n: nat, f: int -> int)
    ensures Sum(m + n, f) == Sum(m, f) + Sum(n, i => f(m + i))
  {
    if n > 0 {
      SumSplit(m, n - 1, f);
    }
  }

  lemma {:induction false} SumFront(n: nat, f: int -> int)
    requires n > 0
    ensures Sum(n, f) == f(0) + Sum(n - 1, i => f(i + 1))
  {
    SumSplit(1, n - 1, f);
    SumExt(n - 1, i => f(1 + i), i => f(i + 1));
    assert Sum(1, f) == Sum(0, f) + f(0);
  }

  /** A sum over 2n indices, two at a time. */
  lemma {:induction false} SumPairs(n: nat, f: int -> int, g: int -> int)
    requires forall i :: 0 <= i < n ==> f(2 * i) + f(2 * i + 1) == g(i)
    ensures Sum(2 * n, f) == Sum(n, g)
  {
    if n > 0 {
      SumPairs(n - 1, f, g);
      SumTwoMore(n - 1, f);
    }
  }

  lemma SumTwoMore(n: nat, f: int -> int)
    ensures Sum(2 * n + 2, f) == Sum(2 * n, f) + f(2 * n) + f(2 * n + 1)
  {
    assert Sum(2 * n + 1, f) == Sum(2 * n, f) + f(2 * n);
  }
}
