/** Exclusive-or of numbers, and how shifting, masking and testing a bit go through it. */
module Bits {
  import opened Sums
  import opened Primes
  import opened Bytes

  lemma {:induction false} Pow2Add(m: nat, n: nat)
    ensures Pow2(m + n) == Pow2(m) * Pow2(n)
  {
    if m > 0 {
      Pow2Add(m - 1, n);
      Associate(2, Pow2(m - 1), Pow2(n));
    }
  }

  lemma SmallPowers()
    ensures Pow2(1) == 2 && Pow2(5) == 32 && Pow2(7) == 128 && Pow2(8) == 256
  {
    assert Pow2(4) == 16;
  }

  lemma Powers()
    ensures Pow2(5) == 32 && Pow2(8) == 256 && Pow2(16) == 0x1_0000 && Pow2(24) == 0x100_0000
    ensures Pow2(31) == 0x8000_0000 && Pow2(32) == 0x1_0000_0000
  {
    hide *;
    SmallPowers();
    Pow2Add(8, 8);
    Pow2Add(16, 8);
    Pow2Add(24, 7);
    Pow2Add(24, 8);
  }

  /** Bits past j are untouched by numbers below 2^j. */
  lemma {:induction false} XorNarrow(a: nat, b: nat, j: nat, k: nat)
    requires j <= k && a < Pow2(j) && b < Pow2(j)
    ensures XorBits(a, b, k) == XorBits(a, b, j)
  {
    if j == 0 {
      ZeroXorZero(k);
    } else {
      XorNarrow(a / 2, b / 2, j - 1, k - 1);
    }
  }

  lemma {:induction false} ZeroXorZero(k: nat)
    ensures XorBits(0, 0, k) == 0
  {
    if k > 0 {
      ZeroXorZero(k - 1);
    }
  }

  /** (a ^ b) << j. */
  lemma {:induction false} XorShiftUp(a: nat, b: nat, j: nat, k: nat)
    ensures XorBits(a * Pow2(j), b * Pow2(j), k + j) == XorBits(a, b, k) * Pow2(j)
  {
    if j > 0 {
      XorShiftUp(a, b, j - 1, k);
      TwicePower(a, j);
      TwicePower(b, j);
      TwicePower(XorBits(a, b, k), j);
      hide XorBits, Pow2;
      XorDouble(a * Pow2(j - 1), b * Pow2(j - 1), k + j);
    } else {
      TimesOne(a, b, XorBits(a, b, k));
    }
  }

  lemma TimesOne(a: nat, b: nat, c: nat)
    ensures a * Pow2(0) == a && b * Pow2(0) == b && c * Pow2(0) == c
  {
  }

  lemma TwicePower(a: nat, j: nat)
    requires j > 0
    ensures a * Pow2(j) == 2 * (a * Pow2(j - 1))
  {
    var p := Pow2(j - 1);
    assert Pow2(j) == 2 * p;
    hide Pow2;
    assert a * (2 * p) == 2 * (a * p);
  }

  lemma XorDouble(x: nat, y: nat, k: nat)
    requires k > 0
    ensures XorBits(2 * x, 2 * y, k) == 2 * XorBits(x, y, k - 1)
  {
    assert (2 * x) / 2 == x && (2 * y) / 2 == y && (2 * x + 2 * y) % 2 == 0;
  }

  lemma XorDoublePlus(x: nat, lo: nat, k: nat)
    requires k > 0
    ensures XorBits(2 * x, lo, k) == lo % 2 + 2 * XorBits(x, lo / 2, k - 1)
  {
    assert (2 * x) / 2 == x && (2 * x + lo) % 2 == lo % 2;
  }

  /** (a ^ b) >> j. */
  lemma {:induction false} XorShiftDown(a: nat, b: nat, j: nat, k: nat)
    ensures XorBits(a, b, k + j) / Pow2(j) == XorBits(a / Pow2(j), b / Pow2(j), k)
  {
    if j > 0 {
      XorShiftDown(a / 2, b / 2, j - 1, k);
      HalveThenShift(XorBits(a, b, k + j), j);
      HalveThenShift(a, j);
      HalveThenShift(b, j);
      assert XorBits(a, b, k + j) / 2 == XorBits(a / 2, b / 2, k + j - 1);
    }
  }

  lemma HalveThenShift(x: nat, j: nat)
    requires j > 0
    ensures x / Pow2(j) == x / 2 / Pow2(j - 1)
  {
    HalveFirst(x, Pow2(j - 1));
  }

  lemma HalveFirst(x: nat, p: nat)
    requires p > 0
    ensures x / (2 * p) == x / 2 / p && x % (2 * p) == 2 * (x / 2 % p) + x % 2
  {
    var q, r := x / 2 / p, x / 2 % p;
    DivideAgain(x / 2, p);
    SplitProduct(q, p, r, x);
    DivMod(x, 2 * p, q, 2 * r + x % 2);
  }

  lemma DivideAgain(y: nat, p: nat)
    requires p > 0
    ensures y == (y / p) * p + y % p && y % p < p
  {
  }

  lemma SplitProduct(q: nat, p: nat, r: nat, x: nat)
    requires x / 2 == q * p + r
    ensures x == q * (2 * p) + (2 * r + x % 2)
  {
    assert q * (2 * p) == 2 * (q * p);
  }

  /** (a ^ b) masked to its low j bits. */
  lemma {:induction false} XorMask(a: nat, b: nat, j: nat, k: nat)
    requires j <= k
    ensures XorBits(a, b, k) % Pow2(j) == XorBits(a, b, j) == XorBits(a % Pow2(j), b % Pow2(j), j)
  {
    if j > 0 {
      hide XorBits, Pow2;
      XorMask(a / 2, b / 2, j - 1, k - 1);
      XorStep(a, b, k);
      XorStep(a, b, j);
      MaskHalves(XorBits(a, b, k), j);
      MaskHalves(a, j);
      MaskHalves(b, j);
      SameXorStep(a, b, a % Pow2(j), b % Pow2(j), j);
    }
  }

  lemma SameXorStep(a: nat, b: nat, a': nat, b': nat, j: nat)
    requires j > 0 && a % 2 == a' % 2 && b % 2 == b' % 2
    requires XorBits(a / 2, b / 2, j - 1) == XorBits(a' / 2, b' / 2, j - 1)
    ensures XorBits(a, b, j) == XorBits(a', b', j)
  {
    ParityOfSum(a, b);
    ParityOfSum(a', b');
  }

  lemma MaskHalves(x: nat, j: nat)
    requires j > 0
    ensures x % Pow2(j) == 2 * (x / 2 % Pow2(j - 1)) + x % 2
    ensures x % Pow2(j) / 2 == x / 2 % Pow2(j - 1) && x % Pow2(j) % 2 == x % 2
  {
    HalveFirst(x, Pow2(j - 1));
    TwiceAndBit(x / 2 % Pow2(j - 1), x % 2);
  }

  lemma TwiceAndBit(h: nat, b: nat)
    requires b < 2
    ensures (2 * h + b) / 2 == h && (2 * h + b) % 2 == b
  {
  }

  /** Numbers with no bit in common: exclusive-or is addition. */
  lemma {:induction false} XorDisjoint(hi: nat, lo: nat, j: nat, k: nat)
    requires lo < Pow2(j) && hi < Pow2(k)
    ensures XorBits(hi * Pow2(j), lo, k + j) == hi * Pow2(j) + lo
  {
    if j == 0 {
      TimesOne(hi, 0, 0);
      XorBitsZero(hi, k);
    } else {
      XorDisjoint(hi, lo / 2, j - 1, k);
      TwicePower(hi, j);
      hide XorBits, Pow2;
      XorDoublePlus(hi * Pow2(j - 1), lo, k + j);
    }
  }

  /** x ^ y == 0 only when x == y. */
  lemma {:induction false} XorZeroMeansEqual(a: nat, b: nat, k: nat)
    requires a < Pow2(k) && b < Pow2(k) && XorBits(a, b, k) == 0
    ensures a == b
  {
    if k > 0 {
      XorZeroMeansEqual(a / 2, b / 2, k - 1);
    }
  }

  /** Two pairs, regrouped. */
  lemma XorFour(a: nat, b: nat, c: nat, d: nat, k: nat)
    ensures XorBits(XorBits(a, b, k), XorBits(c, d, k), k) == XorBits(XorBits(a, c, k), XorBits(b, d, k), k)
  {
    hide XorBits;
    var cd, bd := XorBits(c, d, k), XorBits(b, d, k);
    XorBitsAssociative(a, b, cd, k);
    XorBitsAssociative(b, c, d, k);
    XorSymmetric(b, c, k);
    XorBitsAssociative(c, b, d, k);
    XorBitsAssociative(a, c, bd, k);
  }
}
