/** The verifier's tables: power sums by doubling, the windowed vector, and the challenge products. */
module BulletproofPlusTables {
  import opened Sums
  import opened Scalars
  import opened BulletproofPlusSpec

  // ---- Power sums -----------------------------------------------------------

  /** What `(m & (m - 1)) === 0` decides for m > 0. */
  predicate IsPowerOfTwo(m: nat) {
    m == 1 || (m > 1 && m % 2 == 0 && IsPowerOfTwo(m / 2))
  }

  /** 1 + x + ... + x^(n-1). */
  ghost function Geometric(x: int, n: nat): int {
    if n == 0 then 0 else Geometric(x, n - 1) + Pow(x, n - 1)
  }

  lemma {:induction false} GeometricPowerSum(x: int, n: nat)
    ensures Geometric(x, n + 1) == 1 + PowerSum(x, n)
  {
    if n == 0 {
      assert Geometric(x, 1) == Geometric(x, 0) + Pow(x, 0);
    } else {
      GeometricPowerSum(x, n - 1);
    }
  }

  lemma {:induction false} GeometricAdd(x: int, m: nat, n: nat)
    ensures Geometric(x, m + n) == Geometric(x, m) + Pow(x, m) * Geometric(x, n)
  {
    if n > 0 {
      GeometricAdd(x, m, n - 1);
      PowAdd(x, m, n - 1);
      Distribute(Pow(x, m), Geometric(x, n - 1), Pow(x, n - 1));
      hide Pow;
    }
  }

  /** One doubling: 1 + ... + x^(2k-1) from 1 + ... + x^(k-1) and x^k. */
  lemma DoubleGeometric(F: Field, x: int, k: nat, x1: int, res: int)
    requires F.R(res) == F.R(Geometric(x, k)) && F.R(x1) == F.R(Pow(x, k))
    ensures F.R(F.MulAdd(x1, res, res)) == F.R(Geometric(x, 2 * k))
    ensures F.R(F.Mul(x1, x1)) == F.R(Pow(x, 2 * k))
  {
    GeometricAdd(x, k, k);
    PowAdd(x, k, k);
    hide Field.R, Pow, Geometric;
    F.MulAddV(x1, Pow(x, k), res, Geometric(x, k), res, Geometric(x, k));
    F.MulV(x1, Pow(x, k), x1, Pow(x, k));
    assert k + k == 2 * k;
  }

  /** The halving loop of the power-of-two branch: m is halved while the covered length k doubles. */
  method DoublingLoop(F: Field, x: int, start: nat, x0: int, res0: int, k0: nat) returns (res: int)
    requires IsPowerOfTwo(start) && start >= 2
    requires F.R(res0) == F.R(Geometric(x, 2 * k0)) && F.R(x0) == F.R(Pow(x, k0))
    ensures F.R(res) == F.R(Geometric(x, k0 * start))
  {
    res := res0;
    var x1, m := x0, start;
    ghost var k := k0;
    while m > 2
      invariant m >= 2 && IsPowerOfTwo(m) && k * m == k0 * start
      invariant F.R(res) == F.R(Geometric(x, 2 * k)) && F.R(x1) == F.R(Pow(x, k))
    {
      F.MulV(x1, Pow(x, k), x1, Pow(x, k));
      PowAdd(x, k, k);
      x1 := F.Mul(x1, x1);
      assert k + k == 2 * k;
      DoubleGeometric(F, x, 2 * k, x1, res);
      res := F.MulAdd(x1, res, res);
      HalveDouble(k, m);
      k := 2 * k;
      m := m / 2;
    }
  }

  lemma HalveDouble(k: nat, m: nat)
    requires m % 2 == 0
    ensures (2 * k) * (m / 2) == k * m
  {
    assert m == 2 * (m / 2);
  }

  /**
   * `sumOfScalarPowers`: x + x² + ... + xⁿ, by doubling when n + 1 is a power of two and term by
   * term otherwise. bulletproofplus.ts:164-178. (Its comment promises the sum from x⁰; the code
   * subtracts that term. For n = 0 the code returns x.)
   */
  method SumOfScalarPowers(F: Field, x: int, n: nat) returns (r: int)
    ensures n >= 1 ==> F.R(r) == F.R(PowerSum(x, n))
    ensures n == 0 ==> F.R(r) == F.R(x)
  {
    if n == 1 {
      assert PowerSum(x, 1) == Sum(0, Powers(x)) + Powers(x)(0) == Pow(x, 1) == x * Pow(x, 0);
      return x;
    }
    var res := 1;
    var m := n + 1;
    GeometricStart(x);
    if IsPowerOfTwo(m) {
      F.AddV(1, 1, x, x);
      res := F.Add(res, x);
      if m >= 2 {
        res := DoublingLoop(F, x, m, x, res, 1);
      }
    } else {
      var prev := x;
      for i := 1 to m
        invariant F.R(res) == F.R(Geometric(x, i))
        invariant F.R(prev) == F.R(Pow(x, if i == 1 then 1 else i - 1))
      {
        if i > 1 {
          F.MulV(prev, Pow(x, i - 1), x, x);
          assert Pow(x, i) == x * Pow(x, i - 1) == Pow(x, i - 1) * x;
          prev := F.Mul(prev, x);
        }
        F.AddV(res, Geometric(x, i), prev, Pow(x, i));
        res := F.Add(res, prev);
      }
    }
    GeometricPowerSum(x, n);
    F.SubV(res, Geometric(x, if n == 0 then 2 else n + 1), 1, 1);
    r := F.Sub(res, 1);
  }

  lemma GeometricStart(x: int)
    ensures Pow(x, 1) == x && Geometric(x, 1) == 1 && Geometric(x, 2) == 1 + x
  {
    assert Pow(x, 1) == x * Pow(x, 0);
    assert Geometric(x, 2) == Geometric(x, 1) + Pow(x, 1);
  }

  lemma {:induction false} EvenIsSquared(x: int, m: nat)
    ensures EvenPowerSum(x, m) == PowerSum(x * x, m)
  {
    if m > 0 {
      EvenIsSquared(x, m - 1);
      PowMul(x, 2, m);
      assert Pow(x, 2) == x * Pow(x, 1) == x * (x * Pow(x, 0));
    }
  }

  /** One doubling of w + ... + w^k into w + ... + w^(2k). */
  lemma DoublePowerSum(F: Field, w: int, k: nat, wk: int, res: int)
    requires F.R(res) == F.R(PowerSum(w, k)) && F.R(wk) == F.R(Pow(w, k))
    ensures F.R(F.MulAdd(wk, res, res)) == F.R(PowerSum(w, 2 * k))
    ensures F.R(F.Mul(wk, wk)) == F.R(Pow(w, 2 * k))
  {
    PowerSumAdd(w, k, k);
    PowAdd(w, k, k);
    hide Field.R, Pow, PowerSum;
    F.MulAddV(wk, Pow(w, k), res, PowerSum(w, k), res, PowerSum(w, k));
    F.MulV(wk, Pow(w, k), wk, Pow(w, k));
    assert k + k == 2 * k;
  }

  lemma {:induction false} PowerSumAdd(x: int, m: nat, n: nat)
    ensures PowerSum(x, m + n) == PowerSum(x, m) + Pow(x, m) * PowerSum(x, n)
  {
    if n > 0 {
      PowerSumAdd(x, m, n - 1);
      PowAdd(x, m, n);
      Distribute(Pow(x, m), PowerSum(x, n - 1), Pow(x, n));
      hide Pow;
    }
  }

  /** `sumOfEvenPowers`: x² + x⁴ + ... + xⁿ for n = 2^k. bulletproofplus.ts:181-187. */
  method SumOfEvenPowers(F: Field, x: int, n: nat, ghost k: nat) returns (res: int)
    requires n == Pow2(k)
    ensures F.R(res) == F.R(EvenPowerSum(x, if n == 1 then 1 else n / 2))
  {
    var x1 := F.Mul(x, x);
    res := x1;
    var m := n;
    ghost var covered: nat, left: nat, w := 1, k, x * x;
    F.MulV(x, x, x, x);
    FirstPower(w);
    EvenHalves(n, k);
    hide Field.R, Field.Mul, Field.MulAdd, Pow, PowerSum, Pow2, EvenPowerSum;
    while m > 2
      invariant m == Pow2(left) && (n >= 2 ==> m >= 2)
      invariant covered > 0 && covered * m == n
      invariant F.R(res) == F.R(PowerSum(w, covered)) && F.R(x1) == F.R(Pow(w, covered))
    {
      DoublePowerSum(F, w, covered, x1, res);
      res := F.MulAdd(x1, res, res);
      x1 := F.Mul(x1, x1);
      HalveDouble(covered, m);
      EvenHalves(m, left);
      m := m / 2;
      covered, left := 2 * covered, left - 1;
    }
    EvenIsSquared(x, covered);
    Covered(covered, m, n);
  }

  lemma FirstPower(w: int)
    ensures PowerSum(w, 1) == w && Pow(w, 1) == w
  {
    assert PowerSum(w, 1) == Sum(0, Powers(w)) + Powers(w)(0);
    assert Pow(w, 1) == w * Pow(w, 0) == w;
  }

  lemma EvenHalves(n: nat, k: nat)
    requires n == Pow2(k)
    ensures n >= 1 && (n > 1 ==> n >= 2)
    ensures n > 2 ==> k > 0 && n / 2 == Pow2(k - 1) && n / 2 >= 2 && n % 2 == 0
  {
    if k > 1 { assert Pow2(k) == 2 * Pow2(k - 1) && Pow2(k - 1) == 2 * Pow2(k - 2); }
  }

  lemma Covered(covered: nat, m: nat, n: nat)
    requires covered > 0 && covered * m == n && 1 <= m <= 2 && (n >= 2 ==> m >= 2)
    ensures covered == if n == 1 then 1 else n / 2
  {
  }

  /** 2^64 - 1, by squaring 2 six times. bulletproofplus.ts:190-194. */
  method TwoTo64MinusOne(F: Field) returns (r: int)
    ensures F.R(r) == F.R(TWO_64 - 1)
  {
    var two := F.R(2);
    F.Idem(2);
    ghost var p := 1;
    assert Pow(2, 1) == 2 * Pow(2, 0);
    for i := 0 to 6
      invariant p == Pow2(i) && F.R(two) == F.R(Pow(2, p))
    {
      SquarePower(F, 2, p, two);
      two := F.Mul(two, two);
      p := 2 * p;
    }
    TwoTo64();
    assert p == 64 by { assert Pow2(6) == 64; }
    F.SubV(two, TWO_64, 1, 1);
    r := F.Sub(two, 1);
  }

  lemma SquarePower(F: Field, y: int, k: nat, r: int)
    requires F.R(r) == F.R(Pow(y, k))
    ensures F.R(F.Mul(r, r)) == F.R(Pow(y, 2 * k))
  {
    F.MulV(r, Pow(y, k), r, Pow(y, k));
    PowAdd(y, k, k);
    assert k + k == 2 * k;
  }

  /** y^n by repeated squaring, for n a power of two. bulletproofplus.ts:277-280. */
  method PowerByDoubling(F: Field, y: int, n: nat, ghost k: nat) returns (r: int)
    requires n == Pow2(k)
    ensures F.R(r) == F.R(Pow(y, n))
  {
    r := y;
    var m := n;
    ghost var left: nat := k;
    assert Pow(y, Pow2(0)) == y by { assert Pow2(0) == 1 && Pow(y, 1) == y * Pow(y, 0); }
    hide Field.R, Field.Mul, Pow;
    while m > 1
      invariant left <= k && m == Pow2(left)
      invariant F.R(r) == F.R(Pow(y, Pow2(k - left)))
      decreases left
    {
      assert m == 2 * Pow2(left - 1) && Pow2(k - left + 1) == 2 * Pow2(k - left);
      SquarePower(F, y, Pow2(k - left), r);
      r := F.Mul(r, r);
      m := m / 2;
      left := left - 1;
    }
    PowTwoOne(left);
  }

  lemma PowTwoOne(k: nat)
    requires Pow2(k) <= 1
    ensures k == 0
  {
  }

  // ---- The windowed vector d --------------------------------------------------

  lemma WindowStart(z: int)
    ensures Window(z, 0) == Pow(z, 2) == z * z
  {
    assert Pow(z, 2) == z * Pow(z, 1) == z * (z * Pow(z, 0));
    assert Pow(2, 0) == 1;
  }

  lemma WindowDouble(z: int, i: nat)
    requires 1 <= i < 64
    ensures Window(z, i) == Window(z, i - 1) + Window(z, i - 1) == Window(z, i - 1) * 2
  {
    var w := Pow(z, 2);
    assert i / 64 == 0 && (i - 1) / 64 == 0;
    assert Pow(2, i) == 2 * Pow(2, i - 1);
    hide Pow;
    assert w * (2 * Pow(2, i - 1)) == (w * Pow(2, i - 1)) * 2;
  }

  lemma WindowNext(z: int, j: nat, i: nat)
    requires i < 64
    ensures Window(z, (j + 1) * 64 + i) == Window(z, j * 64 + i) * (z * z)
  {
    var t := j * 64 + i;
    assert t / 64 == j && (t + 64) / 64 == j + 1 && (t + 64) % 64 == t % 64 == i;
    PowAdd(z, 2 * (j + 1), 2);
    WindowStart(z);
    hide Pow;
    var u, v := Pow(z, 2 * (j + 1)), Pow(2, i);
    assert (u * (z * z)) * v == (u * v) * (z * z);
  }

  /** The rows after the first: each is the one before times z². bulletproofplus.ts:306, 511. */
  method FillRows(F: Field, d: array<int>, z: int, zSquared: int, M: nat)
    requires d.Length == 64 * M && M >= 1
    requires F.R(zSquared) == F.R(z * z)
    requires forall i :: 0 <= i < 64 ==> F.R(d[i]) == F.R(Window(z, i))
    modifies d
    ensures forall i :: 0 <= i < d.Length ==> F.R(d[i]) == F.R(Window(z, i))
  {
    hide Field.R, Window;
    for j := 1 to M
      invariant forall i :: 0 <= i < j * 64 ==> F.R(d[i]) == F.R(Window(z, i))
    {
      for i := 0 to 64
        invariant forall t :: 0 <= t < j * 64 + i ==> F.R(d[t]) == F.R(Window(z, t))
      {
        F.MulV(d[(j - 1) * 64 + i], Window(z, (j - 1) * 64 + i), zSquared, z * z);
        WindowNext(z, j - 1, i);
        d[j * 64 + i] := F.Mul(d[(j - 1) * 64 + i], zSquared);
      }
    }
  }

  /** The verifier's d, whose first row doubles by addition. bulletproofplus.ts:302-306. */
  method WindowByAddition(F: Field, z: int, zSquared: int, M: nat) returns (d: array<int>)
    requires M >= 1 && F.R(zSquared) == F.R(z * z)
    ensures fresh(d) && d.Length == 64 * M
    ensures forall i :: 0 <= i < d.Length ==> F.R(d[i]) == F.R(Window(z, i))
  {
    d := new int[64 * M](_ => 0);
    d[0] := zSquared;
    WindowStart(z);
    hide Field.R, Window;
    for i := 1 to 64
      invariant forall t :: 0 <= t < i ==> F.R(d[t]) == F.R(Window(z, t))
    {
      F.AddV(d[i - 1], Window(z, i - 1), d[i - 1], Window(z, i - 1));
      WindowDouble(z, i);
      d[i] := F.Add(d[i - 1], d[i - 1]);
    }
    FillRows(F, d, z, zSquared, M);
  }

  /** The prover's d, whose first row doubles by multiplication. bulletproofplus.ts:507-511. */
  method WindowByMultiplication(F: Field, z: int, zSquared: int, M: nat) returns (d: array<int>)
    requires M >= 1 && F.R(zSquared) == F.R(z * z)
    ensures fresh(d) && d.Length == 64 * M
    ensures forall i :: 0 <= i < d.Length ==> F.R(d[i]) == F.R(Window(z, i))
  {
    d := new int[64 * M](_ => 0);
    d[0] := zSquared;
    WindowStart(z);
    hide Field.R, Window;
    for i := 1 to 64
      invariant forall t :: 0 <= t < i ==> F.R(d[t]) == F.R(Window(z, t))
    {
      F.MulV(d[i - 1], Window(z, i - 1), 2, 2);
      WindowDouble(z, i);
      d[i] := F.Mul(d[i - 1], 2);
    }
    FillRows(F, d, z, zSquared, M);
  }

  lemma WindowAt(z: int, j: nat, i: nat)
    requires i < 64
    ensures Window(z, 64 * j + i) == Pow(z, 2 * (j + 1)) * Pow(2, i)
  {
    hide Pow;
    assert (64 * j + i) / 64 == j && (64 * j + i) % 64 == i;
  }

  lemma RowAt(z: int, j: nat, i: nat)
    requires i < 64
    ensures Row(z, j)(i) == Pow(z, 2 * (j + 1)) * PowersOfTwo()(i)
  {
    hide Pow, Window;
    WindowAt(z, j, i);
  }

  /** Row j of the windowed vector adds up to (2^64 - 1)·z^(2(j+1)). */
  lemma WindowRow(z: int, j: nat)
    ensures Sum(64, Row(z, j)) == (TWO_64 - 1) * Pow(z, 2 * (j + 1))
  {
    var u := Pow(z, 2 * (j + 1));
    hide Sum, Pow, Row, PowersOfTwo;
    forall i | 0 <= i < 64 ensures Row(z, j)(i) == u * PowersOfTwo()(i) {
      RowAt(z, j, i);
    }
    SumMultiple(64, Row(z, j), u, PowersOfTwo());
    BinarySum(64);
    TwoTo64();
    SameScale(u, Sum(64, PowersOfTwo()), TWO_64 - 1);
    assert u * (TWO_64 - 1) == (TWO_64 - 1) * u;
  }

  lemma TwoTo64()
    ensures Pow(2, 64) == TWO_64
  {
    PowAdd(2, 32, 32);
    PowAdd(2, 16, 16);
    PowAdd(2, 8, 8);
    assert Pow2(8) == 256;
  }

  lemma EvenPowerStep(z: int, j: nat)
    ensures EvenPowerSum(z, j + 1) == EvenPowerSum(z, j) + Pow(z, 2 * (j + 1))
  {
  }

  lemma WindowTotalStep(z: int, j: nat)
    ensures Sum(64 * j + 64, Windows(z)) == Sum(64 * j, Windows(z)) + (TWO_64 - 1) * Pow(z, 2 * (j + 1))
  {
    hide Sum, Pow, Window;
    WindowRow(z, j);
    SumSplit(64 * j, 64, Windows(z));
    SumExt(64, i => Windows(z)(64 * j + i), Row(z, j));
  }

  /** The windowed vector adds up to (2^64 - 1)·(z² + z⁴ + ... + z^(2M)). */
  lemma {:induction false} WindowTotal(z: int, M: nat)
    ensures Sum(64 * M, Windows(z)) == (TWO_64 - 1) * EvenPowerSum(z, M)
  {
    if M == 0 {
    } else {
      var j := M - 1;
      WindowTotal(z, j);
      EvenPowerStep(z, j);
      WindowTotalStep(z, j);
      hide Sum, Pow, EvenPowerSum, Windows;
      Distribute(TWO_64 - 1, EvenPowerSum(z, j), Pow(z, 2 * (j + 1)));
      assert 64 * j + 64 == 64 * M;
    }
  }

  ghost function Row(z: int, j: nat): int -> int { i => if i < 0 then 0 else Window(z, 64 * j + i) }

  ghost function Windows(z: int): int -> int { i => if i < 0 then 0 else Window(z, i) }

  ghost function PowersOfTwo(): int -> int { i => if i < 0 then 0 else Pow(2, i) }

  lemma {:induction false} BinarySum(n: nat)
    ensures Sum(n, PowersOfTwo()) == Pow(2, n) - 1
  {
    if n > 0 {
      BinarySum(n - 1);
    }
  }

  // ---- The challenge products ---------------------------------------------------

  /**
   * The table of challenge products, grown in place from the top bit down: entry i multiplies, for
   * every round, the challenge or its inverse as the bits of i say. bulletproofplus.ts:317-327.
   */
  method ChallengeProducts(F: Field, challenges: seq<int>, challengesInv: seq<int>) returns (cache: array<int>)
    requires |challenges| == |challengesInv| >= 1
    requires forall j :: 0 <= j < |challenges| ==> challengesInv[j] == F.Inverse(challenges[j])
    ensures fresh(cache) && cache.Length == Pow2(|challenges|)
    ensures forall i :: 0 <= i < cache.Length ==> F.R(cache[i]) == F.R(Weight(F, challenges, i))
  {
    var rounds := |challenges|;
    cache := new int[Pow2(rounds)](_ => 0);
    PowTwoMonotone(1, rounds);
    cache[0] := challengesInv[0];
    cache[1] := challenges[0];
    WeightFirst(F, challenges);
    for j := 1 to rounds
      invariant Pow2(j) <= cache.Length
      invariant forall i :: 0 <= i < Pow2(j) ==> F.R(cache[i]) == F.R(Weight(F, challenges[..j], i))
    {
      PowTwoMonotone(j + 1, rounds);
      GrowRow(F, challenges, challengesInv, cache, j);
    }
    assert challenges[..rounds] == challenges;
  }

  /** One pass of the outer loop: row j becomes row j + 1, walking down so no entry is read after it is overwritten. */
  method GrowRow(F: Field, challenges: seq<int>, challengesInv: seq<int>, cache: array<int>, j: nat)
    requires |challenges| == |challengesInv| && 1 <= j < |challenges|
    requires forall k :: 0 <= k < |challenges| ==> challengesInv[k] == F.Inverse(challenges[k])
    requires Pow2(j + 1) <= cache.Length
    requires forall i :: 0 <= i < Pow2(j) ==> F.R(cache[i]) == F.R(Weight(F, challenges[..j], i))
    modifies cache
    ensures forall i :: 0 <= i < Pow2(j + 1) ==> F.R(cache[i]) == F.R(Weight(F, challenges[..j + 1], i))
  {
    var slots := Pow2(j + 1);
    var s := slots;
    ghost var k := Pow2(j);
    assert slots == 2 * k;
    hide Field.R, Field.Mul, Weight, Pow2;
    while s > 0
      invariant 0 <= s <= slots && s == 2 * k
      invariant forall i :: 0 <= i < k ==> F.R(cache[i]) == F.R(Weight(F, challenges[..j], i))
      invariant forall i :: s <= i < slots ==> F.R(cache[i]) == F.R(Weight(F, challenges[..j + 1], i))
    {
      s := s - 1;
      k := k - 1;
      assert s / 2 == k;
      WeightStep(F, challenges, j, k);
      F.MulV(cache[k], Weight(F, challenges[..j], k), challenges[j], challenges[j]);
      F.MulV(cache[k], Weight(F, challenges[..j], k), challengesInv[j], challengesInv[j]);
      cache[s] := F.Mul(cache[s / 2], challenges[j]);
      cache[s - 1] := F.Mul(cache[s / 2], challengesInv[j]);
      s := s - 1;
    }
  }

  lemma WeightStep(F: Field, cs: seq<int>, j: nat, t: nat)
    requires j < |cs|
    ensures Weight(F, cs[..j + 1], 2 * t + 1) == Weight(F, cs[..j], t) * cs[j]
    ensures Weight(F, cs[..j + 1], 2 * t) == Weight(F, cs[..j], t) * F.Inverse(cs[j])
  {
    assert cs[..j + 1][..j] == cs[..j];
  }

  lemma WeightFirst(F: Field, cs: seq<int>)
    requires |cs| >= 1
    ensures Weight(F, cs[..1], 0) == F.Inverse(cs[0]) && Weight(F, cs[..1], 1) == cs[0]
    ensures Pow2(1) == 2
  {
    WeightStep(F, cs, 0, 0);
    assert Weight(F, cs[..0], 0) == 1;
  }

  lemma PowTwoMonotone(a: nat, b: nat)
    requires a <= b
    ensures Pow2(a) <= Pow2(b)
  {
    if a < b { PowTwoMonotone(a, b - 1); }
  }
}
