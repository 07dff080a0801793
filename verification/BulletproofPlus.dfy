/**
 * `proveBulletproofPlus` and its completeness: whatever the prover returns, the verifier accepts
 * over the commitments 8·V.
 */
module BulletproofPlusComplete {
  import opened Sums
  import opened Scalars
  import opened Curve
  import opened InnerProduct
  import opened BulletproofPlusSpec
  import opened BulletproofPlusTables
  import opened BulletproofPlusAlgebra
  import opened BulletproofPlusOpening
  import opened BulletproofPlusClosing
  import opened BulletproofPlusHonest
  import opened BulletproofPlusProver
  import opened BulletproofPlusVerifier

  datatype Problem =
    | NothingToProve | MaskCountMismatch | TooManyAmounts | AmountOutOfRange | WrongRandomCount | ZeroDraw | ZeroChallenge

  datatype Result<T> = Ok(value: T) | Err(problem: Problem)

  /** The proof and the offset commitments it is over; 8·V[i] is what goes on the wire. */
  datatype Proved = Proved(proof: BulletproofPlus, V: seq<PointBytes>)

  // ---- How much randomness ---------------------------------------------------------

  /** The least k with 2^k >= n. */
  function CeilLog(n: nat): (k: nat)
    ensures n <= Pow2(k) && (k > 0 ==> Pow2(k - 1) < n)
  {
    if n <= 1 then 0 else 1 + CeilLog((n + 1) / 2)
  }

  lemma CeilLogUnique(n: nat, k: nat)
    requires n <= Pow2(k) && (k > 0 ==> Pow2(k - 1) < n)
    ensures k == CeilLog(n)
  {
    var c := CeilLog(n);
    if k < c { PowTwoMonotone(k, c - 1); }
    if c < k { PowTwoMonotone(c, k - 1); }
  }

  lemma CeilLogPads(n: nat)
    requires n <= 16
    ensures CeilLog(n) == PadLog(n)
  {
    PadLogTable();
    CeilLogUnique(n, PadLog(n));
  }

  method LogLoop(n: nat) returns (logM: nat, M: nat)
    ensures logM == CeilLog(n) && M == Pow2(logM)
  {
    logM, M := 0, 1;
    while M < n
      invariant logM <= CeilLog(n) && M == Pow2(logM)
      decreases CeilLog(n) - logM
    {
      if logM >= CeilLog(n) { PowTwoMonotone(CeilLog(n), logM); }
      logM, M := logM + 1, 2 * M;
    }
    if logM > 0 { PowTwoMonotone(logM - 1, CeilLog(n)); }
    if logM < CeilLog(n) { PowTwoMonotone(logM, CeilLog(n) - 1); }
  }

  /** `bppRandomCount`: alpha, two draws a round, four for the last. bulletproofplus.ts:399-403. */
  method BppRandomCount(nAmounts: nat) returns (count: nat)
    ensures count == RandomCount(nAmounts)
  {
    var logM, _ := LogLoop(nAmounts);
    count := 1 + 2 * (logM + LOG_N) + 4;
  }

  function RandomCount(nAmounts: nat): nat {
    1 + 2 * (CeilLog(nAmounts) + LOG_N) + 4
  }

  // ---- The commitments ---------------------------------------------------------------

  /** V[i] = (gamma·8⁻¹)·G + (amount·8⁻¹)·H. bulletproofplus.ts:459-464. */
  method CommitAll(E: Group, inv8: int, amounts: seq<int>, gammas: seq<int>) returns (V: seq<Point>)
    requires E.Valid() && |amounts| == |gammas| && E.F.R(8 * inv8) == E.F.R(1)
    ensures |V| == |amounts| && PointsFree(E, V)
    ensures forall i :: 0 <= i < |V| ==> E.Times(8, V[i]) == CommitTo(E, amounts[i], gammas[i])
  {
    V := [];
    hide Field.R, Field.Mul, Group.Times, CommitTo;
    for i := 0 to |amounts|
      invariant |V| == i && PointsFree(E, V)
      invariant forall k :: 0 <= k < i ==> E.Times(8, V[k]) == CommitTo(E, amounts[k], gammas[k])
    {
      var P := CommitOffset(E, inv8, amounts[i], gammas[i]);
      V := V + [P];
    }
  }

  method CommitOffset(E: Group, inv8: int, amount: int, gamma: int) returns (P: Point)
    requires E.Valid() && E.F.R(8 * inv8) == E.F.R(1)
    ensures E.TorsionFree(P) && E.Times(8, P) == CommitTo(E, amount, gamma)
  {
    var F := E.F;
    ghost var us := [Term(gamma, BASE), Term(amount, E.H)];
    var ts := [Term(F.Mul(gamma, inv8), BASE), Term(F.Mul(F.R(amount), inv8), E.H)];
    assert E.AllTorsionFree(us) by { F.Range(1); }
    F.Idem(amount);
    F.MulV(gamma, gamma, inv8, inv8);
    F.MulV(F.R(amount), amount, inv8, inv8);
    assert us == [us[0]] + [us[1]];
    WeightedSingle(us[0]);
    WeightedSingle(us[1]);
    WeightedConcat([us[0]], [us[1]]);
    CommitFacts(E, amount, gamma);
    hide Field.R, Field.Mul, Weighted, Group.AllTorsionFree;
    P := MultiscalarSum(E, ts);
    EighthTotal(E, ts, us, inv8);
    E.TimesOnCurve(8, P);
    EightTimes(E, P);
    SameLog(E, E.Times(8, P), CommitTo(E, amount, gamma));
  }

  // ---- The bits and the commitment A -------------------------------------------------

  /** aL, aR and their copies at 8⁻¹, filled in place. bulletproofplus.ts:467-485. */
  method BitVectors(F: Field, inv8: int, amounts: seq<int>, M: nat)
    returns (aL: array<int>, aR: array<int>, aL8: array<int>, aR8: array<int>)
    requires InRange(amounts) && |amounts| <= M
    ensures aL.Length == aR.Length == aL8.Length == aR8.Length == 64 * M
    ensures forall i :: 0 <= i < 64 * M ==> aL[i] == Bit(amounts, i)
    ensures forall i :: 0 <= i < 64 * M ==> F.R(aR[i]) == F.R(Bit(amounts, i) - 1)
    ensures forall i :: 0 <= i < 64 * M ==> F.R(aL8[i]) == F.R(Bit(amounts, i) * inv8)
    ensures forall i :: 0 <= i < 64 * M ==> F.R(aR8[i]) == F.R((Bit(amounts, i) - 1) * inv8)
  {
    hide Field.R, Field.Sub, Bit, HasBit, BitsDone;
    var MN := 64 * M;
    aL, aR, aL8, aR8 := new int[MN](_ => 0), new int[MN](_ => 0), new int[MN](_ => 0), new int[MN](_ => 0);
    var minusOne, minusInv8 := F.Sub(0, 1), F.Sub(0, inv8);
    F.SubV(0, 0, 1, 1);
    F.SubV(0, 0, inv8, inv8);
    BitsStart(F, inv8, amounts, aL, aR, aL8, aR8);
    for j := 0 to M
      invariant BitsDone(F, inv8, amounts, aL, aR, aL8, aR8, 64 * j)
    {
      for i := 0 to 64
        invariant BitsDone(F, inv8, amounts, aL, aR, aL8, aR8, 64 * j + i)
      {
        var isOne := j < |amounts| && HasBit(amounts[j], i);
        BitAt(amounts, j, i);
        SetBit(F, inv8, minusOne, minusInv8, amounts, isOne, j * 64 + i, aL, aR, aL8, aR8);
      }
    }
    BitsFinish(F, inv8, amounts, aL, aR, aL8, aR8);
  }

  lemma BitsStart(F: Field, inv8: int, amounts: seq<int>, aL: array<int>, aR: array<int>, aL8: array<int>, aR8: array<int>)
    requires aL != aR && aL != aL8 && aL != aR8 && aR != aL8 && aR != aR8 && aL8 != aR8
    requires aL.Length == aR.Length == aL8.Length == aR8.Length
    requires forall t :: 0 <= t < aL.Length ==> aL[t] == aR[t] == aL8[t] == aR8[t] == 0
    ensures BitsDone(F, inv8, amounts, aL, aR, aL8, aR8, 0)
  {
  }

  lemma BitsFinish(F: Field, inv8: int, amounts: seq<int>, aL: array<int>, aR: array<int>, aL8: array<int>, aR8: array<int>)
    requires BitsDone(F, inv8, amounts, aL, aR, aL8, aR8, aL.Length)
    ensures aL.Length == aR.Length == aL8.Length == aR8.Length
    ensures forall i :: 0 <= i < aL.Length ==> aL[i] == Bit(amounts, i)
    ensures forall i :: 0 <= i < aL.Length ==> F.R(aR[i]) == F.R(Bit(amounts, i) - 1)
    ensures forall i :: 0 <= i < aL.Length ==> F.R(aL8[i]) == F.R(Bit(amounts, i) * inv8)
    ensures forall i :: 0 <= i < aL.Length ==> F.R(aR8[i]) == F.R((Bit(amounts, i) - 1) * inv8)
  {
    hide Field.R, Bit;
  }

  method SetBit(F: Field, inv8: int, minusOne: int, minusInv8: int, ghost amounts: seq<int>, isOne: bool, t: nat,
                aL: array<int>, aR: array<int>, aL8: array<int>, aR8: array<int>)
    requires BitsDone(F, inv8, amounts, aL, aR, aL8, aR8, t) && t < aL.Length
    requires F.R(minusOne) == F.R(-1) && F.R(minusInv8) == F.R(-inv8)
    requires Bit(amounts, t) == if isOne then 1 else 0
    modifies aL, aR, aL8, aR8
    ensures BitsDone(F, inv8, amounts, aL, aR, aL8, aR8, t + 1)
  {
    hide Field.R, Bit;
    if isOne {
      aL[t] := 1;
      aL8[t] := inv8;
    } else {
      aR[t] := minusOne;
      aR8[t] := minusInv8;
    }
  }

  /** ((v >> i) & 1) === 1, for v >= 0. */
  predicate HasBit(v: int, i: nat) {
    (v / Pow2(i)) % 2 == 1
  }

  lemma BitAt(amounts: seq<int>, j: nat, i: nat)
    requires i < 64
    ensures Bit(amounts, j * 64 + i) == if j < |amounts| && HasBit(amounts[j], i) then 1 else 0
  {
    assert (j * 64 + i) / 64 == j && (j * 64 + i) % 64 == i;
  }

  ghost predicate BitsDone(F: Field, inv8: int, amounts: seq<int>, aL: array<int>, aR: array<int>, aL8: array<int>, aR8: array<int>, n: nat)
    reads aL, aR, aL8, aR8
  {
    && aL != aR && aL != aL8 && aL != aR8 && aR != aL8 && aR != aR8 && aL8 != aR8
    && n <= aL.Length == aR.Length == aL8.Length == aR8.Length
    && (forall t :: n <= t < aL.Length ==> aL[t] == aR[t] == aL8[t] == aR8[t] == 0)
    && (forall t :: 0 <= t < n ==> aL[t] == Bit(amounts, t))
    && (forall t :: 0 <= t < n ==> F.R(aR[t]) == F.R(Bit(amounts, t) - 1))
    && (forall t :: 0 <= t < n ==> F.R(aL8[t]) == F.R(Bit(amounts, t) * inv8))
    && (forall t :: 0 <= t < n ==> F.R(aR8[t]) == F.R((Bit(amounts, t) - 1) * inv8))
  }

  ghost function Bits(amounts: seq<int>, n: nat, minus: int): (s: seq<int>)
    ensures |s| == n
  {
    seq(n, i requires 0 <= i < n => Bit(amounts, i) - minus)
  }

  ghost function GiPoints(E: Group, n: nat): (s: seq<Point>) ensures |s| == n
  { seq(n, i requires 0 <= i < n => E.gi(i)) }

  ghost function HiPoints(E: Group, n: nat): (s: seq<Point>) ensures |s| == n
  { seq(n, i requires 0 <= i < n => E.hi(i)) }

  lemma ACellsAreCross(E: Group, amounts: seq<int>, n: nat)
    ensures Sum(n, CrossCells(1, Bits(amounts, n, 0), GiPoints(E, n), Bits(amounts, n, 1), HiPoints(E, n))) == Sum(n, ACell(E, amounts))
  {
    hide Bit, Sum;
    var f := CrossCells(1, Bits(amounts, n, 0), GiPoints(E, n), Bits(amounts, n, 1), HiPoints(E, n));
    forall i | 0 <= i < n ensures f(i) == ACell(E, amounts)(i) {
    }
    SumExt(n, f, ACell(E, amounts));
  }

  /** A commits to the bits under the blind alpha. bulletproofplus.ts:490-497. */
  method CommitBits(E: Group, inv8: int, ghost amounts: seq<int>, aL8: array<int>, aR8: array<int>, alpha: int) returns (A: Point)
    requires E.Valid() && E.F.R(8 * inv8) == E.F.R(1) && aL8.Length == aR8.Length
    requires forall i :: 0 <= i < aL8.Length ==> E.F.R(aL8[i]) == E.F.R(Bit(amounts, i) * inv8)
    requires forall i :: 0 <= i < aR8.Length ==> E.F.R(aR8[i]) == E.F.R((Bit(amounts, i) - 1) * inv8)
    ensures E.TorsionFree(A)
    ensures E.F.R(8 * A.log) == E.F.R(Sum(aL8.Length, ACell(E, amounts)) + alpha)
  {
    hide Field.R, Field.Mul, Sum, Bit, Weighted, CrossTerms, CrossCells, ACell, Bits, GiPoints, HiPoints, PointsFree,
         Group.AllTorsionFree;
    var F := E.F;
    var n := aL8.Length;
    ghost var a, P, b, Q := Bits(amounts, n, 0), GiPoints(E, n), Bits(amounts, n, 1), HiPoints(E, n);
    ghost var us := CrossTerms(1, a, P, b, Q, 2 * n);
    var terms := BitSummands(E, inv8, amounts, aL8, aR8);
    ACellsAreCross(E, amounts, n);
    CrossWeighted(1, a, P, b, Q);
    F.MulV(alpha, alpha, inv8, inv8);
    EighthsConcat(F, terms, us, [Term(F.Mul(alpha, inv8), BASE)], [Term(alpha, BASE)], inv8);
    WeightedSingle(Term(alpha, BASE));
    WeightedConcat(us, [Term(alpha, BASE)]);
    GeneratorsFree(E, a, b, alpha, n);
    A := MultiscalarSum(E, terms + [Term(F.Mul(alpha, inv8), BASE)]);
    EighthTotal(E, terms + [Term(F.Mul(alpha, inv8), BASE)], us + [Term(alpha, BASE)], inv8);
  }

  method BitSummands(E: Group, inv8: int, ghost amounts: seq<int>, aL8: array<int>, aR8: array<int>) returns (terms: seq<Term>)
    requires aL8.Length == aR8.Length
    requires forall i :: 0 <= i < aL8.Length ==> E.F.R(aL8[i]) == E.F.R(Bit(amounts, i) * inv8)
    requires forall i :: 0 <= i < aR8.Length ==> E.F.R(aR8[i]) == E.F.R((Bit(amounts, i) - 1) * inv8)
    ensures Eighths(E.F, terms, CrossTerms(1, Bits(amounts, aL8.Length, 0), GiPoints(E, aL8.Length),
                                           Bits(amounts, aL8.Length, 1), HiPoints(E, aL8.Length), 2 * aL8.Length), inv8)
  {
    hide Field.R, Bit;
    var n := aL8.Length;
    ghost var a, P, b, Q := Bits(amounts, n, 0), GiPoints(E, n), Bits(amounts, n, 1), HiPoints(E, n);
    terms := [];
    for i := 0 to n
      invariant Eighths(E.F, terms, CrossTerms(1, a, P, b, Q, 2 * i), inv8)
    {
      assert (2 * i + 1) / 2 == i;
      terms := terms + [Term(aL8[i], E.gi(i))];
      terms := terms + [Term(aR8[i], E.hi(i))];
    }
  }

  lemma GeneratorsFree(E: Group, a: seq<int>, b: seq<int>, alpha: int, n: nat)
    requires E.Valid() && |a| == |b| == n
    ensures E.AllTorsionFree(CrossTerms(1, a, GiPoints(E, n), b, HiPoints(E, n), 2 * n) + [Term(alpha, BASE)])
  {
    E.F.Range(1);
  }

  // ---- The vectors the argument starts from --------------------------------------------

  /** Powers of x in a table of the given length. bulletproofplus.ts:514-516, 530-532. */
  method PowerTable(F: Field, x: int, length: nat) returns (powers: array<int>)
    requires length > 0
    ensures fresh(powers) && powers.Length == length
    ensures forall i :: 0 <= i < length ==> F.R(powers[i]) == F.R(Pow(x, i))
  {
    hide Field.R, Field.Mul, Pow;
    powers := new int[length](_ => 0);
    powers[0] := 1;
    PowZero(x);
    for i := 1 to length
      invariant forall k :: 0 <= k < i ==> F.R(powers[k]) == F.R(Pow(x, k))
    {
      F.MulV(powers[i - 1], Pow(x, i - 1), x, x);
      PowNext(x, i - 1);
      powers[i] := F.Mul(powers[i - 1], x);
    }
  }

  lemma SubReduced(F: Field, a: int, b: int)
    ensures F.R(F.Sub(a, b)) == F.Sub(a, b)
  {
    F.Idem(a - b);
  }

  /** aL - z. bulletproofplus.ts:519. */
  method StartA(F: Field, ghost amounts: seq<int>, aL: array<int>, z: int) returns (a: seq<int>)
    requires forall i :: 0 <= i < aL.Length ==> aL[i] == Bit(amounts, i)
    ensures |a| == aL.Length && forall i :: 0 <= i < |a| ==> F.R(a[i]) == a[i] == F.R(Bit(amounts, i) - z)
  {
    hide Field.R, Field.Sub, Bit;
    a := [];
    for i := 0 to aL.Length
      invariant |a| == i && forall k :: 0 <= k < i ==> F.R(a[k]) == a[k] == F.R(Bit(amounts, k) - z)
    {
      SubReduced(F, aL[i], z);
      F.SubV(aL[i], aL[i], z, z);
      a := a + [F.Sub(aL[i], z)];
    }
  }

  /** aR + z + d∘(reversed y powers). bulletproofplus.ts:520. */
  method StartB(F: Field, ghost amounts: seq<int>, aR: array<int>, d: array<int>, ghost y: int, yPowers: array<int>, z: int) returns (b: seq<int>)
    requires aR.Length == d.Length && yPowers.Length == aR.Length + 2
    requires forall i :: 0 <= i < aR.Length ==> F.R(aR[i]) == F.R(Bit(amounts, i) - 1)
    requires forall i :: 0 <= i < d.Length ==> F.R(d[i]) == F.R(Window(z, i))
    requires forall i :: 0 <= i < yPowers.Length ==> F.R(yPowers[i]) == F.R(Pow(y, i))
    ensures |b| == aR.Length
    ensures forall i :: 0 <= i < |b| ==> F.R(b[i]) == b[i] == F.R(Bit(amounts, i) - 1 + z + Window(z, i) * Pow(y, |b| - i))
  {
    hide Field.R, Field.Add, Field.Mul, Bit, Window, Pow;
    var n := aR.Length;
    b := [];
    for i := 0 to n
      invariant |b| == i
      invariant forall k :: 0 <= k < i ==> F.R(b[k]) == b[k] == F.R(Bit(amounts, k) - 1 + z + Window(z, k) * Pow(y, n - k))
    {
      AddReduced(F, F.Add(aR[i], z), F.Mul(d[i], yPowers[n - i]));
      F.AddV(aR[i], Bit(amounts, i) - 1, z, z);
      F.MulV(d[i], Window(z, i), yPowers[n - i], Pow(y, n - i));
      F.AddV(F.Add(aR[i], z), Bit(amounts, i) - 1 + z, F.Mul(d[i], yPowers[n - i]), Window(z, i) * Pow(y, n - i));
      b := b + [F.Add(F.Add(aR[i], z), F.Mul(d[i], yPowers[n - i]))];
    }
  }

  /** alpha plus the masks' contribution. bulletproofplus.ts:522-527. */
  method StartAlpha(F: Field, alpha: int, yTop: int, ghost Y1: int, ghost z: int, zSquared: int, gammas: seq<int>) returns (alpha1: int)
    requires F.R(yTop) == F.R(Y1) && F.R(zSquared) == F.R(z * z) && F.R(alpha) == alpha
    ensures F.R(alpha1) == alpha1 == F.R(alpha + Y1 * Sum(|gammas|, ScaledGammas(gammas, z)))
  {
    alpha1 := alpha;
    var zPow := 1;
    PowZero(z);
    assert Y1 * Sum(0, ScaledGammas(gammas, z)) == 0;
    hide Field.R, Field.Mul, Field.MulAdd, Pow, Sum;
    for j := 0 to |gammas|
      invariant F.R(zPow) == F.R(Pow(z, 2 * j))
      invariant F.R(alpha1) == alpha1 == F.R(alpha + Y1 * Sum(j, ScaledGammas(gammas, z)))
    {
      MulAddReduced(F, F.Mul(yTop, F.Mul(zPow, zSquared)), gammas[j], alpha1);
      AlphaStep(F, alpha, yTop, Y1, z, zSquared, gammas, j, zPow, alpha1);
      zPow := F.Mul(zPow, zSquared);
      alpha1 := F.MulAdd(F.Mul(yTop, zPow), gammas[j], alpha1);
    }
  }

  lemma AlphaStep(F: Field, alpha: int, yTop: int, Y1: int, z: int, zSquared: int, gammas: seq<int>, j: nat, zPow: int, alpha1: int)
    requires j < |gammas| && F.R(yTop) == F.R(Y1) && F.R(zSquared) == F.R(z * z) && F.R(zPow) == F.R(Pow(z, 2 * j))
    requires F.R(alpha1) == F.R(alpha + Y1 * Sum(j, ScaledGammas(gammas, z)))
    ensures F.R(F.Mul(zPow, zSquared)) == F.R(Pow(z, 2 * (j + 1)))
    ensures F.R(F.MulAdd(F.Mul(yTop, F.Mul(zPow, zSquared)), gammas[j], alpha1))
         == F.R(alpha + Y1 * Sum(j + 1, ScaledGammas(gammas, z)))
  {
    hide Field.R, Pow, Sum, Field.Mul, Field.MulAdd;
    var p, s, g := Pow(z, 2 * (j + 1)), Sum(j, ScaledGammas(gammas, z)), gammas[j];
    PowAdd(z, 2 * j, 2);
    WindowStart(z);
    F.MulV(zPow, Pow(z, 2 * j), zSquared, z * z);
    F.MulV(yTop, Y1, F.Mul(zPow, zSquared), p);
    F.MulAddV(F.Mul(yTop, F.Mul(zPow, zSquared)), Y1 * p, g, g, alpha1, alpha + Y1 * s);
    SumLast(j, ScaledGammas(gammas, z));
    Associate(Y1, p, g);
    Distribute(Y1, s, p * g);
  }

  /** The argument's first state: nothing folded yet. */
  lemma FirstState(E: Group, y: int, yinv: int, n: nat, a: seq<int>, b: seq<int>, G: seq<Point>, H: seq<Point>, alpha: int)
    requires E.Valid() && |a| == |b| == n && G == GiPoints(E, n) && H == HiPoints(E, n)
    ensures RoundState(E, y, yinv, Commitment(VectorsOf(a, b, G, H), y, E.H.log, alpha), [], [], [], n, a, b, G, H, alpha)
  {
    hide Field.R, Sum, Commitment;
    assert RoundSum(E.F, [], [], []) == 0 by { SumLast(0, RoundPairs(E.F, [], [], [])); }
    forall i | 0 <= i < n
      ensures FoldedGi(E, [], yinv, n, i) == E.gi(i).log && FoldedHi(E, [], n, i) == E.hi(i).log
    {
      FirstFold(E, yinv, n, i);
    }
    hide FoldedGi, FoldedHi;
  }

  lemma FirstFold(E: Group, yinv: int, n: nat, i: nat)
    ensures FoldedGi(E, [], yinv, n, i) == E.gi(i).log && FoldedHi(E, [], n, i) == E.hi(i).log
  {
    assert 0 * n == 0;
    assert Pow(yinv, 0) == 1;
    var f, g := Strided(GiWeights(E.F, [], yinv, n), GiLog(E), n, i), Strided(HiWeights(E.F, []), HiLog(E), n, i);
    assert f(0) == E.gi(i).log;
    assert Pow2(0) == 1 && Weight(E.F, [], 0) == 1;
    assert HiWeights(E.F, [])(0) == 1;
    assert g(0) == E.hi(i).log;
    SumLast(0, f);
    SumLast(0, g);
  }

  method Generators(E: Group, n: nat) returns (G: seq<Point>, H: seq<Point>)
    ensures G == GiPoints(E, n) && H == HiPoints(E, n)
  {
    G, H := [], [];
    for i := 0 to n
      invariant G == GiPoints(E, i) && H == HiPoints(E, i)
    {
      G, H := G + [E.gi(i)], H + [E.hi(i)];
    }
  }

  // ---- The halving loop ---------------------------------------------------------------

  /** What the halving loop leaves behind. */
  datatype Argument = Argument(L: seq<Point>, R: seq<Point>, a: int, b: int, G: Point, H: Point, alpha: int, transcript: nat)

  ghost function EightAll(E: Group, P: seq<Point>): (s: seq<Point>) ensures |s| == |P|
  { seq(|P|, i requires 0 <= i < |P| => E.Times(8, P[i])) }

  lemma {:induction false} ChainAppend(E: Group, z: nat, L: seq<PointBytes>, R: seq<PointBytes>, l: PointBytes, r: PointBytes, j: nat)
    requires |L| == |R| && j <= |L|
    ensures Chain(E, z, L + [l], R + [r], j) == Chain(E, z, L, R, j)
  {
    if j > 0 {
      ChainAppend(E, z, L, R, l, r, j - 1);
    }
  }

  lemma ChallengesAppend(E: Group, z: nat, L: seq<Point>, R: seq<Point>, l: Point, r: Point, transcript: nat, c: nat)
    requires |L| == |R| && transcript == Chain(E, z, EncodedAll(L), EncodedAll(R), |L|)
    requires c == RoundHash(E, transcript, l, r)
    ensures Chain(E, z, EncodedAll(L + [l]), EncodedAll(R + [r]), |L| + 1) == c
    ensures Challenges(E, z, EncodedAll(L + [l]), EncodedAll(R + [r]), |L| + 1)
         == Challenges(E, z, EncodedAll(L), EncodedAll(R), |L|) + [c]
    ensures EightAll(E, L + [l]) == EightAll(E, L) + [E.Times(8, l)] && EightAll(E, R + [r]) == EightAll(E, R) + [E.Times(8, r)]
  {
    hide Group.HashToScalar;
    var EL, ER, el, er := EncodedAll(L), EncodedAll(R), Encodes(l), Encodes(r);
    assert EncodedAll(L + [l]) == EL + [el] && EncodedAll(R + [r]) == ER + [er];
    forall j | 0 <= j <= |L| ensures Chain(E, z, EL + [el], ER + [er], j) == Chain(E, z, EL, ER, j) {
      ChainAppend(E, z, EL, ER, el, er, j);
    }
  }

  /**
   * The halving loop, from 64·2^logM entries down to one, taking two draws a round.
   * bulletproofplus.ts:552-608.
   */
  method ProveRounds(E: Group, inv8: int, ghost X: int, y: int, ghost yinv: int, yPowers: array<int>, yinvPow: array<int>, logM: nat,
                     a: seq<int>, b: seq<int>, G: seq<Point>, H: seq<Point>, alpha: int, z: nat,
                     randomScalars: seq<nat>, drawAt: nat) returns (r: Result<Argument>, drawn: nat)
    requires E.Valid() && E.F.R(8 * inv8) == E.F.R(1) && E.F.R(y * yinv) == E.F.R(1)
    requires yPowers.Length >= Pow2(logM + LOG_N) && yinvPow.Length >= Pow2(logM + LOG_N)
    requires forall i :: 0 <= i < yPowers.Length ==> E.F.R(yPowers[i]) == E.F.R(Pow(y, i))
    requires forall i :: 0 <= i < yinvPow.Length ==> E.F.R(yinvPow[i]) == E.F.R(Pow(yinv, i))
    requires RoundState(E, y, yinv, X, [], [], [], Pow2(logM + LOG_N), a, b, G, H, alpha) && yinv == E.F.Inverse(y)
    requires VectorsOf(a, b, G, H).Sized(Pow2(logM + LOG_N)) && drawAt + 2 * (logM + LOG_N) <= |randomScalars|
    ensures r.Ok? ==> drawn == drawAt + 2 * (logM + LOG_N)
    ensures r.Ok? ==> NoDrawIsZero(E.F, randomScalars, drawAt, drawn)
    ensures RoundsGive(E, X, y, VectorsOf(a, b, G, H), alpha, logM + LOG_N, z, randomScalars[drawAt..], r)
    ensures r.Err? ==> r.problem in {ZeroDraw, ZeroChallenge}
    ensures r == Err(ZeroDraw) ==> SomeDrawIsZero(E.F, randomScalars)
  {
    hide *;
    SixRounds();
    var aprime, bprime, Gprime, Hprime, alpha1, transcript := a, b, G, H, alpha, z;
    var L: seq<Point>, R: seq<Point> := [], [];
    var nprime := Pow2(logM + LOG_N);
    drawn := drawAt;
    ghost var left := logM + LOG_N;
    ghost var whole := Rounds(E, y, VectorsOf(a, b, G, H), alpha, left, z, randomScalars[drawAt..]);
    ghost var cs: seq<nat> := [];
    LoopStart(E, X, y, z, whole, a, b, G, H, alpha, left, randomScalars, drawAt);
    while nprime > 1
      invariant 0 <= left <= logM + LOG_N && nprime == Pow2(left)
      invariant |L| == |R| == logM + LOG_N - left && drawn == drawAt + 2 * |L|
      invariant NoDrawIsZero(E.F, randomScalars, drawAt, drawn)
      invariant Looping(E, X, y, z, whole, L, R, cs, aprime, bprime, Gprime, Hprime, alpha1, left, transcript, randomScalars[drawn..])
      decreases left
    {
      HalfOfPower(left);
      nprime := nprime / 2;
      PowTwoMonotone(left, logM + LOG_N);
      var dL, dR := E.F.R(randomScalars[drawn]), E.F.R(randomScalars[drawn + 1]);
      if dL == 0 || dR == 0 {
        DrawIsZero(E.F, randomScalars, drawn);
        GivesDraw(E, X, y, VectorsOf(a, b, G, H), alpha, logM + LOG_N, z, randomScalars[drawAt..]);
        return Err(ZeroDraw), drawn;
      }
      DrawsNotZero(E.F, randomScalars, drawAt, drawn);
      drawn := drawn + 2;
      var n := NextRound(E, inv8, X, y, z, whole, L, R, cs, yPowers[nprime], yinvPow[nprime], nprime, aprime, bprime, Gprime, Hprime, alpha1,
                         left, dL, dR, transcript, randomScalars[drawn - 2..]);
      if n.challenge == 0 {
        GivesZero(E, X, y, VectorsOf(a, b, G, H), alpha, logM + LOG_N, z, randomScalars[drawAt..]);
        return Err(ZeroChallenge), drawn;
      }
      assert randomScalars[drawn - 2..][2..] == randomScalars[drawn..];
      L, R := L + [n.L], R + [n.R];
      transcript := n.challenge;
      aprime, bprime, Gprime, Hprime, alpha1 := n.a, n.b, n.G, n.H, n.alpha;
      cs := cs + [n.challenge];
      left := left - 1;
    }
    PowTwoOne(left);
    LoopEnd(E, X, y, z, whole, L, R, cs, aprime, bprime, Gprime, Hprime, alpha1, transcript, randomScalars[drawn..]);
    r := Ok(Argument(L, R, aprime[0], bprime[0], Gprime[0], Hprime[0], alpha1, transcript));
    GivesArgument(E, X, y, VectorsOf(a, b, G, H), alpha, logM + LOG_N, z, randomScalars[drawAt..], r.value);
  }

  /** The loop's points repeat the transcript, no challenge is zero, and what is left opens X plus the cross terms. */
  ghost predicate Argued(E: Group, X: int, y: int, z: nat, rounds: nat, g: Argument) {
    && |g.L| == |g.R| == rounds && PointsFree(E, g.L) && PointsFree(E, g.R)
    && g.transcript == Chain(E, z, EncodedAll(g.L), EncodedAll(g.R), |g.L|)
    && (forall c :: c in Challenges(E, z, EncodedAll(g.L), EncodedAll(g.R), |g.L|) ==> c != 0)
    && RoundState(E, y, E.F.Inverse(y), X, Challenges(E, z, EncodedAll(g.L), EncodedAll(g.R), |g.L|),
                  EightAll(E, g.L), EightAll(E, g.R), 1, [g.a], [g.b], [g.G], [g.H], g.alpha)
  }

  /** How the halving loop ends, by the honest run. */
  ghost predicate RoundsGive(E: Group, X: int, y: int, w: Vectors, alpha: int, left: nat, z: nat, draws: seq<nat>, r: Result<Argument>) {
    && w.Sized(Pow2(left)) && |draws| >= 2 * left
    && var t := Rounds(E, y, w, alpha, left, z, draws);
       && (r.Ok? ==> Finishes(r.value, t) && 0 !in t.cs && Argued(E, X, y, z, left, r.value))
       && (r == Err(ZeroChallenge) ==> 0 in t.cs)
  }

  lemma GivesZero(E: Group, X: int, y: int, w: Vectors, alpha: int, left: nat, z: nat, draws: seq<nat>)
    requires w.Sized(Pow2(left)) && |draws| >= 2 * left && 0 in Rounds(E, y, w, alpha, left, z, draws).cs
    ensures RoundsGive(E, X, y, w, alpha, left, z, draws, Err(ZeroChallenge))
  {
    hide Rounds, Pow2;
  }

  lemma GivesDraw(E: Group, X: int, y: int, w: Vectors, alpha: int, left: nat, z: nat, draws: seq<nat>)
    requires w.Sized(Pow2(left)) && |draws| >= 2 * left
    ensures RoundsGive(E, X, y, w, alpha, left, z, draws, Err(ZeroDraw))
  {
    hide Rounds, Pow2;
  }

  lemma GivesArgument(E: Group, X: int, y: int, w: Vectors, alpha: int, left: nat, z: nat, draws: seq<nat>, g: Argument)
    requires w.Sized(Pow2(left)) && |draws| >= 2 * left
    requires Finishes(g, Rounds(E, y, w, alpha, left, z, draws)) && 0 !in Rounds(E, y, w, alpha, left, z, draws).cs
    requires Argued(E, X, y, z, left, g)
    ensures RoundsGive(E, X, y, w, alpha, left, z, draws, Ok(g))
  {
    hide Rounds, Pow2, Argued, Finishes;
  }

  /** One pass, in terms of the whole run. bulletproofplus.ts:553-608. */
  method NextRound(E: Group, inv8: int, ghost X: int, y: int, ghost z: nat, ghost whole: Trace, ghost L: seq<Point>, ghost R: seq<Point>,
                   ghost cs: seq<nat>, ym: int, yinvm: int, m: nat, a: seq<int>, b: seq<int>, G: seq<Point>, H: seq<Point>, alpha: int,
                   ghost left: nat, dL: int, dR: int, transcript: nat, ghost draws: seq<nat>) returns (n: Round)
    requires E.Valid() && E.F.R(8 * inv8) == E.F.R(1) && E.F.R(y * E.F.Inverse(y)) == E.F.R(1)
    requires left > 0 && Pow2(left) == 2 * m && Pow2(left - 1) == m
    requires |draws| >= 2 && dL == E.F.R(draws[0]) && dR == E.F.R(draws[1])
    requires E.F.R(ym) == E.F.R(Pow(y, m)) && E.F.R(yinvm) == E.F.R(Pow(E.F.Inverse(y), m))
    requires Looping(E, X, y, z, whole, L, R, cs, a, b, G, H, alpha, left, transcript, draws)
    ensures n.challenge == 0 ==> 0 in whole.cs
    ensures n.challenge != 0 ==>
      Looping(E, X, y, z, whole, L + [n.L], R + [n.R], cs + [n.challenge], n.a, n.b, n.G, n.H, n.alpha, left - 1, n.challenge, draws[2..])
  {
    hide *;
    LoopingShape(E, X, y, z, whole, L, R, cs, a, b, G, H, alpha, left, transcript, draws);
    n := ProveRound(E, inv8, X, cs, EightAll(E, L), EightAll(E, R), y, E.F.Inverse(y), ym, yinvm, m, a, b, G, H, alpha, dL, dR, transcript);
    LoopNext(E, X, y, z, whole, L, R, cs, a, b, G, H, alpha, left, transcript, draws, n);
  }

  /** What every pass of the halving loop keeps. */
  ghost predicate Looping(E: Group, X: int, y: int, z: nat, whole: Trace, L: seq<Point>, R: seq<Point>, cs: seq<nat>,
                          a: seq<int>, b: seq<int>, G: seq<Point>, H: seq<Point>, alpha: int, left: nat, transcript: nat, draws: seq<nat>) {
    && |L| == |R| && PointsFree(E, L) && PointsFree(E, R)
    && transcript == Chain(E, z, EncodedAll(L), EncodedAll(R), |L|)
    && cs == Challenges(E, z, EncodedAll(L), EncodedAll(R), |L|)
    && RoundState(E, y, E.F.Inverse(y), X, cs, EightAll(E, L), EightAll(E, R), Pow2(left), a, b, G, H, alpha)
    && Tracks(E, y, z, whole, L, R, cs, VectorsOf(a, b, G, H), alpha, left, transcript, draws)
  }

  lemma LoopStart(E: Group, X: int, y: int, z: nat, whole: Trace, a: seq<int>, b: seq<int>, G: seq<Point>, H: seq<Point>, alpha: int,
                  left: nat, randomScalars: seq<nat>, drawAt: nat)
    requires RoundState(E, y, E.F.Inverse(y), X, [], [], [], Pow2(left), a, b, G, H, alpha)
    requires VectorsOf(a, b, G, H).Sized(Pow2(left)) && drawAt + 2 * left <= |randomScalars|
    requires whole == Rounds(E, y, VectorsOf(a, b, G, H), alpha, left, z, randomScalars[drawAt..])
    ensures NoDrawIsZero(E.F, randomScalars, drawAt, drawAt)
    ensures Looping(E, X, y, z, whole, [], [], [], a, b, G, H, alpha, left, z, randomScalars[drawAt..])
  {
    hide RoundState, Rounds, Tracks, VectorsOf, Pow2, Field.R;
    EmptyFree(E);
    NoChallenges(E, z, EncodedAll([]), EncodedAll([]));
    TracksStart(E, y, z, VectorsOf(a, b, G, H), alpha, left, randomScalars[drawAt..]);
  }

  lemma LoopingShape(E: Group, X: int, y: int, z: nat, whole: Trace, L: seq<Point>, R: seq<Point>, cs: seq<nat>,
                     a: seq<int>, b: seq<int>, G: seq<Point>, H: seq<Point>, alpha: int, left: nat, transcript: nat, draws: seq<nat>)
    requires Looping(E, X, y, z, whole, L, R, cs, a, b, G, H, alpha, left, transcript, draws)
    ensures |L| == |R| && RoundState(E, y, E.F.Inverse(y), X, cs, EightAll(E, L), EightAll(E, R), Pow2(left), a, b, G, H, alpha)
  {
    hide RoundState, Tracks, Chain, Challenges, Pow2;
  }

  lemma LoopNext(E: Group, X: int, y: int, z: nat, whole: Trace, L: seq<Point>, R: seq<Point>, cs: seq<nat>,
                 a: seq<int>, b: seq<int>, G: seq<Point>, H: seq<Point>, alpha: int, left: nat, transcript: nat, draws: seq<nat>, n: Round)
    requires Looping(E, X, y, z, whole, L, R, cs, a, b, G, H, alpha, left, transcript, draws) && left > 0 && |draws| >= 2
    requires |a| == |b| == |G| == |H| == 2 * Pow2(left - 1)
    requires E.TorsionFree(n.L) && E.TorsionFree(n.R) && n.challenge == RoundHash(E, transcript, n.L, n.R)
    requires n.L == HonestLeft(E, y, VectorsOf(a, b, G, H), Pow2(left - 1), E.F.R(draws[0]))
    requires n.R == HonestRight(E, y, VectorsOf(a, b, G, H), Pow2(left - 1), E.F.R(draws[1]))
    requires n.challenge != 0 ==>
      && VectorsOf(n.a, n.b, n.G, n.H) == Halved(E.F, y, VectorsOf(a, b, G, H), Pow2(left - 1), n.challenge)
      && n.alpha == FoldedBlind(E.F, alpha, E.F.R(draws[0]), E.F.R(draws[1]), n.challenge)
      && RoundState(E, y, E.F.Inverse(y), X, cs + [n.challenge], EightAll(E, L) + [E.Times(8, n.L)], EightAll(E, R) + [E.Times(8, n.R)],
                    Pow2(left - 1), n.a, n.b, n.G, n.H, n.alpha)
    ensures n.challenge == 0 ==> 0 in whole.cs
    ensures n.challenge != 0 ==>
      Looping(E, X, y, z, whole, L + [n.L], R + [n.R], cs + [n.challenge], n.a, n.b, n.G, n.H, n.alpha, left - 1, n.challenge, draws[2..])
  {
    hide RoundState, Tracks, Chain, Challenges, Pow2, HonestLeft, HonestRight, Halved, FoldedBlind, RoundHash, Field.R, PointsFree, Group.Times;
    TracksNext(E, y, z, whole, L, R, cs, VectorsOf(a, b, G, H), alpha, left, transcript, draws, VectorsOf(n.a, n.b, n.G, n.H), n);
    if n.challenge != 0 {
      ChallengesAppend(E, z, L, R, n.L, n.R, transcript, n.challenge);
      AppendFree(E, L, n.L);
      AppendFree(E, R, n.R);
    }
  }

  lemma LoopEnd(E: Group, X: int, y: int, z: nat, whole: Trace, L: seq<Point>, R: seq<Point>, cs: seq<nat>,
                a: seq<int>, b: seq<int>, G: seq<Point>, H: seq<Point>, alpha: int, transcript: nat, draws: seq<nat>)
    requires Looping(E, X, y, z, whole, L, R, cs, a, b, G, H, alpha, 0, transcript, draws) && |L| >= 1
    ensures |a| == |b| == |G| == |H| == 1
    ensures Argued(E, X, y, z, |L|, Argument(L, R, a[0], b[0], G[0], H[0], alpha, transcript))
    ensures Finishes(Argument(L, R, a[0], b[0], G[0], H[0], alpha, transcript), whole) && 0 !in whole.cs
  {
    hide RoundState, Chain, Challenges, Rounds, VectorsOf, Tracks, PointsFree;
    RoundStateShape(E, y, E.F.Inverse(y), X, cs, EightAll(E, L), EightAll(E, R), 1, a, b, G, H, alpha);
    TracksEnd(E, y, z, whole, L, R, cs, VectorsOf(a, b, G, H), alpha, transcript, draws);
    assert a == [a[0]] && b == [b[0]] && G == [G[0]] && H == [H[0]];
  }

  lemma SixRounds()
    ensures LOG_N == 6
  {
  }

  lemma HalfOfPower(left: nat)
    ensures left == 0 ==> Pow2(left) == 1
    ensures left > 0 ==> Pow2(left) == 2 * Pow2(left - 1) && Pow2(left) / 2 == Pow2(left - 1)
  {
  }

  lemma DrawIsZero(F: Field, randomScalars: seq<nat>, drawn: nat)
    requires drawn + 1 < |randomScalars| && (F.R(randomScalars[drawn]) == 0 || F.R(randomScalars[drawn + 1]) == 0)
    ensures SomeDrawIsZero(F, randomScalars)
  {
    hide Field.R;
  }

  lemma DrawsNotZero(F: Field, randomScalars: seq<nat>, from: nat, drawn: nat)
    requires NoDrawIsZero(F, randomScalars, from, drawn) && drawn + 1 < |randomScalars|
    requires F.R(randomScalars[drawn]) != 0 && F.R(randomScalars[drawn + 1]) != 0
    ensures NoDrawIsZero(F, randomScalars, from, drawn + 2)
  {
    hide Field.R;
  }

  ghost predicate NoDrawIsZero(F: Field, randomScalars: seq<nat>, from: nat, to: nat) {
    from <= to <= |randomScalars| && forall k :: from <= k < to ==> F.R(randomScalars[k]) != 0
  }

  /** The prover's last state is the honest run's. */
  ghost predicate Finishes(g: Argument, t: Trace) {
    && g.L == t.L && g.R == t.R && VectorsOf([g.a], [g.b], [g.G], [g.H]) == t.w && g.alpha == t.alpha
    && |t.cs| >= 1 && g.transcript == t.cs[|t.cs| - 1]
  }

  /** The rounds so far, then the honest run from here, are the honest run. */
  ghost predicate Tracks(E: Group, y: int, z: nat, whole: Trace, L: seq<Point>, R: seq<Point>, cs: seq<nat>, w: Vectors, alpha: int,
                         left: nat, transcript: nat, draws: seq<nat>) {
    && w.Sized(Pow2(left)) && |draws| >= 2 * left
    && whole == Before(L, R, cs, Rounds(E, y, w, alpha, left, transcript, draws))
    && transcript == (if |cs| == 0 then z else cs[|cs| - 1]) && 0 !in cs
  }

  lemma TracksStart(E: Group, y: int, z: nat, w: Vectors, alpha: int, left: nat, draws: seq<nat>)
    requires w.Sized(Pow2(left)) && |draws| >= 2 * left
    ensures Tracks(E, y, z, Rounds(E, y, w, alpha, left, z, draws), [], [], [], w, alpha, left, z, draws)
  {
    hide Rounds, Pow2;
    var t := Rounds(E, y, w, alpha, left, z, draws);
    assert [] + t.L == t.L && [] + t.R == t.R && [] + t.cs == t.cs;
  }

  lemma TracksNext(E: Group, y: int, z: nat, whole: Trace, L: seq<Point>, R: seq<Point>, cs: seq<nat>, w: Vectors, alpha: int,
                   left: nat, transcript: nat, draws: seq<nat>, w': Vectors, n: Round)
    requires Tracks(E, y, z, whole, L, R, cs, w, alpha, left, transcript, draws) && left > 0 && w.Sized(2 * Pow2(left - 1))
    requires n.L == HonestLeft(E, y, w, Pow2(left - 1), E.F.R(draws[0])) && n.R == HonestRight(E, y, w, Pow2(left - 1), E.F.R(draws[1]))
    requires n.challenge == RoundHash(E, transcript, n.L, n.R)
    requires n.challenge != 0 ==>
      w' == Halved(E.F, y, w, Pow2(left - 1), n.challenge) && n.alpha == FoldedBlind(E.F, alpha, E.F.R(draws[0]), E.F.R(draws[1]), n.challenge)
    ensures n.challenge == 0 ==> 0 in whole.cs
    ensures n.challenge != 0 ==>
      Tracks(E, y, z, whole, L + [n.L], R + [n.R], cs + [n.challenge], w', n.alpha, left - 1, n.challenge, draws[2..])
  {
    hide Rounds, Pow2, HonestLeft, HonestRight, Halved, FoldedBlind, RoundHash, Field.R, Before;
    RoundOf(E, y, w, alpha, left, transcript, draws);
    var rest := Rounds(E, y, Halved(E.F, y, w, Pow2(left - 1), n.challenge),
                       FoldedBlind(E.F, alpha, E.F.R(draws[0]), E.F.R(draws[1]), n.challenge), left - 1, n.challenge, draws[2..]);
    BeforeTwice(L, R, cs, n.L, n.R, n.challenge, rest);
    if n.challenge == 0 {
      ZeroBefore(L + [n.L], R + [n.R], cs + [n.challenge], rest);
    }
  }

  lemma NoChallenges(E: Group, z: nat, L: seq<PointBytes>, R: seq<PointBytes>)
    ensures Challenges(E, z, L, R, 0) == [] && Chain(E, z, L, R, 0) == z
  {
  }

  lemma ZeroBefore(L: seq<Point>, R: seq<Point>, cs: seq<nat>, t: Trace)
    requires cs != [] && cs[|cs| - 1] == 0
    ensures 0 in Before(L, R, cs, t).cs
  {
    assert Before(L, R, cs, t).cs[|cs| - 1] == 0;
  }

  lemma TracksEnd(E: Group, y: int, z: nat, whole: Trace, L: seq<Point>, R: seq<Point>, cs: seq<nat>, w: Vectors, alpha: int,
                  transcript: nat, draws: seq<nat>)
    requires Tracks(E, y, z, whole, L, R, cs, w, alpha, 0, transcript, draws)
    ensures whole == Trace(L, R, cs, w, alpha) && 0 !in cs && transcript == (if |cs| == 0 then z else cs[|cs| - 1])
  {
    assert L + [] == L && R + [] == R && cs + [] == cs;
  }

  lemma EmptyFree(E: Group)
    ensures PointsFree(E, [])
  {
  }

  lemma AppendFree(E: Group, P: seq<Point>, Q: Point)
    requires PointsFree(E, P) && E.TorsionFree(Q)
    ensures PointsFree(E, P + [Q])
  {
  }

  // ---- The last round -------------------------------------------------------------------

  /** The two commitments of the last round. bulletproofplus.ts:616-626. */
  method LastCommitments(E: Group, inv8: int, y: int, g: Argument, r: int, s: int, d: int, eta: int) returns (A1: Point, B: Point)
    requires E.Valid() && E.F.R(8 * inv8) == E.F.R(1) && E.TorsionFree(g.G) && E.TorsionFree(g.H)
    ensures E.TorsionFree(A1) && E.TorsionFree(B)
    ensures E.F.R(8 * A1.log) == E.F.R(r * g.G.log + s * g.H.log + d + (r * y * g.b + s * y * g.a) * E.H.log)
    ensures E.F.R(8 * B.log) == E.F.R(eta + r * y * s * E.H.log)
  {
    var F := E.F;
    assert E.TorsionFree(E.H) && E.TorsionFree(BASE) by { F.Range(1); }
    hide Field.R, Field.Mul, Field.Add, Weighted, Group.Valid;
    var ip := F.Add(F.Mul(F.Mul(r, y), g.b), F.Mul(F.Mul(s, y), g.a));
    var rys := F.Mul(F.Mul(r, y), s);
    LastProducts(F, r, s, y, g.a, g.b);
    A1 := EighthSum(E, inv8, [Term(r, g.G), Term(s, g.H), Term(d, BASE), Term(ip, E.H)]);
    B := EighthSum(E, inv8, [Term(eta, BASE), Term(rys, E.H)]);
    FourWeighted(Term(r, g.G), Term(s, g.H), Term(d, BASE), Term(ip, E.H));
    TwoWeighted(Term(eta, BASE), Term(rys, E.H));
    F.MulC(ip, r * y * g.b + s * y * g.a, E.H.log, E.H.log);
    F.AddC(r * g.G.log + s * g.H.log + d, r * g.G.log + s * g.H.log + d, ip * E.H.log, (r * y * g.b + s * y * g.a) * E.H.log);
    F.MulC(rys, r * y * s, E.H.log, E.H.log);
    F.AddC(eta, eta, rys * E.H.log, r * y * s * E.H.log);
  }

  lemma LastProducts(F: Field, r: int, s: int, y: int, a: int, b: int)
    ensures F.R(F.Add(F.Mul(F.Mul(r, y), b), F.Mul(F.Mul(s, y), a))) == F.R(r * y * b + s * y * a)
    ensures F.R(F.Mul(F.Mul(r, y), s)) == F.R(r * y * s)
  {
    hide Field.R;
    F.MulV(r, r, y, y);
    F.MulV(s, s, y, y);
    F.MulV(F.Mul(r, y), r * y, b, b);
    F.MulV(F.Mul(s, y), s * y, a, a);
    F.MulV(F.Mul(r, y), r * y, s, s);
    F.AddV(F.Mul(F.Mul(r, y), b), r * y * b, F.Mul(F.Mul(s, y), a), s * y * a);
  }

  lemma TwoWeighted(a: Term, b: Term)
    ensures Weighted([a, b]) == a.scalar * a.point.log + b.scalar * b.point.log
  {
    WeightedSingle(a);
    WeightedSingle(b);
    hide Weighted;
    assert [a, b] == [a] + [b];
    WeightedConcat([a], [b]);
  }

  lemma FourWeighted(a: Term, b: Term, c: Term, d: Term)
    ensures Weighted([a, b, c, d])
         == a.scalar * a.point.log + b.scalar * b.point.log + c.scalar * c.point.log + d.scalar * d.point.log
  {
    TwoWeighted(a, b);
    TwoWeighted(c, d);
    hide Weighted;
    assert [a, b, c, d] == [a, b] + [c, d];
    WeightedConcat([a, b], [c, d]);
  }

  /** A short multiscalar sum with every scalar carried at 8⁻¹. */
  method EighthSum(E: Group, inv8: int, us: seq<Term>) returns (P: Point)
    requires E.F.R(8 * inv8) == E.F.R(1) && E.AllTorsionFree(us)
    ensures E.TorsionFree(P) && E.F.R(8 * P.log) == E.F.R(Weighted(us))
  {
    hide Field.R, Field.Mul, Weighted, Group.AllTorsionFree;
    var ts: seq<Term> := [];
    for i := 0 to |us|
      invariant Eighths(E.F, ts, us[..i], inv8)
    {
      E.F.MulV(us[i].scalar, us[i].scalar, inv8, inv8);
      ts := ts + [Term(E.F.Mul(us[i].scalar, inv8), us[i].point)];
    }
    assert us[..|us|] == us;
    P := MultiscalarSum(E, ts);
    EighthTotal(E, ts, us, inv8);
  }

  // ---- Completeness -----------------------------------------------------------------------

  /** The commitments a proof over V is checked against: 8·V, on the wire. */
  ghost function CommitmentsOf(E: Group, V: seq<Point>): (s: seq<PointBytes>)
    ensures |s| == |V|
  {
    EncodedAll(EightAll(E, V))
  }

  lemma CommitmentsDecode(E: Group, V: seq<Point>)
    requires E.Valid() && PointsFree(E, V)
    ensures AllDecode(CommitmentsOf(E, V)) && Decoded(CommitmentsOf(E, V)) == EightAll(E, V)
    ensures Offset(E, CommitmentsOf(E, V)) == EncodedAll(V)
    ensures PointsFree(E, EightAll(E, V))
  {
    hide Field.R, Field.Inverse, Group.Times, Group.Valid;
    forall i | 0 <= i < |V|
      ensures E.Times(E.F.Inverse(8), E.Times(8, V[i])) == V[i] && E.TorsionFree(E.Times(8, V[i]))
    {
      EighthUndone(E, V[i]);
      E.TimesOnCurve(8, V[i]);
    }
  }

  lemma EncodedDecode(E: Group, P: seq<Point>)
    ensures AllDecode(EncodedAll(P)) && TimesEight(E, EncodedAll(P)) == EightAll(E, P)
  {
  }

  ghost predicate FreeProofPoints(E: Group, p: ProofPoints) {
    && PointsFree(E, p.V8) && PointsFree(E, p.L8) && PointsFree(E, p.R8)
    && E.TorsionFree(p.A8) && E.TorsionFree(p.A18) && E.TorsionFree(p.B8)
  }

  lemma EquationTermsFree(E: Group, q: Equation, p: ProofPoints)
    requires E.Valid() && |p.L8| == |p.R8| == |q.cs| && FreeProofPoints(E, p)
    ensures E.AllTorsionFree(EquationTerms(E, q, p))
  {
    hide Field.R, CommitmentScalar, RoundScalar, HScalar, GiScalar, HiScalar;
    assert E.TorsionFree(BASE) by { E.F.Range(1); }
    assert E.AllTorsionFree(CommitmentTerms(q, p.V8, |p.V8|));
    assert E.AllTorsionFree(HeadTerms(q, p));
    assert E.AllTorsionFree(RoundTerms(E.F, q, p, 2 * |q.cs|));
    assert E.AllTorsionFree(FixedTerms(E, q));
    assert E.AllTorsionFree(GeneratorTerms(E, q, 2 * q.Size()));
    hide CommitmentTerms, HeadTerms, RoundTerms, FixedTerms, GeneratorTerms;
  }

  lemma VanishingIsZero(E: Group, ts: seq<Term>)
    requires E.AllTorsionFree(ts) && E.F.R(Weighted(ts)) == E.F.R(0)
    ensures E.Total(ts) == ZERO
  {
    E.TotalLog(ts);
    E.F.Range(0);
  }

  /** The state after the last fold opens the accumulated commitment in length one. */
  lemma LastState(E: Group, y: int, yinv: int, X: int, cs: seq<int>, L8: seq<Point>, R8: seq<Point>, g: Argument)
    requires RoundState(E, y, yinv, X, cs, L8, R8, 1, [g.a], [g.b], [g.G], [g.H], g.alpha)
    ensures |cs| == |L8| == |R8| && E.TorsionFree(g.G) && E.TorsionFree(g.H)
    ensures E.F.R(g.a * g.G.log + g.b * g.H.log + y * (g.a * g.b) * E.H.log + g.alpha) == E.F.R(X + RoundSum(E.F, cs, L8, R8))
    ensures E.F.R(g.G.log) == E.F.R(FoldedGi(E, cs, yinv, 1, 0)) && E.F.R(g.H.log) == E.F.R(FoldedHi(E, cs, 1, 0))
  {
    hide Field.R, RoundSum, FoldedGi, FoldedHi;
    var w := VectorsOf([g.a], [g.b], [g.G], [g.H]);
    assert PointsFree(E, [g.G]) && [g.G][0] == g.G && [g.H][0] == g.H;
    assert Logs([g.G]) == [g.G.log] && Logs([g.H]) == [g.H.log];
    assert Logs([g.G])[0] == g.G.log && Logs([g.H])[0] == g.H.log;
    LengthOne(w, y, E.H.log, g.alpha);
  }

  lemma LengthOne(w: Vectors, y: int, H: int, alpha: int)
    requires w.Sized(1)
    ensures Commitment(w, y, H, alpha) == w.a[0] * w.g[0] + w.b[0] * w.h[0] + y * (w.a[0] * w.b[0]) * H + alpha
  {
    var f := Cells(w, y, H);
    assert Pow(y, 1) == y * Pow(y, 0) == y;
    SumLast(0, f);
  }

  /** The commitments, the bits and the blinds the prover starts from, for n vector entries. */
  ghost predicate Started(E: Group, amounts: seq<int>, gammas: seq<int>, V: seq<Point>, A: Point, alpha: int, alpha1: int,
                          w: Vectors, y: int, z: int, M: nat) {
    && |V| == |gammas| == |amounts| <= M && InRange(amounts) && PointsFree(E, V)
    && Opens(E, EightAll(E, V), gammas, amounts)
    && w.Sized(64 * M) && StartsFrom(E, amounts, z, y, 64 * M, w)
    && E.F.R(8 * A.log) == E.F.R(Sum(64 * M, ACell(E, amounts)) + alpha)
    && E.F.R(alpha1) == E.F.R(alpha + Pow(y, 64 * M + 1) * Sum(|V|, ScaledGammas(gammas, z)))
  }

  /** The commitment the argument opens, in the verifier's terms. */
  ghost function OpeningTarget(E: Group, q: Equation, p: ProofPoints): int {
    p.A8.log + Pow(q.y, q.Size() + 1) * Sum(|p.V8|, ScaledV(p.V8, q.z))
    + Sum(q.Size(), XCell(E, q.z, q.y, q.Size())) + E.H.log * HConstant(q.z, q.y, q.Size(), q.M)
  }

  lemma StartedOpens(E: Group, amounts: seq<int>, gammas: seq<int>, V: seq<Point>, A: Point, alpha: int, alpha1: int,
                     w: Vectors, q: Equation, p: ProofPoints)
    requires Started(E, amounts, gammas, V, A, alpha, alpha1, w, q.y, q.z, q.M)
    requires p.V8 == EightAll(E, V) && p.A8 == E.Times(8, A)
    ensures w.Sized(64 * q.M) && E.F.R(Commitment(w, q.y, E.H.log, alpha1)) == E.F.R(OpeningTarget(E, q, p))
  {
    hide Field.R, Pow, Sum, StartsFrom, Opens, InRange, PointsFree, Group.Times, ACell, ScaledV, ScaledGammas, XCell, HConstant, Commitment;
    EightTimes(E, A);
    OpeningCommitment(E, amounts, gammas, q.z, q.y, q.M, w, alpha, alpha1, p.A8.log, p.V8);
  }

  /** The commitments of the last round and the responses to its challenge. */
  ghost predicate Responds(E: Group, g: Argument, y: int, e: int, r: int, s: int, d: int, eta: int, A1: Point, B: Point,
                           r1: int, s1: int, d1: int) {
    && E.F.R(8 * A1.log) == E.F.R(r * g.G.log + s * g.H.log + d + (r * y * g.b + s * y * g.a) * E.H.log)
    && E.F.R(8 * B.log) == E.F.R(eta + r * y * s * E.H.log)
    && E.F.R(r1) == E.F.R(g.a * e + r) && E.F.R(s1) == E.F.R(g.b * e + s)
    && E.F.R(d1) == E.F.R(g.alpha * (e * e) + (d * e + eta))
  }

  /**
   * The algebra and the transcript together: an honest proof satisfies the closed-form equation,
   * so the verifier accepts it.
   */
  lemma HonestProofAccepted(E: Group, amounts: seq<int>, gammas: seq<int>, V: seq<Point>, A: Point, alpha: int, alpha1: int,
                            w: Vectors, y: nat, z: nat, g: Argument, A1: Point, B: Point, e: nat,
                            r: int, s: int, d: int, eta: int, proof: BulletproofPlus)
    requires E.Valid() && 1 <= |V| <= 16 && PointsFree(E, V) && E.TorsionFree(A) && E.TorsionFree(A1) && E.TorsionFree(B)
    requires Started(E, amounts, gammas, V, A, alpha, alpha1, w, y, z, Pow2(PadLog(|V|)))
    requires w.Sized(64 * Pow2(PadLog(|V|)))
    requires y == ChallengeY(E, EncodedAll(V), Encodes(A)) != 0 && z == ChallengeZ(E, y) != 0
    requires Argued(E, Commitment(w, y, E.H.log, alpha1), y, z, PadLog(|V|) + LOG_N, g)
    requires e == ChallengeE(E, g.transcript, Encodes(A1), Encodes(B)) != 0
    requires E.F.R(y * E.F.Inverse(y)) == E.F.R(1)
    requires proof.A == Encodes(A) && proof.A1 == Encodes(A1) && proof.B == Encodes(B)
    requires proof.L == EncodedAll(g.L) && proof.R == EncodedAll(g.R)
    requires Responds(E, g, y, e, r, s, d, eta, A1, B, proof.r1, proof.s1, proof.d1)
    ensures Accepts(E, CommitmentsOf(E, V), proof)
  {
    hide Field.R, Field.Inverse, Pow2, RoundState, PointsFree, Challenges, Chain, Group.HashToScalar, Started, Responds,
         ChallengeY, ChallengeZ, ChallengeE, Group.Times, Group.TorsionFree, EquationTerms, Group.Total, Group.Valid, Commitment, Weighted,
         EquationOf, PointsOf, WellFormed, NoZeroChallenge, OpeningTarget;
    TranscriptMatches(E, V, A, A1, B, g, y, z, e, proof);
    var q, p := EquationOf(E, CommitmentsOf(E, V), proof), PointsOf(E, CommitmentsOf(E, V), proof);
    SizeIsPower(PadLog(|V|));
    StartedOpens(E, amounts, gammas, V, A, alpha, alpha1, w, q, p);
    HonestEquation(E, q, p, g, Commitment(w, y, E.H.log, alpha1), r, s, d, eta, A1, B, proof);
    ProofPointsFree(E, V, g, A, A1, B, p);
    EquationTermsFree(E, q, p);
    VanishingIsZero(E, EquationTerms(E, q, p));
  }

  /** The verifier replays the prover's transcript, and clears the cofactor the prover allowed for. */
  lemma TranscriptMatches(E: Group, V: seq<Point>, A: Point, A1: Point, B: Point, g: Argument, y: nat, z: nat, e: nat, proof: BulletproofPlus)
    requires E.Valid() && 1 <= |V| <= 16 && PointsFree(E, V)
    requires y == ChallengeY(E, EncodedAll(V), Encodes(A)) != 0 && z == ChallengeZ(E, y) != 0
    requires |g.L| == |g.R| == PadLog(|V|) + LOG_N
    requires g.transcript == Chain(E, z, EncodedAll(g.L), EncodedAll(g.R), |g.L|)
    requires forall c :: c in Challenges(E, z, EncodedAll(g.L), EncodedAll(g.R), |g.L|) ==> c != 0
    requires e == ChallengeE(E, g.transcript, Encodes(A1), Encodes(B)) != 0
    requires proof.A == Encodes(A) && proof.A1 == Encodes(A1) && proof.B == Encodes(B)
    requires proof.L == EncodedAll(g.L) && proof.R == EncodedAll(g.R)
    ensures WellFormed(CommitmentsOf(E, V), proof)
    ensures EquationOf(E, CommitmentsOf(E, V), proof)
         == Equation(Pow2(PadLog(|V|)), y, z, Challenges(E, z, EncodedAll(g.L), EncodedAll(g.R), |g.L|), e,
                     E.F.R(proof.r1), E.F.R(proof.s1), E.F.R(proof.d1))
    ensures NoZeroChallenge(EquationOf(E, CommitmentsOf(E, V), proof))
    ensures PointsOf(E, CommitmentsOf(E, V), proof)
         == ProofPoints(EightAll(E, V), E.Times(8, A), E.Times(8, A1), E.Times(8, B), EightAll(E, g.L), EightAll(E, g.R))
  {
    hide Field.R, Field.Inverse, PointsFree, Chain, Challenges, ChallengeY, ChallengeZ, ChallengeE, Group.HashToScalar, Group.Times, Group.Valid;
    EightInverts(E);
    CommitmentsDecode(E, V);
    EncodedDecode(E, g.L);
    EncodedDecode(E, g.R);
    var cs := Challenges(E, z, EncodedAll(g.L), EncodedAll(g.R), |g.L|);
    forall j | 0 <= j < |cs| ensures cs[j] != 0 {
      assert cs[j] in cs;
    }
  }

  /** The prover's last state and the opening commitment make the equation's sum vanish. */
  lemma HonestEquation(E: Group, q: Equation, p: ProofPoints, g: Argument, X: int, r: int, s: int, d: int, eta: int,
                       A1: Point, B: Point, proof: BulletproofPlus)
    requires |p.L8| == |p.R8| == |q.cs| && q.Size() == Pow2(|q.cs|)
    requires E.F.R(q.y * E.F.Inverse(q.y)) == E.F.R(1)
    requires RoundState(E, q.y, E.F.Inverse(q.y), X, q.cs, p.L8, p.R8, 1, [g.a], [g.b], [g.G], [g.H], g.alpha)
    requires E.F.R(X) == E.F.R(OpeningTarget(E, q, p))
    requires Responds(E, g, q.y, q.e, r, s, d, eta, A1, B, proof.r1, proof.s1, proof.d1)
    requires p.A18 == E.Times(8, A1) && p.B8 == E.Times(8, B)
    requires q.r1 == E.F.R(proof.r1) && q.s1 == E.F.R(proof.s1) && q.d1 == E.F.R(proof.d1)
    ensures E.F.R(Weighted(EquationTerms(E, q, p))) == E.F.R(0)
  {
    hide Field.R, Field.Inverse, Pow, Sum, RoundState, Weighted, FoldedGi, FoldedHi, ScaledV, XCell, HConstant, RoundSum, EquationTerms, Group.Times;
    LastState(E, q.y, E.F.Inverse(q.y), X, q.cs, p.L8, p.R8, g);
    EightTimes(E, A1);
    EightTimes(E, B);
    E.F.Idem(proof.r1);
    E.F.Idem(proof.s1);
    E.F.Idem(proof.d1);
    EquationVanishes(E, q, p, LastRound(g.a, g.b, g.G.log, g.H.log, g.alpha, r, s, d, eta), X);
  }

  lemma MInBounds(n: nat)
    requires n <= 16
    ensures n <= Pow2(PadLog(n))
  {
    PadLogTable();
  }

  lemma ProofPointsFree(E: Group, V: seq<Point>, g: Argument, A: Point, A1: Point, B: Point, p: ProofPoints)
    requires PointsFree(E, V) && PointsFree(E, g.L) && PointsFree(E, g.R)
    requires E.TorsionFree(A) && E.TorsionFree(A1) && E.TorsionFree(B)
    requires p == ProofPoints(EightAll(E, V), E.Times(8, A), E.Times(8, A1), E.Times(8, B), EightAll(E, g.L), EightAll(E, g.R))
    ensures FreeProofPoints(E, p)
  {
    EightFree(E, V);
    EightFree(E, g.L);
    EightFree(E, g.R);
    E.TimesOnCurve(8, A);
    E.TimesOnCurve(8, A1);
    E.TimesOnCurve(8, B);
    hide Field.R;
  }

  lemma EightFree(E: Group, P: seq<Point>)
    requires PointsFree(E, P)
    ensures PointsFree(E, EightAll(E, P))
  {
    hide Group.Times;
    forall i | 0 <= i < |P| ensures E.TorsionFree(E.Times(8, P[i])) {
      E.TimesOnCurve(8, P[i]);
    }
  }

  // ---- The prover ---------------------------------------------------------------------------

  /** What the amounts and masks must satisfy before anything is drawn. bulletproofplus.ts:436-443. */
  ghost predicate Provable(amounts: seq<int>, masks: seq<nat>, randomScalars: seq<nat>) {
    && 1 <= |amounts| == |masks| <= MAX_M && InRange(amounts) && |randomScalars| == RandomCount(|amounts|)
  }

  method ReduceAll(F: Field, values: seq<nat>) returns (r: seq<int>)
    ensures |r| == |values| && forall i :: 0 <= i < |r| ==> r[i] == F.R(values[i])
  {
    r := [];
    for i := 0 to |values|
      invariant |r| == i && forall k :: 0 <= k < i ==> r[k] == F.R(values[k])
    {
      r := r + [F.R(values[i])];
    }
  }

  lemma CommitmentsOpen(E: Group, V: seq<Point>, amounts: seq<int>, gammas: seq<int>)
    requires E.Valid() && |V| == |amounts| == |gammas|
    requires forall i :: 0 <= i < |V| ==> E.Times(8, V[i]) == CommitTo(E, amounts[i], gammas[i])
    ensures Opens(E, EightAll(E, V), gammas, amounts)
  {
    hide Field.R, Group.Times, CommitTo;
    forall i | 0 <= i < |V| ensures E.F.R(E.Times(8, V[i]).log) == E.F.R(gammas[i] + amounts[i] * E.H.log) {
      CommitFacts(E, amounts[i], gammas[i]);
    }
  }

  /** Everything between the challenges y, z and the halving loop. bulletproofplus.ts:505-536. */
  method StartArgument(E: Group, amounts: seq<int>, gammas: seq<int>, aL: array<int>, aR: array<int>, alpha: int, y: int, z: int, M: nat, yinv: int)
    returns (a: seq<int>, b: seq<int>, G: seq<Point>, H: seq<Point>, alpha1: int, yPowers: array<int>, yinvPow: array<int>)
    requires E.Valid() && M >= 1 && aL.Length == aR.Length == 64 * M && E.F.R(alpha) == alpha
    requires forall i :: 0 <= i < 64 * M ==> aL[i] == Bit(amounts, i)
    requires forall i :: 0 <= i < 64 * M ==> E.F.R(aR[i]) == E.F.R(Bit(amounts, i) - 1)
    ensures forall i :: 0 <= i < |a| ==> E.F.R(a[i]) == a[i]
    ensures forall i :: 0 <= i < |b| ==> E.F.R(b[i]) == b[i]
    ensures |a| == |b| == |G| == |H| == 64 * M && StartsFrom(E, amounts, z, y, 64 * M, VectorsOf(a, b, G, H))
    ensures G == GiPoints(E, 64 * M) && H == HiPoints(E, 64 * M)
    ensures E.F.R(alpha1) == alpha1 == E.F.R(alpha + Pow(y, 64 * M + 1) * Sum(|gammas|, ScaledGammas(gammas, z)))
    ensures yPowers.Length == 64 * M + 2 && yinvPow.Length == 64 * M
    ensures forall i :: 0 <= i < yPowers.Length ==> E.F.R(yPowers[i]) == E.F.R(Pow(y, i))
    ensures forall i :: 0 <= i < yinvPow.Length ==> E.F.R(yinvPow[i]) == E.F.R(Pow(yinv, i))
  {
    hide Field.R, Field.Mul, Field.Sub, Field.Add, Bit, Window, Pow, Sum, Group.Valid;
    var F := E.F;
    var MN := 64 * M;
    var zSquared := F.Mul(z, z);
    F.MulV(z, z, z, z);
    var d := WindowByMultiplication(F, z, zSquared, M);
    yPowers := PowerTable(F, y, MN + 2);
    a := StartA(F, amounts, aL, z);
    b := StartB(F, amounts, aR, d, y, yPowers, z);
    alpha1 := StartAlpha(F, alpha, yPowers[MN + 1], Pow(y, MN + 1), z, zSquared, gammas);
    yinvPow := PowerTable(F, yinv, MN);
    G, H := Generators(E, MN);
  }

  /**
   * `proveBulletproofPlus`. Whatever it returns is accepted over the commitments 8·V, and 8·V[i] is
   * exactly masks[i]·G + amounts[i]·H. It refuses inputs it cannot prove, and otherwise fails exactly
   * when a draw, or a challenge of the run those draws fix, reduces to zero. bulletproofplus.ts:431-650.
   */
  method ProveBulletproofPlus(E: Group, amounts: seq<int>, masks: seq<nat>, randomScalars: seq<nat>) returns (r: Result<Proved>)
    requires E.Valid()
    ensures amounts == [] ==> r == Err(NothingToProve)
    ensures amounts != [] && |amounts| != |masks| ==> r == Err(MaskCountMismatch)
    ensures 1 <= |amounts| == |masks| && |amounts| > MAX_M ==> r == Err(TooManyAmounts)
    ensures 1 <= |amounts| == |masks| <= MAX_M && !InRange(amounts) ==> r == Err(AmountOutOfRange)
    ensures 1 <= |amounts| == |masks| <= MAX_M && InRange(amounts) && |randomScalars| != RandomCount(|amounts|) ==>
      r == Err(WrongRandomCount)
    ensures Provable(amounts, masks, randomScalars) ==> RunGives(E, amounts, Gammas(E.F, masks), randomScalars, 0, r)
    ensures Provable(amounts, masks, randomScalars) ==>
      (r.Ok? <==> !SomeDrawIsZero(E.F, randomScalars) && NoZero(HonestRun(E, amounts, Gammas(E.F, masks), randomScalars)))
    ensures r.Ok? ==>
      && Provable(amounts, masks, randomScalars) && |r.value.V| == |amounts| && AllDecode(r.value.V)
      && (forall i :: 0 <= i < |amounts| ==>
            E.Times(8, r.value.V[i].point) == CommitTo(E, amounts[i], E.F.R(masks[i])))
      && Accepts(E, TimesEightBytes(E, r.value.V), r.value.proof)
  {
    hide Field.R, Field.Mul, Group.HashToScalar, Accepts, Group.Times, CommitTo;
    if |amounts| == 0 { return Err(NothingToProve); }
    if |amounts| != |masks| { return Err(MaskCountMismatch); }
    if |amounts| > MAX_M { return Err(TooManyAmounts); }
    for i := 0 to |amounts|
      invariant forall k :: 0 <= k < i ==> 0 <= amounts[k] < TWO_64
    {
      if amounts[i] < 0 || amounts[i] >= TWO_64 { return Err(AmountOutOfRange); }
    }
    var need := BppRandomCount(|amounts|);
    if |randomScalars| != need { return Err(WrongRandomCount); }
    r := ProveInRange(E, amounts, masks, randomScalars);
    EndsWhenClear(E, amounts, Gammas(E.F, masks), randomScalars, r);
  }

  lemma GivesProof(E: Group, amounts: seq<int>, gammas: seq<int>, draws: seq<nat>, r: Result<Proved>)
    requires RunGives(E, amounts, gammas, draws, 0, r)
    ensures |amounts| == |gammas| && |draws| == 1 + 2 * (PadLog(|amounts|) + LOG_N) + 4
    ensures r.Ok? ==> r.value.proof == HonestProof(HonestRun(E, amounts, gammas, draws))
  {
    hide HonestRun, HonestProof, NoZero, PadLog, Field.R;
  }

  lemma EndsWhenClear(E: Group, amounts: seq<int>, gammas: seq<int>, draws: seq<nat>, r: Result<Proved>)
    requires RunGives(E, amounts, gammas, draws, 0, r)
    ensures |amounts| == |gammas| && |draws| == 1 + 2 * (PadLog(|amounts|) + LOG_N) + 4
    ensures r.Ok? <==> !SomeDrawIsZero(E.F, draws) && NoZero(HonestRun(E, amounts, gammas, draws))
  {
    hide HonestRun, HonestProof, NoZero, PadLog, Field.R;
  }

  /** The commitments on the wire: eight times each offset one. */
  ghost function TimesEightBytes(E: Group, V: seq<PointBytes>): (s: seq<PointBytes>)
    requires AllDecode(V)
    ensures |s| == |V|
  {
    seq(|V|, i requires 0 <= i < |V| => Encodes(E.Times(8, V[i].point)))
  }

  ghost function Gammas(F: Field, masks: seq<nat>): (r: seq<int>)
    ensures |r| == |masks|
  {
    seq(|masks|, i requires 0 <= i < |masks| => F.R(masks[i]))
  }

  /** The prover past its argument checks. */
  method ProveInRange(E: Group, amounts: seq<int>, masks: seq<nat>, randomScalars: seq<nat>) returns (r: Result<Proved>)
    requires E.Valid() && Provable(amounts, masks, randomScalars)
    ensures RunGives(E, amounts, Gammas(E.F, masks), randomScalars, 0, r)
    ensures r.Ok? ==>
      && |r.value.V| == |amounts| && AllDecode(r.value.V)
      && (forall i :: 0 <= i < |amounts| ==>
            E.Times(8, r.value.V[i].point) == CommitTo(E, amounts[i], E.F.R(masks[i])))
      && Accepts(E, TimesEightBytes(E, r.value.V), r.value.proof)
  {
    hide *;
    var F := E.F;
    ProvableShape(amounts, masks, randomScalars);
    var logM, M := LogLoop(|amounts|);
    CeilLogPads(|amounts|);
    MInBounds(|amounts|);
    SizeIsPower(logM);
    EightInverts(E);
    GroupIsBig(E);
    var inv8 := Inv(F, 8);
    var gammas := ReduceAll(F, masks);
    GammasAre(F, masks, gammas);
    var V := CommitAll(E, inv8, amounts, gammas);
    CommitmentsOpen(E, V, amounts, gammas);
    CommitmentsExact(E, V, amounts, gammas);
    var Vwire := EncodeAll(V);
    EncodedIs(V, Vwire);
    var aL, aR, aL8, aR8 := BitVectors(F, inv8, amounts, M);

    var start := E.HashToScalar([E.initialTranscript, ScalarChunk(E.HashToScalar(PointChunks(Vwire)))]);
    var alpha := F.R(randomScalars[0]);
    if alpha == 0 {
      FirstDrawZero(E, amounts, gammas, randomScalars);
      return Err(ZeroDraw);
    }
    var A := CommitBits(E, inv8, amounts, aL8, aR8, alpha);
    IsEighth(E, A, Sum(aL8.Length, ACell(E, amounts)) + alpha);

    var y := E.HashToScalar([ScalarChunk(start), PointChunk(Encodes(A))]);
    var z := E.HashToScalar([ScalarChunk(y)]);
    ChallengesAre(E, amounts, gammas, randomScalars, V, A, start, y, z);
    if y == 0 || z == 0 {
      return Err(ZeroChallenge);
    }
    HashInverts(E, [ScalarChunk(start), PointChunk(Encodes(A))]);
    r := ProveAfterChallenges(E, inv8, amounts, gammas, V, A, alpha, aL, aR, y, z, logM, M, randomScalars);
    FromTheFirst(E, amounts, gammas, randomScalars, r);
    if r.Ok? {
      WireCommitments(E, V, r.value.V);
      WireOpens(E, V, r.value.V, amounts, masks, gammas);
    }
  }

  lemma ProvableShape(amounts: seq<int>, masks: seq<nat>, draws: seq<nat>)
    requires Provable(amounts, masks, draws)
    ensures LOG_N == 6 && 1 <= |amounts| == |masks| <= 16 && InRange(amounts)
    ensures CeilLog(|amounts|) == PadLog(|amounts|) && |draws| == 1 + 2 * (PadLog(|amounts|) + LOG_N) + 4
  {
    hide InRange, CeilLog, PadLog;
    CeilLogPads(|amounts|);
  }

  lemma GammasAre(F: Field, masks: seq<nat>, gammas: seq<int>)
    requires |gammas| == |masks| && forall i :: 0 <= i < |gammas| ==> gammas[i] == F.R(masks[i])
    ensures gammas == Gammas(F, masks)
  {
    hide Field.R;
  }

  lemma CommitmentsExact(E: Group, V: seq<Point>, amounts: seq<int>, gammas: seq<int>)
    requires E.Valid() && |V| == |amounts| == |gammas| && PointsFree(E, V)
    requires forall i :: 0 <= i < |V| ==> E.Times(8, V[i]) == CommitTo(E, amounts[i], gammas[i])
    ensures V == HonestCommitments(E, amounts, gammas)
  {
    hide Field.R, CommitTo, Eighth, Group.Valid, Group.Times;
    forall i | 0 <= i < |V| ensures V[i] == Eighth(E, CommitTo(E, amounts[i], gammas[i]).log) {
      EightTimes(E, V[i]);
      IsEighth(E, V[i], CommitTo(E, amounts[i], gammas[i]).log);
    }
  }

  lemma FirstDrawZero(E: Group, amounts: seq<int>, gammas: seq<int>, draws: seq<nat>)
    requires |amounts| == |gammas| && |draws| == 1 + 2 * (PadLog(|amounts|) + LOG_N) + 4 && E.F.R(draws[0]) == 0
    ensures RunGives(E, amounts, gammas, draws, 0, Err(ZeroDraw))
  {
    hide HonestRun, PadLog, Field.R;
  }

  lemma ChallengesAre(E: Group, amounts: seq<int>, gammas: seq<int>, draws: seq<nat>, V: seq<Point>, A: Point, start: nat, y: nat, z: nat)
    requires |amounts| == |gammas| && |draws| == 1 + 2 * (PadLog(|amounts|) + LOG_N) + 4
    requires V == HonestCommitments(E, amounts, gammas)
    requires A == Eighth(E, Sum(Pow2(PadLog(|amounts|) + LOG_N), ACell(E, amounts)) + E.F.R(draws[0]))
    requires start == E.HashToScalar([E.initialTranscript, ScalarChunk(E.HashToScalar(PointChunks(EncodedAll(V))))])
    requires y == E.HashToScalar([ScalarChunk(start), PointChunk(Encodes(A))]) && z == E.HashToScalar([ScalarChunk(y)])
    ensures y != 0 && z != 0 ==> Underway(E, amounts, gammas, draws, V, A, y, z)
    ensures y == 0 || z == 0 ==> RunGives(E, amounts, gammas, draws, 0, Err(ZeroChallenge))
  {
    hide HonestRun, HonestCommitments, Eighth, Field.R, PadLog, Pow2, Sum, ACell, Group.HashToScalar;
    RunParts(E, amounts, gammas, draws);
  }

  lemma FromTheFirst(E: Group, amounts: seq<int>, gammas: seq<int>, draws: seq<nat>, r: Result<Proved>)
    requires RunGives(E, amounts, gammas, draws, 1, r) && E.F.R(draws[0]) != 0
    ensures RunGives(E, amounts, gammas, draws, 0, r)
  {
    hide HonestRun, HonestProof, SomeDrawIsZero, NoZero, PadLog, Field.R;
  }

  lemma WireOpens(E: Group, V: seq<Point>, wire: seq<PointBytes>, amounts: seq<int>, masks: seq<nat>, gammas: seq<int>)
    requires wire == EncodedAll(V) && |V| == |amounts| == |masks| && gammas == Gammas(E.F, masks)
    requires forall i :: 0 <= i < |V| ==> E.Times(8, V[i]) == CommitTo(E, amounts[i], gammas[i])
    ensures forall i :: 0 <= i < |wire| ==> wire[i].Encodes? && E.Times(8, wire[i].point) == CommitTo(E, amounts[i], E.F.R(masks[i]))
  {
    hide Field.R, CommitTo, Group.Times;
  }

  /** How the prover ends, by the honest run; draws before `from` are known not to be zero. */
  ghost predicate RunGives(E: Group, amounts: seq<int>, gammas: seq<int>, draws: seq<nat>, from: nat, r: Result<Proved>) {
    && |amounts| == |gammas| && |draws| == 1 + 2 * (PadLog(|amounts|) + LOG_N) + 4
    && var run := HonestRun(E, amounts, gammas, draws);
       && (r.Err? ==> r.problem in {ZeroDraw, ZeroChallenge})
       && (r == Err(ZeroDraw) ==> SomeDrawIsZero(E.F, draws))
       && (r == Err(ZeroChallenge) ==> !NoZero(run))
       && (r.Ok? ==> NoZero(run) && NoDrawIsZero(E.F, draws, from, |draws|) && r.value == Proved(HonestProof(run), EncodedAll(run.V)))
  }

  /** What the honest run has reached when y and z are known. */
  ghost predicate Underway(E: Group, amounts: seq<int>, gammas: seq<int>, draws: seq<nat>, V: seq<Point>, A: Point, y: nat, z: nat) {
    && |amounts| == |gammas| && |draws| == 1 + 2 * (PadLog(|amounts|) + LOG_N) + 4
    && var run := HonestRun(E, amounts, gammas, draws);
       V == run.V && A == run.A && y == run.y != 0 && z == run.z != 0
  }

  /** The prover once y and z are known. bulletproofplus.ts:504-649. */
  method ProveAfterChallenges(E: Group, inv8: int, amounts: seq<int>, gammas: seq<int>, V: seq<Point>, A: Point, alpha: int,
                              aL: array<int>, aR: array<int>, y: nat, z: nat, logM: nat, M: nat, randomScalars: seq<nat>)
    returns (r: Result<Proved>)
    requires E.Valid() && E.F.R(8 * inv8) == E.F.R(1) && E.F.R(y * E.F.Inverse(y)) == E.F.R(1)
    requires 1 <= |V| == |amounts| == |gammas| <= 16 && InRange(amounts) && PointsFree(E, V) && E.TorsionFree(A)
    requires logM == PadLog(|V|) && M == Pow2(logM)
    requires Opens(E, EightAll(E, V), gammas, amounts)
    requires aL.Length == aR.Length == 64 * M
    requires forall i :: 0 <= i < 64 * M ==> aL[i] == Bit(amounts, i)
    requires forall i :: 0 <= i < 64 * M ==> E.F.R(aR[i]) == E.F.R(Bit(amounts, i) - 1)
    requires E.F.R(8 * A.log) == E.F.R(Sum(64 * M, ACell(E, amounts)) + alpha)
    requires Underway(E, amounts, gammas, randomScalars, V, A, y, z) && alpha == E.F.R(randomScalars[0])
    ensures RunGives(E, amounts, gammas, randomScalars, 1, r)
    ensures r.Ok? ==> r.value.V == EncodedAll(V) && Accepts(E, CommitmentsOf(E, V), r.value.proof)
  {
    hide *;
    var F := E.F;
    SixRounds();
    UnderwayShape(E, amounts, gammas, randomScalars, V, A, y, z);
    MInBounds(|V|);
    SizeIsPower(logM);
    EightInverts(E);
    GroupIsBig(E);
    F.Idem(randomScalars[0]);
    var yinv := Inv(F, y);
    var a, b, G, H, alpha1, yPowers, yinvPow := StartArgument(E, amounts, gammas, aL, aR, alpha, y, z, M, yinv);
    FirstState(E, y, yinv, 64 * M, a, b, G, H, alpha1);
    VectorsSized(E.F, a, b, G, H);
    ghost var w := VectorsOf(a, b, G, H);
    StartedIs(E, amounts, gammas, V, A, alpha, alpha1, w, y, z, M);
    StartExact(E, amounts, gammas, randomScalars, alpha1, w, y, z, 64 * M);
    var rounds, drawn := ProveRounds(E, inv8, Commitment(w, y, E.H.log, alpha1), y, yinv, yPowers, yinvPow, logM,
                                     a, b, G, H, alpha1, z, randomScalars, 1);
    if rounds.Err? {
      r := Err(rounds.problem);
      RunStops(E, amounts, gammas, randomScalars, alpha1, w, Commitment(w, y, E.H.log, alpha1), rounds);
      return;
    }
    RunGoesOn(E, amounts, gammas, randomScalars, alpha1, w, rounds.value, y, z);
    r := ProveLastRound(E, inv8, amounts, gammas, V, A, alpha, alpha1, w, y, z, rounds.value, randomScalars, drawn);
    RunEnds(E, amounts, gammas, randomScalars, alpha1, w, rounds.value, V, A, y, z, drawn, r);
  }

  lemma UnderwayShape(E: Group, amounts: seq<int>, gammas: seq<int>, draws: seq<nat>, V: seq<Point>, A: Point, y: nat, z: nat)
    requires Underway(E, amounts, gammas, draws, V, A, y, z)
    ensures |amounts| == |gammas| && |draws| == 1 + 2 * (PadLog(|amounts|) + LOG_N) + 4
    ensures y == ChallengeY(E, EncodedAll(V), Encodes(A)) != 0 && z == ChallengeZ(E, y) != 0
    ensures HonestRun(E, amounts, gammas, draws).y == y && HonestRun(E, amounts, gammas, draws).z == z
  {
    hide HonestRun, ChallengeY, ChallengeZ, PadLog;
    RunParts(E, amounts, gammas, draws);
  }

  lemma VectorsSized(F: Field, a: seq<int>, b: seq<int>, G: seq<Point>, H: seq<Point>)
    requires |a| == |b| == |G| == |H|
    requires (forall i :: 0 <= i < |a| ==> F.R(a[i]) == a[i]) && (forall i :: 0 <= i < |b| ==> F.R(b[i]) == b[i])
    ensures VectorsOf(a, b, G, H).Sized(|a|) && VectorsOf(a, b, G, H).Sized(|VectorsOf(a, b, G, H).a|)
    ensures ScalarsReduced(F, VectorsOf(a, b, G, H))
  {
    hide Field.R;
  }

  lemma StartedIs(E: Group, amounts: seq<int>, gammas: seq<int>, V: seq<Point>, A: Point, alpha: int, alpha1: int, w: Vectors, y: int, z: int, M: nat)
    requires InRange(amounts) && |V| == |gammas| == |amounts| <= M && PointsFree(E, V)
    requires StartsFrom(E, amounts, z, y, 64 * M, w) && Opens(E, EightAll(E, V), gammas, amounts)
    requires E.F.R(8 * A.log) == E.F.R(Sum(64 * M, ACell(E, amounts)) + alpha)
    requires E.F.R(alpha1) == E.F.R(alpha + Pow(y, 64 * M + 1) * Sum(|gammas|, ScaledGammas(gammas, z)))
    ensures Started(E, amounts, gammas, V, A, alpha, alpha1, w, y, z, M)
  {
    hide Field.R, Pow, Sum, Opens, InRange, ACell, ScaledGammas, PointsFree, Bit, Window;
  }

  /** The rounds of the honest run start from the vectors and the blind of the code. */
  ghost predicate SameStart(E: Group, amounts: seq<int>, gammas: seq<int>, draws: seq<nat>, alpha1: int, w: Vectors) {
    hide PadLog, Pow2, HonestRun, Rounds;
    && |amounts| == |gammas| && |draws| == 1 + 2 * (PadLog(|amounts|) + LOG_N) + 4
    && w.Sized(Pow2(PadLog(|amounts|) + LOG_N))
    && var run := HonestRun(E, amounts, gammas, draws);
       run.rounds == Rounds(E, run.y, w, alpha1, PadLog(|amounts|) + LOG_N, run.z, draws[1..])
  }

  lemma StartExact(E: Group, amounts: seq<int>, gammas: seq<int>, draws: seq<nat>, alpha1: int, w: Vectors, y: nat, z: nat, n: nat)
    requires |amounts| == |gammas| && |draws| == 1 + 2 * (PadLog(|amounts|) + LOG_N) + 4
    requires HonestRun(E, amounts, gammas, draws).y == y && HonestRun(E, amounts, gammas, draws).z == z
    requires StartsFrom(E, amounts, z, y, n, w) && n == Pow2(PadLog(|amounts|) + LOG_N)
    requires ScalarsReduced(E.F, w)
    requires alpha1 == E.F.R(E.F.R(draws[0]) + Pow(y, n + 1) * Sum(|gammas|, ScaledGammas(gammas, z)))
    ensures SameStart(E, amounts, gammas, draws, alpha1, w)
  {
    hide *;
    RunParts(E, amounts, gammas, draws);
    IsStart(E, amounts, z, y, n, w);
    StartSized(E, amounts, z, y, n, w);
    BlindIs(E.F, E.F.R(draws[0]), y, z, n, gammas);
    SameStartIs(E, amounts, gammas, draws, alpha1, w);
  }

  lemma StartSized(E: Group, amounts: seq<int>, z: int, y: int, n: nat, w: Vectors)
    requires w == StartVectors(E, amounts, z, y, n)
    ensures w.Sized(n)
  {
  }

  lemma BlindIs(F: Field, alpha: int, y: int, z: int, n: nat, gammas: seq<int>)
    ensures StartBlind(F, alpha, y, z, n, gammas) == F.R(alpha + Pow(y, n + 1) * Sum(|gammas|, ScaledGammas(gammas, z)))
  {
    hide Field.R, Pow, Sum, ScaledGammas;
  }

  lemma SameStartIs(E: Group, amounts: seq<int>, gammas: seq<int>, draws: seq<nat>, alpha1: int, w: Vectors)
    requires |amounts| == |gammas| && |draws| == 1 + 2 * (PadLog(|amounts|) + LOG_N) + 4
    requires w.Sized(Pow2(PadLog(|amounts|) + LOG_N))
    requires HonestRun(E, amounts, gammas, draws).rounds
          == Rounds(E, HonestRun(E, amounts, gammas, draws).y, w, alpha1, PadLog(|amounts|) + LOG_N, HonestRun(E, amounts, gammas, draws).z, draws[1..])
    ensures SameStart(E, amounts, gammas, draws, alpha1, w)
  {
    hide PadLog, Pow2, HonestRun, Rounds;
  }

  lemma RunStops(E: Group, amounts: seq<int>, gammas: seq<int>, draws: seq<nat>, alpha1: int, w: Vectors, X: int, rounds: Result<Argument>)
    requires SameStart(E, amounts, gammas, draws, alpha1, w) && rounds.Err? && rounds.problem in {ZeroDraw, ZeroChallenge}
    requires RoundsGive(E, X, HonestRun(E, amounts, gammas, draws).y, w, alpha1, PadLog(|amounts|) + LOG_N,
                        HonestRun(E, amounts, gammas, draws).z, draws[1..], rounds)
    requires rounds == Err(ZeroDraw) ==> SomeDrawIsZero(E.F, draws)
    ensures RunGives(E, amounts, gammas, draws, 1, Err(rounds.problem))
  {
    hide HonestRun, Rounds, SomeDrawIsZero, PadLog, Pow2, Argued, Finishes;
  }

  lemma RunGoesOn(E: Group, amounts: seq<int>, gammas: seq<int>, draws: seq<nat>, alpha1: int, w: Vectors, g: Argument, y: nat, z: nat)
    requires SameStart(E, amounts, gammas, draws, alpha1, w)
    requires y == HonestRun(E, amounts, gammas, draws).y && z == HonestRun(E, amounts, gammas, draws).z
    requires RoundsGive(E, Commitment(w, y, E.H.log, alpha1), y, w, alpha1, PadLog(|amounts|) + LOG_N, z, draws[1..], Ok(g))
    ensures Argued(E, Commitment(w, y, E.H.log, alpha1), y, z, PadLog(|amounts|) + LOG_N, g)
    ensures Finishes(g, HonestRun(E, amounts, gammas, draws).rounds) && 0 !in HonestRun(E, amounts, gammas, draws).rounds.cs
  {
    hide HonestRun, Rounds, PadLog, Pow2, Argued, Finishes, Commitment;
  }

  lemma RunEnds(E: Group, amounts: seq<int>, gammas: seq<int>, draws: seq<nat>, alpha1: int, w: Vectors, g: Argument,
                V: seq<Point>, A: Point, y: nat, z: nat, drawn: nat, r: Result<Proved>)
    requires Underway(E, amounts, gammas, draws, V, A, y, z) && LOG_N == 6
    requires Finishes(g, HonestRun(E, amounts, gammas, draws).rounds) && 0 !in HonestRun(E, amounts, gammas, draws).rounds.cs
    requires drawn == 1 + 2 * (PadLog(|amounts|) + LOG_N) && NoDrawIsZero(E.F, draws, 1, drawn)
    requires EndGives(E, y, A, g, draws, drawn, r) && (r.Err? ==> r.problem in {ZeroDraw, ZeroChallenge})
    requires r == Err(ZeroDraw) ==> SomeDrawIsZero(E.F, draws)
    requires r.Ok? ==> r.value.V == EncodedAll(V)
    ensures RunGives(E, amounts, gammas, draws, 1, r)
  {
    hide HonestRun, HonestEnding, PadLog, Pow2, SomeDrawIsZero, VectorsOf, Field.R, EncodedAll, Finishes, NoDrawIsZero, HonestProof, EndGives,
         ChallengeY, ChallengeZ, StartVectors, StartBlind, Rounds, Sum, Eighth, HonestCommitments;
    var run := HonestRun(E, amounts, gammas, draws);
    RunParts(E, amounts, gammas, draws);
    EndingIs(E, y, g, run.rounds, draws, drawn, run.end);
    ProofIs(E, y, A, g, run, draws, drawn, r);
    if r.Ok? {
      DrawsJoin(E.F, draws, 1, drawn, |draws|);
    }
  }

  lemma EndingIs(E: Group, y: int, g: Argument, t: Trace, draws: seq<nat>, at: nat, end: Ending)
    requires Finishes(g, t) && t.w.Sized(1) && at + 4 <= |draws| && |t.cs| >= 1
    requires end == HonestEnding(E, y, t.w, t.alpha, t.cs[|t.cs| - 1], draws, at)
    ensures VectorsOf([g.a], [g.b], [g.G], [g.H]).Sized(1)
    ensures end == HonestEnding(E, y, VectorsOf([g.a], [g.b], [g.G], [g.H]), g.alpha, g.transcript, draws, at)
    ensures g.L == t.L && g.R == t.R
  {
    hide HonestEnding, VectorsOf;
  }

  lemma ProofIs(E: Group, y: int, A: Point, g: Argument, run: Run, draws: seq<nat>, at: nat, r: Result<Proved>)
    requires EndGives(E, y, A, g, draws, at, r) && VectorsOf([g.a], [g.b], [g.G], [g.H]).Sized(1)
    requires run.end == HonestEnding(E, y, VectorsOf([g.a], [g.b], [g.G], [g.H]), g.alpha, g.transcript, draws, at)
    requires A == run.A && g.L == run.rounds.L && g.R == run.rounds.R
    ensures r == Err(ZeroChallenge) ==> run.end.e == 0
    ensures r.Ok? ==> run.end.e != 0 && r.value.proof == HonestProof(run) && NoDrawIsZero(E.F, draws, at, at + 4)
  {
    hide HonestEnding, VectorsOf, EncodedAll, NoDrawIsZero;
  }

  lemma DrawsJoin(F: Field, draws: seq<nat>, from: nat, mid: nat, to: nat)
    requires NoDrawIsZero(F, draws, from, mid) && NoDrawIsZero(F, draws, mid, to)
    ensures NoDrawIsZero(F, draws, from, to)
  {
    hide Field.R;
  }

  lemma GroupIsBig(E: Group)
    requires E.Valid()
    ensures E.F.L > 2
  {
  }

  /** How the last round ends, by the honest run. */
  ghost predicate EndGives(E: Group, y: int, A: Point, g: Argument, draws: seq<nat>, at: nat, res: Result<Proved>) {
    && at + 4 <= |draws| && VectorsOf([g.a], [g.b], [g.G], [g.H]).Sized(1)
    && var end := HonestEnding(E, y, VectorsOf([g.a], [g.b], [g.G], [g.H]), g.alpha, g.transcript, draws, at);
       && (res == Err(ZeroChallenge) ==> end.e == 0)
       && (res.Ok? ==>
             && end.e != 0 && NoDrawIsZero(E.F, draws, at, at + 4)
             && res.value.proof == BulletproofPlus(Encodes(A), Encodes(end.A1), Encodes(end.B), end.r1, end.s1, end.d1,
                                                   EncodedAll(g.L), EncodedAll(g.R)))
  }

  /** The commitments and responses of the code are the honest run's. */
  lemma EndExact(E: Group, y: int, g: Argument, draws: seq<nat>, at: nat, A1: Point, B: Point, e: nat)
    requires E.Valid() && at + 4 <= |draws| && E.TorsionFree(A1) && E.TorsionFree(B)
    requires var r, s, d, eta := E.F.R(draws[at]), E.F.R(draws[at + 1]), E.F.R(draws[at + 2]), E.F.R(draws[at + 3]);
      && E.F.R(8 * A1.log) == E.F.R(r * g.G.log + s * g.H.log + d + (r * y * g.b + s * y * g.a) * E.H.log)
      && E.F.R(8 * B.log) == E.F.R(eta + r * y * s * E.H.log)
    requires e == ChallengeE(E, g.transcript, Encodes(A1), Encodes(B))
    ensures VectorsOf([g.a], [g.b], [g.G], [g.H]).Sized(1)
    ensures var r, s, d, eta := E.F.R(draws[at]), E.F.R(draws[at + 1]), E.F.R(draws[at + 2]), E.F.R(draws[at + 3]);
      HonestEnding(E, y, VectorsOf([g.a], [g.b], [g.G], [g.H]), g.alpha, g.transcript, draws, at)
      == Ending(A1, B, e, E.F.R(g.a * e + r), E.F.R(g.b * e + s), E.F.R(g.alpha * (e * e) + (d * e + eta)))
  {
    hide Field.R, Group.Valid, ChallengeE, Eighth;
    var r, s, d, eta := E.F.R(draws[at]), E.F.R(draws[at + 1]), E.F.R(draws[at + 2]), E.F.R(draws[at + 3]);
    IsEighth(E, A1, r * g.G.log + s * g.H.log + d + (r * y * g.b + s * y * g.a) * E.H.log);
    IsEighth(E, B, eta + r * y * s * E.H.log);
  }

  /** The last four draws, the last challenge and the proof. bulletproofplus.ts:610-649. */
  method ProveLastRound(E: Group, inv8: int, ghost amounts: seq<int>, ghost gammas: seq<int>, V: seq<Point>, A: Point,
                        ghost alpha: int, ghost alpha1: int, ghost w: Vectors, y: nat, ghost z: nat, g: Argument,
                        randomScalars: seq<nat>, drawAt: nat) returns (res: Result<Proved>)
    requires E.Valid() && 1 <= |V| <= 16 && PointsFree(E, V) && E.TorsionFree(A)
    requires E.F.R(8 * inv8) == E.F.R(1) && drawAt + 4 == |randomScalars|
    requires Started(E, amounts, gammas, V, A, alpha, alpha1, w, y, z, Pow2(PadLog(|V|)))
    requires w.Sized(64 * Pow2(PadLog(|V|)))
    requires y == ChallengeY(E, EncodedAll(V), Encodes(A)) != 0 && z == ChallengeZ(E, y) != 0
    requires Argued(E, Commitment(w, y, E.H.log, alpha1), y, z, PadLog(|V|) + LOG_N, g)
    requires E.F.R(y * E.F.Inverse(y)) == E.F.R(1)
    ensures res.Err? ==> res.problem in {ZeroDraw, ZeroChallenge}
    ensures res == Err(ZeroDraw) ==> SomeDrawIsZero(E.F, randomScalars)
    ensures EndGives(E, y, A, g, randomScalars, drawAt, res)
    ensures res.Ok? ==> res.value.V == EncodedAll(V) && Accepts(E, CommitmentsOf(E, V), res.value.proof)
  {
    hide *;
    var F := E.F;
    SixRounds();
    SizedIs(w, 64 * Pow2(PadLog(|V|)));
    ArguedShape(E, Commitment(w, y, E.H.log, alpha1), y, z, PadLog(|V|) + LOG_N, g);
    var r, s := F.R(randomScalars[drawAt]), F.R(randomScalars[drawAt + 1]);
    var d, eta := F.R(randomScalars[drawAt + 2]), F.R(randomScalars[drawAt + 3]);
    if r == 0 || s == 0 || d == 0 || eta == 0 {
      ZeroAmongFour(F, randomScalars, drawAt);
      EndGivesDraw(E, y, A, g, randomScalars, drawAt);
      return Err(ZeroDraw);
    }
    NoneAmongFour(F, randomScalars, drawAt);
    var A1, B := LastCommitments(E, inv8, y, g, r, s, d, eta);
    var e := E.HashToScalar([ScalarChunk(g.transcript), PointChunk(Encodes(A1)), PointChunk(Encodes(B))]);
    ChallengeEIs(E, g.transcript, A1, B);
    EndExact(E, y, g, randomScalars, drawAt, A1, B, e);
    if e == 0 {
      EndGivesZero(E, y, A, g, randomScalars, drawAt);
      return Err(ZeroChallenge);
    }
    LastScalars(F, g.a, g.b, g.alpha, e, r, s, d, eta);
    var eSquared := F.Mul(e, e);
    var r1 := F.MulAdd(g.a, e, r);
    var s1 := F.MulAdd(g.b, e, s);
    var d1 := F.MulAdd(g.alpha, eSquared, F.MulAdd(d, e, eta));
    var Lwire := EncodeAll(g.L);
    var Rwire := EncodeAll(g.R);
    var Vwire := EncodeAll(V);
    EncodedIs(g.L, Lwire);
    EncodedIs(g.R, Rwire);
    EncodedIs(V, Vwire);
    var proof := BulletproofPlus(Encodes(A), Encodes(A1), Encodes(B), r1, s1, d1, Lwire, Rwire);
    RespondsIs(E, g, y, e, r, s, d, eta, A1, B, r1, s1, d1);
    HonestProofAccepted(E, amounts, gammas, V, A, alpha, alpha1, w, y, z, g, A1, B, e, r, s, d, eta, proof);
    res := Ok(Proved(proof, Vwire));
    EndGivesProof(E, y, A, g, randomScalars, drawAt, res.value);
  }

  lemma SizedIs(w: Vectors, n: nat)
    requires w.Sized(n)
    ensures w.Sized(|w.a|)
  {
  }

  lemma ArguedShape(E: Group, X: int, y: int, z: nat, rounds: nat, g: Argument)
    requires Argued(E, X, y, z, rounds, g)
    ensures |g.L| == |g.R| == rounds && E.TorsionFree(g.G) && E.TorsionFree(g.H)
    ensures VectorsOf([g.a], [g.b], [g.G], [g.H]).Sized(1)
  {
    hide Chain, Challenges, Commitment, RoundSum, GeneratorsFolded, Group.TorsionFree, Field.R, Pow2;
    assert PointsFree(E, [g.G]) && PointsFree(E, [g.H]);
    assert [g.G][0] == g.G && [g.H][0] == g.H;
  }

  lemma ChallengeEIs(E: Group, last: nat, A1: Point, B: Point)
    ensures ChallengeE(E, last, Encodes(A1), Encodes(B)) == E.HashToScalar([ScalarChunk(last), PointChunk(Encodes(A1)), PointChunk(Encodes(B))])
    ensures ChallengeE(E, last, Encodes(A1), Encodes(B)) >= 0
  {
    hide Group.HashToScalar;
  }

  lemma EncodedIs(P: seq<Point>, wire: seq<PointBytes>)
    requires |wire| == |P| && forall i :: 0 <= i < |P| ==> wire[i] == Encodes(P[i])
    ensures wire == EncodedAll(P)
  {
  }

  lemma RespondsIs(E: Group, g: Argument, y: int, e: int, r: int, s: int, d: int, eta: int, A1: Point, B: Point, r1: int, s1: int, d1: int)
    requires E.F.R(r1) == E.F.R(g.a * e + r) && E.F.R(s1) == E.F.R(g.b * e + s)
    requires E.F.R(d1) == E.F.R(g.alpha * (e * e) + (d * e + eta))
    requires E.F.R(8 * A1.log) == E.F.R(r * g.G.log + s * g.H.log + d + (r * y * g.b + s * y * g.a) * E.H.log)
    requires E.F.R(8 * B.log) == E.F.R(eta + r * y * s * E.H.log)
    ensures Responds(E, g, y, e, r, s, d, eta, A1, B, r1, s1, d1)
  {
    hide Field.R;
  }

  lemma EndGivesDraw(E: Group, y: int, A: Point, g: Argument, draws: seq<nat>, at: nat)
    requires at + 4 <= |draws| && VectorsOf([g.a], [g.b], [g.G], [g.H]).Sized(1)
    ensures EndGives(E, y, A, g, draws, at, Err(ZeroDraw))
  {
    hide HonestEnding, VectorsOf;
  }

  lemma EndGivesZero(E: Group, y: int, A: Point, g: Argument, draws: seq<nat>, at: nat)
    requires at + 4 <= |draws| && VectorsOf([g.a], [g.b], [g.G], [g.H]).Sized(1)
    requires HonestEnding(E, y, VectorsOf([g.a], [g.b], [g.G], [g.H]), g.alpha, g.transcript, draws, at).e == 0
    ensures EndGives(E, y, A, g, draws, at, Err(ZeroChallenge))
  {
    hide HonestEnding, VectorsOf;
  }

  lemma EndGivesProof(E: Group, y: int, A: Point, g: Argument, draws: seq<nat>, at: nat, proved: Proved)
    requires at + 4 <= |draws| && VectorsOf([g.a], [g.b], [g.G], [g.H]).Sized(1) && NoDrawIsZero(E.F, draws, at, at + 4)
    requires var end := HonestEnding(E, y, VectorsOf([g.a], [g.b], [g.G], [g.H]), g.alpha, g.transcript, draws, at);
      && end.e != 0
      && proved.proof == BulletproofPlus(Encodes(A), Encodes(end.A1), Encodes(end.B), end.r1, end.s1, end.d1, EncodedAll(g.L), EncodedAll(g.R))
    ensures EndGives(E, y, A, g, draws, at, Ok(proved))
  {
    hide HonestEnding, VectorsOf, NoDrawIsZero, EncodedAll;
  }

  lemma ZeroAmongFour(F: Field, randomScalars: seq<nat>, drawAt: nat)
    requires drawAt + 4 == |randomScalars|
    requires F.R(randomScalars[drawAt]) == 0 || F.R(randomScalars[drawAt + 1]) == 0
          || F.R(randomScalars[drawAt + 2]) == 0 || F.R(randomScalars[drawAt + 3]) == 0
    ensures SomeDrawIsZero(F, randomScalars)
  {
    hide Field.R;
  }

  lemma NoneAmongFour(F: Field, randomScalars: seq<nat>, drawAt: nat)
    requires drawAt + 4 <= |randomScalars|
    requires F.R(randomScalars[drawAt]) != 0 && F.R(randomScalars[drawAt + 1]) != 0
    requires F.R(randomScalars[drawAt + 2]) != 0 && F.R(randomScalars[drawAt + 3]) != 0
    ensures NoDrawIsZero(F, randomScalars, drawAt, drawAt + 4)
  {
    hide Field.R;
  }

  lemma LastScalars(F: Field, a: int, b: int, alpha: int, e: int, r: int, s: int, d: int, eta: int)
    ensures F.MulAdd(a, e, r) >= 0 && F.R(F.MulAdd(a, e, r)) == F.MulAdd(a, e, r) == F.R(a * e + r)
    ensures F.MulAdd(b, e, s) >= 0 && F.R(F.MulAdd(b, e, s)) == F.MulAdd(b, e, s) == F.R(b * e + s)
    ensures F.MulAdd(alpha, F.Mul(e, e), F.MulAdd(d, e, eta)) >= 0
    ensures F.R(F.MulAdd(alpha, F.Mul(e, e), F.MulAdd(d, e, eta))) == F.MulAdd(alpha, F.Mul(e, e), F.MulAdd(d, e, eta))
         == F.R(alpha * (e * e) + (d * e + eta))
  {
    hide Field.R;
    MulAddReduced(F, a, e, r);
    MulAddReduced(F, b, e, s);
    MulAddReduced(F, alpha, F.Mul(e, e), F.MulAdd(d, e, eta));
    F.MulAddV(a, a, e, e, r, r);
    F.MulAddV(b, b, e, e, s, s);
    F.MulV(e, e, e, e);
    F.MulAddV(d, d, e, e, eta, eta);
    F.MulAddV(alpha, alpha, F.Mul(e, e), e * e, F.MulAdd(d, e, eta), d * e + eta);
  }

  lemma WireCommitments(E: Group, V: seq<Point>, wire: seq<PointBytes>)
    requires wire == EncodedAll(V)
    ensures AllDecode(wire) && TimesEightBytes(E, wire) == CommitmentsOf(E, V)
  {
    hide Group.Times;
  }
}
