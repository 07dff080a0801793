/**
 * Completeness of Bulletproof+ as algebra: from what the prover's loops keep to the verifier's
 * equation closing on the identity.
 */
module BulletproofPlusAlgebra {
  import opened Sums
  import opened Scalars
  import opened Curve
  import opened InnerProduct
  import opened BulletproofPlusSpec
  import opened BulletproofPlusTables

  // ---- The folded generators are the weighted originals --------------------------

  /** The weighted sum of every m-th generator from i on. */
  ghost function Strided(w: int -> int, gen: int -> int, m: nat, i: int): int -> int {
    t => w(t) * gen(i + t * m)
  }

  /** Halving the stride doubles the number of weights. */
  lemma StrideHalves(T: nat, w: int -> int, w': int -> int, gen: int -> int, m: nat, i: int, p: int, q: int)
    requires forall t :: 0 <= t < T ==> w'(2 * t) == p * w(t) && w'(2 * t + 1) == q * w(t)
    ensures Sum(2 * T, Strided(w', gen, m, i))
         == p * Sum(T, Strided(w, gen, 2 * m, i)) + q * Sum(T, Strided(w, gen, 2 * m, i + m))
  {
    var f', f, g := Strided(w', gen, m, i), Strided(w, gen, 2 * m, i), Strided(w, gen, 2 * m, i + m);
    var even, odd := Scaled(p, f), Scaled(q, g);
    forall t | 0 <= t < T ensures f'(2 * t) == even(t) && f'(2 * t + 1) == odd(t) {
      StridePair(t, w, w', gen, m, i, p, q);
    }
    SumInterleave(T, f', even, odd);
    SumMultiple(T, even, p, f);
    SumMultiple(T, odd, q, g);
  }

  lemma StridePair(t: nat, w: int -> int, w': int -> int, gen: int -> int, m: nat, i: int, p: int, q: int)
    requires w'(2 * t) == p * w(t) && w'(2 * t + 1) == q * w(t)
    ensures Strided(w', gen, m, i)(2 * t) == p * Strided(w, gen, 2 * m, i)(t)
    ensures Strided(w', gen, m, i)(2 * t + 1) == q * Strided(w, gen, 2 * m, i + m)(t)
  {
    assert (2 * t) * m == t * (2 * m);
    assert (2 * t + 1) * m == m + t * (2 * m);
    Associate(p, w(t), gen(i + t * (2 * m)));
    Associate(q, w(t), gen(i + m + t * (2 * m)));
  }

  /** Weights of the Gi: the challenge product times a power of y⁻¹. */
  ghost function GiWeights(F: Field, cs: seq<int>, yinv: int, m: nat): int -> int {
    t => if t < 0 then 0 else Weight(F, cs, t) * Pow(yinv, t * m)
  }

  /** Weights of the Hi: the challenge product with every bit flipped. */
  ghost function HiWeights(F: Field, cs: seq<int>): int -> int {
    t => if 0 <= t < Pow2(|cs|) then Weight(F, cs, Pow2(|cs|) - 1 - t) else 0
  }

  ghost function FoldedGi(E: Group, cs: seq<int>, yinv: int, m: nat, i: int): int {
    Sum(Pow2(|cs|), Strided(GiWeights(E.F, cs, yinv, m), GiLog(E), m, i))
  }

  ghost function FoldedHi(E: Group, cs: seq<int>, m: nat, i: int): int {
    Sum(Pow2(|cs|), Strided(HiWeights(E.F, cs), HiLog(E), m, i))
  }

  /** Gprime and Hprime after the challenges cs, in terms of the original generators. */
  ghost predicate GeneratorsFolded(E: Group, cs: seq<int>, yinv: int, m: nat, g: seq<int>, h: seq<int>) {
    && |g| == |h| == m
    && (forall i :: 0 <= i < m ==> E.F.R(g[i]) == E.F.R(FoldedGi(E, cs, yinv, m, i)))
    && (forall i :: 0 <= i < m ==> E.F.R(h[i]) == E.F.R(FoldedHi(E, cs, m, i)))
  }

  ghost function GiLog(E: Group): int -> int { i => E.gi(i).log }

  ghost function HiLog(E: Group): int -> int { i => E.hi(i).log }

  lemma WeightUnfold(F: Field, cs: seq<int>, t: nat)
    requires cs != []
    ensures Weight(F, cs, t) == Weight(F, cs[..|cs| - 1], t / 2) * (if t % 2 == 1 then cs[|cs| - 1] else F.Inverse(cs[|cs| - 1]))
  {
  }

  lemma WeightLast(F: Field, cs: seq<int>, c: int, t: nat)
    ensures Weight(F, cs + [c], 2 * t) == F.Inverse(c) * Weight(F, cs, t)
    ensures Weight(F, cs + [c], 2 * t + 1) == c * Weight(F, cs, t)
  {
    hide Field.Inverse, Field.R;
    assert (cs + [c])[..|cs|] == cs;
    WeightUnfold(F, cs + [c], 2 * t);
    WeightUnfold(F, cs + [c], 2 * t + 1);
    assert (2 * t + 1) / 2 == t;
  }

  lemma GiWeightsNext(F: Field, cs: seq<int>, c: int, yinv: int, m: nat, t: nat)
    ensures GiWeights(F, cs + [c], yinv, m)(2 * t) == F.Inverse(c) * GiWeights(F, cs, yinv, 2 * m)(t)
    ensures GiWeights(F, cs + [c], yinv, m)(2 * t + 1) == (c * Pow(yinv, m)) * GiWeights(F, cs, yinv, 2 * m)(t)
  {
    hide Weight, Pow, Field.Inverse;
    WeightLast(F, cs, c, t);
    StrideExponent(t, m);
    PowAdd(yinv, t * (2 * m), m);
    var w, p, r := Weight(F, cs, t), Pow(yinv, t * (2 * m)), Pow(yinv, m);
    GiProduct(F.Inverse(c), c, w, p, r);
  }

  lemma StrideExponent(t: nat, m: nat)
    ensures (2 * t) * m == t * (2 * m) >= 0
    ensures (2 * t + 1) * m == t * (2 * m) + m
  {
    assert t * (2 * m) == 2 * (t * m) && t * m >= 0;
  }

  lemma GiProduct(ci: int, c: int, w: int, p: int, r: int)
    ensures (ci * w) * p == ci * (w * p)
    ensures (c * w) * (p * r) == (c * r) * (w * p)
  {
    ProductSwap(c, w, r, p);
    assert p * r == r * p;
  }

  lemma HiWeightAt(F: Field, cs: seq<int>, t: nat)
    requires t < Pow2(|cs|)
    ensures HiWeights(F, cs)(t) == Weight(F, cs, Pow2(|cs|) - 1 - t)
  {
    hide Weight;
  }

  lemma HiWeightsNext(F: Field, cs: seq<int>, c: int, t: nat)
    requires t < Pow2(|cs|)
    ensures HiWeights(F, cs + [c])(2 * t) == c * HiWeights(F, cs)(t)
    ensures HiWeights(F, cs + [c])(2 * t + 1) == F.Inverse(c) * HiWeights(F, cs)(t)
  {
    hide Weight, Field.Inverse, HiWeights;
    var T := Pow2(|cs|);
    var k := T - 1 - t;
    assert |cs + [c]| == |cs| + 1 && Pow2(|cs| + 1) == 2 * T;
    WeightLast(F, cs, c, k);
    HiWeightAt(F, cs, t);
    HiWeightAt(F, cs + [c], 2 * t);
    HiWeightAt(F, cs + [c], 2 * t + 1);
    hide Pow2;
    assert 2 * T - 1 - 2 * t == 2 * k + 1 && 2 * T - 1 - (2 * t + 1) == 2 * k;
  }

  lemma FoldedGiNext(E: Group, cs: seq<int>, c: int, yinv: int, m: nat, i: int)
    ensures FoldedGi(E, cs + [c], yinv, m, i)
         == E.F.Inverse(c) * FoldedGi(E, cs, yinv, 2 * m, i) + (c * Pow(yinv, m)) * FoldedGi(E, cs, yinv, 2 * m, i + m)
  {
    var T := Pow2(|cs|);
    assert Pow2(|cs + [c]|) == 2 * T;
    hide Field.Inverse, Pow, Weight, GiWeights, Pow2;
    var w, w' := GiWeights(E.F, cs, yinv, 2 * m), GiWeights(E.F, cs + [c], yinv, m);
    var p, q := E.F.Inverse(c), c * Pow(yinv, m);
    forall t | 0 <= t < T ensures w'(2 * t) == p * w(t) && w'(2 * t + 1) == q * w(t) {
      GiWeightsNext(E.F, cs, c, yinv, m, t);
    }
    StrideHalves(T, w, w', GiLog(E), m, i, p, q);
  }

  lemma FoldedHiNext(E: Group, cs: seq<int>, c: int, m: nat, i: int)
    ensures FoldedHi(E, cs + [c], m, i)
         == c * FoldedHi(E, cs, 2 * m, i) + E.F.Inverse(c) * FoldedHi(E, cs, 2 * m, i + m)
  {
    var T := Pow2(|cs|);
    assert Pow2(|cs + [c]|) == 2 * T;
    hide Field.Inverse, Weight, HiWeights, Pow2;
    var w, w' := HiWeights(E.F, cs), HiWeights(E.F, cs + [c]);
    var p, q := c, E.F.Inverse(c);
    forall t | 0 <= t < T ensures w'(2 * t) == p * w(t) && w'(2 * t + 1) == q * w(t) {
      HiWeightsNext(E.F, cs, c, t);
    }
    StrideHalves(T, w, w', HiLog(E), m, i, p, q);
  }

  /** One round keeps the closed form of the folded generators. */
  lemma GeneratorsFold(E: Group, cs: seq<int>, c: int, yinv: int, m: nat, g: seq<int>, h: seq<int>, g': seq<int>, h': seq<int>)
    requires GeneratorsFolded(E, cs, yinv, 2 * m, g, h) && |g'| == |h'| == m
    requires forall i :: 0 <= i < m ==>
      E.F.R(g'[i]) == E.F.R(E.F.Inverse(c) * g[i] + c * Pow(yinv, m) * g[m + i])
    requires forall i :: 0 <= i < m ==> E.F.R(h'[i]) == E.F.R(c * h[i] + E.F.Inverse(c) * h[m + i])
    ensures GeneratorsFolded(E, cs + [c], yinv, m, g', h')
  {
    hide Field.R, Field.Inverse, Pow, FoldedGi, FoldedHi;
    forall i | 0 <= i < m ensures E.F.R(g'[i]) == E.F.R(FoldedGi(E, cs + [c], yinv, m, i)) {
      FoldedGiNext(E, cs, c, yinv, m, i);
      Combine(E.F, E.F.Inverse(c), g[i], FoldedGi(E, cs, yinv, 2 * m, i),
              c * Pow(yinv, m), g[m + i], FoldedGi(E, cs, yinv, 2 * m, m + i));
    }
    forall i | 0 <= i < m ensures E.F.R(h'[i]) == E.F.R(FoldedHi(E, cs + [c], m, i)) {
      FoldedHiNext(E, cs, c, m, i);
      Combine(E.F, c, h[i], FoldedHi(E, cs, 2 * m, i), E.F.Inverse(c), h[m + i], FoldedHi(E, cs, 2 * m, m + i));
    }
  }

  lemma Combine(F: Field, p: int, x: int, x': int, q: int, y: int, y': int)
    requires F.R(x) == F.R(x') && F.R(y) == F.R(y')
    ensures F.R(p * x + q * y) == F.R(p * x' + q * y')
  {
    hide Field.R;
    F.ScaleC(p, x, x');
    F.ScaleC(q, y, y');
    F.AddC(p * x, p * x', q * y, q * y');
  }

  // ---- The commitment the rounds accumulate -----------------------------------

  /** c_j²·8L_j + c_j⁻²·8R_j. */
  ghost function RoundPair(F: Field, c: int, l: int, r: int): int {
    (c * c) * l + (F.Inverse(c) * F.Inverse(c)) * r
  }

  ghost function RoundPairs(F: Field, cs: seq<int>, L8: seq<Point>, R8: seq<Point>): int -> int
    requires |cs| == |L8| == |R8|
  {
    j => if 0 <= j < |cs| then RoundPair(F, cs[j], L8[j].log, R8[j].log) else 0
  }

  ghost function RoundSum(F: Field, cs: seq<int>, L8: seq<Point>, R8: seq<Point>): int
    requires |cs| == |L8| == |R8|
  {
    Sum(|cs|, RoundPairs(F, cs, L8, R8))
  }

  lemma RoundSumNext(F: Field, cs: seq<int>, L8: seq<Point>, R8: seq<Point>, c: int, l: Point, r: Point)
    requires |cs| == |L8| == |R8|
    ensures RoundSum(F, cs + [c], L8 + [l], R8 + [r]) == RoundSum(F, cs, L8, R8) + RoundPair(F, c, l.log, r.log)
  {
    var f, f' := RoundPairs(F, cs, L8, R8), RoundPairs(F, cs + [c], L8 + [l], R8 + [r]);
    SumExt(|cs|, f', f);
  }

  /**
   * Conservation over the whole argument so far: one more round with blinds dL, dR moves both the
   * opened commitment and the accumulated one by the same amount.
   */
  lemma Conserve(F: Field, w: Vectors, w': Vectors, m: nat, c: int, y: int, yinvm: int, H: int,
                 alpha: int, dL: int, dR: int, alpha': int, X: int, cs: seq<int>, L8: seq<Point>, R8: seq<Point>, l: Point, r: Point)
    requires |cs| == |L8| == |R8| && w.Sized(2 * m) && w'.Sized(m)
    requires Folds(F, w, w', m, c, F.Inverse(c), Pow(y, m), yinvm)
    requires F.R(c * F.Inverse(c)) == F.R(1) && F.R(Pow(y, m) * yinvm) == F.R(1)
    requires F.R(Commitment(w, y, H, alpha)) == F.R(X + RoundSum(F, cs, L8, R8))
    requires F.R(l.log) == F.R(Sum(m, LeftCells(w, m, y, yinvm, H)) + dL)
    requires F.R(r.log) == F.R(Sum(m, RightCells(w, m, y, Pow(y, m), H)) + dR)
    requires F.R(alpha') == F.R(alpha + dL * (c * c) + dR * (F.Inverse(c) * F.Inverse(c)))
    ensures F.R(Commitment(w', y, H, alpha')) == F.R(X + RoundSum(F, cs + [c], L8 + [l], R8 + [r]))
  {
    hide Field.R, Field.Inverse, Pow, Sum, RoundSum, Folds, LeftCells, RightCells, Cells;
    var ci := F.Inverse(c);
    RoundSumNext(F, cs, L8, R8, c, l, r);
    FoldRound(F, w, w', m, c, ci, y, Pow(y, m), yinvm, H);
    ConserveCongruence(F, Sum(m, Cells(w', y, H)), Sum(2 * m, Cells(w, y, H)), c * c, ci * ci,
                       Sum(m, LeftCells(w, m, y, yinvm, H)), Sum(m, RightCells(w, m, y, Pow(y, m), H)),
                       alpha, dL, dR, alpha', X, RoundSum(F, cs, L8, R8), l.log, r.log);
  }

  lemma ConserveCongruence(F: Field, s': int, s: int, c2: int, ci2: int, sl: int, sr: int,
                           alpha: int, dL: int, dR: int, alpha': int, X: int, rs: int, l: int, r: int)
    requires F.R(s') == F.R(s + c2 * sl + ci2 * sr)
    requires F.R(s + alpha) == F.R(X + rs)
    requires F.R(l) == F.R(sl + dL) && F.R(r) == F.R(sr + dR)
    requires F.R(alpha') == F.R(alpha + dL * c2 + dR * ci2)
    ensures F.R(s' + alpha') == F.R(X + (rs + (c2 * l + ci2 * r)))
  {
    hide Field.R;
    F.AddC(s', s + c2 * sl + ci2 * sr, alpha', alpha + dL * c2 + dR * ci2);
    Combine(F, c2, l, sl + dL, ci2, r, sr + dR);
    F.AddC(s + alpha, X + rs, c2 * (sl + dL) + ci2 * (sr + dR), c2 * l + ci2 * r);
    Distribute(c2, sl, dL);
    Distribute(ci2, sr, dR);
    assert dL * c2 == c2 * dL && dR * ci2 == ci2 * dR;
  }
}
