/** The verifier's equation closes on the identity for every honest proof. */
module BulletproofPlusClosing {
  import opened Sums
  import opened Scalars
  import opened Curve
  import opened InnerProduct
  import opened BulletproofPlusSpec
  import opened BulletproofPlusTables
  import opened BulletproofPlusAlgebra
  import opened BulletproofPlusOpening

  // ---- The equation's sections as sums ---------------------------------------------

  lemma CommitmentSection(q: Equation, V8: seq<Point>)
    ensures Weighted(CommitmentTerms(q, V8, |V8|))
         == (-(q.e * q.e) * Pow(q.y, q.Size() + 1)) * Sum(|V8|, ScaledV(V8, q.z))
  {
    var c := -(q.e * q.e) * Pow(q.y, q.Size() + 1);
    var ts := CommitmentTerms(q, V8, |V8|);
    hide Pow, Sum, Weighted;
    forall j | 0 <= j < |V8| ensures Scaled(c, ScaledV(V8, q.z))(j) == ts[j].scalar * ts[j].point.log {
      Associate(c, Pow(q.z, 2 * (j + 1)), V8[j].log);
    }
    WeightedSum(ts, Scaled(c, ScaledV(V8, q.z)));
    SumScaled(|V8|, c, ScaledV(V8, q.z));
  }

  lemma HeadSection(q: Equation, p: ProofPoints)
    ensures Weighted(HeadTerms(q, p)) == -p.B8.log - q.e * p.A18.log - (q.e * q.e) * p.A8.log
  {
    var t0, t1, t2 := Term(-1, p.B8), Term(-q.e, p.A18), Term(-(q.e * q.e), p.A8);
    assert HeadTerms(q, p) == [t0] + [t1] + [t2];
    WeightedSingle(t0);
    WeightedSingle(t1);
    WeightedSingle(t2);
    hide Weighted;
    WeightedConcat([t0], [t1]);
    WeightedConcat([t0] + [t1], [t2]);
    assert (-(q.e * q.e)) * p.A8.log == -((q.e * q.e) * p.A8.log);
    assert (-q.e) * p.A18.log == -(q.e * p.A18.log);
  }

  lemma WeightedSingle(t: Term)
    ensures Weighted([t]) == t.scalar * t.point.log
  {
    assert [t][..0] == [];
    assert Weighted([t]) == Weighted([t][..0]) + t.scalar * t.point.log;
  }

  lemma RoundCell(F: Field, q: Equation, p: ProofPoints, j: nat)
    requires |p.L8| == |p.R8| == |q.cs| && j < |q.cs|
    ensures TermValue(RoundTerms(F, q, p, 2 * |q.cs|))(2 * j) + TermValue(RoundTerms(F, q, p, 2 * |q.cs|))(2 * j + 1)
         == Scaled(-(q.e * q.e), RoundPairs(F, q.cs, p.L8, p.R8))(j)
  {
    hide Field.R, Field.Inverse;
    assert (2 * j) / 2 == j && (2 * j + 1) / 2 == j && (2 * j) % 2 == 0 && (2 * j + 1) % 2 == 1;
    var x, xi := q.cs[j] * q.cs[j], F.Inverse(q.cs[j]) * F.Inverse(q.cs[j]);
    RoundShape(-(q.e * q.e), x, xi, p.L8[j].log, p.R8[j].log);
  }

  lemma RoundSection(F: Field, q: Equation, p: ProofPoints)
    requires |p.L8| == |p.R8| == |q.cs|
    ensures Weighted(RoundTerms(F, q, p, 2 * |q.cs|)) == -(q.e * q.e) * RoundSum(F, q.cs, p.L8, p.R8)
  {
    hide Field.R, Field.Inverse, Sum, Weighted, TermValue, RoundPairs, Scaled, RoundTerms;
    var k, c := |q.cs|, -(q.e * q.e);
    var ts := RoundTerms(F, q, p, 2 * k);
    var f := TermValue(ts);
    var g := Scaled(c, RoundPairs(F, q.cs, p.L8, p.R8));
    WeightedValue(ts);
    forall j | 0 <= j < k ensures f(2 * j) + f(2 * j + 1) == g(j) {
      RoundCell(F, q, p, j);
    }
    SumPairs(k, f, g);
    SumScaled(k, c, RoundPairs(F, q.cs, p.L8, p.R8));
  }

  ghost function TermValue(ts: seq<Term>): int -> int {
    t => if 0 <= t < |ts| then ts[t].scalar * ts[t].point.log else 0
  }

  lemma WeightedValue(ts: seq<Term>)
    ensures Weighted(ts) == Sum(|ts|, TermValue(ts))
  {
    WeightedSum(ts, TermValue(ts));
  }

  lemma RoundShape(c: int, x: int, xi: int, l: int, r: int)
    ensures (c * x) * l + (c * xi) * r == c * (x * l + xi * r)
  {
    Associate(c, x, l);
    Associate(c, xi, r);
    Distribute(c, x * l, xi * r);
  }

  lemma FixedSection(E: Group, q: Equation)
    ensures Weighted(FixedTerms(E, q)) == q.d1 + HScalar(q) * E.H.log
  {
    var t0, t1 := Term(q.d1, BASE), Term(HScalar(q), E.H);
    assert FixedTerms(E, q) == [t0] + [t1];
    WeightedSingle(t0);
    WeightedSingle(t1);
    hide Weighted, HScalar;
    WeightedConcat([t0], [t1]);
  }

  // ---- The generators' section ------------------------------------------------------

  ghost function GenCell(E: Group, q: Equation): int -> int {
    i => if 0 <= i < q.Size() then GiScalar(E.F, q, i) * E.gi(i).log + HiScalar(E.F, q, i) * E.hi(i).log else 0
  }

  ghost function GiTerm(E: Group, q: Equation): int -> int {
    Strided(GiWeights(E.F, q.cs, E.F.Inverse(q.y), 1), GiLog(E), 1, 0)
  }

  ghost function HiTerm(E: Group, q: Equation): int -> int {
    Strided(HiWeights(E.F, q.cs), HiLog(E), 1, 0)
  }

  lemma GenPair(E: Group, q: Equation, i: nat)
    requires i < q.Size()
    ensures TermValue(GeneratorTerms(E, q, 2 * q.Size()))(2 * i) + TermValue(GeneratorTerms(E, q, 2 * q.Size()))(2 * i + 1)
         == GenCell(E, q)(i)
  {
    hide GiScalar, HiScalar;
    assert (2 * i) / 2 == i && (2 * i + 1) / 2 == i && (2 * i) % 2 == 0 && (2 * i + 1) % 2 == 1;
  }

  lemma GeneratorSection(E: Group, q: Equation)
    ensures Weighted(GeneratorTerms(E, q, 2 * q.Size())) == Sum(q.Size(), GenCell(E, q))
  {
    var n := q.Size();
    var ts := GeneratorTerms(E, q, 2 * n);
    var f := TermValue(ts);
    hide Sum, Weighted, TermValue, GenCell, GeneratorTerms;
    WeightedValue(ts);
    forall i | 0 <= i < n ensures f(2 * i) + f(2 * i + 1) == GenCell(E, q)(i) {
      GenPair(E, q, i);
    }
    SumPairs(n, f, GenCell(E, q));
  }

  /** y^n·y⁻ⁱ is y^(n-i). */
  lemma PowerQuotient(F: Field, y: int, yinv: int, n: nat, i: nat)
    requires i <= n && F.R(y * yinv) == F.R(1)
    ensures F.R(Pow(y, n) * Pow(yinv, i)) == F.R(Pow(y, n - i))
  {
    hide Field.R, Pow;
    PowAdd(y, n - i, i);
    F.PowCancel(y, yinv, i);
    var a, b, c := Pow(y, n - i), Pow(y, i), Pow(yinv, i);
    Associate(a, b, c);
    F.ScaleC(a, b * c, 1);
  }

  lemma GenCellSplits(E: Group, q: Equation, i: nat)
    requires i < q.Size() == Pow2(|q.cs|) && E.F.R(q.y * E.F.Inverse(q.y)) == E.F.R(1)
    ensures E.F.R(GenCell(E, q)(i))
         == E.F.R((q.e * q.r1) * GiTerm(E, q)(i) + (q.e * q.s1) * HiTerm(E, q)(i)
                  - (q.e * q.e) * XCell(E, q.z, q.y, q.Size())(i))
  {
    hide Field.R, Field.Inverse, Pow, Weight, Window, GenCell, GiTerm, HiTerm, XCell, Pow2;
    var F := E.F;
    var n, yi := q.Size(), F.Inverse(q.y);
    var p, W, W', D := Pow(yi, i), Weight(F, q.cs, i), Weight(F, q.cs, n - 1 - i), Window(q.z, i);
    TermsAt(E, q, i);
    PowerQuotient(F, q.y, yi, n, i);
    GenCellCongruence(F, q.e, q.r1, q.s1, q.z, p, W, W', D, Pow(q.y, n), Pow(q.y, n - i), E.gi(i).log, E.hi(i).log,
                      GiTerm(E, q)(i), HiTerm(E, q)(i), XCell(E, q.z, q.y, n)(i));
  }

  lemma TermsAt(E: Group, q: Equation, i: nat)
    requires i < q.Size() == Pow2(|q.cs|)
    ensures GiTerm(E, q)(i) == (Weight(E.F, q.cs, i) * Pow(E.F.Inverse(q.y), i)) * E.gi(i).log
    ensures HiTerm(E, q)(i) == Weight(E.F, q.cs, q.Size() - 1 - i) * E.hi(i).log
    ensures XCell(E, q.z, q.y, q.Size())(i)
         == (q.z + Window(q.z, i) * Pow(q.y, q.Size() - i)) * E.hi(i).log - q.z * E.gi(i).log
    ensures GenCell(E, q)(i)
         == (q.e * q.r1 * Pow(E.F.Inverse(q.y), i) * Weight(E.F, q.cs, i) + q.e * q.e * q.z) * E.gi(i).log
            + (q.e * q.s1 * Weight(E.F, q.cs, q.Size() - 1 - i) - q.e * q.e * q.z
               - q.e * q.e * Pow(q.y, q.Size()) * Pow(E.F.Inverse(q.y), i) * Window(q.z, i)) * E.hi(i).log
  {
    hide Field.R, Field.Inverse, Pow, Weight, Window, Pow2;
    assert i * 1 == i && 0 + i * 1 == i;
  }

  lemma GenCellCongruence(F: Field, e: int, r1: int, s1: int, z: int, p: int, W: int, W': int, D: int,
                          Yn: int, Yq: int, G: int, H: int, gt: int, ht: int, xc: int)
    requires F.R(Yn * p) == F.R(Yq)
    requires gt == (W * p) * G && ht == W' * H && xc == (z + D * Yq) * H - z * G
    ensures F.R((e * r1 * p * W + e * e * z) * G + (e * s1 * W' - e * e * z - e * e * Yn * p * D) * H)
         == F.R((e * r1) * gt + (e * s1) * ht - (e * e) * xc)
  {
    hide Field.R;
    var e2 := e * e;
    var k := (e2 * D) * H;
    var rest := (e * r1) * gt + (e * s1) * ht - e2 * (z * H - z * G);
    GenCellShape(e, r1, s1, z, p, W, W', D, Yn, G, H);
    XCellShape(e2, z, D, Yq, G, H);
    F.ScaleC(k, Yn * p, Yq);
    F.SubC(rest, rest, k * (Yn * p), k * Yq);
  }

  lemma GenCellShape(e: int, r1: int, s1: int, z: int, p: int, W: int, W': int, D: int, Yn: int, G: int, H: int)
    ensures (e * r1 * p * W + e * e * z) * G + (e * s1 * W' - e * e * z - e * e * Yn * p * D) * H
         == (e * r1) * ((W * p) * G) + (e * s1) * (W' * H) - (e * e) * (z * H - z * G) - (((e * e) * D) * H) * (Yn * p)
  {
    SpreadFive(e * r1 * p * W, e * e * z, e * s1 * W', e * e * Yn * p * D, G, H);
    GenProducts(e, r1, s1, p, W, W', D, Yn, G, H);
    SpreadTwo(e * e, z, G, H);
  }

  lemma XCellShape(e2: int, z: int, D: int, Yq: int, G: int, H: int)
    ensures e2 * ((z + D * Yq) * H - z * G) == e2 * (z * H - z * G) + ((e2 * D) * H) * Yq
  {
    assert (z + D * Yq) * H == z * H + (D * Yq) * H;
    Distribute(e2, z * H - z * G, (D * Yq) * H);
    assert e2 * ((D * Yq) * H) == ((e2 * D) * H) * Yq;
  }

  lemma SpreadFive(u: int, k: int, v: int, t: int, G: int, H: int)
    ensures (u + k) * G + (v - k - t) * H == u * G + k * G + v * H - k * H - t * H
  {
  }

  lemma SpreadTwo(c: int, z: int, G: int, H: int)
    ensures c * (z * H - z * G) == (c * z) * H - (c * z) * G
  {
  }

  lemma GenProducts(e: int, r1: int, s1: int, p: int, W: int, W': int, D: int, Yn: int, G: int, H: int)
    ensures (e * r1 * p * W) * G == (e * r1) * ((W * p) * G)
    ensures (e * s1 * W') * H == (e * s1) * (W' * H)
    ensures (e * e * Yn * p * D) * H == (((e * e) * D) * H) * (Yn * p)
  {
  }

  ghost function GenParts(E: Group, q: Equation): int -> int {
    i => Scaled(q.e * q.r1, GiTerm(E, q))(i) + Scaled(q.e * q.s1, HiTerm(E, q))(i)
         - Scaled(q.e * q.e, XCell(E, q.z, q.y, q.Size()))(i)
  }

  lemma GenCellParts(E: Group, q: Equation, i: nat)
    requires i < q.Size() == Pow2(|q.cs|) && E.F.R(q.y * E.F.Inverse(q.y)) == E.F.R(1)
    ensures E.F.R(GenCell(E, q)(i)) == E.F.R(GenParts(E, q)(i))
  {
    hide Field.R, Field.Inverse, GenCell, GiTerm, HiTerm, XCell, Pow2;
    GenCellSplits(E, q, i);
    var a, b, c := Scaled(q.e * q.r1, GiTerm(E, q)), Scaled(q.e * q.s1, HiTerm(E, q)),
                   Scaled(q.e * q.e, XCell(E, q.z, q.y, q.Size()));
    assert GenParts(E, q)(i) == a(i) + b(i) - c(i);
  }

  lemma GeneratorTotal(E: Group, q: Equation)
    requires q.Size() == Pow2(|q.cs|) && E.F.R(q.y * E.F.Inverse(q.y)) == E.F.R(1)
    ensures E.F.R(Weighted(GeneratorTerms(E, q, 2 * q.Size())))
         == E.F.R((q.e * q.r1) * FoldedGi(E, q.cs, E.F.Inverse(q.y), 1, 0) + (q.e * q.s1) * FoldedHi(E, q.cs, 1, 0)
                  - (q.e * q.e) * Sum(q.Size(), XCell(E, q.z, q.y, q.Size())))
  {
    hide Field.R, Field.Inverse, Weighted, Sum, GenCell, GiTerm, HiTerm, XCell, FoldedGi, FoldedHi, Pow2, GeneratorTerms, Scaled;
    var n := q.Size();
    GeneratorSection(E, q);
    FoldedAreSums(E, q);
    forall i | 0 <= i < n ensures E.F.R(GenCell(E, q)(i)) == E.F.R(GenParts(E, q)(i)) {
      GenCellParts(E, q, i);
    }
    E.F.SumC(n, GenCell(E, q), GenParts(E, q));
    LinearSum(n, GenParts(E, q), q.e * q.r1, GiTerm(E, q), q.e * q.s1, HiTerm(E, q), q.e * q.e, XCell(E, q.z, q.y, n));
  }

  lemma FoldedAreSums(E: Group, q: Equation)
    requires q.Size() == Pow2(|q.cs|)
    ensures FoldedGi(E, q.cs, E.F.Inverse(q.y), 1, 0) == Sum(q.Size(), GiTerm(E, q))
    ensures FoldedHi(E, q.cs, 1, 0) == Sum(q.Size(), HiTerm(E, q))
  {
  }

  // ---- The last round and the whole equation -----------------------------------------

  /** The scalars the prover is left with and the blinds of the last round. */
  datatype LastRound = LastRound(a: int, b: int, g: int, h: int, alpha: int, r: int, s: int, d: int, eta: int)

  /** r1·y·s1 = y(ae + r)(be + s), spread over the three commitments of the last round. */
  lemma LastRoundIdentity(f: LastRound, e: int, y: int, H: int)
    ensures e * (f.a * e + f.r) * f.g + e * (f.b * e + f.s) * f.h + ((f.a * e + f.r) * y * (f.b * e + f.s)) * H
            + (f.alpha * (e * e) + (f.d * e + f.eta))
         == (e * e) * (f.a * f.g + f.b * f.h + y * (f.a * f.b) * H + f.alpha)
            + e * (f.r * f.g + f.s * f.h + f.d + (f.r * y * f.b + f.s * y * f.a) * H)
            + (f.eta + f.r * y * f.s * H)
  {
    LastHPart(f, e, y, H);
    LastPointPart(e, f.a, f.r, f.g);
    LastPointPart(e, f.b, f.s, f.h);
    LastSpread(e, f.a * f.g + f.b * f.h, y * (f.a * f.b) * H, f.alpha,
               f.r * f.g + f.s * f.h, f.d, (f.r * y * f.b + f.s * y * f.a) * H);
    Distribute(e * e, f.a * f.g, f.b * f.h);
    Distribute(e, f.r * f.g, f.s * f.h);
    assert f.alpha * (e * e) == (e * e) * f.alpha && f.d * e == e * f.d;
  }

  lemma LastSpread(e: int, x: int, u: int, alpha: int, v: int, d: int, t: int)
    ensures (e * e) * (x + u + alpha) + e * (v + d + t)
         == (e * e) * x + (e * e) * u + (e * e) * alpha + e * v + e * d + e * t
  {
    Distribute(e * e, x + u, alpha);
    Distribute(e * e, x, u);
    Distribute(e, v + d, t);
    Distribute(e, v, d);
  }

  lemma LastPointPart(e: int, a: int, r: int, g: int)
    ensures e * (a * e + r) * g == (e * e) * (a * g) + e * (r * g)
  {
    assert e * (a * e + r) == (e * e) * a + e * r;
    assert ((e * e) * a + e * r) * g == ((e * e) * a) * g + (e * r) * g;
    Associate(e * e, a, g);
    Associate(e, r, g);
  }

  lemma LastHPart(f: LastRound, e: int, y: int, H: int)
    ensures ((f.a * e + f.r) * y * (f.b * e + f.s)) * H
         == (e * e) * (y * (f.a * f.b) * H) + e * ((f.r * y * f.b + f.s * y * f.a) * H) + f.r * y * f.s * H
  {
    var a, b, r, s := f.a, f.b, f.r, f.s;
    assert (a * e + r) * y * (b * e + s)
        == (e * e) * (y * (a * b)) + e * (r * y * b + s * y * a) + r * y * s by { LastCross(a, b, r, s, e, y); }
    var u, v, w := (e * e) * (y * (a * b)), e * (r * y * b + s * y * a), r * y * s;
    assert (u + v + w) * H == u * H + v * H + w * H;
    Associate(e * e, y * (a * b), H);
    Associate(e, r * y * b + s * y * a, H);
  }

  lemma LastCross(a: int, b: int, r: int, s: int, e: int, y: int)
    ensures (a * e + r) * y * (b * e + s) == (e * e) * (y * (a * b)) + e * (r * y * b + s * y * a) + r * y * s
  {
    assert (a * e + r) * y == (a * e) * y + r * y;
    var u, v := (a * e) * y, r * y;
    assert (u + v) * (b * e + s) == u * (b * e) + u * s + v * (b * e) + v * s;
    assert u * (b * e) == (e * e) * (y * (a * b));
    assert u * s == e * (s * y * a) && v * (b * e) == e * (r * y * b);
    Distribute(e, r * y * b, s * y * a);
  }

  /** What the last round leaves on the verifier's side, up to congruence. */
  lemma LastRoundCongruence(F: Field, f: LastRound, e: int, y: int, H: int, r1: int, s1: int, d1: int,
                            gs: int, hs: int, target: int, A18: int, B8: int)
    requires F.R(r1) == F.R(f.a * e + f.r) && F.R(s1) == F.R(f.b * e + f.s)
    requires F.R(d1) == F.R(f.alpha * (e * e) + (f.d * e + f.eta))
    requires F.R(f.g) == F.R(gs) && F.R(f.h) == F.R(hs)
    requires F.R(f.a * f.g + f.b * f.h + y * (f.a * f.b) * H + f.alpha) == F.R(target)
    requires F.R(A18) == F.R(f.r * f.g + f.s * f.h + f.d + (f.r * y * f.b + f.s * y * f.a) * H)
    requires F.R(B8) == F.R(f.eta + f.r * y * f.s * H)
    ensures F.R((e * r1) * gs + (e * s1) * hs + (r1 * y * s1) * H + d1) == F.R((e * e) * target + e * A18 + B8)
  {
    hide Field.R;
    var r', s' := f.a * e + f.r, f.b * e + f.s;
    LastRoundIdentity(f, e, y, H);
    F.ScaleC(e, r1, r');
    F.MulC(e * r1, e * r', gs, f.g);
    F.ScaleC(e, s1, s');
    F.MulC(e * s1, e * s', hs, f.h);
    F.MulC(r1, r', y, y);
    F.MulC(r1 * y, r' * y, s1, s');
    F.MulC(r1 * y * s1, r' * y * s', H, H);
    F.AddC((e * r1) * gs, e * r' * f.g, (e * s1) * hs, e * s' * f.h);
    F.AddC((e * r1) * gs + (e * s1) * hs, e * r' * f.g + e * s' * f.h, (r1 * y * s1) * H, (r' * y * s') * H);
    F.AddC((e * r1) * gs + (e * s1) * hs + (r1 * y * s1) * H, e * r' * f.g + e * s' * f.h + (r' * y * s') * H,
           d1, f.alpha * (e * e) + (f.d * e + f.eta));
    var P := f.a * f.g + f.b * f.h + y * (f.a * f.b) * H + f.alpha;
    var Q := f.r * f.g + f.s * f.h + f.d + (f.r * y * f.b + f.s * y * f.a) * H;
    Combine(F, e * e, P, target, e, Q, A18);
    F.AddC((e * e) * P + e * Q, (e * e) * target + e * A18, f.eta + f.r * y * f.s * H, B8);
  }

  lemma TotalShape(e2: int, e: int, Y1: int, vs: int, B8: int, A18: int, A8: int, rs: int, d1: int, z: int, ps: int, te: int,
                   rys: int, H: int, u: int, v: int, xs: int)
    ensures (-e2 * Y1) * vs + (-B8 - e * A18 - e2 * A8) + -e2 * rs
            + (d1 + (e2 * ((z * z - z) * ps + Y1 * z * te) + rys) * H) + (u + v - e2 * xs)
         == (u + v + rys * H + d1) - B8 - e * A18
            - e2 * (A8 + Y1 * vs + xs + H * ((z - z * z) * ps - (z * Y1) * te) + rs)
  {
    var k, hc := (z * z - z) * ps + Y1 * z * te, (z - z * z) * ps - (z * Y1) * te;
    assert k == -hc by {
      assert (z - z * z) * ps == -((z * z - z) * ps);
      assert Y1 * z * te == (z * Y1) * te;
    }
    assert (e2 * k + rys) * H == (e2 * k) * H + rys * H;
    assert (e2 * k) * H == -(e2 * (H * hc));
    assert (-e2 * Y1) * vs == -(e2 * (Y1 * vs));
    SpreadSum(e2, A8, Y1 * vs, xs, H * hc, rs);
  }

  lemma SpreadSum(c: int, p: int, q: int, r: int, s: int, t: int)
    ensures c * (p + q + r + s + t) == c * p + c * q + c * r + c * s + c * t
  {
    Distribute(c, p + q + r + s, t);
    Distribute(c, p + q + r, s);
    Distribute(c, p + q, r);
    Distribute(c, p, q);
  }

  /** The sections of the equation, added up. */
  lemma EquationTotal(E: Group, q: Equation, p: ProofPoints)
    requires |p.L8| == |p.R8| == |q.cs|
    ensures Weighted(EquationTerms(E, q, p))
         == (-(q.e * q.e) * Pow(q.y, q.Size() + 1)) * Sum(|p.V8|, ScaledV(p.V8, q.z))
            + (-p.B8.log - q.e * p.A18.log - (q.e * q.e) * p.A8.log)
            + -(q.e * q.e) * RoundSum(E.F, q.cs, p.L8, p.R8)
            + (q.d1 + HScalar(q) * E.H.log)
            + Weighted(GeneratorTerms(E, q, 2 * q.Size()))
  {
    hide Field.R, Pow, Sum, Weighted, CommitmentTerms, HeadTerms, RoundTerms, FixedTerms, GeneratorTerms, RoundSum, HScalar, ScaledV;
    CommitmentSection(q, p.V8);
    HeadSection(q, p);
    RoundSection(E.F, q, p);
    FixedSection(E, q);
    var a, b, c, d, g := CommitmentTerms(q, p.V8, |p.V8|), HeadTerms(q, p), RoundTerms(E.F, q, p, 2 * |q.cs|),
                         FixedTerms(E, q), GeneratorTerms(E, q, 2 * q.Size());
    WeightedConcat(a, b);
    WeightedConcat(a + b, c);
    WeightedConcat(a + b + c, d);
    WeightedConcat(a + b + c + d, g);
  }

  /**
   * Completeness as algebra. If the last round opens X + Σ c²·8L + c⁻²·8R, and X is what the
   * statement's commitments and A determine, then the multiscalar sum vanishes.
   */
  lemma EquationVanishes(E: Group, q: Equation, p: ProofPoints, f: LastRound, X: int)
    requires |p.L8| == |p.R8| == |q.cs| && q.Size() == Pow2(|q.cs|)
    requires E.F.R(q.y * E.F.Inverse(q.y)) == E.F.R(1)
    requires E.F.R(q.r1) == E.F.R(f.a * q.e + f.r) && E.F.R(q.s1) == E.F.R(f.b * q.e + f.s)
    requires E.F.R(q.d1) == E.F.R(f.alpha * (q.e * q.e) + (f.d * q.e + f.eta))
    requires E.F.R(f.g) == E.F.R(FoldedGi(E, q.cs, E.F.Inverse(q.y), 1, 0))
    requires E.F.R(f.h) == E.F.R(FoldedHi(E, q.cs, 1, 0))
    requires E.F.R(f.a * f.g + f.b * f.h + q.y * (f.a * f.b) * E.H.log + f.alpha) == E.F.R(X + RoundSum(E.F, q.cs, p.L8, p.R8))
    requires E.F.R(X) == E.F.R(p.A8.log + Pow(q.y, q.Size() + 1) * Sum(|p.V8|, ScaledV(p.V8, q.z))
                               + Sum(q.Size(), XCell(E, q.z, q.y, q.Size())) + E.H.log * HConstant(q.z, q.y, q.Size(), q.M))
    requires E.F.R(p.A18.log) == E.F.R(f.r * f.g + f.s * f.h + f.d + (f.r * q.y * f.b + f.s * q.y * f.a) * E.H.log)
    requires E.F.R(p.B8.log) == E.F.R(f.eta + f.r * q.y * f.s * E.H.log)
    ensures E.F.R(Weighted(EquationTerms(E, q, p))) == E.F.R(0)
  {
    hide Field.R, Field.Inverse, Pow, Sum, Weighted, EquationTerms, GeneratorTerms, RoundSum, ScaledV, XCell, FoldedGi, FoldedHi, PowerSum, EvenPowerSum, Pow2;
    var F, e, H := E.F, q.e, E.H.log;
    var gs, hs := FoldedGi(E, q.cs, F.Inverse(q.y), 1, 0), FoldedHi(E, q.cs, 1, 0);
    var vs, xs, rs := Sum(|p.V8|, ScaledV(p.V8, q.z)), Sum(q.Size(), XCell(E, q.z, q.y, q.Size())),
                      RoundSum(F, q.cs, p.L8, p.R8);
    var Y1, ps, te := Pow(q.y, q.Size() + 1), PowerSum(q.y, q.Size()), (TWO_64 - 1) * EvenPowerSum(q.z, q.M);
    EquationTotal(E, q, p);
    GeneratorTotal(E, q);
    LastRoundCongruence(F, f, e, q.y, H, q.r1, q.s1, q.d1, gs, hs, X + rs, p.A18.log, p.B8.log);
    VanishCongruence(F, e * e, e, Y1, vs, p.B8.log, p.A18.log, p.A8.log, rs, q.d1, q.z, ps, te, q.r1 * q.y * q.s1, H,
                     (e * q.r1) * gs, (e * q.s1) * hs, xs, X, Weighted(GeneratorTerms(E, q, 2 * q.Size())));
  }

  lemma VanishCongruence(F: Field, e2: int, e: int, Y1: int, vs: int, B8: int, A18: int, A8: int, rs: int, d1: int, z: int, ps: int, te: int,
                         rys: int, H: int, u: int, v: int, xs: int, X: int, w: int)
    requires F.R(w) == F.R(u + v - e2 * xs)
    requires F.R(u + v + rys * H + d1) == F.R(e2 * (X + rs) + e * A18 + B8)
    requires F.R(X) == F.R(A8 + Y1 * vs + xs + H * ((z - z * z) * ps - (z * Y1) * te))
    ensures F.R((-e2 * Y1) * vs + (-B8 - e * A18 - e2 * A8) + -e2 * rs
                + (d1 + (e2 * ((z * z - z) * ps + Y1 * z * te) + rys) * H) + w) == F.R(0)
  {
    hide Field.R;
    var front := (-e2 * Y1) * vs + (-B8 - e * A18 - e2 * A8) + -e2 * rs
                 + (d1 + (e2 * ((z * z - z) * ps + Y1 * z * te) + rys) * H);
    var Xs := A8 + Y1 * vs + xs + H * ((z - z * z) * ps - (z * Y1) * te);
    F.AddC(front, front, w, u + v - e2 * xs);
    TotalShape(e2, e, Y1, vs, B8, A18, A8, rs, d1, z, ps, te, rys, H, u, v, xs);
    F.AddC(X, Xs, rs, rs);
    F.ScaleC(e2, X + rs, Xs + rs);
    F.SubC(u + v + rys * H + d1, e2 * (X + rs) + e * A18 + B8, B8 + e * A18, B8 + e * A18);
    F.SubC(u + v + rys * H + d1 - (B8 + e * A18), e2 * (X + rs), e2 * (Xs + rs), e2 * (X + rs));
  }
}
