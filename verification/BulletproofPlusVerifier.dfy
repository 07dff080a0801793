/** `verifyBulletproofPlus`, loop by loop, against the closed-form equation of BulletproofPlusSpec. */
module BulletproofPlusVerifier {
  import opened Sums
  import opened Scalars
  import opened Curve
  import opened BulletproofPlusSpec
  import opened BulletproofPlusTables

  // ---- Lists of terms --------------------------------------------------------

  lemma SameConcat(E: Group, a: seq<Term>, a': seq<Term>, b: seq<Term>, b': seq<Term>)
    requires E.SameTerms(a, a') && E.SameTerms(b, b')
    ensures E.SameTerms(a + b, a' + b')
  {
    hide Field.R;
  }

  lemma CommitmentScalarNext(F: Field, q: Equation, j: nat, v: int, zSquared: int)
    requires F.R(v) == F.R(-(q.e * q.e) * Pow(q.y, q.Size() + 1) * Pow(q.z, 2 * j))
    requires F.R(zSquared) == F.R(q.z * q.z)
    ensures F.R(F.Mul(v, zSquared)) == F.R(CommitmentScalar(q, j))
  {
    var u := -(q.e * q.e) * Pow(q.y, q.Size() + 1);
    PowAdd(q.z, 2 * j, 2);
    WindowStart(q.z);
    hide Field.R, Pow;
    F.MulV(v, u * Pow(q.z, 2 * j), zSquared, q.z * q.z);
    Associate(u, Pow(q.z, 2 * j), q.z * q.z);
  }

  /** V_j: the coefficient picks up z² per output. bulletproofplus.ts:284-289. */
  method CommitmentPart(E: Group, ghost q: Equation, vStart: int, zSquared: int, V8: seq<Point>) returns (terms: seq<Term>)
    requires E.F.R(vStart) == E.F.R(-(q.e * q.e) * Pow(q.y, q.Size() + 1) * Pow(q.z, 0))
    requires E.F.R(zSquared) == E.F.R(q.z * q.z)
    ensures E.SameTerms(terms, CommitmentTerms(q, V8, |V8|))
  {
    terms := [];
    var vCoeff := vStart;
    hide Field.R, Field.Mul, Pow, CommitmentScalar;
    for j := 0 to |V8|
      invariant E.SameTerms(terms, CommitmentTerms(q, V8, j))
      invariant E.F.R(vCoeff) == if j == 0 then E.F.R(-(q.e * q.e) * Pow(q.y, q.Size() + 1) * Pow(q.z, 0))
                                 else E.F.R(CommitmentScalar(q, j - 1))
    {
      CommitmentUnfold(E.F, q, j, vCoeff);
      CommitmentScalarNext(E.F, q, j, vCoeff, zSquared);
      vCoeff := E.F.Mul(vCoeff, zSquared);
      terms := terms + [Term(vCoeff, V8[j])];
    }
  }

  lemma CommitmentUnfold(F: Field, q: Equation, j: nat, v: int)
    requires F.R(v) == if j == 0 then F.R(-(q.e * q.e) * Pow(q.y, q.Size() + 1) * Pow(q.z, 0))
                       else F.R(CommitmentScalar(q, j - 1))
    ensures F.R(v) == F.R(-(q.e * q.e) * Pow(q.y, q.Size() + 1) * Pow(q.z, 2 * j))
  {
    hide Pow, Field.R;
    if j > 0 { assert 2 * (j - 1 + 1) == 2 * j; }
  }

  /** L_j and R_j: the squared challenges and inverses. bulletproofplus.ts:348-352. */
  method RoundPart(E: Group, ghost q: Equation, ghost p: ProofPoints, challenges: seq<int>, challengesInv: seq<int>,
                   minusESquared: int, L8: seq<Point>, R8: seq<Point>) returns (terms: seq<Term>)
    requires q.cs == challenges && p.L8 == L8 && p.R8 == R8
    requires |challenges| == |challengesInv| == |L8| == |R8|
    requires forall j :: 0 <= j < |challenges| ==> challengesInv[j] == E.F.Inverse(challenges[j])
    requires E.F.R(minusESquared) == E.F.R(-(q.e * q.e))
    ensures E.SameTerms(terms, RoundTerms(E.F, q, p, 2 * |challenges|))
  {
    var F := E.F;
    terms := [];
    hide Field.R, Field.Mul, Field.Inverse, RoundScalar;
    for j := 0 to |challenges|
      invariant E.SameTerms(terms, RoundTerms(F, q, p, 2 * j))
    {
      SquareScalar(F, challenges[j], minusESquared, -(q.e * q.e));
      SquareScalar(F, challengesInv[j], minusESquared, -(q.e * q.e));
      RoundScalars(F, q, j);
      terms := terms + [Term(F.Mul(F.Mul(challenges[j], challenges[j]), minusESquared), L8[j])];
      terms := terms + [Term(F.Mul(F.Mul(challengesInv[j], challengesInv[j]), minusESquared), R8[j])];
      assert (2 * j + 1) / 2 == j;
    }
  }

  lemma SquareScalar(F: Field, c: int, s: int, s': int)
    requires F.R(s) == F.R(s')
    ensures F.R(F.Mul(F.Mul(c, c), s)) == F.R(s' * (c * c))
  {
    hide Field.R;
    F.MulV(c, c, c, c);
    F.MulV(F.Mul(c, c), c * c, s, s');
    assert (c * c) * s' == s' * (c * c);
  }

  lemma RoundScalars(F: Field, q: Equation, j: nat)
    requires j < |q.cs|
    ensures RoundScalar(F, q, 2 * j) == -(q.e * q.e) * (q.cs[j] * q.cs[j])
    ensures RoundScalar(F, q, 2 * j + 1) == -(q.e * q.e) * (F.Inverse(q.cs[j]) * F.Inverse(q.cs[j]))
  {
    hide Field.R, Field.Inverse;
    assert (2 * j) / 2 == j && (2 * j + 1) / 2 == j && (2 * j + 1) % 2 == 1;
  }

  // ---- Generator scalars -------------------------------------------------------

  lemma GiCongruence(F: Field, q: Equation, i: nat, running: int, w: int, ez: int)
    requires F.R(running) == F.R(q.e * q.r1 * Pow(F.Inverse(q.y), i))
    requires F.R(w) == F.R(Weight(F, q.cs, i)) && F.R(ez) == F.R(q.e * q.e * q.z)
    ensures F.R(F.Add(0, F.MulAdd(running, w, ez))) == F.R(GiScalar(F, q, i))
  {
    hide Field.R, Field.Inverse, Pow, Weight;
    var a, b, c := q.e * q.r1 * Pow(F.Inverse(q.y), i), Weight(F, q.cs, i), q.e * q.e * q.z;
    F.MulAddV(running, a, w, b, ez, c);
    F.AddV(0, 0, F.MulAdd(running, w, ez), a * b + c);
  }

  lemma HiCongruence(F: Field, q: Equation, i: nat, es: int, w: int, mez: int, running: int, d: int)
    requires i < q.Size()
    requires F.R(es) == F.R(q.e * q.s1) && F.R(w) == F.R(Weight(F, q.cs, q.Size() - 1 - i))
    requires F.R(mez) == F.R(0 - q.e * q.e * q.z)
    requires F.R(running) == F.R(-(q.e * q.e) * Pow(q.y, q.Size()) * Pow(F.Inverse(q.y), i))
    requires F.R(d) == F.R(Window(q.z, i))
    ensures F.R(F.Add(0, F.MulAdd(running, d, F.MulAdd(es, w, mez)))) == F.R(HiScalar(F, q, i))
  {
    hide Field.R, Field.Inverse, Pow, Weight, Window;
    var a, b, c := q.e * q.s1, Weight(F, q.cs, q.Size() - 1 - i), 0 - q.e * q.e * q.z;
    var Y, p, u := Pow(q.y, q.Size()), Pow(F.Inverse(q.y), i), Window(q.z, i);
    var r := -(q.e * q.e) * Y * p;
    F.MulAddV(es, a, w, b, mez, c);
    F.MulAddV(running, r, d, u, F.MulAdd(es, w, mez), a * b + c);
    F.AddV(0, 0, F.MulAdd(running, d, F.MulAdd(es, w, mez)), r * u + (a * b + c));
    HiShape(q.e * q.e, Y, p, u, a * b, q.e * q.e * q.z);
  }

  lemma HiShape(e2: int, Y: int, p: int, u: int, ab: int, ez: int)
    ensures (-e2 * Y * p) * u + (ab + (0 - ez)) == ab - ez - e2 * Y * p * u
  {
    assert (-e2 * Y * p) * u == -(e2 * Y * p * u);
  }

  lemma RunningNext(F: Field, a: int, x: int, i: nat, running: int, x': int)
    requires F.R(running) == F.R(a * Pow(x, i)) && F.R(x') == F.R(x)
    ensures F.R(F.Mul(running, x')) == F.R(a * Pow(x, i + 1))
  {
    F.MulV(running, a * Pow(x, i), x', x);
    var p := Pow(x, i);
    assert Pow(x, i + 1) == x * p;
    hide Field.R, Pow;
    Associate(a, p, x);
    assert p * x == x * p;
  }

  /** The generators' coefficients, filled in place. bulletproofplus.ts:329-346. */
  method GeneratorScalars(F: Field, ghost q: Equation, cache: array<int>, d: array<int>,
                          e: int, r1: int, s1: int, z: int, eSquared: int, yMN: int, yinv: int)
    returns (giScalars: array<int>, hiScalars: array<int>)
    requires e == q.e && r1 == q.r1 && s1 == q.s1 && z == q.z && yinv == F.Inverse(q.y)
    requires F.R(eSquared) == F.R(e * e) && F.R(yMN) == F.R(Pow(q.y, q.Size()))
    requires cache.Length == d.Length == q.Size()
    requires forall i :: 0 <= i < cache.Length ==> F.R(cache[i]) == F.R(Weight(F, q.cs, i))
    requires forall i :: 0 <= i < d.Length ==> F.R(d[i]) == F.R(Window(z, i))
    ensures fresh(giScalars) && fresh(hiScalars) && giScalars.Length == hiScalars.Length == q.Size()
    ensures forall i :: 0 <= i < q.Size() ==> F.R(giScalars[i]) == F.R(GiScalar(F, q, i))
    ensures forall i :: 0 <= i < q.Size() ==> F.R(hiScalars[i]) == F.R(HiScalar(F, q, i))
  {
    var MN := cache.Length;
    giScalars := new int[MN](_ => 0);
    hiScalars := new int[MN](_ => 0);
    var weight := 1;
    var eR1WY := F.Mul(F.Mul(e, r1), weight);
    var eS1W := F.Mul(F.Mul(e, s1), weight);
    var eSquaredZW := F.Mul(F.Mul(eSquared, z), weight);
    var minusESquaredZW := F.Sub(0, eSquaredZW);
    var minusESquaredWY := F.Mul(F.Mul(F.Sub(0, eSquared), weight), yMN);
    GeneratorStarts(F, q, eSquared, yMN);
    hide Field.R, Field.Mul, Field.MulAdd, Field.Add, Field.Sub, Field.Inverse, Pow, Weight, Window, GiScalar, HiScalar;
    for i := 0 to MN
      invariant F.R(eR1WY) == F.R(q.e * q.r1 * Pow(yinv, i))
      invariant F.R(minusESquaredWY) == F.R(-(q.e * q.e) * Pow(q.y, q.Size()) * Pow(yinv, i))
      invariant forall t :: i <= t < MN ==> giScalars[t] == 0 && hiScalars[t] == 0
      invariant forall t :: 0 <= t < i ==> F.R(giScalars[t]) == F.R(GiScalar(F, q, t))
      invariant forall t :: 0 <= t < i ==> F.R(hiScalars[t]) == F.R(HiScalar(F, q, t))
    {
      var g := F.MulAdd(eR1WY, cache[i], eSquaredZW);
      GiCongruence(F, q, i, eR1WY, cache[i], eSquaredZW);
      giScalars[i] := F.Add(giScalars[i], g);
      var other := MN - 1 - i;   // (~i) & (MN - 1), for MN a power of two
      var h := F.MulAdd(eS1W, cache[other], minusESquaredZW);
      HiCongruence(F, q, i, eS1W, cache[other], minusESquaredZW, minusESquaredWY, d[i]);
      h := F.MulAdd(minusESquaredWY, d[i], h);
      hiScalars[i] := F.Add(hiScalars[i], h);
      RunningNext(F, q.e * q.r1, yinv, i, eR1WY, yinv);
      RunningNext(F, -(q.e * q.e) * Pow(q.y, q.Size()), yinv, i, minusESquaredWY, yinv);
      eR1WY := F.Mul(eR1WY, yinv);
      minusESquaredWY := F.Mul(minusESquaredWY, yinv);
    }
  }

  lemma GeneratorStarts(F: Field, q: Equation, eSquared: int, yMN: int)
    requires F.R(eSquared) == F.R(q.e * q.e) && F.R(yMN) == F.R(Pow(q.y, q.Size()))
    ensures F.R(F.Mul(F.Mul(q.e, q.r1), 1)) == F.R(q.e * q.r1 * Pow(F.Inverse(q.y), 0))
    ensures F.R(F.Mul(F.Mul(q.e, q.s1), 1)) == F.R(q.e * q.s1)
    ensures F.R(F.Mul(F.Mul(eSquared, q.z), 1)) == F.R(q.e * q.e * q.z)
    ensures F.R(F.Sub(0, F.Mul(F.Mul(eSquared, q.z), 1))) == F.R(0 - q.e * q.e * q.z)
    ensures F.R(F.Mul(F.Mul(F.Sub(0, eSquared), 1), yMN))
         == F.R(-(q.e * q.e) * Pow(q.y, q.Size()) * Pow(F.Inverse(q.y), 0))
  {
    assert Pow(F.Inverse(q.y), 0) == 1;
    var Y := Pow(q.y, q.Size());
    hide Field.R, Field.Inverse, Pow;
    ByOne(F, q.e, q.e, q.r1);
    ByOne(F, q.e, q.e, q.s1);
    ByOne(F, eSquared, q.e * q.e, q.z);
    F.SubV(0, 0, F.Mul(F.Mul(eSquared, q.z), 1), q.e * q.e * q.z);
    F.SubV(0, 0, eSquared, q.e * q.e);
    F.MulV(F.Sub(0, eSquared), 0 - q.e * q.e, 1, 1);
    F.MulV(F.Mul(F.Sub(0, eSquared), 1), (0 - q.e * q.e) * 1, yMN, Y);
  }

  lemma ByOne(F: Field, a: int, a': int, b: int)
    requires F.R(a) == F.R(a')
    ensures F.R(F.Mul(F.Mul(a, b), 1)) == F.R(a' * b)
  {
    hide Field.R;
    F.MulV(a, a', b, b);
    F.MulV(F.Mul(a, b), a' * b, 1, 1);
  }

  /** Gi and Hi, interleaved. bulletproofplus.ts:357-360. */
  method GeneratorPart(E: Group, ghost q: Equation, giScalars: array<int>, hiScalars: array<int>) returns (terms: seq<Term>)
    requires giScalars.Length == hiScalars.Length == q.Size()
    requires forall i :: 0 <= i < q.Size() ==> E.F.R(giScalars[i]) == E.F.R(GiScalar(E.F, q, i))
    requires forall i :: 0 <= i < q.Size() ==> E.F.R(hiScalars[i]) == E.F.R(HiScalar(E.F, q, i))
    ensures E.SameTerms(terms, GeneratorTerms(E, q, 2 * q.Size()))
  {
    terms := [];
    hide Field.R, GiScalar, HiScalar;
    for i := 0 to giScalars.Length
      invariant E.SameTerms(terms, GeneratorTerms(E, q, 2 * i))
    {
      terms := terms + [Term(giScalars[i], E.gi(i))];
      terms := terms + [Term(hiScalars[i], E.hi(i))];
      assert (2 * i + 1) / 2 == i;
    }
  }

  // ---- H ---------------------------------------------------------------------

  /** The coefficient of H. bulletproofplus.ts:308-315. */
  method HCoefficient(F: Field, ghost q: Equation, ghost logM: nat, y: int, z: int, M: nat, r1: int, s1: int,
                      zSquared: int, eSquared: int, yMN1: int) returns (hScalar: int)
    requires y == q.y && z == q.z && M == q.M && r1 == q.r1 && s1 == q.s1 && M == Pow2(logM)
    requires F.R(zSquared) == F.R(z * z) && F.R(eSquared) == F.R(q.e * q.e)
    requires F.R(yMN1) == F.R(Pow(y, q.Size() + 1))
    ensures F.R(hScalar) == F.R(HScalar(q))
  {
    var twoTo64 := TwoTo64MinusOne(F);
    var even := SumOfEvenPowers(F, z, 2 * M, logM + 1);
    var sumD := F.Mul(twoTo64, even);
    var sumY := SumOfScalarPowers(F, y, 64 * M);
    var hInner := F.Mul(F.Sub(zSquared, z), sumY);
    hInner := F.Add(hInner, F.Mul(F.Mul(yMN1, z), sumD));
    hInner := F.Mul(hInner, eSquared);
    hInner := F.Add(hInner, F.Mul(F.Mul(r1, y), s1));
    hScalar := F.Mul(hInner, 1);
    assert 2 * M / 2 == M;
    HCongruence(F, q, zSquared, eSquared, yMN1, twoTo64, even, sumY);
  }

  lemma HCongruence(F: Field, q: Equation, zSquared: int, eSquared: int, yMN1: int, twoTo64: int, even: int, sumY: int)
    requires F.R(zSquared) == F.R(q.z * q.z) && F.R(eSquared) == F.R(q.e * q.e)
    requires F.R(yMN1) == F.R(Pow(q.y, q.Size() + 1))
    requires F.R(twoTo64) == F.R(TWO_64 - 1) && F.R(even) == F.R(EvenPowerSum(q.z, q.M))
    requires F.R(sumY) == F.R(PowerSum(q.y, q.Size()))
    ensures F.R(F.Mul(F.Add(F.Mul(F.Add(F.Mul(F.Sub(zSquared, q.z), sumY),
                                        F.Mul(F.Mul(yMN1, q.z), F.Mul(twoTo64, even))), eSquared),
                            F.Mul(F.Mul(q.r1, q.y), q.s1)), 1))
         == F.R(HScalar(q))
  {
    hide Field.R, Pow, EvenPowerSum, PowerSum;
    var z, Y1, T, ev, sy := q.z, Pow(q.y, q.Size() + 1), TWO_64 - 1, EvenPowerSum(q.z, q.M), PowerSum(q.y, q.Size());
    var e2 := q.e * q.e;
    F.SubV(zSquared, z * z, z, z);
    F.MulV(F.Sub(zSquared, z), z * z - z, sumY, sy);
    F.MulV(yMN1, Y1, z, z);
    F.MulV(twoTo64, T, even, ev);
    F.MulV(F.Mul(yMN1, z), Y1 * z, F.Mul(twoTo64, even), T * ev);
    var u, u' := F.Mul(F.Sub(zSquared, z), sumY), (z * z - z) * sy;
    var v, v' := F.Mul(F.Mul(yMN1, z), F.Mul(twoTo64, even)), (Y1 * z) * (T * ev);
    var t := F.Mul(F.Mul(q.r1, q.y), q.s1);
    F.MulV(q.r1, q.r1, q.y, q.y);
    F.MulV(F.Mul(q.r1, q.y), q.r1 * q.y, q.s1, q.s1);
    HTail(F, u, u', v, v', eSquared, e2, t, q.r1 * q.y * q.s1);
  }

  lemma HTail(F: Field, u: int, u': int, v: int, v': int, e2: int, e2': int, t: int, t': int)
    requires F.R(u) == F.R(u') && F.R(v) == F.R(v') && F.R(e2) == F.R(e2') && F.R(t) == F.R(t')
    ensures F.R(F.Mul(F.Add(F.Mul(F.Add(u, v), e2), t), 1)) == F.R(e2' * (u' + v') + t')
  {
    hide Field.R;
    F.AddV(u, u', v, v');
    F.MulV(F.Add(u, v), u' + v', e2, e2');
    F.AddV(F.Mul(F.Add(u, v), e2), (u' + v') * e2', t, t');
    F.MulV(F.Add(F.Mul(F.Add(u, v), e2), t), (u' + v') * e2' + t', 1, 1);
    assert (u' + v') * e2' == e2' * (u' + v');
  }

  // ---- The verifier ------------------------------------------------------------

  /** The smallest logM with 2^logM >= nV, giving up once 2^logM passes MAX_M. bulletproofplus.ts:252-254. */
  method PadLogOf(nV: nat) returns (logM: nat, M: nat)
    ensures logM == PadLog(nV) && M == Pow2(logM)
  {
    logM, M := 0, 1;
    PadLogTable();
    while M <= MAX_M && M < nV
      invariant logM <= PadLog(nV) && M == Pow2(logM)
      decreases 5 - logM
    {
      logM, M := logM + 1, 2 * M;
    }
  }

  lemma PadLogTable()
    ensures Pow2(0) == 1 && Pow2(1) == 2 && Pow2(2) == 4 && Pow2(3) == 8 && Pow2(4) == 16 && Pow2(5) == 32
  {
    assert Pow2(2) == 2 * Pow2(1);
    assert Pow2(4) == 2 * Pow2(3);
    assert Pow2(5) == 2 * Pow2(4);
  }

  method DecodeAll(points: seq<PointBytes>) returns (ok: bool, decoded: seq<Point>)
    ensures ok <==> AllDecode(points)
    ensures ok ==> decoded == Decoded(points)
  {
    ok, decoded := true, [];
    for i := 0 to |points|
      invariant AllDecode(points[..i]) && |decoded| == i
      invariant forall k :: 0 <= k < i ==> decoded[k] == points[k].point
    {
      if points[i].Undecodable? {
        return false, [];
      }
      decoded := decoded + [points[i].point];
    }
    assert points[..|points|] == points;
  }

  method MultiplyAll(E: Group, s: int, points: seq<Point>) returns (r: seq<Point>)
    ensures |r| == |points| && forall i :: 0 <= i < |r| ==> r[i] == E.Times(s, points[i])
  {
    r := [];
    for i := 0 to |points|
      invariant |r| == i && forall k :: 0 <= k < i ==> r[k] == E.Times(s, points[k])
    {
      r := r + [E.Times(s, points[i])];
    }
  }

  method EncodeAll(points: seq<Point>) returns (r: seq<PointBytes>)
    ensures |r| == |points| && forall i :: 0 <= i < |r| ==> r[i] == Encodes(points[i])
  {
    r := [];
    for i := 0 to |points|
      invariant |r| == i && forall k :: 0 <= k < i ==> r[k] == Encodes(points[k])
    {
      r := r + [Encodes(points[i])];
    }
  }

  /** The inner-product challenges, refusing at the first zero. bulletproofplus.ts:260-266. */
  method ReplayRounds(E: Group, z: nat, L: seq<PointBytes>, R: seq<PointBytes>, rounds: nat)
    returns (ok: bool, challenges: seq<int>, last: nat)
    requires rounds <= |L| && rounds <= |R|
    ensures ok <==> forall j :: 0 <= j < rounds ==> Challenges(E, z, L, R, rounds)[j] != 0
    ensures ok ==> challenges == Challenges(E, z, L, R, rounds) && last == Chain(E, z, L, R, rounds)
  {
    ok, challenges, last := true, [], z;
    hide Field.R;
    for j := 0 to rounds
      invariant last == Chain(E, z, L, R, j)
      invariant challenges == Challenges(E, z, L, R, j)
      invariant forall k :: 0 <= k < j ==> challenges[k] != 0
    {
      last := E.HashToScalar([ScalarChunk(last), PointChunk(L[j]), PointChunk(R[j])]);
      assert last == Chain(E, z, L, R, j + 1);
      if last == 0 {
        assert Challenges(E, z, L, R, rounds)[j] == 0;
        return false, [], 0;
      }
      challenges := challenges + [last];
    }
  }

  method InvertAll(F: Field, cs: seq<int>) returns (r: seq<int>)
    requires F.L > 2
    ensures |r| == |cs| && forall j :: 0 <= j < |cs| ==> r[j] == F.Inverse(cs[j])
  {
    r := [];
    for j := 0 to |cs|
      invariant |r| == j && forall k :: 0 <= k < j ==> r[k] == F.Inverse(cs[k])
    {
      var c := Inv(F, cs[j]);
      r := r + [c];
    }
  }

  /** The left-hand side of the equation, as the point the verifier tests against the identity. */
  method EvaluateEquation(E: Group, ghost q: Equation, logM: nat, M: nat, y: int, z: int, challenges: seq<int>, e: int,
                          r1: int, s1: int, d1: int, p: ProofPoints) returns (acc: Point)
    requires E.F.L > 2
    requires M == Pow2(logM) && |challenges| == logM + LOG_N && q == Equation(M, y, z, challenges, e, r1, s1, d1)
    requires |p.L8| == |p.R8| == |challenges|
    ensures acc == E.Total(EquationTerms(E, q, p))
  {
    var F := E.F;
    var eSquared := F.Mul(e, e);
    var zSquared := F.Mul(z, z);
    F.MulV(e, e, e, e);
    F.MulV(z, z, z, z);
    var yinv := Inv(F, y);
    var challengesInv := InvertAll(F, challenges);
    SizeIsPower(logM);
    var yMN := PowerByDoubling(F, y, 64 * M, logM + 6);
    var yMN1 := F.Mul(yMN, y);
    HeadCongruences(F, q, eSquared, yMN);

    var vTerms := CommitmentPart(E, q, F.Mul(F.Mul(F.Sub(0, eSquared), yMN1), 1), zSquared, p.V8);
    var minusOne := F.Mul(F.Sub(0, 1), 1);
    var minusE := F.Mul(minusOne, e);
    var minusESquared := F.Mul(minusE, e);
    var headTerms := [Term(minusOne, p.B8), Term(minusE, p.A18), Term(minusESquared, p.A8)];
    assert E.SameTerms(headTerms, HeadTerms(q, p)) by { hide Field.R, Field.Mul, Field.Sub; }

    var d := WindowByAddition(F, z, zSquared, M);
    var hScalar := HCoefficient(F, q, logM, y, z, M, r1, s1, zSquared, eSquared, yMN1);
    var cache := ChallengeProducts(F, challenges, challengesInv);
    var giScalars, hiScalars := GeneratorScalars(F, q, cache, d, e, r1, s1, z, eSquared, yMN, yinv);
    var roundTerms := RoundPart(E, q, p, challenges, challengesInv, minusESquared, p.L8, p.R8);
    var fixedTerms := [Term(F.Mul(1, d1), BASE), Term(hScalar, E.H)];
    F.MulV(1, 1, d1, d1);
    assert E.SameTerms(fixedTerms, FixedTerms(E, q)) by { hide Field.R, Field.Mul, HScalar; }
    var generatorTerms := GeneratorPart(E, q, giScalars, hiScalars);

    hide *;
    SameConcat(E, vTerms, CommitmentTerms(q, p.V8, |p.V8|), headTerms, HeadTerms(q, p));
    SameConcat(E, vTerms + headTerms, CommitmentTerms(q, p.V8, |p.V8|) + HeadTerms(q, p),
               roundTerms, RoundTerms(F, q, p, 2 * |challenges|));
    SameConcat(E, vTerms + headTerms + roundTerms,
               CommitmentTerms(q, p.V8, |p.V8|) + HeadTerms(q, p) + RoundTerms(F, q, p, 2 * |challenges|),
               fixedTerms, FixedTerms(E, q));
    acc := CloseEquation(E, q, p, vTerms + headTerms + roundTerms + fixedTerms, generatorTerms);
  }

  method CloseEquation(E: Group, ghost q: Equation, ghost p: ProofPoints, front: seq<Term>, back: seq<Term>) returns (acc: Point)
    requires |p.L8| == |p.R8| == |q.cs|
    requires E.SameTerms(front, CommitmentTerms(q, p.V8, |p.V8|) + HeadTerms(q, p) + RoundTerms(E.F, q, p, 2 * |q.cs|)
                                + FixedTerms(E, q))
    requires E.SameTerms(back, GeneratorTerms(E, q, 2 * q.Size()))
    ensures acc == E.Total(EquationTerms(E, q, p))
  {
    hide CommitmentTerms, HeadTerms, RoundTerms, FixedTerms, GeneratorTerms, Group.SameTerms;
    SameConcat(E, front, CommitmentTerms(q, p.V8, |p.V8|) + HeadTerms(q, p) + RoundTerms(E.F, q, p, 2 * |q.cs|)
                         + FixedTerms(E, q), back, GeneratorTerms(E, q, 2 * q.Size()));
    E.TotalC(front + back, EquationTerms(E, q, p));
    acc := MultiscalarSum(E, front + back);
  }

  lemma SizeIsPower(logM: nat)
    ensures 64 * Pow2(logM) == Pow2(logM + 6)
  {
    assert Pow2(logM + 6) == 2 * Pow2(logM + 5);
    assert Pow2(logM + 4) == 2 * Pow2(logM + 3);
    assert Pow2(logM + 2) == 2 * Pow2(logM + 1);
  }

  lemma HeadCongruences(F: Field, q: Equation, eSquared: int, yMN: int)
    requires F.R(eSquared) == F.R(q.e * q.e) && F.R(yMN) == F.R(Pow(q.y, q.Size()))
    ensures F.R(F.Mul(yMN, q.y)) == F.R(Pow(q.y, q.Size() + 1))
    ensures F.R(F.Mul(F.Mul(F.Sub(0, eSquared), F.Mul(yMN, q.y)), 1))
         == F.R(-(q.e * q.e) * Pow(q.y, q.Size() + 1) * Pow(q.z, 0))
    ensures F.R(F.Mul(F.Sub(0, 1), 1)) == F.R(-1)
    ensures F.R(F.Mul(F.Mul(F.Sub(0, 1), 1), q.e)) == F.R(-q.e)
    ensures F.R(F.Mul(F.Mul(F.Mul(F.Sub(0, 1), 1), q.e), q.e)) == F.R(-(q.e * q.e))
  {
    var Y := Pow(q.y, q.Size());
    assert Pow(q.y, q.Size() + 1) == q.y * Y && Pow(q.z, 0) == 1;
    hide Field.R, Pow;
    F.MulV(yMN, Y, q.y, q.y);
    assert Y * q.y == q.y * Y;
    F.SubV(0, 0, eSquared, q.e * q.e);
    F.MulV(F.Sub(0, eSquared), 0 - q.e * q.e, F.Mul(yMN, q.y), q.y * Y);
    F.MulV(F.Mul(F.Sub(0, eSquared), F.Mul(yMN, q.y)), (0 - q.e * q.e) * (q.y * Y), 1, 1);
    MinusOnes(F, q.e);
  }

  lemma MinusOnes(F: Field, e: int)
    ensures F.R(F.Mul(F.Sub(0, 1), 1)) == F.R(-1)
    ensures F.R(F.Mul(F.Mul(F.Sub(0, 1), 1), e)) == F.R(-e)
    ensures F.R(F.Mul(F.Mul(F.Mul(F.Sub(0, 1), 1), e), e)) == F.R(-(e * e))
  {
    hide Field.R;
    F.SubV(0, 0, 1, 1);
    F.MulV(F.Sub(0, 1), -1, 1, 1);
    F.MulV(F.Mul(F.Sub(0, 1), 1), -1, e, e);
    F.MulV(F.Mul(F.Mul(F.Sub(0, 1), 1), e), (-1) * e, e, e);
    assert ((-1) * e) * e == -(e * e);
  }

  /**
   * `verifyBulletproofPlus`: true exactly for the proofs that satisfy the closed-form equation,
   * and false rather than an exception for everything malformed. bulletproofplus.ts:217-372.
   */
  method VerifyBulletproofPlus(E: Group, commitments: seq<PointBytes>, proof: BulletproofPlus) returns (ok: bool)
    requires E.Valid()
    ensures ok <==> Accepts(E, commitments, proof)
  {
    hide Field.R, Group.Times, Group.Total, Group.HashToScalar, EquationTerms, Chain, PadLog, Pow2;
    assert E.F.L > 2;
    var F := E.F;
    var nV := |commitments|;
    if nV < 1 { return false; }
    if |proof.L| != |proof.R| || |proof.L| == 0 { return false; }

    var decodes, V8 := DecodeAll(commitments);
    if !decodes { return false; }
    var inv8 := Inv(F, 8);
    var offset := MultiplyAll(E, inv8, V8);
    var Vwire := EncodeAll(offset);
    assert Vwire == Offset(E, commitments);

    if proof.A.Undecodable? || proof.A1.Undecodable? || proof.B.Undecodable? { return false; }
    var A8, A18, B8 := E.Times(8, proof.A.point), E.Times(8, proof.A1.point), E.Times(8, proof.B.point);
    var lDecodes, Lpoints := DecodeAll(proof.L);
    if !lDecodes { return false; }
    var L8 := MultiplyAll(E, 8, Lpoints);
    var rDecodes, Rpoints := DecodeAll(proof.R);
    if !rDecodes { return false; }
    var R8 := MultiplyAll(E, 8, Rpoints);
    var r1, s1, d1 := F.R(proof.r1), F.R(proof.s1), F.R(proof.d1);

    var start := E.HashToScalar([E.initialTranscript, ScalarChunk(E.HashToScalar(PointChunks(Vwire)))]);
    var y := E.HashToScalar([ScalarChunk(start), PointChunk(proof.A)]);
    var z := E.HashToScalar([ScalarChunk(y)]);

    var logM, M := PadLogOf(nV);
    if |proof.L| != LOG_N + logM { return false; }
    var rounds := logM + LOG_N;
    ghost var q := EquationOf(E, commitments, proof);
    assert q.y == y && q.z == z;
    if y == 0 || z == 0 { return false; }
    var nonzero, challenges, last := ReplayRounds(E, z, proof.L, proof.R, rounds);
    if !nonzero { return false; }
    var e := E.HashToScalar([ScalarChunk(last), PointChunk(proof.A1), PointChunk(proof.B)]);
    if e == 0 { return false; }

    assert q == Equation(M, y, z, challenges, e, r1, s1, d1);
    assert L8 == TimesEight(E, proof.L) && R8 == TimesEight(E, proof.R);
    var p := ProofPoints(V8, A8, A18, B8, L8, R8);
    assert p == PointsOf(E, commitments, proof);
    var acc := EvaluateEquation(E, q, logM, M, y, z, challenges, e, r1, s1, d1, p);
    ok := acc == ZERO;
  }
}
