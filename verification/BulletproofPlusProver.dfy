/** `proveBulletproofPlus`: the prover's loops, kept in step with the algebra they stand for. */
module BulletproofPlusProver {
  import opened Sums
  import opened Scalars
  import opened Curve
  import opened InnerProduct
  import opened BulletproofPlusSpec
  import opened BulletproofPlusTables
  import opened BulletproofPlusAlgebra
  import opened BulletproofPlusOpening
  import opened BulletproofPlusClosing
  import opened BulletproofPlusHonest

  // ---- Sums carried at 8⁻¹ ----------------------------------------------------

  /** The same points with scalars an eighth of us. */
  ghost predicate Eighths(F: Field, ts: seq<Term>, us: seq<Term>, inv8: int) {
    && |ts| == |us|
    && forall i :: 0 <= i < |ts| ==> ts[i].point == us[i].point && F.R(ts[i].scalar) == F.R(us[i].scalar * inv8)
  }

  lemma {:induction false} EighthsWeighted(F: Field, ts: seq<Term>, us: seq<Term>, inv8: int)
    requires Eighths(F, ts, us, inv8)
    ensures F.R(Weighted(ts)) == F.R(inv8 * Weighted(us))
  {
    hide Field.R;
    if ts != [] {
      var k := |ts| - 1;
      EighthsWeighted(F, ts[..k], us[..k], inv8);
      var s, t, p := ts[k].scalar, us[k].scalar, ts[k].point.log;
      F.MulC(s, t * inv8, p, p);
      assert (t * inv8) * p == inv8 * (t * p);
      F.AddC(Weighted(ts[..k]), inv8 * Weighted(us[..k]), s * p, inv8 * (t * p));
      Distribute(inv8, Weighted(us[..k]), t * p);
    }
  }

  /** Multiplying by 8 lands a sum carried at 8⁻¹ where the equation wants it. */
  lemma EighthTotal(E: Group, ts: seq<Term>, us: seq<Term>, inv8: int)
    requires Eighths(E.F, ts, us, inv8) && E.AllTorsionFree(us)
    requires E.F.R(8 * inv8) == E.F.R(1)
    ensures E.TorsionFree(E.Total(ts))
    ensures E.F.R(8 * E.Total(ts).log) == E.F.R(Weighted(us))
  {
    assert E.AllTorsionFree(ts) by {
      forall t | t in ts ensures E.TorsionFree(t.point) {
        var i :| 0 <= i < |ts| && ts[i] == t;
        assert us[i] in us;
      }
    }
    var F := E.F;
    hide Field.R, Weighted, Eighths, Group.AllTorsionFree, Group.Total;
    E.TotalLog(ts);
    EighthsWeighted(F, ts, us, inv8);
    F.Idem(Weighted(ts));
    F.MulC(8, 8, E.Total(ts).log, inv8 * Weighted(us));
    Associate(8, inv8, Weighted(us));
    F.Cancel(8, inv8, Weighted(us));
  }

  ghost function Logs(P: seq<Point>): (s: seq<int>)
    ensures |s| == |P|
  {
    seq(|P|, i requires 0 <= i < |P| => P[i].log)
  }

  ghost predicate PointsFree(E: Group, P: seq<Point>) {
    forall i :: 0 <= i < |P| ==> E.TorsionFree(P[i])
  }

  // ---- The weighted inner product ----------------------------------------------

  ghost function WipCells(a: seq<int>, b: seq<int>, y: int): int -> int
    requires |a| == |b|
  {
    i => if 0 <= i < |a| then Pow(y, i + 1) * (a[i] * b[i]) else 0
  }

  /** Σ a[i]·b[i]·y^(i+1). bulletproofplus.ts:541-550. */
  method WeightedInnerProduct(F: Field, y: int, a: seq<int>, b: seq<int>) returns (res: int)
    requires |a| == |b|
    ensures F.R(res) == F.R(Sum(|a|, WipCells(a, b, y)))
  {
    res := 0;
    var yPower := 1;
    hide Field.R, Pow, Field.Mul, Field.MulAdd;
    assert Pow(y, 0) == 1 by { PowZero(y); }
    for i := 0 to |a|
      invariant F.R(yPower) == F.R(Pow(y, i))
      invariant F.R(res) == F.R(Sum(i, WipCells(a, b, y)))
    {
      WipStep(F, y, i, a[i], b[i], yPower, res, Sum(i, WipCells(a, b, y)));
      yPower := F.Mul(yPower, y);
      res := F.MulAdd(F.Mul(a[i], b[i]), yPower, res);
    }
  }

  lemma PowZero(y: int)
    ensures Pow(y, 0) == 1
  {
  }

  lemma PowNext(y: int, i: nat)
    ensures Pow(y, i + 1) == Pow(y, i) * y
  {
    assert y * Pow(y, i) == Pow(y, i) * y;
  }

  lemma WipStep(F: Field, y: int, i: nat, a: int, b: int, yPower: int, res: int, sum: int)
    requires F.R(yPower) == F.R(Pow(y, i)) && F.R(res) == F.R(sum)
    ensures F.R(F.Mul(yPower, y)) == F.R(Pow(y, i + 1))
    ensures F.R(F.MulAdd(F.Mul(a, b), F.Mul(yPower, y), res)) == F.R(sum + Pow(y, i + 1) * (a * b))
  {
    hide Field.R, Pow;
    PowNext(y, i);
    F.MulV(yPower, Pow(y, i), y, y);
    F.MulV(a, a, b, b);
    F.MulAddV(F.Mul(a, b), a * b, F.Mul(yPower, y), Pow(y, i + 1), res, sum);
    assert (a * b) * Pow(y, i + 1) == Pow(y, i + 1) * (a * b);
  }

  // ---- One cross term ------------------------------------------------------------

  ghost function CrossCells(s: int, a: seq<int>, P: seq<Point>, b: seq<int>, Q: seq<Point>): int -> int
    requires |a| == |P| == |b| == |Q|
  {
    i => if 0 <= i < |a| then (s * a[i]) * P[i].log + b[i] * Q[i].log else 0
  }

  /** The unscaled summands of a cross term, first k of the interleaved ones. */
  ghost function CrossTerms(s: int, a: seq<int>, P: seq<Point>, b: seq<int>, Q: seq<Point>, k: nat): (ts: seq<Term>)
    requires |a| == |P| == |b| == |Q| && k <= 2 * |a|
    ensures |ts| == k
  {
    seq(k, t requires 0 <= t < k =>
      if t % 2 == 0 then Term(s * a[t / 2], P[t / 2]) else Term(b[t / 2], Q[t / 2]))
  }

  lemma CrossCell(s: int, a: seq<int>, P: seq<Point>, b: seq<int>, Q: seq<Point>, i: nat)
    requires |a| == |P| == |b| == |Q| && i < |a|
    ensures TermValue(CrossTerms(s, a, P, b, Q, 2 * |a|))(2 * i) + TermValue(CrossTerms(s, a, P, b, Q, 2 * |a|))(2 * i + 1)
         == CrossCells(s, a, P, b, Q)(i)
  {
    assert (2 * i) / 2 == i && (2 * i + 1) / 2 == i && (2 * i) % 2 == 0 && (2 * i + 1) % 2 == 1;
  }

  lemma CrossWeighted(s: int, a: seq<int>, P: seq<Point>, b: seq<int>, Q: seq<Point>)
    requires |a| == |P| == |b| == |Q|
    ensures Weighted(CrossTerms(s, a, P, b, Q, 2 * |a|)) == Sum(|a|, CrossCells(s, a, P, b, Q))
  {
    var n := |a|;
    var ts := CrossTerms(s, a, P, b, Q, 2 * n);
    hide Sum, Weighted, TermValue, CrossTerms, CrossCells;
    WeightedValue(ts);
    forall i | 0 <= i < n ensures TermValue(ts)(2 * i) + TermValue(ts)(2 * i + 1) == CrossCells(s, a, P, b, Q)(i) {
      CrossCell(s, a, P, b, Q, i);
    }
    SumPairs(n, TermValue(ts), CrossCells(s, a, P, b, Q));
  }

  lemma TailWeighted(E: Group, ip: int, blind: int)
    ensures Weighted([Term(ip, E.H), Term(blind, BASE)]) == ip * E.H.log + blind
  {
    assert [Term(ip, E.H), Term(blind, BASE)] == [Term(ip, E.H)] + [Term(blind, BASE)];
    WeightedSingle(Term(ip, E.H));
    WeightedSingle(Term(blind, BASE));
    hide Weighted;
    WeightedConcat([Term(ip, E.H)], [Term(blind, BASE)]);
  }

  method CrossSummands(F: Field, inv8: int, s: int, a: seq<int>, P: seq<Point>, b: seq<int>, Q: seq<Point>) returns (terms: seq<Term>)
    requires |a| == |P| == |b| == |Q|
    ensures Eighths(F, terms, CrossTerms(s, a, P, b, Q, 2 * |a|), inv8)
  {
    terms := [];
    hide Field.R, Field.Mul;
    for i := 0 to |a|
      invariant Eighths(F, terms, CrossTerms(s, a, P, b, Q, 2 * i), inv8)
    {
      F.MulV(a[i], a[i], s, s);
      F.MulV(F.Mul(a[i], s), a[i] * s, inv8, inv8);
      F.MulV(b[i], b[i], inv8, inv8);
      assert a[i] * s == s * a[i];
      assert (2 * i + 1) / 2 == i;
      terms := terms + [Term(F.Mul(F.Mul(a[i], s), inv8), P[i])];
      terms := terms + [Term(F.Mul(b[i], inv8), Q[i])];
    }
  }

  lemma EighthsConcat(F: Field, a: seq<Term>, a': seq<Term>, b: seq<Term>, b': seq<Term>, inv8: int)
    requires Eighths(F, a, a', inv8) && Eighths(F, b, b', inv8)
    ensures Eighths(F, a + b, a' + b', inv8)
  {
    hide Field.R;
  }

  lemma CrossFree(E: Group, s: int, a: seq<int>, P: seq<Point>, b: seq<int>, Q: seq<Point>, ip: int, blind: int)
    requires |a| == |P| == |b| == |Q| && E.TorsionFree(E.H) && PointsFree(E, P) && PointsFree(E, Q)
    ensures E.AllTorsionFree(CrossTerms(s, a, P, b, Q, 2 * |a|) + [Term(ip, E.H), Term(blind, BASE)])
  {
  }

  /**
   * One of the two cross terms of a round: a half of a' (times s) over one half of G', a half of b'
   * over the other half of H', the inner product on H and the blind on G, all at 8⁻¹.
   * bulletproofplus.ts:566-575. (The source fills both lists in one loop; each is built alone here.)
   */
  method CrossPoint(E: Group, inv8: int, s: int, a: seq<int>, P: seq<Point>, b: seq<int>, Q: seq<Point>, ip: int, blind: int)
    returns (X: Point)
    requires |a| == |P| == |b| == |Q| && E.Valid() && PointsFree(E, P) && PointsFree(E, Q)
    requires E.F.R(8 * inv8) == E.F.R(1)
    ensures E.TorsionFree(X)
    ensures E.F.R(8 * X.log) == E.F.R(Sum(|a|, CrossCells(s, a, P, b, Q)) + ip * E.H.log + blind)
  {
    hide Field.R, Field.Mul, Sum, Weighted, CrossTerms, CrossCells, PointsFree, Group.AllTorsionFree;
    var F := E.F;
    var front := CrossSummands(F, inv8, s, a, P, b, Q);
    F.MulV(ip, ip, inv8, inv8);
    F.MulV(blind, blind, inv8, inv8);
    var back := [Term(F.Mul(ip, inv8), E.H), Term(F.Mul(blind, inv8), BASE)];
    ghost var us, tail := CrossTerms(s, a, P, b, Q, 2 * |a|), [Term(ip, E.H), Term(blind, BASE)];
    CrossWeighted(s, a, P, b, Q);
    TailWeighted(E, ip, blind);
    WeightedConcat(us, tail);
    EighthsConcat(F, front, us, back, tail, inv8);
    CrossFree(E, s, a, P, b, Q, ip, blind);
    X := MultiscalarSum(E, front + back);
    EighthTotal(E, front + back, us + tail, inv8);
  }

  // ---- Folding -------------------------------------------------------------------

  /** `fold2`: a·P + b·Q. bulletproofplus.ts:390-392. */
  method FoldTwo(E: Group, a: int, P: Point, b: int, Q: Point) returns (X: Point)
    requires E.TorsionFree(P) && E.TorsionFree(Q)
    ensures E.TorsionFree(X) && E.F.R(X.log) == E.F.R(a * P.log + b * Q.log)
  {
    var t0, t1 := Term(a, P), Term(b, Q);
    X := MultiscalarSum(E, [t0, t1]);
    E.TotalLog([t0, t1]);
    E.F.Idem(Weighted([t0, t1]));
    WeightedSingle(t0);
    WeightedSingle(t1);
    assert [t0, t1] == [t0] + [t1];
    hide Weighted, Field.R;
    WeightedConcat([t0], [t1]);
  }

  /** Gprime and Hprime folded to half their length. bulletproofplus.ts:586-594. */
  method FoldPoints(E: Group, m: nat, p: int, q: int, P: seq<Point>) returns (next: seq<Point>)
    requires |P| == 2 * m && PointsFree(E, P)
    ensures |next| == m && PointsFree(E, next)
    ensures forall i :: 0 <= i < m ==> E.F.R(next[i].log) == E.F.R(p * P[i].log + q * P[m + i].log)
  {
    next := [];
    hide Field.R;
    for i := 0 to m
      invariant |next| == i && PointsFree(E, next)
      invariant forall k :: 0 <= k < i ==> E.F.R(next[k].log) == E.F.R(p * P[k].log + q * P[m + k].log)
    {
      var X := FoldTwo(E, p, P[i], q, P[m + i]);
      next := next + [X];
    }
  }

  /** aprime and bprime folded to half their length. bulletproofplus.ts:596-604. */
  method FoldScalars(F: Field, m: nat, p: int, q: int, v: seq<int>) returns (next: seq<int>)
    requires |v| == 2 * m
    ensures |next| == m
    ensures forall i :: 0 <= i < m ==> F.R(next[i]) == next[i] == F.R(v[i] * p + v[m + i] * q)
  {
    next := [];
    hide Field.R, Field.Mul, Field.Add;
    for i := 0 to m
      invariant |next| == i
      invariant forall k :: 0 <= k < i ==> F.R(next[k]) == next[k] == F.R(v[k] * p + v[m + k] * q)
    {
      AddReduced(F, F.Mul(v[i], p), F.Mul(v[m + i], q));
      F.MulV(v[i], v[i], p, p);
      F.MulV(v[m + i], v[m + i], q, q);
      F.AddV(F.Mul(v[i], p), v[i] * p, F.Mul(v[m + i], q), v[m + i] * q);
      next := next + [F.Add(F.Mul(v[i], p), F.Mul(v[m + i], q))];
    }
  }

  // ---- One round -----------------------------------------------------------------

  lemma AddReduced(F: Field, a: int, b: int)
    ensures F.R(F.Add(a, b)) == F.Add(a, b)
  {
    F.Idem(a + b);
  }

  lemma MulAddReduced(F: Field, a: int, b: int, c: int)
    ensures F.R(F.MulAdd(a, b, c)) == F.MulAdd(a, b, c)
  {
    F.Idem(a * b + c);
  }

  /** The prover's four vectors as the algebra sees them. */
  ghost function VectorsOf(a: seq<int>, b: seq<int>, G: seq<Point>, H: seq<Point>): Vectors {
    Vectors(a, b, Logs(G), Logs(H))
  }

  /**
   * What every pass of the halving loop keeps: the vectors open X plus the cross terms so far, and
   * the generators are the weighted originals.
   */
  ghost predicate RoundState(E: Group, y: int, yinv: int, X: int, cs: seq<int>, L8: seq<Point>, R8: seq<Point>, m: nat,
                             a: seq<int>, b: seq<int>, G: seq<Point>, H: seq<Point>, alpha: int) {
    && |cs| == |L8| == |R8|
    && |a| == |b| == |G| == |H| == m
    && PointsFree(E, G) && PointsFree(E, H)
    && E.F.R(Commitment(VectorsOf(a, b, G, H), y, E.H.log, alpha)) == E.F.R(X + RoundSum(E.F, cs, L8, R8))
    && GeneratorsFolded(E, cs, yinv, m, Logs(G), Logs(H))
  }

  ghost function CrossAndWip(s: int, a: seq<int>, P: seq<Point>, b: seq<int>, Q: seq<Point>, wa: seq<int>, y: int, H: int): int -> int
    requires |a| == |P| == |b| == |Q| == |wa|
  {
    i => CrossCells(s, a, P, b, Q)(i) + Scaled(H, WipCells(wa, b, y))(i)
  }

  /** A cross point's log, in the algebra's terms. cells is the algebra's summand. */
  lemma CrossCongruence(F: Field, m: nat, s: int, a: seq<int>, P: seq<Point>, b: seq<int>, Q: seq<Point>, wa: seq<int>,
                        y: int, H: int, ip: int, blind: int, log: int, cells: int -> int)
    requires |a| == |P| == |b| == |Q| == |wa| == m
    requires F.R(log) == F.R(Sum(m, CrossCells(s, a, P, b, Q)) + ip * H + blind)
    requires F.R(ip) == F.R(Sum(m, WipCells(wa, b, y)))
    requires forall i :: 0 <= i < m ==> F.R(CrossAndWip(s, a, P, b, Q, wa, y, H)(i)) == F.R(cells(i))
    ensures F.R(log) == F.R(Sum(m, cells) + blind)
  {
    hide Field.R, Sum, CrossCells, WipCells, Scaled;
    var cross, wip := CrossCells(s, a, P, b, Q), WipCells(wa, b, y);
    F.SumC(m, CrossAndWip(s, a, P, b, Q, wa, y, H), cells);
    SumAdd(m, cross, Scaled(H, wip));
    SumExt(m, CrossAndWip(s, a, P, b, Q, wa, y, H), i => cross(i) + Scaled(H, wip)(i));
    SumScaled(m, H, wip);
    F.ScaleC(H, ip, Sum(m, wip));
    assert ip * H == H * ip;
    F.AddC(Sum(m, cross) + blind, Sum(m, cross) + blind, H * ip, H * Sum(m, wip));
    F.AddC(Sum(m, cross) + H * Sum(m, wip), Sum(m, cells), blind, blind);
  }

  lemma LeftCellCongruence(F: Field, w: Vectors, m: nat, G: seq<Point>, H: seq<Point>, y: int, s: int, yinvm: int, hh: int, i: nat)
    requires w.Sized(2 * m) && w.g == Logs(G) && w.h == Logs(H) && i < m && F.R(s) == F.R(yinvm)
    ensures F.R(CrossAndWip(s, w.a[..m], G[m..], w.b[m..], H[..m], w.a[..m], y, hh)(i))
         == F.R(LeftCell(w, m, y, yinvm, hh, i))
  {
    hide Field.R, Pow;
    CrossAndWipAt(s, w.a[..m], G[m..], w.b[m..], H[..m], w.a[..m], y, hh, i);
    CellScale(F, s, yinvm, w.a[i], w.g[m + i], w.b[m + i] * w.h[i], hh, Pow(y, i + 1) * (w.a[i] * w.b[m + i]),
              Pow(y, i + 1) * (w.a[i] * w.b[m + i]));
  }

  lemma CrossAndWipAt(s: int, a: seq<int>, P: seq<Point>, b: seq<int>, Q: seq<Point>, wa: seq<int>, y: int, H: int, i: nat)
    requires |a| == |P| == |b| == |Q| == |wa| && i < |a|
    ensures CrossAndWip(s, a, P, b, Q, wa, y, H)(i)
         == (s * a[i]) * P[i].log + b[i] * Q[i].log + H * (Pow(y, i + 1) * (wa[i] * b[i]))
  {
    hide Pow;
    var f := Scaled(H, WipCells(wa, b, y));
    assert CrossAndWip(s, a, P, b, Q, wa, y, H)(i) == CrossCells(s, a, P, b, Q)(i) + f(i);
    assert f(i) == H * WipCells(wa, b, y)(i);
  }

  lemma CellScale(F: Field, s: int, s': int, a: int, g: int, rest: int, hh: int, u: int, u': int)
    requires F.R(s) == F.R(s') && F.R(u) == F.R(u')
    ensures F.R((s * a) * g + rest + hh * u) == F.R(s' * a * g + rest + u' * hh)
  {
    hide Field.R;
    F.MulC(s, s', a, a);
    F.MulC(s * a, s' * a, g, g);
    F.ScaleC(hh, u, u');
    F.AddC((s * a) * g, (s' * a) * g, rest, rest);
    F.AddC((s * a) * g + rest, (s' * a) * g + rest, hh * u, hh * u');
    assert hh * u' == u' * hh;
  }

  lemma RightCellCongruence(F: Field, w: Vectors, m: nat, G: seq<Point>, H: seq<Point>, y: int, s: int, ym: int, hh: int,
                            wa: seq<int>, i: nat)
    requires w.Sized(2 * m) && w.g == Logs(G) && w.h == Logs(H) && i < m && F.R(s) == F.R(ym)
    requires |wa| == m && F.R(wa[i]) == F.R(w.a[m + i] * s)
    ensures F.R(CrossAndWip(s, w.a[m..], G[..m], w.b[..m], H[m..], wa, y, hh)(i))
         == F.R(RightCell(w, m, y, ym, hh, i))
  {
    hide Field.R, Pow;
    CrossAndWipAt(s, w.a[m..], G[..m], w.b[..m], H[m..], wa, y, hh, i);
    var a, b, p := w.a[m + i], w.b[i], Pow(y, i + 1);
    F.MulC(a, a, s, ym);
    F.MulC(wa[i], a * ym, b, b);
    F.ScaleC(p, wa[i] * b, (a * ym) * b);
    assert (a * ym) * b == ym * a * b;
    CellScale(F, s, ym, a, w.g[i], b * w.h[m + i], hh, p * (wa[i] * b), p * (ym * a * b));
  }

  lemma FoldedValues(F: Field, c: int, ci: int, ym: int, ym': int, yi: int, yi': int, a1: int, a2: int, b1: int, b2: int,
                     g1: int, g2: int, a': int, b': int, g': int)
    requires F.R(ym) == F.R(ym') && F.R(yi) == F.R(yi')
    requires F.R(a') == F.R(a1 * c + a2 * F.Mul(ci, ym))
    requires F.R(b') == F.R(b1 * ci + b2 * c)
    requires F.R(g') == F.R(ci * g1 + F.Mul(yi, c) * g2)
    ensures F.R(a') == F.R(c * a1 + ci * ym' * a2)
    ensures F.R(b') == F.R(ci * b1 + c * b2)
    ensures F.R(g') == F.R(ci * g1 + c * yi' * g2)
  {
    hide Field.R;
    F.MulV(ci, ci, ym, ym');
    F.MulV(yi, yi', c, c);
    F.ScaleC(a2, F.Mul(ci, ym), ci * ym');
    F.AddC(a1 * c, c * a1, a2 * F.Mul(ci, ym), a2 * (ci * ym'));
    F.MulC(F.Mul(yi, c), c * yi', g2, g2);
    F.AddC(ci * g1, ci * g1, F.Mul(yi, c) * g2, (c * yi') * g2);
    assert a2 * (ci * ym') == ci * ym' * a2 && b1 * ci == ci * b1 && b2 * c == c * b2;
  }

  /** What one pass of the loop produces. */
  datatype Round = Round(challenge: nat, L: Point, R: Point, a: seq<int>, b: seq<int>, G: seq<Point>, H: seq<Point>, alpha: int)

  /** How the two cross points of a round relate to the vectors they were made from. */
  ghost predicate CrossTermsOf(E: Group, y: int, yinv: int, m: nat, a: seq<int>, b: seq<int>, G: seq<Point>, H: seq<Point>,
                               dL: int, dR: int, L: Point, R: Point) {
    && |a| == |b| == |G| == |H| == 2 * m
    && E.F.R(8 * L.log) == E.F.R(Sum(m, LeftCells(VectorsOf(a, b, G, H), m, y, Pow(yinv, m), E.H.log)) + dL)
    && E.F.R(8 * R.log) == E.F.R(Sum(m, RightCells(VectorsOf(a, b, G, H), m, y, Pow(y, m), E.H.log)) + dR)
  }

  /** How the vectors after a round relate to those before it. */
  ghost predicate FoldedBy(E: Group, m: nat, a: seq<int>, b: seq<int>, G: seq<Point>, H: seq<Point>,
                           ci: int, ym: int, yinvm: int, n: Round) {
    var c, F := n.challenge, E.F;
    && |a| == |b| == |G| == |H| == 2 * m
    && |n.a| == |n.b| == |n.G| == |n.H| == m
    && (forall i :: 0 <= i < m ==> F.R(n.a[i]) == F.R(a[i] * c + a[m + i] * F.Mul(ci, ym)))
    && (forall i :: 0 <= i < m ==> F.R(n.b[i]) == F.R(b[i] * ci + b[m + i] * c))
    && (forall i :: 0 <= i < m ==> F.R(n.G[i].log) == F.R(ci * G[i].log + F.Mul(yinvm, c) * G[m + i].log))
    && (forall i :: 0 <= i < m ==> F.R(n.H[i].log) == F.R(c * H[i].log + ci * H[m + i].log))
  }

  lemma FoldedByFolds(E: Group, y: int, yinv: int, m: nat, a: seq<int>, b: seq<int>, G: seq<Point>, H: seq<Point>,
                      ci: int, ym: int, yinvm: int, n: Round)
    requires FoldedBy(E, m, a, b, G, H, ci, ym, yinvm, n)
    requires E.F.R(ym) == E.F.R(Pow(y, m)) && E.F.R(yinvm) == E.F.R(Pow(yinv, m))
    ensures Folds(E.F, VectorsOf(a, b, G, H), VectorsOf(n.a, n.b, n.G, n.H), m, n.challenge, ci, Pow(y, m), Pow(yinv, m))
    ensures forall i :: 0 <= i < m ==>
      E.F.R(Logs(n.G)[i]) == E.F.R(ci * Logs(G)[i] + n.challenge * Pow(yinv, m) * Logs(G)[m + i])
  {
    hide Field.R, Field.Mul, Pow;
    forall i | 0 <= i < m
      ensures E.F.R(n.a[i]) == E.F.R(n.challenge * a[i] + ci * Pow(y, m) * a[m + i])
      ensures E.F.R(n.b[i]) == E.F.R(ci * b[i] + n.challenge * b[m + i])
      ensures E.F.R(n.G[i].log) == E.F.R(ci * G[i].log + n.challenge * Pow(yinv, m) * G[m + i].log)
    {
      FoldedValues(E.F, n.challenge, ci, ym, Pow(y, m), yinvm, Pow(yinv, m), a[i], a[m + i], b[i], b[m + i],
                   G[i].log, G[m + i].log, n.a[i], n.b[i], n.G[i].log);
    }
  }

  /** Conservation and the closed form of the generators survive a round. */
  lemma RoundKeeps(E: Group, y: int, yinv: int, X: int, cs: seq<int>, L8: seq<Point>, R8: seq<Point>, m: nat,
                   a: seq<int>, b: seq<int>, G: seq<Point>, H: seq<Point>, alpha: int,
                   ym: int, yinvm: int, dL: int, dR: int, n: Round)
    requires RoundState(E, y, yinv, X, cs, L8, R8, 2 * m, a, b, G, H, alpha)
    requires E.F.R(ym) == E.F.R(Pow(y, m)) && E.F.R(yinvm) == E.F.R(Pow(yinv, m)) && E.F.R(y * yinv) == E.F.R(1)
    requires E.F.R(n.challenge * E.F.Inverse(n.challenge)) == E.F.R(1)
    requires CrossTermsOf(E, y, yinv, m, a, b, G, H, dL, dR, n.L, n.R)
    requires FoldedBy(E, m, a, b, G, H, E.F.Inverse(n.challenge), ym, yinvm, n)
    requires PointsFree(E, n.G) && PointsFree(E, n.H)
    requires E.F.R(n.alpha) == E.F.R(alpha + dL * (n.challenge * n.challenge)
                                     + dR * (E.F.Inverse(n.challenge) * E.F.Inverse(n.challenge)))
    ensures RoundState(E, y, yinv, X, cs + [n.challenge], L8 + [E.Times(8, n.L)], R8 + [E.Times(8, n.R)], m,
                       n.a, n.b, n.G, n.H, n.alpha)
  {
    hide Field.R, Field.Mul, Field.Inverse, Pow, Sum, RoundSum, GeneratorsFolded, PointsFree, Folds, LeftCells, RightCells, Cells;
    var F, c, ci := E.F, n.challenge, E.F.Inverse(n.challenge);
    var w, w' := VectorsOf(a, b, G, H), VectorsOf(n.a, n.b, n.G, n.H);
    F.PowCancel(y, yinv, m);
    FoldedByFolds(E, y, yinv, m, a, b, G, H, ci, ym, yinvm, n);
    EightTimes(E, n.L);
    EightTimes(E, n.R);
    Conserve(F, w, w', m, c, y, Pow(yinv, m), E.H.log, alpha, dL, dR, n.alpha, X, cs, L8, R8, E.Times(8, n.L), E.Times(8, n.R));
    GeneratorsFold(E, cs, c, yinv, m, Logs(G), Logs(H), Logs(n.G), Logs(n.H));
  }

  lemma EightTimes(E: Group, P: Point)
    ensures E.F.R(E.Times(8, P).log) == E.F.R(8 * P.log)
  {
    E.F.Idem(8 * P.log);
  }

  /** The two cross terms of a round. bulletproofplus.ts:556-577. */
  method ProveCrossTerms(E: Group, inv8: int, y: int, ghost yinv: int, ym: int, yinvm: int, m: nat,
                         a: seq<int>, b: seq<int>, G: seq<Point>, H: seq<Point>, dL: int, dR: int) returns (L: Point, R: Point)
    requires E.Valid() && E.F.R(8 * inv8) == E.F.R(1)
    requires E.F.R(ym) == E.F.R(Pow(y, m)) && E.F.R(yinvm) == E.F.R(Pow(yinv, m))
    requires |a| == |b| == |G| == |H| == 2 * m && PointsFree(E, G) && PointsFree(E, H)
    ensures E.TorsionFree(L) && E.TorsionFree(R)
    ensures CrossTermsOf(E, y, yinv, m, a, b, G, H, dL, dR, L, R)
  {
    hide Field.R, Field.Mul, Pow, Sum, CrossTermsOf;
    var cL := WeightedInnerProduct(E.F, y, a[..m], b[m..]);
    var scaled := ScaleAll(E.F, ym, a[m..]);
    var cR := WeightedInnerProduct(E.F, y, scaled, b[..m]);
    L := CrossPoint(E, inv8, yinvm, a[..m], G[m..], b[m..], H[..m], cL, dL);
    R := CrossPoint(E, inv8, ym, a[m..], G[..m], b[..m], H[m..], cR, dR);
    CrossTermsMade(E, y, yinv, m, a, b, G, H, ym, yinvm, scaled, cL, cR, dL, dR, L, R);
  }

  /** The four vectors and the blind, folded by a nonzero challenge. bulletproofplus.ts:584-607. */
  method FoldVectors(E: Group, challenge: nat, L: Point, R: Point, ym: int, yinvm: int, m: nat,
                     a: seq<int>, b: seq<int>, G: seq<Point>, H: seq<Point>, alpha1: int, dL: int, dR: int) returns (n: Round)
    requires E.Valid() && |a| == |b| == |G| == |H| == 2 * m && PointsFree(E, G) && PointsFree(E, H)
    ensures n.challenge == challenge && n.L == L && n.R == R
    ensures FoldedBy(E, m, a, b, G, H, E.F.Inverse(challenge), ym, yinvm, n)
    ensures PointsFree(E, n.G) && PointsFree(E, n.H)
    ensures (forall i :: 0 <= i < m ==> E.F.R(n.a[i]) == n.a[i]) && (forall i :: 0 <= i < m ==> E.F.R(n.b[i]) == n.b[i])
    ensures E.F.R(n.alpha) == n.alpha == E.F.R(alpha1 + dL * (challenge * challenge)
                                               + dR * (E.F.Inverse(challenge) * E.F.Inverse(challenge)))
  {
    hide Field.R, Field.Mul, Field.MulAdd, Field.Inverse, PointsFree;
    var F := E.F;
    var challengeInv := Inv(F, challenge);
    var nextG := FoldPoints(E, m, challengeInv, F.Mul(yinvm, challenge), G);
    var nextH := FoldPoints(E, m, challenge, challengeInv, H);
    var nextA := FoldScalars(F, m, challenge, F.Mul(challengeInv, ym), a);
    var nextB := FoldScalars(F, m, challengeInv, challenge, b);
    F.MulV(challenge, challenge, challenge, challenge);
    F.MulV(challengeInv, challengeInv, challengeInv, challengeInv);
    var alpha := F.MulAdd(dL, F.Mul(challenge, challenge), alpha1);
    F.MulAddV(dL, dL, F.Mul(challenge, challenge), challenge * challenge, alpha1, alpha1);
    F.MulAddV(dR, dR, F.Mul(challengeInv, challengeInv), challengeInv * challengeInv, alpha, dL * (challenge * challenge) + alpha1);
    MulAddReduced(F, dR, F.Mul(challengeInv, challengeInv), alpha);
    alpha := F.MulAdd(dR, F.Mul(challengeInv, challengeInv), alpha);
    n := Round(challenge, L, R, nextA, nextB, nextG, nextH, alpha);
  }

  lemma RoundStateShape(E: Group, y: int, yinv: int, X: int, cs: seq<int>, L8: seq<Point>, R8: seq<Point>, m: nat,
                        a: seq<int>, b: seq<int>, G: seq<Point>, H: seq<Point>, alpha: int)
    requires RoundState(E, y, yinv, X, cs, L8, R8, m, a, b, G, H, alpha)
    ensures |cs| == |L8| == |R8| && |a| == |b| == |G| == |H| == m && PointsFree(E, G) && PointsFree(E, H)
  {
    hide Field.R, Commitment, RoundSum, GeneratorsFolded, PointsFree;
  }

  lemma HashInverts(E: Group, chunks: seq<Chunk>)
    requires E.Valid() && E.HashToScalar(chunks) != 0
    ensures E.F.R(E.HashToScalar(chunks) * E.F.Inverse(E.HashToScalar(chunks))) == E.F.R(1)
  {
    E.F.Range(E.hash(chunks));
    E.F.Range(E.HashToScalar(chunks));
    E.F.InverseWorks(E.HashToScalar(chunks));
  }

  /** One pass of the halving loop. bulletproofplus.ts:554-607. */
  method ProveRound(E: Group, inv8: int, ghost X: int, ghost cs: seq<int>, ghost L8: seq<Point>, ghost R8: seq<Point>,
                    y: int, ghost yinv: int, ym: int, yinvm: int, m: nat, a: seq<int>, b: seq<int>, G: seq<Point>, H: seq<Point>,
                    alpha1: int, dL: int, dR: int, transcript: nat) returns (n: Round)
    requires E.Valid() && E.F.R(8 * inv8) == E.F.R(1) && E.F.R(y * yinv) == E.F.R(1)
    requires E.F.R(ym) == E.F.R(Pow(y, m)) && E.F.R(yinvm) == E.F.R(Pow(yinv, m))
    requires RoundState(E, y, yinv, X, cs, L8, R8, 2 * m, a, b, G, H, alpha1) && yinv == E.F.Inverse(y)
    ensures E.TorsionFree(n.L) && E.TorsionFree(n.R)
    ensures n.challenge == RoundHash(E, transcript, n.L, n.R)
    ensures |a| == |b| == |G| == |H| == 2 * m
    ensures n.L == HonestLeft(E, y, VectorsOf(a, b, G, H), m, dL) && n.R == HonestRight(E, y, VectorsOf(a, b, G, H), m, dR)
    ensures n.challenge != 0 ==>
      && VectorsOf(n.a, n.b, n.G, n.H) == Halved(E.F, y, VectorsOf(a, b, G, H), m, n.challenge)
      && n.alpha == FoldedBlind(E.F, alpha1, dL, dR, n.challenge)
    ensures n.challenge != 0 ==>
      RoundState(E, y, yinv, X, cs + [n.challenge], L8 + [E.Times(8, n.L)], R8 + [E.Times(8, n.R)], m, n.a, n.b, n.G, n.H, n.alpha)
  {
    hide Field.R, Field.Mul, Field.Inverse, Pow, RoundState, CrossTermsOf, FoldedBy, PointsFree, Group.HashToScalar, Group.Valid;
    RoundStateShape(E, y, yinv, X, cs, L8, R8, 2 * m, a, b, G, H, alpha1);
    var L, R := ProveCrossTerms(E, inv8, y, yinv, ym, yinvm, m, a, b, G, H, dL, dR);
    CrossTermsExact(E, y, m, a, b, G, H, dL, dR, L, R);
    var challenge := E.HashToScalar([ScalarChunk(transcript), PointChunk(Encodes(L)), PointChunk(Encodes(R))]);
    if challenge == 0 {
      return Round(0, L, R, a, b, G, H, alpha1);
    }
    HashInverts(E, [ScalarChunk(transcript), PointChunk(Encodes(L)), PointChunk(Encodes(R))]);
    n := FoldVectors(E, challenge, L, R, ym, yinvm, m, a, b, G, H, alpha1, dL, dR);
    RoundKeeps(E, y, yinv, X, cs, L8, R8, m, a, b, G, H, alpha1, ym, yinvm, dL, dR, n);
    FoldExact(E, y, m, a, b, G, H, ym, yinvm, n);
  }

  /** The cross points are the honest run's. */
  lemma CrossTermsExact(E: Group, y: int, m: nat, a: seq<int>, b: seq<int>, G: seq<Point>, H: seq<Point>, dL: int, dR: int, L: Point, R: Point)
    requires E.Valid() && E.TorsionFree(L) && E.TorsionFree(R)
    requires CrossTermsOf(E, y, E.F.Inverse(y), m, a, b, G, H, dL, dR, L, R)
    ensures |a| == |b| == |G| == |H| == 2 * m
    ensures L == HonestLeft(E, y, VectorsOf(a, b, G, H), m, dL) && R == HonestRight(E, y, VectorsOf(a, b, G, H), m, dR)
  {
    hide Field.R, Field.Inverse, Pow, Sum, LeftCells, RightCells, Group.Valid, Eighth;
    var w := VectorsOf(a, b, G, H);
    IsEighth(E, L, Sum(m, LeftCells(w, m, y, Pow(E.F.Inverse(y), m), E.H.log)) + dL);
    IsEighth(E, R, Sum(m, RightCells(w, m, y, Pow(y, m), E.H.log)) + dR);
  }

  /** And so are the vectors it folds to. */
  lemma FoldExact(E: Group, y: int, m: nat, a: seq<int>, b: seq<int>, G: seq<Point>, H: seq<Point>, ym: int, yinvm: int, n: Round)
    requires FoldedBy(E, m, a, b, G, H, E.F.Inverse(n.challenge), ym, yinvm, n)
    requires E.F.R(ym) == E.F.R(Pow(y, m)) && E.F.R(yinvm) == E.F.R(Pow(E.F.Inverse(y), m))
    requires PointsFree(E, n.G) && PointsFree(E, n.H)
    requires (forall i :: 0 <= i < m ==> E.F.R(n.a[i]) == n.a[i]) && (forall i :: 0 <= i < m ==> E.F.R(n.b[i]) == n.b[i])
    ensures |a| == |b| == |G| == |H| == 2 * m
    ensures VectorsOf(n.a, n.b, n.G, n.H) == Halved(E.F, y, VectorsOf(a, b, G, H), m, n.challenge)
  {
    LogsReduced(E, n.G);
    LogsReduced(E, n.H);
    hide Field.R, Field.Mul, Field.Inverse, Pow, PointsFree, Halved;
    FoldedByFolds(E, y, E.F.Inverse(y), m, a, b, G, H, E.F.Inverse(n.challenge), ym, yinvm, n);
    IsFolded(E.F, y, VectorsOf(a, b, G, H), VectorsOf(n.a, n.b, n.G, n.H), m, n.challenge);
  }

  lemma LogsReduced(E: Group, P: seq<Point>)
    requires PointsFree(E, P)
    ensures forall i :: 0 <= i < |P| ==> E.F.R(Logs(P)[i]) == Logs(P)[i]
  {
    forall i | 0 <= i < |P| ensures E.F.R(P[i].log) == P[i].log {
      E.F.Range(P[i].log);
    }
  }

  method ScaleAll(F: Field, s: int, v: seq<int>) returns (r: seq<int>)
    ensures |r| == |v| && forall i :: 0 <= i < |v| ==> F.R(r[i]) == F.R(v[i] * s)
  {
    r := [];
    for i := 0 to |v|
      invariant |r| == i && forall k :: 0 <= k < i ==> F.R(r[k]) == F.R(v[k] * s)
    {
      F.Idem(v[i] * s);
      r := r + [F.Mul(v[i], s)];
    }
  }

  lemma CrossTermsMade(E: Group, y: int, yinv: int, m: nat, a: seq<int>, b: seq<int>, G: seq<Point>, H: seq<Point>,
                       ym: int, yinvm: int, scaled: seq<int>, cL: int, cR: int, dL: int, dR: int, L: Point, R: Point)
    requires |a| == |b| == |G| == |H| == 2 * m && |scaled| == m
    requires E.F.R(ym) == E.F.R(Pow(y, m)) && E.F.R(yinvm) == E.F.R(Pow(yinv, m))
    requires forall i :: 0 <= i < m ==> E.F.R(scaled[i]) == E.F.R(a[m..][i] * ym)
    requires E.F.R(cL) == E.F.R(Sum(m, WipCells(a[..m], b[m..], y)))
    requires E.F.R(cR) == E.F.R(Sum(m, WipCells(scaled, b[..m], y)))
    requires E.F.R(8 * L.log) == E.F.R(Sum(m, CrossCells(yinvm, a[..m], G[m..], b[m..], H[..m])) + cL * E.H.log + dL)
    requires E.F.R(8 * R.log) == E.F.R(Sum(m, CrossCells(ym, a[m..], G[..m], b[..m], H[m..])) + cR * E.H.log + dR)
    ensures CrossTermsOf(E, y, yinv, m, a, b, G, H, dL, dR, L, R)
  {
    hide Field.R, Pow, Sum, CrossAndWip, CrossCells, WipCells, LeftCell, RightCell;
    var w := VectorsOf(a, b, G, H);
    forall i | 0 <= i < m
      ensures E.F.R(CrossAndWip(yinvm, a[..m], G[m..], b[m..], H[..m], a[..m], y, E.H.log)(i))
           == E.F.R(LeftCells(w, m, y, Pow(yinv, m), E.H.log)(i))
    {
      LeftCellCongruence(E.F, w, m, G, H, y, yinvm, Pow(yinv, m), E.H.log, i);
    }
    CrossCongruence(E.F, m, yinvm, a[..m], G[m..], b[m..], H[..m], a[..m], y, E.H.log, cL, dL, 8 * L.log,
                    LeftCells(w, m, y, Pow(yinv, m), E.H.log));
    forall i | 0 <= i < m
      ensures E.F.R(CrossAndWip(ym, a[m..], G[..m], b[..m], H[m..], scaled, y, E.H.log)(i))
           == E.F.R(RightCells(w, m, y, Pow(y, m), E.H.log)(i))
    {
      assert a[m..][i] == a[m + i];
      RightCellCongruence(E.F, w, m, G, H, y, ym, Pow(y, m), E.H.log, scaled, i);
    }
    CrossCongruence(E.F, m, ym, a[m..], G[..m], b[..m], H[m..], scaled, y, E.H.log, cR, dR, 8 * R.log,
                    RightCells(w, m, y, Pow(y, m), E.H.log));
  }
}
