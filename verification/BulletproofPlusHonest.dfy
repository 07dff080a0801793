/**
 * The honest prover's run in closed form: every point, challenge and response as a function of the
 * amounts, the masks and the draws. What the prover hashes, and so where it can meet a zero, is
 * fixed by what it is given.
 */
module BulletproofPlusHonest {
  import opened Sums
  import opened Scalars
  import opened Curve
  import opened InnerProduct
  import opened BulletproofPlusSpec
  import opened BulletproofPlusOpening

  // ---- Points at 8⁻¹ -----------------------------------------------------------------

  /** The torsion-free point eight of which have this log. */
  ghost function Eighth(E: Group, x: int): (P: Point) {
    Point(E.F.R(E.F.Inverse(8) * x), 0)
  }

  /** There is no other. */
  lemma IsEighth(E: Group, P: Point, x: int)
    requires E.Valid() && E.TorsionFree(P) && E.F.R(8 * P.log) == E.F.R(x)
    ensures P == Eighth(E, x)
  {
    EighthUndone(E, P);
    hide Field.R, Field.Inverse, Group.Valid;
    E.F.MulR(E.F.Inverse(8), 8 * P.log);
    E.F.ScaleC(E.F.Inverse(8), 8 * P.log, x);
  }

  // ---- One round ----------------------------------------------------------------------

  ghost function HonestLeft(E: Group, y: int, w: Vectors, m: nat, blind: int): Point
    requires w.Sized(2 * m)
  {
    Eighth(E, Sum(m, LeftCells(w, m, y, Pow(E.F.Inverse(y), m), E.H.log)) + blind)
  }

  ghost function HonestRight(E: Group, y: int, w: Vectors, m: nat, blind: int): Point
    requires w.Sized(2 * m)
  {
    Eighth(E, Sum(m, RightCells(w, m, y, Pow(y, m), E.H.log)) + blind)
  }

  /** The four vectors folded by the challenge c, reduced. bulletproofplus.ts:586-604. */
  ghost function Halved(F: Field, y: int, w: Vectors, m: nat, c: int): (w': Vectors)
    requires w.Sized(2 * m)
    ensures w'.Sized(m)
  {
    var ci, ym, yinvm := F.Inverse(c), Pow(y, m), Pow(F.Inverse(y), m);
    Vectors(seq(m, i requires 0 <= i < m => F.R(c * w.a[i] + ci * ym * w.a[m + i])),
            seq(m, i requires 0 <= i < m => F.R(ci * w.b[i] + c * w.b[m + i])),
            seq(m, i requires 0 <= i < m => F.R(ci * w.g[i] + c * yinvm * w.g[m + i])),
            seq(m, i requires 0 <= i < m => F.R(c * w.h[i] + ci * w.h[m + i])))
  }

  ghost function FoldedBlind(F: Field, alpha: int, dL: int, dR: int, c: int): int {
    F.R(alpha + dL * (c * c) + dR * (F.Inverse(c) * F.Inverse(c)))
  }

  ghost predicate Reduced(F: Field, w: Vectors) {
    && (forall i :: 0 <= i < |w.a| ==> F.R(w.a[i]) == w.a[i])
    && (forall i :: 0 <= i < |w.b| ==> F.R(w.b[i]) == w.b[i])
    && (forall i :: 0 <= i < |w.g| ==> F.R(w.g[i]) == w.g[i])
    && (forall i :: 0 <= i < |w.h| ==> F.R(w.h[i]) == w.h[i])
  }

  /** Reduced vectors that are a fold up to congruence are the fold. */
  lemma IsFolded(F: Field, y: int, w: Vectors, w': Vectors, m: nat, c: int)
    requires Folds(F, w, w', m, c, F.Inverse(c), Pow(y, m), Pow(F.Inverse(y), m)) && Reduced(F, w')
    ensures w' == Halved(F, y, w, m, c)
  {
    hide Field.R, Field.Inverse, Pow;
    var f := Halved(F, y, w, m, c);
    assert w'.a == f.a && w'.b == f.b && w'.g == f.g && w'.h == f.h;
  }

  // ---- All rounds ----------------------------------------------------------------------

  /** What the halving loop puts out: its cross points, its challenges and what it ends with. */
  datatype Trace = Trace(L: seq<Point>, R: seq<Point>, cs: seq<nat>, w: Vectors, alpha: int)

  /** The halving loop from vectors of length 2^left and this transcript, two draws a round. bulletproofplus.ts:552-608. */
  ghost function Rounds(E: Group, y: int, w: Vectors, alpha: int, left: nat, transcript: nat, draws: seq<nat>): (t: Trace)
    requires w.Sized(Pow2(left)) && |draws| >= 2 * left
    ensures |t.L| == |t.R| == |t.cs| == left && t.w.Sized(1)
    decreases left
  {
    if left == 0 then Trace([], [], [], w, alpha)
    else
      var m, dL, dR := Pow2(left - 1), E.F.R(draws[0]), E.F.R(draws[1]);
      assert Pow2(left) == 2 * m;
      var L, R := HonestLeft(E, y, w, m, dL), HonestRight(E, y, w, m, dR);
      var c := RoundHash(E, transcript, L, R);
      Before([L], [R], [c], Rounds(E, y, Halved(E.F, y, w, m, c), FoldedBlind(E.F, alpha, dL, dR, c), left - 1, c, draws[2..]))
  }

  ghost function RoundHash(E: Group, transcript: nat, L: Point, R: Point): nat {
    E.HashToScalar([ScalarChunk(transcript), PointChunk(Encodes(L)), PointChunk(Encodes(R))])
  }

  ghost function Before(L: seq<Point>, R: seq<Point>, cs: seq<nat>, t: Trace): Trace {
    Trace(L + t.L, R + t.R, cs + t.cs, t.w, t.alpha)
  }

  lemma BeforeTwice(L: seq<Point>, R: seq<Point>, cs: seq<nat>, l: Point, r: Point, c: nat, t: Trace)
    ensures Before(L, R, cs, Before([l], [r], [c], t)) == Before(L + [l], R + [r], cs + [c], t)
  {
    var a, b := Before(L, R, cs, Before([l], [r], [c], t)), Before(L + [l], R + [r], cs + [c], t);
    assert a.L == b.L && a.R == b.R && a.cs == b.cs;
  }

  /** One round taken off the front. */
  lemma RoundOf(E: Group, y: int, w: Vectors, alpha: int, left: nat, transcript: nat, draws: seq<nat>)
    requires w.Sized(Pow2(left)) && |draws| >= 2 * left && left > 0
    ensures Pow2(left) == 2 * Pow2(left - 1)
    ensures var m, dL, dR := Pow2(left - 1), E.F.R(draws[0]), E.F.R(draws[1]);
      var L, R := HonestLeft(E, y, w, m, dL), HonestRight(E, y, w, m, dR);
      var c := RoundHash(E, transcript, L, R);
      Rounds(E, y, w, alpha, left, transcript, draws)
      == Before([L], [R], [c], Rounds(E, y, Halved(E.F, y, w, m, c), FoldedBlind(E.F, alpha, dL, dR, c), left - 1, c, draws[2..]))
  {
    hide HonestLeft, HonestRight, Halved, FoldedBlind, RoundHash, Field.R, Before;
  }

  // ---- The whole run ----------------------------------------------------------------------

  /** The last round's commitments, its challenge and the responses to it. */
  datatype Ending = Ending(A1: Point, B: Point, e: nat, r1: nat, s1: nat, d1: nat)

  /** The last round, taking four draws. bulletproofplus.ts:610-635. */
  ghost function HonestEnding(E: Group, y: int, w: Vectors, alpha: int, last: nat, draws: seq<nat>, at: nat): Ending
    requires w.Sized(1) && at + 4 <= |draws|
  {
    var F := E.F;
    var r, s, d, eta := F.R(draws[at]), F.R(draws[at + 1]), F.R(draws[at + 2]), F.R(draws[at + 3]);
    var a, b, g, h := w.a[0], w.b[0], w.g[0], w.h[0];
    var A1 := Eighth(E, r * g + s * h + d + (r * y * b + s * y * a) * E.H.log);
    var B := Eighth(E, eta + r * y * s * E.H.log);
    var e := ChallengeE(E, last, Encodes(A1), Encodes(B));
    Ending(A1, B, e, F.R(a * e + r), F.R(b * e + s), F.R(alpha * (e * e) + (d * e + eta)))
  }

  /** Everything an honest prover computes. */
  datatype Run = Run(V: seq<Point>, A: Point, y: nat, z: nat, rounds: Trace, end: Ending)

  ghost function HonestCommitments(E: Group, amounts: seq<int>, gammas: seq<int>): (V: seq<Point>)
    requires |amounts| == |gammas|
    ensures |V| == |amounts|
  {
    seq(|amounts|, i requires 0 <= i < |amounts| => Eighth(E, CommitTo(E, amounts[i], gammas[i]).log))
  }

  /** The vectors after the challenges y and z. bulletproofplus.ts:519-520, 534-536. */
  ghost function StartVectors(E: Group, amounts: seq<int>, z: int, y: int, n: nat): (w: Vectors)
    ensures w.Sized(n)
  {
    Vectors(seq(n, i requires 0 <= i < n => E.F.R(Bit(amounts, i) - z)),
            seq(n, i requires 0 <= i < n => E.F.R(Bit(amounts, i) - 1 + z + Window(z, i) * Pow(y, n - i))),
            seq(n, i requires 0 <= i < n => E.gi(i).log),
            seq(n, i requires 0 <= i < n => E.hi(i).log))
  }

  ghost predicate ScalarsReduced(F: Field, w: Vectors) {
    (forall i :: 0 <= i < |w.a| ==> F.R(w.a[i]) == w.a[i]) && (forall i :: 0 <= i < |w.b| ==> F.R(w.b[i]) == w.b[i])
  }

  lemma IsStart(E: Group, amounts: seq<int>, z: int, y: int, n: nat, w: Vectors)
    requires StartsFrom(E, amounts, z, y, n, w) && ScalarsReduced(E.F, w)
    ensures w == StartVectors(E, amounts, z, y, n)
  {
    hide Field.R, Bit, Window, Pow;
    var s := StartVectors(E, amounts, z, y, n);
    assert w.a == s.a && w.b == s.b && w.g == s.g && w.h == s.h;
  }

  ghost function EncodedAll(P: seq<Point>): (s: seq<PointBytes>)
    ensures |s| == |P|
  {
    seq(|P|, i requires 0 <= i < |P| => Encodes(P[i]))
  }

  ghost function StartBlind(F: Field, alpha: int, y: int, z: int, n: nat, gammas: seq<int>): int {
    F.R(alpha + Pow(y, n + 1) * Sum(|gammas|, ScaledGammas(gammas, z)))
  }

  /** The run over amounts and reduced masks. bulletproofplus.ts:451-649. */
  ghost function HonestRun(E: Group, amounts: seq<int>, gammas: seq<int>, draws: seq<nat>): (run: Run)
    requires |amounts| == |gammas| && |draws| == 1 + 2 * (PadLog(|amounts|) + LOG_N) + 4
    ensures |run.V| == |amounts| && |run.rounds.L| == |run.rounds.R| == |run.rounds.cs| == PadLog(|amounts|) + LOG_N
  {
    var left := PadLog(|amounts|) + LOG_N;
    var n := Pow2(left);
    var V := HonestCommitments(E, amounts, gammas);
    var alpha := E.F.R(draws[0]);
    var A := Eighth(E, Sum(n, ACell(E, amounts)) + alpha);
    var y := ChallengeY(E, EncodedAll(V), Encodes(A));
    var z := ChallengeZ(E, y);
    var rounds := Rounds(E, y, StartVectors(E, amounts, z, y, n), StartBlind(E.F, alpha, y, z, n, gammas), left, z, draws[1..]);
    Run(V, A, y, z, rounds, HonestEnding(E, y, rounds.w, rounds.alpha, rounds.cs[left - 1], draws, 1 + 2 * left))
  }

  /** The run, part by part. */
  lemma RunParts(E: Group, amounts: seq<int>, gammas: seq<int>, draws: seq<nat>)
    requires |amounts| == |gammas| && |draws| == 1 + 2 * (PadLog(|amounts|) + LOG_N) + 4
    ensures LOG_N == 6
    ensures var run, left := HonestRun(E, amounts, gammas, draws), PadLog(|amounts|) + LOG_N;
      && run.V == HonestCommitments(E, amounts, gammas)
      && run.A == Eighth(E, Sum(Pow2(left), ACell(E, amounts)) + E.F.R(draws[0]))
      && run.y == ChallengeY(E, EncodedAll(run.V), Encodes(run.A)) && run.z == ChallengeZ(E, run.y)
      && run.rounds == Rounds(E, run.y, StartVectors(E, amounts, run.z, run.y, Pow2(left)),
                              StartBlind(E.F, E.F.R(draws[0]), run.y, run.z, Pow2(left), gammas), left, run.z, draws[1..])
      && run.rounds.w.Sized(1)
      && run.end == HonestEnding(E, run.y, run.rounds.w, run.rounds.alpha, run.rounds.cs[left - 1], draws, 1 + 2 * left)
  {
    hide Rounds, StartVectors, StartBlind, HonestEnding, ChallengeY, ChallengeZ, Eighth, HonestCommitments, Field.R, Pow2, Sum, PadLog;
  }

  /** No challenge of the run is zero. */
  ghost predicate NoZero(run: Run) {
    run.y != 0 && run.z != 0 && 0 !in run.rounds.cs && run.end.e != 0
  }

  /** The run as it goes on the wire. bulletproofplus.ts:637-649. */
  ghost function HonestProof(run: Run): BulletproofPlus {
    BulletproofPlus(Encodes(run.A), Encodes(run.end.A1), Encodes(run.end.B), run.end.r1, run.end.s1, run.end.d1,
                    EncodedAll(run.rounds.L), EncodedAll(run.rounds.R))
  }
}
