/**
 * What a Bulletproof+ is, and what accepting one means: the data on the wire, the Fiat-Shamir
 * transcript, and the multiscalar equation with every coefficient in closed form.
 */
module BulletproofPlusSpec {
  import opened Sums
  import opened Scalars
  import opened Curve

  const LOG_N := 6
  const MAX_M := 16

  /** The proof as it comes off the wire. Scalars are 256-bit numbers, not necessarily reduced. */
  datatype BulletproofPlus = BulletproofPlus(
    A: PointBytes, A1: PointBytes, B: PointBytes, r1: nat, s1: nat, d1: nat,
    L: seq<PointBytes>, R: seq<PointBytes>)

  /** How many doublings pad n outputs to a power of two, stopping at the first one above MAX_M. */
  function PadLog(n: nat): (logM: nat) {
    if n <= 1 then 0 else if n <= 2 then 1 else if n <= 4 then 2 else if n <= 8 then 3 else if n <= 16 then 4 else 5
  }

  // ---- The transcript ---------------------------------------------------------

  function PointChunks(points: seq<PointBytes>): (chunks: seq<Chunk>)
    ensures |chunks| == |points| && forall i :: 0 <= i < |points| ==> chunks[i] == PointChunk(points[i])
  {
    if points == [] then [] else PointChunks(points[..|points| - 1]) + [PointChunk(points[|points| - 1])]
  }

  ghost function ChallengeY(E: Group, V: seq<PointBytes>, A: PointBytes): nat {
    var start := E.HashToScalar([E.initialTranscript, ScalarChunk(E.HashToScalar(PointChunks(V)))]);
    E.HashToScalar([ScalarChunk(start), PointChunk(A)])
  }

  ghost function ChallengeZ(E: Group, y: nat): nat {
    E.HashToScalar([ScalarChunk(y)])
  }

  /** The transcript after j rounds, which is also the j-th inner-product challenge. */
  ghost function Chain(E: Group, z: nat, L: seq<PointBytes>, R: seq<PointBytes>, j: nat): nat
    requires j <= |L| && j <= |R|
  {
    if j == 0 then z
    else E.HashToScalar([ScalarChunk(Chain(E, z, L, R, j - 1)), PointChunk(L[j - 1]), PointChunk(R[j - 1])])
  }

  ghost function Challenges(E: Group, z: nat, L: seq<PointBytes>, R: seq<PointBytes>, rounds: nat): (cs: seq<int>)
    requires rounds <= |L| && rounds <= |R|
    ensures |cs| == rounds
  {
    seq(rounds, j requires 0 <= j < rounds => Chain(E, z, L, R, j + 1))
  }

  ghost function ChallengeE(E: Group, last: nat, A1: PointBytes, B: PointBytes): nat {
    E.HashToScalar([ScalarChunk(last), PointChunk(A1), PointChunk(B)])
  }

  // ---- The tables, in closed form ----------------------------------------------

  /** The product over rounds of the challenge or its inverse, chosen by the bits of t, first round on top. */
  ghost function Weight(F: Field, cs: seq<int>, t: nat): int {
    if cs == [] then 1
    else
      var c := cs[|cs| - 1];
      Weight(F, cs[..|cs| - 1], t / 2) * (if t % 2 == 1 then c else F.Inverse(c))
  }

  /** d[i] = z^(2(j+1)) · 2^k for i = 64j + k. */
  ghost function Window(z: int, i: nat): int {
    Pow(z, 2 * (i / 64 + 1)) * Pow(2, i % 64)
  }

  /** x + x² + ... + xⁿ. */
  ghost function PowerSum(x: int, n: nat): int {
    Sum(n, Powers(x))
  }

  ghost function Powers(x: int): int -> int { i => if i < 0 then 0 else Pow(x, i + 1) }

  /** x² + x⁴ + ... + x^(2m). */
  ghost function EvenPowerSum(x: int, m: nat): int {
    Sum(m, EvenPowers(x))
  }

  ghost function EvenPowers(x: int): int -> int { i => if i < 0 then 0 else Pow(x, 2 * (i + 1)) }

  // ---- The verification equation -----------------------------------------------

  /** Everything the coefficients depend on. M is the padded number of outputs, 64·M the vector length. */
  datatype Equation = Equation(M: nat, y: int, z: int, cs: seq<int>, e: int, r1: int, s1: int, d1: int) {
    function Size(): nat { 64 * M }
  }

  ghost function CommitmentScalar(q: Equation, j: nat): int {
    -(q.e * q.e) * Pow(q.y, q.Size() + 1) * Pow(q.z, 2 * (j + 1))
  }

  ghost function RoundScalar(F: Field, q: Equation, t: nat): int
    requires t / 2 < |q.cs|
  {
    var c := q.cs[t / 2];
    if t % 2 == 0 then -(q.e * q.e) * (c * c) else -(q.e * q.e) * (F.Inverse(c) * F.Inverse(c))
  }

  ghost function HScalar(q: Equation): int {
    (q.e * q.e) * ((q.z * q.z - q.z) * PowerSum(q.y, q.Size())
                   + Pow(q.y, q.Size() + 1) * q.z * ((TWO_64 - 1) * EvenPowerSum(q.z, q.M)))
    + q.r1 * q.y * q.s1
  }

  ghost function GiScalar(F: Field, q: Equation, i: nat): int {
    q.e * q.r1 * Pow(F.Inverse(q.y), i) * Weight(F, q.cs, i) + q.e * q.e * q.z
  }

  ghost function HiScalar(F: Field, q: Equation, i: nat): int
    requires i < q.Size()
  {
    q.e * q.s1 * Weight(F, q.cs, q.Size() - 1 - i) - q.e * q.e * q.z
    - q.e * q.e * Pow(q.y, q.Size()) * Pow(F.Inverse(q.y), i) * Window(q.z, i)
  }

  /** The decoded, cofactor-cleared points of a proof over the commitments V8. */
  datatype ProofPoints = ProofPoints(V8: seq<Point>, A8: Point, A18: Point, B8: Point, L8: seq<Point>, R8: seq<Point>)

  ghost function CommitmentTerms(q: Equation, V8: seq<Point>, k: nat): (ts: seq<Term>)
    requires k <= |V8|
    ensures |ts| == k
  {
    seq(k, j requires 0 <= j < k => Term(CommitmentScalar(q, j), V8[j]))
  }

  ghost function HeadTerms(q: Equation, p: ProofPoints): seq<Term> {
    [Term(-1, p.B8), Term(-q.e, p.A18), Term(-(q.e * q.e), p.A8)]
  }

  ghost function RoundTerms(F: Field, q: Equation, p: ProofPoints, k: nat): (ts: seq<Term>)
    requires k <= 2 * |q.cs| && |p.L8| == |p.R8| == |q.cs|
    ensures |ts| == k
  {
    seq(k, t requires 0 <= t < k =>
      Term(RoundScalar(F, q, t), if t % 2 == 0 then p.L8[t / 2] else p.R8[t / 2]))
  }

  ghost function FixedTerms(E: Group, q: Equation): seq<Term> {
    [Term(q.d1, BASE), Term(HScalar(q), E.H)]
  }

  ghost function GeneratorTerms(E: Group, q: Equation, k: nat): (ts: seq<Term>)
    requires k <= 2 * q.Size()
    ensures |ts| == k
  {
    seq(k, t requires 0 <= t < k =>
      if t % 2 == 0 then Term(GiScalar(E.F, q, t / 2), E.gi(t / 2)) else Term(HiScalar(E.F, q, t / 2), E.hi(t / 2)))
  }

  /** The whole multiscalar sum, in the order the verifier pushes it. */
  ghost function EquationTerms(E: Group, q: Equation, p: ProofPoints): seq<Term>
    requires |p.L8| == |p.R8| == |q.cs|
  {
    CommitmentTerms(q, p.V8, |p.V8|) + HeadTerms(q, p) + RoundTerms(E.F, q, p, 2 * |q.cs|)
    + FixedTerms(E, q) + GeneratorTerms(E, q, 2 * q.Size())
  }

  // ---- What the verifier accepts ------------------------------------------------------

  ghost predicate AllDecode(s: seq<PointBytes>) {
    forall i :: 0 <= i < |s| ==> s[i].Encodes?
  }

  ghost function Offset(E: Group, commitments: seq<PointBytes>): (V: seq<PointBytes>)
    requires AllDecode(commitments)
    ensures |V| == |commitments|
  {
    seq(|commitments|, i requires 0 <= i < |commitments| =>
      Encodes(E.Times(E.F.Inverse(8), commitments[i].point)))
  }

  ghost function Decoded(commitments: seq<PointBytes>): (V: seq<Point>)
    requires AllDecode(commitments)
    ensures |V| == |commitments|
  {
    seq(|commitments|, i requires 0 <= i < |commitments| => commitments[i].point)
  }

  ghost function TimesEight(E: Group, s: seq<PointBytes>): (V: seq<Point>)
    requires AllDecode(s)
    ensures |V| == |s|
  {
    seq(|s|, i requires 0 <= i < |s| => E.Times(8, s[i].point))
  }

  ghost predicate WellFormed(commitments: seq<PointBytes>, proof: BulletproofPlus) {
    && |commitments| >= 1
    && |proof.L| == |proof.R| == PadLog(|commitments|) + LOG_N
    && AllDecode(commitments) && AllDecode(proof.L) && AllDecode(proof.R)
    && proof.A.Encodes? && proof.A1.Encodes? && proof.B.Encodes?
  }

  ghost function PointsOf(E: Group, commitments: seq<PointBytes>, proof: BulletproofPlus): ProofPoints
    requires WellFormed(commitments, proof)
  {
    ProofPoints(Decoded(commitments), E.Times(8, proof.A.point), E.Times(8, proof.A1.point),
                E.Times(8, proof.B.point), TimesEight(E, proof.L), TimesEight(E, proof.R))
  }

  ghost function EquationOf(E: Group, commitments: seq<PointBytes>, proof: BulletproofPlus): Equation
    requires WellFormed(commitments, proof)
  {
    var y := ChallengeY(E, Offset(E, commitments), proof.A);
    var z := ChallengeZ(E, y);
    var rounds := PadLog(|commitments|) + LOG_N;
    Equation(Pow2(PadLog(|commitments|)), y, z, Challenges(E, z, proof.L, proof.R, rounds),
             ChallengeE(E, Chain(E, z, proof.L, proof.R, rounds), proof.A1, proof.B),
             E.F.R(proof.r1), E.F.R(proof.s1), E.F.R(proof.d1))
  }

  ghost predicate NoZeroChallenge(q: Equation) {
    q.y != 0 && q.z != 0 && q.e != 0 && forall j :: 0 <= j < |q.cs| ==> q.cs[j] != 0
  }

  /**
   * A proof is valid for its commitments when it has the right shape, no challenge is zero,
   * and the multiscalar equation closes on the identity.
   */
  ghost predicate Accepts(E: Group, commitments: seq<PointBytes>, proof: BulletproofPlus) {
    && WellFormed(commitments, proof)
    && var q := EquationOf(E, commitments, proof);
       NoZeroChallenge(q) && E.Total(EquationTerms(E, q, PointsOf(E, commitments, proof))) == ZERO
  }
}
