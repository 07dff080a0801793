/**
 * What an accepted proof is bound to. One response cannot be changed at all; everything else is under
 * the hash, and stays bound for some hash that answers the proof's own questions as before.
 */
module BulletproofPlusBinding {
  import opened Sums
  import opened Scalars
  import opened Curve
  import opened BulletproofPlusSpec

  // ---- The response on G -----------------------------------------------------------------

  lemma PlusAssociates(E: Group, P: Point, Q: Point, R: Point)
    ensures E.Plus(E.Plus(P, Q), R) == E.Plus(P, E.Plus(Q, R))
  {
    TorsionAssociates(P.tor, Q.tor, R.tor);
    hide Field.R;
    E.F.AddR(P.log + Q.log, R.log);
    E.F.AddR(P.log, Q.log + R.log);
  }

  lemma TorsionAssociates(p: int, q: int, r: int)
    ensures ((p + q) % 8 + r) % 8 == (p + (q + r) % 8) % 8
  {
  }

  lemma {:induction false} TotalConcat(E: Group, s: seq<Term>, t: seq<Term>)
    ensures E.Total(s + t) == E.Plus(E.Total(s), E.Total(t))
  {
    hide Field.R, Group.Plus, Group.Times;
    if t == [] {
      assert s + t == s;
      PlusZero(E, s);
    } else {
      var n := |t| - 1;
      assert (s + t)[..|s + t| - 1] == s + t[..n];
      TotalConcat(E, s, t[..n]);
      PlusAssociates(E, E.Total(s), E.Total(t[..n]), E.Times(E.F.R(t[n].scalar), t[n].point));
    }
  }

  lemma PlusZero(E: Group, s: seq<Term>)
    ensures E.Plus(E.Total(s), E.Total([])) == E.Total(s)
  {
    E.TotalOnCurve(s);
    hide Group.Total;
    assert E.Total([]) == ZERO by { TotalOfNothing(E); }
    E.F.Range(E.Total(s).log);
  }

  lemma TotalOfNothing(E: Group)
    ensures E.Total([]) == ZERO
  {
  }

  lemma TotalOfOne(E: Group, t: Term)
    ensures E.Total([t]) == E.Times(E.F.R(t.scalar), t.point)
  {
    assert [t][..0] == [];
    E.TimesOnCurve(E.F.R(t.scalar), t.point);
    E.F.Range(0);
    E.F.Range(E.Times(E.F.R(t.scalar), t.point).log);
  }

  /** Changing the multiple of G in a sum that is zero leaves it zero only when nothing changed. */
  lemma OneMultipleOfBase(E: Group, s: seq<Term>, t: seq<Term>, d: int, d': int)
    requires E.Total(s + [Term(d, BASE)] + t) == ZERO
    ensures E.Total(s + [Term(d', BASE)] + t) == ZERO <==> E.F.R(d) == E.F.R(d')
  {
    hide Group.Total;
    LogOfSum(E, s, t, d);
    LogOfSum(E, s, t, d');
    var a, b := E.Total(s).log, E.Total(t).log;
    hide Field.R;
    if E.F.R(a + d + b) == E.F.R(a + d' + b) {
      E.F.AddC(a + d + b, a + d' + b, -a - b, -a - b);
    }
    if E.F.R(d) == E.F.R(d') {
      E.F.AddC(d, d', a + b, a + b);
    }
  }

  lemma LogOfSum(E: Group, s: seq<Term>, t: seq<Term>, d: int)
    ensures E.Total(s + [Term(d, BASE)] + t)
         == Point(E.F.R(E.Total(s).log + d + E.Total(t).log), (E.Total(s).tor + E.Total(t).tor) % 8)
  {
    TotalConcat(E, s + [Term(d, BASE)], t);
    TotalConcat(E, s, [Term(d, BASE)]);
    TotalOfOne(E, Term(d, BASE));
    var S, T := E.Total(s), E.Total(t);
    E.F.Idem(d);
    TorsionOnce(S.tor, T.tor);
    hide Field.R, Group.Total;
    E.F.AddR(S.log, d);
    E.F.AddR(S.log + d, T.log);
    assert E.F.R(d) * 1 == E.F.R(d) && E.F.R(d) * 0 == 0;
  }

  lemma TorsionOnce(s: int, t: int)
    ensures ((s + 0 % 8) % 8 + t) % 8 == (s + t) % 8
  {
  }

  /**
   * The verifier refuses every change to d1: from one accepted proof, another d1 is accepted exactly
   * when it is the same scalar.
   */
  lemma ResponseIsBound(E: Group, commitments: seq<PointBytes>, proof: BulletproofPlus, d1: nat)
    requires Accepts(E, commitments, proof)
    ensures Accepts(E, commitments, proof.(d1 := d1)) <==> E.F.R(d1) == E.F.R(proof.d1)
  {
    var q, p := EquationOf(E, commitments, proof), PointsOf(E, commitments, proof);
    var other := proof.(d1 := d1);
    hide ChallengeY, ChallengeZ, ChallengeE, Chain, Challenges, Field.R, Group.Total, TimesEight, Decoded, Offset, HScalar, GeneratorTerms,
         CommitmentTerms, HeadTerms, RoundTerms;
    assert EquationOf(E, commitments, other) == q.(d1 := E.F.R(d1)) && PointsOf(E, commitments, other) == p;
    SameElsewhere(E, q, p, E.F.R(d1));
    var s := CommitmentTerms(q, p.V8, |p.V8|) + HeadTerms(q, p) + RoundTerms(E.F, q, p, 2 * |q.cs|);
    var t := [Term(HScalar(q), E.H)] + GeneratorTerms(E, q, 2 * q.Size());
    OneMultipleOfBase(E, s, t, q.d1, E.F.R(d1));
    E.F.Idem(d1);
    E.F.Idem(proof.d1);
  }

  lemma SameElsewhere(E: Group, q: Equation, p: ProofPoints, d1: int)
    requires |p.L8| == |p.R8| == |q.cs|
    ensures var s := CommitmentTerms(q, p.V8, |p.V8|) + HeadTerms(q, p) + RoundTerms(E.F, q, p, 2 * |q.cs|);
      var t := [Term(HScalar(q), E.H)] + GeneratorTerms(E, q, 2 * q.Size());
      && EquationTerms(E, q, p) == s + [Term(q.d1, BASE)] + t
      && EquationTerms(E, q.(d1 := d1), p) == s + [Term(d1, BASE)] + t
  {
    var q' := q.(d1 := d1);
    hide Weight, Window, Pow, PowerSum, EvenPowerSum, Field.Inverse;
    assert CommitmentTerms(q', p.V8, |p.V8|) == CommitmentTerms(q, p.V8, |p.V8|);
    assert RoundTerms(E.F, q', p, 2 * |q.cs|) == RoundTerms(E.F, q, p, 2 * |q.cs|);
    SameGenerators(E, q, d1);
    hide CommitmentTerms, RoundTerms, GeneratorTerms, HeadTerms, HScalar;
    var s := CommitmentTerms(q, p.V8, |p.V8|) + HeadTerms(q, p) + RoundTerms(E.F, q, p, 2 * |q.cs|);
    RegroupFixed(s, Term(q.d1, BASE), Term(HScalar(q), E.H), GeneratorTerms(E, q, 2 * q.Size()));
    RegroupFixed(s, Term(d1, BASE), Term(HScalar(q), E.H), GeneratorTerms(E, q, 2 * q.Size()));
    assert HScalar(q') == HScalar(q) && HeadTerms(q', p) == HeadTerms(q, p) by { SameHeads(q, p, d1); }
  }

  lemma SameGenerators(E: Group, q: Equation, d1: int)
    ensures q.(d1 := d1).Size() == q.Size()
    ensures GeneratorTerms(E, q.(d1 := d1), 2 * q.Size()) == GeneratorTerms(E, q, 2 * q.Size())
  {
    var q' := q.(d1 := d1);
    assert q'.Size() == q.Size();
    forall t | 0 <= t < 2 * q.Size()
      ensures GeneratorTerms(E, q', 2 * q.Size())[t] == GeneratorTerms(E, q, 2 * q.Size())[t]
    {
      SameScalars(E.F, q, d1, t / 2);
      hide GiScalar, HiScalar;
    }
  }

  lemma SameScalars(F: Field, q: Equation, d1: int, i: nat)
    requires i < q.Size()
    ensures GiScalar(F, q.(d1 := d1), i) == GiScalar(F, q, i) && HiScalar(F, q.(d1 := d1), i) == HiScalar(F, q, i)
  {
    hide Weight, Window, Pow, Field.Inverse;
  }

  lemma SameHeads(q: Equation, p: ProofPoints, d1: int)
    ensures HScalar(q.(d1 := d1)) == HScalar(q) && HeadTerms(q.(d1 := d1), p) == HeadTerms(q, p)
  {
  }

  lemma RegroupFixed<T>(s: seq<T>, a: T, b: T, t: seq<T>)
    ensures s + [a, b] + t == s + [a] + ([b] + t)
  {
  }

  // ---- The transcript -----------------------------------------------------------------------

  ghost function Rounds(commitments: seq<PointBytes>): nat { PadLog(|commitments|) + LOG_N }

  ghost function Start(E: Group, V: seq<PointBytes>): nat {
    E.HashToScalar([E.initialTranscript, ScalarChunk(E.HashToScalar(PointChunks(V)))])
  }

  ghost function StartQuestion(E: Group, V: seq<PointBytes>): seq<Chunk> {
    [E.initialTranscript, ScalarChunk(E.HashToScalar(PointChunks(V)))]
  }

  function FirstQuestion(start: nat, A: PointBytes): seq<Chunk> { [ScalarChunk(start), PointChunk(A)] }

  function RoundQuestion(before: nat, P: PointBytes, Q: PointBytes): seq<Chunk> { [ScalarChunk(before), PointChunk(P), PointChunk(Q)] }

  /** The question of round j, and after the rounds the one that e answers. */
  ghost function QuestionAt(E: Group, commitments: seq<PointBytes>, proof: BulletproofPlus, j: nat): seq<Chunk>
    requires WellFormed(commitments, proof) && j <= Rounds(commitments)
  {
    var z, n := ChallengeZ(E, ChallengeY(E, Offset(E, commitments), proof.A)), Rounds(commitments);
    RoundQuestion(Chain(E, z, proof.L, proof.R, j), if j < n then proof.L[j] else proof.A1, if j < n then proof.R[j] else proof.B)
  }

  /** Everything the verifier of a proof asks the hash. */
  ghost function Asked(E: Group, commitments: seq<PointBytes>, proof: BulletproofPlus): set<seq<Chunk>>
    requires WellFormed(commitments, proof)
  {
    var V := Offset(E, commitments);
    {PointChunks(V), StartQuestion(E, V), FirstQuestion(Start(E, V), proof.A), [ScalarChunk(ChallengeY(E, V, proof.A))]}
    + (set j | 0 <= j <= Rounds(commitments) :: QuestionAt(E, commitments, proof, j))
  }

  lemma {:induction false} SameTotal(E: Group, E': Group, terms: seq<Term>)
    requires E' == E.(hash := E'.hash)
    ensures E'.Total(terms) == E.Total(terms)
  {
    hide Field.R;
    if terms != [] {
      SameTotal(E, E', terms[..|terms| - 1]);
    }
  }

  ghost predicate Agree(E: Group, E': Group, x: seq<Chunk>) {
    E'.hash(x) == E.hash(x)
  }

  lemma SameScalar(E: Group, E': Group, x: seq<Chunk>)
    requires E'.F == E.F && Agree(E, E', x)
    ensures E'.HashToScalar(x) == E.HashToScalar(x)
  {
  }

  lemma ChainNext(E: Group, z: nat, L: seq<PointBytes>, R: seq<PointBytes>, j: nat)
    requires j < |L| && j < |R|
    ensures Chain(E, z, L, R, j + 1) == E.HashToScalar(RoundQuestion(Chain(E, z, L, R, j), L[j], R[j]))
  {
    hide Group.HashToScalar;
  }

  lemma ChainStart(E: Group, z: nat, L: seq<PointBytes>, R: seq<PointBytes>)
    ensures Chain(E, z, L, R, 0) == z
  {
  }

  lemma {:induction false} SameChain(E: Group, E': Group, z: nat, L: seq<PointBytes>, R: seq<PointBytes>, j: nat)
    requires j <= |L| && j <= |R| && E'.F == E.F
    requires forall i :: 0 <= i < j ==> Agree(E, E', RoundQuestion(Chain(E, z, L, R, i), L[i], R[i]))
    ensures Chain(E', z, L, R, j) == Chain(E, z, L, R, j)
  {
    hide *;
    if j > 0 {
      SameChain(E, E', z, L, R, j - 1);
      ChainNext(E, z, L, R, j - 1);
      ChainNext(E', z, L, R, j - 1);
      SameScalar(E, E', RoundQuestion(Chain(E, z, L, R, j - 1), L[j - 1], R[j - 1]));
    } else {
      ChainStart(E, z, L, R);
      ChainStart(E', z, L, R);
    }
  }

  /** A proof is judged by the answers to what it asks, and by nothing else. */
  lemma SameVerdict(E: Group, E': Group, commitments: seq<PointBytes>, proof: BulletproofPlus)
    requires WellFormed(commitments, proof) && SameAnswers(E, E', Asked(E, commitments, proof))
    ensures Accepts(E', commitments, proof) <==> Accepts(E, commitments, proof)
  {
    var V, n := Offset(E, commitments), Rounds(commitments);
    var z := ChallengeZ(E, ChallengeY(E, V, proof.A));
    SameFirst(E, E', commitments, proof);
    forall j | 0 <= j <= n ensures Chain(E', z, proof.L, proof.R, j) == Chain(E, z, proof.L, proof.R, j) {
      forall i | 0 <= i < j
        ensures Agree(E, E', RoundQuestion(Chain(E, z, proof.L, proof.R, i), proof.L[i], proof.R[i]))
      {
        assert QuestionAt(E, commitments, proof, i) in Asked(E, commitments, proof);
      }
      SameChain(E, E', z, proof.L, proof.R, j);
    }
    SameEquation(E, E', commitments, proof);
    var q, p := EquationOf(E, commitments, proof), PointsOf(E, commitments, proof);
    SameTotal(E, E', EquationTerms(E, q, p));
  }

  lemma SameFirst(E: Group, E': Group, commitments: seq<PointBytes>, proof: BulletproofPlus)
    requires WellFormed(commitments, proof) && SameAnswers(E, E', Asked(E, commitments, proof))
    ensures Offset(E', commitments) == Offset(E, commitments)
    ensures ChallengeY(E', Offset(E, commitments), proof.A) == ChallengeY(E, Offset(E, commitments), proof.A)
    ensures ChallengeZ(E', ChallengeY(E, Offset(E, commitments), proof.A)) == ChallengeZ(E, ChallengeY(E, Offset(E, commitments), proof.A))
  {
    hide Field.R, Field.Inverse, PointChunks, Chain;
  }

  lemma SameEquation(E: Group, E': Group, commitments: seq<PointBytes>, proof: BulletproofPlus)
    requires WellFormed(commitments, proof) && SameAnswers(E, E', Asked(E, commitments, proof))
    requires Offset(E', commitments) == Offset(E, commitments)
    requires ChallengeY(E', Offset(E, commitments), proof.A) == ChallengeY(E, Offset(E, commitments), proof.A)
    requires ChallengeZ(E', ChallengeY(E, Offset(E, commitments), proof.A)) == ChallengeZ(E, ChallengeY(E, Offset(E, commitments), proof.A))
    requires var z := ChallengeZ(E, ChallengeY(E, Offset(E, commitments), proof.A));
      forall j :: 0 <= j <= Rounds(commitments) ==> Chain(E', z, proof.L, proof.R, j) == Chain(E, z, proof.L, proof.R, j)
    ensures EquationOf(E', commitments, proof) == EquationOf(E, commitments, proof)
    ensures PointsOf(E', commitments, proof) == PointsOf(E, commitments, proof)
    ensures var q, p := EquationOf(E, commitments, proof), PointsOf(E, commitments, proof);
      EquationTerms(E', q, p) == EquationTerms(E, q, p)
  {
    hide Field.R, ChallengeY, ChallengeZ, Chain, Offset, CommitmentTerms, RoundTerms, HScalar, HiScalar, GiScalar, PointChunks;
    var n := Rounds(commitments);
    var z := ChallengeZ(E, ChallengeY(E, Offset(E, commitments), proof.A));
    assert Challenges(E', z, proof.L, proof.R, n) == Challenges(E, z, proof.L, proof.R, n);
    assert QuestionAt(E, commitments, proof, n) in Asked(E, commitments, proof);
  }

  lemma RehashedAgrees(E: Group, commitments: seq<PointBytes>, proof: BulletproofPlus, other: seq<Chunk> -> nat)
    requires Accepts(E, commitments, proof)
    ensures Accepts(Rehashed(E, Asked(E, commitments, proof), other), commitments, proof)
  {
    hide Accepts, Asked;
    assert WellFormed(commitments, proof) by { AcceptedShape(E, commitments, proof); }
    SameVerdict(E, Rehashed(E, Asked(E, commitments, proof), other), commitments, proof);
  }

  lemma AcceptedShape(E: Group, commitments: seq<PointBytes>, proof: BulletproofPlus)
    requires Accepts(E, commitments, proof)
    ensures WellFormed(commitments, proof) && NoZeroChallenge(EquationOf(E, commitments, proof))
  {
  }

  function Unlike(n: nat): (m: nat)
    ensures m != n && m <= 1
  {
    if n == 0 then 1 else 0
  }

  /** Answers that lead the commitments V and the point A astray, and zero to everything else. */
  ghost function Astray(E: Group, asked: seq<Chunk>, answer: nat, start: nat): seq<Chunk> -> nat {
    (x: seq<Chunk>) => if x == asked then answer else if x == [E.initialTranscript, ScalarChunk(answer)] then start else 0
  }

  ghost predicate AllTorsionFree(E: Group, commitments: seq<PointBytes>) {
    forall i :: 0 <= i < |commitments| ==> commitments[i].Encodes? && E.TorsionFree(commitments[i].point)
  }

  lemma OffsetTellsApart(E: Group, a: seq<PointBytes>, b: seq<PointBytes>)
    requires E.Valid() && AllTorsionFree(E, a) && AllTorsionFree(E, b) && Offset(E, a) == Offset(E, b)
    ensures a == b
  {
    hide Field.R, Field.Inverse, Group.Times, Group.Valid, Group.TorsionFree;
    forall i | 0 <= i < |a| ensures a[i] == b[i] {
      assert Offset(E, a)[i] == Offset(E, b)[i];
      EighthUndone(E, a[i].point);
      EighthUndone(E, b[i].point);
    }
  }

  lemma ChunksTellApart(a: seq<PointBytes>, b: seq<PointBytes>)
    requires PointChunks(a) == PointChunks(b)
    ensures a == b
  {
    assert |a| == |PointChunks(a)| == |b|;
    forall i | 0 <= i < |a| ensures a[i] == b[i] {
      assert PointChunks(a)[i] == PointChunks(b)[i];
    }
    hide PointChunks;
  }

  lemma SmallReduced(F: Field, n: nat)
    requires n <= 1
    ensures F.R(n) == n
  {
    F.Range(n);
  }

  lemma AskedIs(E: Group, commitments: seq<PointBytes>, proof: BulletproofPlus, x: seq<Chunk>)
    requires WellFormed(commitments, proof)
    ensures x in Asked(E, commitments, proof) <==>
      || x == PointChunks(Offset(E, commitments)) || x == StartQuestion(E, Offset(E, commitments))
      || x == FirstQuestion(Start(E, Offset(E, commitments)), proof.A)
      || x == [ScalarChunk(ChallengeY(E, Offset(E, commitments), proof.A))]
      || exists j :: 0 <= j <= Rounds(commitments) && x == QuestionAt(E, commitments, proof, j)
  {
    hide Chain, ChallengeY, ChallengeZ, Group.HashToScalar, Offset, PointChunks, Start, StartQuestion, FirstQuestion, QuestionAt, PadLog, WellFormed;
  }

  lemma ListNotAsked(E: Group, commitments: seq<PointBytes>, proof: BulletproofPlus, V: seq<PointBytes>)
    requires WellFormed(commitments, proof) && V != [] && V != Offset(E, commitments)
    ensures PointChunks(V) !in Asked(E, commitments, proof)
  {
    hide Chain, ChallengeY, ChallengeZ, Group.HashToScalar, Offset, PointChunks, Asked, Start;
    AskedIs(E, commitments, proof, PointChunks(V));
    ListIsOfPoints(V);
    if PointChunks(V) == PointChunks(Offset(E, commitments)) { ChunksTellApart(V, Offset(E, commitments)); }
  }

  lemma StartNotAsked(E: Group, commitments: seq<PointBytes>, proof: BulletproofPlus, answer: nat)
    requires WellFormed(commitments, proof) && answer != E.HashToScalar(PointChunks(Offset(E, commitments)))
    ensures [E.initialTranscript, ScalarChunk(answer)] !in Asked(E, commitments, proof)
  {
    hide Chain, ChallengeY, ChallengeZ, Group.HashToScalar, Offset, PointChunks, Asked, Start;
    AskedIs(E, commitments, proof, [E.initialTranscript, ScalarChunk(answer)]);
    ListIsOfPoints(Offset(E, commitments));
  }

  lemma FirstNotAsked(E: Group, commitments: seq<PointBytes>, proof: BulletproofPlus, start: nat, A: PointBytes)
    requires WellFormed(commitments, proof) && (start, A) != (Start(E, Offset(E, commitments)), proof.A)
    ensures FirstQuestion(start, A) !in Asked(E, commitments, proof)
  {
    hide Chain, ChallengeY, ChallengeZ, Group.HashToScalar, Offset, PointChunks, Asked, Start;
    AskedIs(E, commitments, proof, FirstQuestion(start, A));
    ListIsOfPoints(Offset(E, commitments));
  }

  /** With those answers the first challenge over other commitments, or another A, is zero. */
  lemma FirstChallengeAstray(E: Group, commitments: seq<PointBytes>, proof: BulletproofPlus, V: seq<PointBytes>, A: PointBytes,
                             other: seq<Chunk> -> nat)
    requires WellFormed(commitments, proof) && V != [] && (V, A) != (Offset(E, commitments), proof.A)
    requires var W := Offset(E, commitments);
      other == Astray(E, PointChunks(V), Unlike(E.HashToScalar(PointChunks(W))), Unlike(Start(E, W)))
    ensures ChallengeY(Rehashed(E, Asked(E, commitments, proof), other), V, A) == 0
  {
    var W := Offset(E, commitments);
    var asked, start, answer := Asked(E, commitments, proof), Start(E, W), Unlike(E.HashToScalar(PointChunks(W)));
    var E' := Rehashed(E, asked, other);
    SmallReduced(E.F, answer);
    SmallReduced(E.F, Unlike(start));
    SmallReduced(E.F, 0);
    var list, startQuestion := PointChunks(V), [E.initialTranscript, ScalarChunk(answer)];
    ListIsOfPoints(V);
    hide Asked, Chain, Offset, ChallengeZ, PointChunks, Group.HashToScalar, Rehashed, Unlike, Field.R;
    if V == W {
      FirstNotAsked(E, commitments, proof, start, A);
      AnswersElse(E, asked, other, FirstQuestion(start, A));
      StartAsIs(E, E', commitments, proof);
    } else {
      ListNotAsked(E, commitments, proof, V);
      AnswersElse(E, asked, other, list);
      StartNotAsked(E, commitments, proof, answer);
      AnswersElse(E, asked, other, startQuestion);
      FirstNotAsked(E, commitments, proof, Unlike(start), A);
      AnswersElse(E, asked, other, FirstQuestion(Unlike(start), A));
    }
  }

  lemma ListIsOfPoints(V: seq<PointBytes>)
    requires V != []
    ensures PointChunks(V) != [] && PointChunks(V)[0].PointChunk? && (|PointChunks(V)| > 1 ==> PointChunks(V)[1].PointChunk?)
  {
    assert PointChunks(V)[0] == PointChunk(V[0]);
    if |V| > 1 { assert PointChunks(V)[1] == PointChunk(V[1]); }
  }

  lemma StartAsIs(E: Group, E': Group, commitments: seq<PointBytes>, proof: BulletproofPlus)
    requires WellFormed(commitments, proof) && SameAnswers(E, E', Asked(E, commitments, proof))
    ensures Start(E', Offset(E, commitments)) == Start(E, Offset(E, commitments))
  {
    hide Chain, Offset, ChallengeZ, PointChunks, Field.R;
  }

  /**
   * A proof is bound to its commitments and to A. If it is accepted, a group that differs in its hash
   * alone still accepts it, and refuses every proof with another A and every proof for those other
   * commitments.
   */
  lemma CommitmentsAreBound(E: Group, commitments: seq<PointBytes>, proof: BulletproofPlus,
                            commitments': seq<PointBytes>, proof': BulletproofPlus) returns (E': Group)
    requires E.Valid() && Accepts(E, commitments, proof) && AllTorsionFree(E, commitments) && AllTorsionFree(E, commitments')
    requires (commitments', proof'.A) != (commitments, proof.A)
    ensures E' == E.(hash := E'.hash)
    ensures Accepts(E', commitments, proof) && !Accepts(E', commitments', proof')
  {
    hide Asked, Chain, Offset, ChallengeY, ChallengeZ, PointChunks, Group.HashToScalar, Field.R, Group.Valid, AllTorsionFree, NoZeroChallenge, Start;
    AcceptedShape(E, commitments, proof);
    E' := E;
    if WellFormed(commitments', proof') {
      if Offset(E, commitments') == Offset(E, commitments) { OffsetTellsApart(E, commitments', commitments); }
      var V, W := Offset(E, commitments'), Offset(E, commitments);
      var other := Astray(E, PointChunks(V), Unlike(E.HashToScalar(PointChunks(W))), Unlike(Start(E, W)));
      E' := Rehashed(E, Asked(E, commitments, proof), other);
      RehashedAgrees(E, commitments, proof, other);
      FirstChallengeAstray(E, commitments, proof, V, proof'.A, other);
      ZeroFirst(E, E', commitments', proof');
    } else {
      MalformedIsRefused(E, commitments', proof');
    }
  }

  lemma MalformedIsRefused(E: Group, commitments: seq<PointBytes>, proof: BulletproofPlus)
    requires !WellFormed(commitments, proof)
    ensures !Accepts(E, commitments, proof)
  {
  }

  lemma ZeroFirst(E: Group, E': Group, commitments: seq<PointBytes>, proof: BulletproofPlus)
    requires WellFormed(commitments, proof) && E' == E.(hash := E'.hash)
    requires ChallengeY(E', Offset(E, commitments), proof.A) == 0
    ensures !Accepts(E', commitments, proof)
  {
    assert Offset(E', commitments) == Offset(E, commitments);
    hide ChallengeY, ChallengeZ, Chain, Challenges, Field.R, Offset;
  }

  // ---- The rounds -----------------------------------------------------------------------------

  /** No challenge of the transcript repeats an earlier one. */
  ghost predicate NoneRepeats(E: Group, commitments: seq<PointBytes>, proof: BulletproofPlus)
    requires WellFormed(commitments, proof)
  {
    var z := ChallengeZ(E, ChallengeY(E, Offset(E, commitments), proof.A));
    forall i, j :: 0 <= i < j <= Rounds(commitments) ==> Chain(E, z, proof.L, proof.R, i) != Chain(E, z, proof.L, proof.R, j)
  }

  lemma RoundNotAsked(E: Group, commitments: seq<PointBytes>, proof: BulletproofPlus, j: nat, P: PointBytes, Q: PointBytes)
    requires WellFormed(commitments, proof) && NoneRepeats(E, commitments, proof) && j <= Rounds(commitments)
    requires (P, Q) != if j < Rounds(commitments) then (proof.L[j], proof.R[j]) else (proof.A1, proof.B)
    ensures RoundQuestion(Chain(E, ChallengeZ(E, ChallengeY(E, Offset(E, commitments), proof.A)), proof.L, proof.R, j), P, Q)
         !in Asked(E, commitments, proof)
  {
    hide Chain, ChallengeY, ChallengeZ, Group.HashToScalar, Offset, PointChunks, Asked, Start;
    AskedIs(E, commitments, proof,
            RoundQuestion(Chain(E, ChallengeZ(E, ChallengeY(E, Offset(E, commitments), proof.A)), proof.L, proof.R, j), P, Q));
    ListIsOfPoints(Offset(E, commitments));
  }

  /** The proof's z. */
  ghost function ZOf(E: Group, commitments: seq<PointBytes>, A: PointBytes): nat
    requires AllDecode(commitments)
  {
    ChallengeZ(E, ChallengeY(E, Offset(E, commitments), A))
  }

  lemma AcceptedRound(E: Group, commitments: seq<PointBytes>, proof: BulletproofPlus, j: nat)
    requires Accepts(E, commitments, proof) && j <= Rounds(commitments)
    ensures WellFormed(commitments, proof)
    ensures j < Rounds(commitments) ==> Chain(E, ZOf(E, commitments, proof.A), proof.L, proof.R, j + 1) != 0
    ensures j == Rounds(commitments) ==>
      E.HashToScalar(RoundQuestion(Chain(E, ZOf(E, commitments, proof.A), proof.L, proof.R, j), proof.A1, proof.B)) != 0
  {
    hide Chain, ChallengeY, ChallengeZ, Group.HashToScalar, Offset, PointChunks, Start, Group.Total, EquationTerms, PointsOf;
    var q := EquationOf(E, commitments, proof);
    if j < Rounds(commitments) {
      assert q.cs[j] == Chain(E, ZOf(E, commitments, proof.A), proof.L, proof.R, j + 1);
    }
  }

  /** The hash answers zero to everything but the proof's own questions. */
  ghost function Silent(E: Group, commitments: seq<PointBytes>, proof: BulletproofPlus): Group
    requires WellFormed(commitments, proof)
  {
    Rehashed(E, Asked(E, commitments, proof), x => 0)
  }

  lemma SilentZ(E: Group, commitments: seq<PointBytes>, proof: BulletproofPlus)
    requires WellFormed(commitments, proof)
    ensures ZOf(Silent(E, commitments, proof), commitments, proof.A) == ZOf(E, commitments, proof.A)
  {
    hide Asked, ChallengeY, ChallengeZ, Offset, Group.HashToScalar;
    SameFirst(E, Silent(E, commitments, proof), commitments, proof);
  }

  /** There a question off the proof's own is answered with zero, which no accepted proof survives. */
  lemma QuestionIsOwn(E: Group, commitments: seq<PointBytes>, proof: BulletproofPlus, j: nat, P: PointBytes, Q: PointBytes)
    requires WellFormed(commitments, proof) && NoneRepeats(E, commitments, proof) && j <= Rounds(commitments)
    requires Silent(E, commitments, proof).HashToScalar(
               RoundQuestion(Chain(E, ZOf(E, commitments, proof.A), proof.L, proof.R, j), P, Q)) != 0
    ensures (P, Q) == if j < Rounds(commitments) then (proof.L[j], proof.R[j]) else (proof.A1, proof.B)
  {
    hide Chain, ChallengeY, ChallengeZ, Group.HashToScalar, Offset, PointChunks, Asked, NoneRepeats, RoundQuestion, Field.R, Rehashed;
    if (P, Q) != if j < Rounds(commitments) then (proof.L[j], proof.R[j]) else (proof.A1, proof.B) {
      RoundNotAsked(E, commitments, proof, j, P, Q);
      AnswersElse(E, Asked(E, commitments, proof), x => 0,
                  RoundQuestion(Chain(E, ZOf(E, commitments, proof.A), proof.L, proof.R, j), P, Q));
      SmallReduced(E.F, 0);
      assert false;
    }
  }

  lemma SilentRound(E: Group, commitments: seq<PointBytes>, proof: BulletproofPlus, j: nat)
    requires WellFormed(commitments, proof) && j < Rounds(commitments)
    ensures Silent(E, commitments, proof).HashToScalar(
              RoundQuestion(Chain(E, ZOf(E, commitments, proof.A), proof.L, proof.R, j), proof.L[j], proof.R[j]))
         == Chain(E, ZOf(E, commitments, proof.A), proof.L, proof.R, j + 1)
  {
    hide Chain, ChallengeY, ChallengeZ, Offset, PointChunks, Field.R;
    assert QuestionAt(E, commitments, proof, j) in Asked(E, commitments, proof);
    ChainNext(E, ZOf(E, commitments, proof.A), proof.L, proof.R, j);
  }

  lemma {:induction false} RoundsFollow(E: Group, commitments: seq<PointBytes>, proof: BulletproofPlus, proof': BulletproofPlus, j: nat)
    requires WellFormed(commitments, proof) && NoneRepeats(E, commitments, proof) && j <= Rounds(commitments)
    requires Accepts(Silent(E, commitments, proof), commitments, proof') && proof'.A == proof.A
    ensures |proof'.L| == |proof.L| == |proof'.R| == |proof.R| == Rounds(commitments)
    ensures proof'.L[..j] == proof.L[..j] && proof'.R[..j] == proof.R[..j]
    ensures Chain(Silent(E, commitments, proof), ZOf(E, commitments, proof.A), proof'.L, proof'.R, j)
         == Chain(E, ZOf(E, commitments, proof.A), proof.L, proof.R, j)
  {
    hide *;
    RoundCount(commitments, proof);
    var E', z := Silent(E, commitments, proof), ZOf(E, commitments, proof.A);
    AcceptedRound(E', commitments, proof', 0);
    RoundCount(commitments, proof');
    SilentZ(E, commitments, proof);
    if j > 0 {
      RoundsFollow(E, commitments, proof, proof', j - 1);
      AcceptedRound(E', commitments, proof', j - 1);
      ChainNext(E', z, proof'.L, proof'.R, j - 1);
      QuestionIsOwn(E, commitments, proof, j - 1, proof'.L[j - 1], proof'.R[j - 1]);
      SilentRound(E, commitments, proof, j - 1);
      OneMore(proof'.L, proof.L, j - 1);
      OneMore(proof'.R, proof.R, j - 1);
    } else {
      ChainStart(E, z, proof.L, proof.R);
      ChainStart(E', z, proof'.L, proof'.R);
    }
  }

  lemma RoundCount(commitments: seq<PointBytes>, proof: BulletproofPlus)
    requires WellFormed(commitments, proof)
    ensures |proof.L| == |proof.R| == Rounds(commitments) && AllDecode(commitments)
  {
  }

  lemma OneMore<T>(s: seq<T>, t: seq<T>, j: nat)
    requires j < |s| && j < |t| && s[..j] == t[..j] && s[j] == t[j]
    ensures s[..j + 1] == t[..j + 1]
  {
  }

  /**
   * And to every other point in it, unless its transcript repeats a challenge: the group whose hash is
   * silent but for this proof's questions accepts, over these commitments and this A, proofs with
   * these points only.
   */
  lemma PointsAreBound(E: Group, commitments: seq<PointBytes>, proof: BulletproofPlus, proof': BulletproofPlus)
    requires Accepts(E, commitments, proof) && WellFormed(commitments, proof) && NoneRepeats(E, commitments, proof) && proof'.A == proof.A
    ensures Accepts(Silent(E, commitments, proof), commitments, proof)
    ensures Accepts(Silent(E, commitments, proof), commitments, proof') ==>
      proof'.L == proof.L && proof'.R == proof.R && proof'.A1 == proof.A1 && proof'.B == proof.B
  {
    hide Group.HashToScalar, Asked, Accepts, NoneRepeats, Chain, ZOf, RoundQuestion, Field.R;
    var n := Rounds(commitments);
    RehashedAgrees(E, commitments, proof, x => 0);
    if Accepts(Silent(E, commitments, proof), commitments, proof') {
      RoundsFollow(E, commitments, proof, proof', n);
      AcceptedRound(Silent(E, commitments, proof), commitments, proof', n);
      SilentZ(E, commitments, proof);
      QuestionIsOwn(E, commitments, proof, n, proof'.A1, proof'.B);
      assert proof'.L[..n] == proof'.L && proof.L[..n] == proof.L && proof'.R[..n] == proof'.R && proof.R[..n] == proof.R;
    }
  }

  // ---- What else the challenges follow ------------------------------------------------------------

  /** z follows y: two values of y can lead to any two values of z. */
  lemma ZFollowsY(E: Group, y: nat, y': nat, u: nat, v: nat) returns (E': Group)
    requires y != y' && u < E.F.L && v < E.F.L
    ensures E' == E.(hash := E'.hash) && ChallengeZ(E', y) == u && ChallengeZ(E', y') == v
  {
    assert [ScalarChunk(y)][0] != [ScalarChunk(y')][0];
    E' := TwoAnswers(E, [ScalarChunk(y)], u, [ScalarChunk(y')], v);
    hide Group.HashToScalar;
  }

  /** Where the transcript starts matters: for some hash another domain leads to another y. */
  lemma YFollowsDomain(E: Group, domain: Chunk, V: seq<PointBytes>, A: PointBytes) returns (E': Group)
    requires domain != E.initialTranscript && V != []
    ensures E' == E.(hash := E'.hash)
    ensures ChallengeY(E', V, A) == 1 && ChallengeY(E'.(initialTranscript := domain), V, A) == 0
  {
    ListIsOfPoints(V);
    SmallReduced(E.F, 0);
    SmallReduced(E.F, 1);
    var startQuestion, first := [E.initialTranscript, ScalarChunk(0)], FirstQuestion(1, A);
    E' := E.(hash := (x: seq<Chunk>) => if x == startQuestion || x == first then 1 else 0);
    hide Field.R, PointChunks;
    assert PointChunks(V) != startQuestion && PointChunks(V) != first;
    assert [domain, ScalarChunk(0)] != startQuestion && [domain, ScalarChunk(0)] != first;
    assert FirstQuestion(0, A) != startQuestion && FirstQuestion(0, A) != first;
  }
}
