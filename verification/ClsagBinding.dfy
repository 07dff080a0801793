/** What an accepted ring signature is bound to: its message, ring, pseudo-output, key image and D, and how its hashes keep apart. */
module ClsagBinding {
  import opened Sums
  import opened Scalars
  import opened Curve
  import opened Clsag

  // ---- The questions -----------------------------------------------------------------------

  function AggregateQuestion(domain: string, ring: seq<RingMember>, I: PointBytes, dInv8: PointBytes, pseudoOut: PointBytes): seq<Chunk> {
    [TextChunk(domain)] + KeyChunks(ring) + CommitmentChunks(ring) + [PointChunk(I), PointChunk(dInv8), PointChunk(pseudoOut)]
  }

  function RoundQuestion(message: Chunk, ring: seq<RingMember>, pseudoOut: PointBytes, L: Point, R: Point): seq<Chunk> {
    [TextChunk("CLSAG_round")] + KeyChunks(ring) + CommitmentChunks(ring)
    + [PointChunk(pseudoOut), message, PointChunk(Encodes(L)), PointChunk(Encodes(R))]
  }

  lemma {:induction false} RingChunks(ring: seq<RingMember>)
    ensures |KeyChunks(ring)| == |CommitmentChunks(ring)| == |ring|
    ensures forall i :: 0 <= i < |ring| ==>
      KeyChunks(ring)[i] == PointChunk(ring[i].key) && CommitmentChunks(ring)[i] == PointChunk(ring[i].commitment)
  {
    if ring != [] {
      RingChunks(ring[..|ring| - 1]);
    }
  }

  lemma RingsTellApart(a: seq<RingMember>, b: seq<RingMember>)
    requires KeyChunks(a) == KeyChunks(b) && CommitmentChunks(a) == CommitmentChunks(b)
    ensures a == b
  {
    RingChunks(a);
    RingChunks(b);
    hide KeyChunks, CommitmentChunks;
    forall i | 0 <= i < |a| ensures a[i] == b[i] {
      assert KeyChunks(a)[i] == KeyChunks(b)[i] && CommitmentChunks(a)[i] == CommitmentChunks(b)[i];
    }
  }

  /** Two lists of one length, each in two halves and the same tail length. */
  lemma SplitAlike<T>(d: T, k: seq<T>, c: seq<T>, t: seq<T>, d': T, k': seq<T>, c': seq<T>, t': seq<T>)
    requires |k| == |c| && |k'| == |c'| && |t| == |t'|
    requires [d] + k + c + t == [d'] + k' + c' + t'
    ensures d == d' && k == k' && c == c' && t == t'
  {
    var s, s' := [d] + k + c + t, [d'] + k' + c' + t';
    assert |s| == 1 + 2 * |k| + |t| && |s'| == 1 + 2 * |k'| + |t'|;
    var n := |k|;
    assert s[0] == d && s'[0] == d';
    assert s[1..1 + n] == k && s'[1..1 + n] == k';
    assert s[1 + n..1 + 2 * n] == c && s'[1 + n..1 + 2 * n] == c';
    assert s[1 + 2 * n..] == t && s'[1 + 2 * n..] == t';
  }

  lemma AggregatesTellApart(domain: string, ring: seq<RingMember>, I: PointBytes, D: PointBytes, pseudoOut: PointBytes,
                            domain': string, ring': seq<RingMember>, I': PointBytes, D': PointBytes, pseudoOut': PointBytes)
    requires AggregateQuestion(domain, ring, I, D, pseudoOut) == AggregateQuestion(domain', ring', I', D', pseudoOut')
    ensures domain == domain' && ring == ring' && I == I' && D == D' && pseudoOut == pseudoOut'
  {
    RingChunks(ring);
    RingChunks(ring');
    hide KeyChunks, CommitmentChunks;
    var t, t' := [PointChunk(I), PointChunk(D), PointChunk(pseudoOut)], [PointChunk(I'), PointChunk(D'), PointChunk(pseudoOut')];
    SplitAlike(TextChunk(domain), KeyChunks(ring), CommitmentChunks(ring), t, TextChunk(domain'), KeyChunks(ring'), CommitmentChunks(ring'), t');
    assert t[0] == t'[0] && t[1] == t'[1] && t[2] == t'[2];
    RingsTellApart(ring, ring');
  }

  lemma RoundsTellApart(message: Chunk, ring: seq<RingMember>, pseudoOut: PointBytes, L: Point, R: Point,
                        message': Chunk, ring': seq<RingMember>, pseudoOut': PointBytes, L': Point, R': Point)
    requires RoundQuestion(message, ring, pseudoOut, L, R) == RoundQuestion(message', ring', pseudoOut', L', R')
    ensures message == message' && ring == ring' && pseudoOut == pseudoOut' && L == L' && R == R'
  {
    RingChunks(ring);
    RingChunks(ring');
    hide KeyChunks, CommitmentChunks;
    var t := [PointChunk(pseudoOut), message, PointChunk(Encodes(L)), PointChunk(Encodes(R))];
    var t' := [PointChunk(pseudoOut'), message', PointChunk(Encodes(L')), PointChunk(Encodes(R'))];
    var d := TextChunk("CLSAG_round");
    SplitAlike(d, KeyChunks(ring), CommitmentChunks(ring), t, d, KeyChunks(ring'), CommitmentChunks(ring'), t');
    assert t[0] == t'[0] && t[1] == t'[1] && t[2] == t'[2] && t[3] == t'[3];
    RingsTellApart(ring, ring');
  }

  lemma AggregateIsNoRound(domain: string, ring: seq<RingMember>, I: PointBytes, D: PointBytes, pseudoOut: PointBytes,
                           message': Chunk, ring': seq<RingMember>, pseudoOut': PointBytes, L': Point, R': Point)
    requires domain == "CLSAG_agg_0" || domain == "CLSAG_agg_1"
    ensures AggregateQuestion(domain, ring, I, D, pseudoOut) != RoundQuestion(message', ring', pseudoOut', L', R')
  {
    assert "CLSAG_agg_0"[6] == "CLSAG_agg_1"[6] == 'a' && "CLSAG_round"[6] == 'r';
    assert AggregateQuestion(domain, ring, I, D, pseudoOut)[0] == TextChunk(domain);
    assert RoundQuestion(message', ring', pseudoOut', L', R')[0] == TextChunk("CLSAG_round");
    hide KeyChunks, CommitmentChunks;
  }

  lemma DomainsDiffer()
    ensures "CLSAG_agg_0" != "CLSAG_agg_1"
  {
    assert "CLSAG_agg_0"[10] == '0' && "CLSAG_agg_1"[10] == '1';
  }

  // ---- How the hashes keep apart ---------------------------------------------------------------

  /** Two rounds that differ in anything can be given any two challenges. */
  lemma RoundsAreFree(E: Group, message: Chunk, ring: seq<RingMember>, pseudoOut: PointBytes, L: Point, R: Point,
                      message': Chunk, ring': seq<RingMember>, pseudoOut': PointBytes, L': Point, R': Point, u: nat, v: nat)
    returns (E': Group)
    requires (message, ring, pseudoOut, L, R) != (message', ring', pseudoOut', L', R') && u < E.F.L && v < E.F.L
    ensures E' == E.(hash := E'.hash)
    ensures RoundChallenge(E', message, ring, pseudoOut, L, R) == u && RoundChallenge(E', message', ring', pseudoOut', L', R') == v
  {
    var x, y := RoundQuestion(message, ring, pseudoOut, L, R), RoundQuestion(message', ring', pseudoOut', L', R');
    if x == y { RoundsTellApart(message, ring, pseudoOut, L, R, message', ring', pseudoOut', L', R'); }
    hide KeyChunks, CommitmentChunks, Group.HashToScalar;
    E' := TwoAnswers(E, x, u, y, v);
  }

  /** So can two aggregation coefficients, the two of one signature among them. */
  lemma AggregatesAreFree(E: Group, domain: string, ring: seq<RingMember>, I: PointBytes, D: PointBytes, pseudoOut: PointBytes,
                          domain': string, ring': seq<RingMember>, I': PointBytes, D': PointBytes, pseudoOut': PointBytes, u: nat, v: nat)
    returns (E': Group)
    requires (domain, ring, I, D, pseudoOut) != (domain', ring', I', D', pseudoOut') && u < E.F.L && v < E.F.L
    ensures E' == E.(hash := E'.hash)
    ensures Aggregate(E', domain, ring, I, D, pseudoOut) == u && Aggregate(E', domain', ring', I', D', pseudoOut') == v
  {
    var x, y := AggregateQuestion(domain, ring, I, D, pseudoOut), AggregateQuestion(domain', ring', I', D', pseudoOut');
    if x == y { AggregatesTellApart(domain, ring, I, D, pseudoOut, domain', ring', I', D', pseudoOut'); }
    hide KeyChunks, CommitmentChunks, Group.HashToScalar;
    E' := TwoAnswers(E, x, u, y, v);
  }

  /** The coefficients of the key and of the commitment are independent. */
  lemma CoefficientsAreFree(E: Group, message: Chunk, ring: seq<RingMember>, pseudoOut: PointBytes, sig: Clsag, u: nat, v: nat)
    returns (E': Group)
    requires Readable(ring, pseudoOut, sig) && u < E.F.L && v < E.F.L
    ensures E' == E.(hash := E'.hash)
    ensures ContextOf(E', message, ring, pseudoOut, sig).muP == u && ContextOf(E', message, ring, pseudoOut, sig).muC == v
  {
    DomainsDiffer();
    hide Aggregate, Group.Plus, Group.Times, Readable;
    E' := AggregatesAreFree(E, "CLSAG_agg_0", ring, sig.keyImage, sig.dInv8, pseudoOut,
                            "CLSAG_agg_1", ring, sig.keyImage, sig.dInv8, pseudoOut, u, v);
  }

  // ---- One signature's hash ------------------------------------------------------------------------

  /** The challenge before member i. */
  ghost function ChallengeBefore(E: Group, message: Chunk, ring: seq<RingMember>, pseudoOut: PointBytes, sig: Clsag, i: nat): nat
    requires Readable(ring, pseudoOut, sig) && i <= |ring|
  {
    Walk(E, ContextOf(E, message, ring, pseudoOut, sig), sig.s, E.F.R(sig.c1), i)
  }

  ghost function LeftAt(E: Group, message: Chunk, ring: seq<RingMember>, pseudoOut: PointBytes, sig: Clsag, i: nat): Point
    requires Readable(ring, pseudoOut, sig) && i < |ring|
  {
    var ctx := ContextOf(E, message, ring, pseudoOut, sig);
    LeftPoint(E, ring[i].key.point, ring[i].commitment.point, pseudoOut.point, ctx.muP, ctx.muC, E.F.R(sig.s[i]),
              ChallengeBefore(E, message, ring, pseudoOut, sig, i))
  }

  ghost function RightAt(E: Group, message: Chunk, ring: seq<RingMember>, pseudoOut: PointBytes, sig: Clsag, i: nat): Point
    requires Readable(ring, pseudoOut, sig) && i < |ring|
  {
    RightPoint(E, E.ec(ring[i].key), ContextOf(E, message, ring, pseudoOut, sig).aggImage, E.F.R(sig.s[i]),
               ChallengeBefore(E, message, ring, pseudoOut, sig, i))
  }

  ghost function QuestionAt(E: Group, message: Chunk, ring: seq<RingMember>, pseudoOut: PointBytes, sig: Clsag, i: nat): seq<Chunk>
    requires Readable(ring, pseudoOut, sig) && i < |ring|
  {
    RoundQuestion(message, ring, pseudoOut, LeftAt(E, message, ring, pseudoOut, sig, i), RightAt(E, message, ring, pseudoOut, sig, i))
  }

  lemma ChallengeNext(E: Group, message: Chunk, ring: seq<RingMember>, pseudoOut: PointBytes, sig: Clsag, i: nat)
    requires Readable(ring, pseudoOut, sig) && i < |ring|
    ensures ChallengeBefore(E, message, ring, pseudoOut, sig, i + 1) == E.HashToScalar(QuestionAt(E, message, ring, pseudoOut, sig, i))
  {
    hide Field.R, LeftPoint, RightPoint, Group.HashToScalar, KeyChunks, CommitmentChunks, Aggregate, Group.Plus, Group.Times;
  }

  lemma ChallengeStart(E: Group, message: Chunk, ring: seq<RingMember>, pseudoOut: PointBytes, sig: Clsag)
    requires Readable(ring, pseudoOut, sig)
    ensures ChallengeBefore(E, message, ring, pseudoOut, sig, 0) == E.F.R(sig.c1)
  {
  }

  /** Everything the verifier of a signature asks the hash. */
  ghost function Asked(E: Group, message: Chunk, ring: seq<RingMember>, pseudoOut: PointBytes, sig: Clsag): set<seq<Chunk>>
    requires Readable(ring, pseudoOut, sig)
  {
    {AggregateQuestion("CLSAG_agg_0", ring, sig.keyImage, sig.dInv8, pseudoOut),
     AggregateQuestion("CLSAG_agg_1", ring, sig.keyImage, sig.dInv8, pseudoOut)}
    + (set i | 0 <= i < |ring| :: QuestionAt(E, message, ring, pseudoOut, sig, i))
  }

  lemma AskedIs(E: Group, message: Chunk, ring: seq<RingMember>, pseudoOut: PointBytes, sig: Clsag, x: seq<Chunk>)
    requires Readable(ring, pseudoOut, sig)
    ensures x in Asked(E, message, ring, pseudoOut, sig) <==>
      || x == AggregateQuestion("CLSAG_agg_0", ring, sig.keyImage, sig.dInv8, pseudoOut)
      || x == AggregateQuestion("CLSAG_agg_1", ring, sig.keyImage, sig.dInv8, pseudoOut)
      || exists i :: 0 <= i < |ring| && x == QuestionAt(E, message, ring, pseudoOut, sig, i)
  {
    hide AggregateQuestion, QuestionAt, Readable;
  }

  /** The hash answers zero to everything but this signature's own questions. */
  ghost function Silent(E: Group, message: Chunk, ring: seq<RingMember>, pseudoOut: PointBytes, sig: Clsag): (E': Group)
    requires Readable(ring, pseudoOut, sig)
    ensures E' == E.(hash := E'.hash)
  {
    Rehashed(E, Asked(E, message, ring, pseudoOut, sig), x => 0)
  }

  lemma SilentAnswers(E: Group, message: Chunk, ring: seq<RingMember>, pseudoOut: PointBytes, sig: Clsag, x: seq<Chunk>)
    requires Readable(ring, pseudoOut, sig)
    ensures var E' := Silent(E, message, ring, pseudoOut, sig);
      E'.HashToScalar(x) == if x in Asked(E, message, ring, pseudoOut, sig) then E.HashToScalar(x) else 0
  {
    E.F.Range(0);
    hide Asked, Field.R;
  }

  lemma SilentContext(E: Group, message: Chunk, ring: seq<RingMember>, pseudoOut: PointBytes, sig: Clsag)
    requires Readable(ring, pseudoOut, sig)
    ensures ContextOf(Silent(E, message, ring, pseudoOut, sig), message, ring, pseudoOut, sig) == ContextOf(E, message, ring, pseudoOut, sig)
  {
    var q0 := AggregateQuestion("CLSAG_agg_0", ring, sig.keyImage, sig.dInv8, pseudoOut);
    var q1 := AggregateQuestion("CLSAG_agg_1", ring, sig.keyImage, sig.dInv8, pseudoOut);
    SilentAnswers(E, message, ring, pseudoOut, sig, q0);
    SilentAnswers(E, message, ring, pseudoOut, sig, q1);
    AskedIs(E, message, ring, pseudoOut, sig, q0);
    AskedIs(E, message, ring, pseudoOut, sig, q1);
    hide Group.HashToScalar, KeyChunks, CommitmentChunks, Asked, Silent, Field.R;
  }

  lemma {:induction false} SilentWalk(E: Group, message: Chunk, ring: seq<RingMember>, pseudoOut: PointBytes, sig: Clsag, i: nat)
    requires Readable(ring, pseudoOut, sig) && i <= |ring|
    ensures ChallengeBefore(Silent(E, message, ring, pseudoOut, sig), message, ring, pseudoOut, sig, i)
         == ChallengeBefore(E, message, ring, pseudoOut, sig, i)
  {
    hide *;
    var E' := Silent(E, message, ring, pseudoOut, sig);
    if i > 0 {
      SilentWalk(E, message, ring, pseudoOut, sig, i - 1);
      SilentContext(E, message, ring, pseudoOut, sig);
      var x := QuestionAt(E, message, ring, pseudoOut, sig, i - 1);
      SameQuestion(E, E', message, ring, pseudoOut, sig, i - 1);
      SilentAnswers(E, message, ring, pseudoOut, sig, x);
      AskedIs(E, message, ring, pseudoOut, sig, x);
      ChallengeNext(E, message, ring, pseudoOut, sig, i - 1);
      ChallengeNext(E', message, ring, pseudoOut, sig, i - 1);
    } else {
      ChallengeStart(E, message, ring, pseudoOut, sig);
      ChallengeStart(E', message, ring, pseudoOut, sig);
    }
  }

  lemma SameQuestion(E: Group, E': Group, message: Chunk, ring: seq<RingMember>, pseudoOut: PointBytes, sig: Clsag, i: nat)
    requires Readable(ring, pseudoOut, sig) && i < |ring| && E' == E.(hash := E'.hash)
    requires ContextOf(E', message, ring, pseudoOut, sig) == ContextOf(E, message, ring, pseudoOut, sig)
    requires ChallengeBefore(E', message, ring, pseudoOut, sig, i) == ChallengeBefore(E, message, ring, pseudoOut, sig, i)
    ensures QuestionAt(E', message, ring, pseudoOut, sig, i) == QuestionAt(E, message, ring, pseudoOut, sig, i)
  {
    hide Field.R, ChallengeBefore, ContextOf, RoundQuestion;
  }

  lemma AcceptedIs(E: Group, message: Chunk, ring: seq<RingMember>, pseudoOut: PointBytes, sig: Clsag)
    ensures Accepts(E, message, ring, pseudoOut, sig) <==>
      && Readable(ring, pseudoOut, sig)
      && ContextOf(E, message, ring, pseudoOut, sig).muP != 0 && ContextOf(E, message, ring, pseudoOut, sig).muC != 0
      && (forall i :: 0 <= i < |ring| ==> E.F.R(sig.s[i]) != 0 && ChallengeBefore(E, message, ring, pseudoOut, sig, i) != 0)
      && ChallengeBefore(E, message, ring, pseudoOut, sig, |ring|) == E.F.R(sig.c1)
  {
    hide Walk, ContextOf, Field.R, RingDecodes;
  }

  lemma StillAccepted(E: Group, message: Chunk, ring: seq<RingMember>, pseudoOut: PointBytes, sig: Clsag)
    requires Readable(ring, pseudoOut, sig) && Accepts(E, message, ring, pseudoOut, sig)
    ensures Accepts(Silent(E, message, ring, pseudoOut, sig), message, ring, pseudoOut, sig)
  {
    hide Silent, Accepts, Readable, ContextOf, ChallengeBefore, Field.R;
    var E' := Silent(E, message, ring, pseudoOut, sig);
    AcceptedIs(E, message, ring, pseudoOut, sig);
    AcceptedIs(E', message, ring, pseudoOut, sig);
    SilentContext(E, message, ring, pseudoOut, sig);
    forall i | 0 <= i <= |ring|
      ensures ChallengeBefore(E', message, ring, pseudoOut, sig, i) == ChallengeBefore(E, message, ring, pseudoOut, sig, i)
    {
      SilentWalk(E, message, ring, pseudoOut, sig, i);
    }
    assert |sig.s| == |ring| by { ReadableRing(ring, pseudoOut, sig); }
  }

  lemma AcceptedNeeds(E: Group, message: Chunk, ring: seq<RingMember>, pseudoOut: PointBytes, sig: Clsag)
    requires Accepts(E, message, ring, pseudoOut, sig)
    ensures Readable(ring, pseudoOut, sig) && |ring| >= 1
    ensures E.HashToScalar(AggregateQuestion("CLSAG_agg_0", ring, sig.keyImage, sig.dInv8, pseudoOut)) != 0
    ensures E.HashToScalar(RoundQuestion(message, ring, pseudoOut, LeftAt(E, message, ring, pseudoOut, sig, |ring| - 1),
                                         RightAt(E, message, ring, pseudoOut, sig, |ring| - 1))) == E.F.R(sig.c1) != 0
  {
    hide Walk, Field.R, RingDecodes, Group.HashToScalar, KeyChunks, CommitmentChunks, Group.Plus, Group.Times, LeftAt, RightAt;
    var n := |ring|;
    assert Readable(ring, pseudoOut, sig);
    ChallengeNext(E, message, ring, pseudoOut, sig, n - 1);
    ChallengeStart(E, message, ring, pseudoOut, sig);
    assert ChallengeBefore(E, message, ring, pseudoOut, sig, 0) != 0;
  }

  /**
   * A signature is bound to its message, its ring, its pseudo-output, its key image and its D. If it is
   * accepted, the group whose hash is silent but for this signature's questions still accepts it, and
   * whatever else is accepted there agrees with it in all of these.
   */
  lemma SignatureIsBound(E: Group, message: Chunk, ring: seq<RingMember>, pseudoOut: PointBytes, sig: Clsag,
                         message': Chunk, ring': seq<RingMember>, pseudoOut': PointBytes, sig': Clsag)
    requires Readable(ring, pseudoOut, sig) && Accepts(E, message, ring, pseudoOut, sig)
    ensures Accepts(Silent(E, message, ring, pseudoOut, sig), message, ring, pseudoOut, sig)
    ensures Accepts(Silent(E, message, ring, pseudoOut, sig), message', ring', pseudoOut', sig') ==>
      message' == message && ring' == ring && pseudoOut' == pseudoOut && sig'.keyImage == sig.keyImage && sig'.dInv8 == sig.dInv8
  {
    hide *;
    var E' := Silent(E, message, ring, pseudoOut, sig);
    StillAccepted(E, message, ring, pseudoOut, sig);
    if Accepts(E', message', ring', pseudoOut', sig') {
      AcceptedNeeds(E', message', ring', pseudoOut', sig');
      AggregateIsOwn(E, message, ring, pseudoOut, sig, ring', pseudoOut', sig'.keyImage, sig'.dInv8);
      var _ := RoundIsOwn(E, message, ring, pseudoOut, sig, message', ring', pseudoOut',
                 LeftAt(E', message', ring', pseudoOut', sig', |ring'| - 1), RightAt(E', message', ring', pseudoOut', sig', |ring'| - 1));
    }
  }

  lemma AggregateIsOwn(E: Group, message: Chunk, ring: seq<RingMember>, pseudoOut: PointBytes, sig: Clsag,
                       ring': seq<RingMember>, pseudoOut': PointBytes, I: PointBytes, D: PointBytes)
    requires Readable(ring, pseudoOut, sig)
    requires Silent(E, message, ring, pseudoOut, sig).HashToScalar(AggregateQuestion("CLSAG_agg_0", ring', I, D, pseudoOut')) != 0
    ensures ring' == ring && pseudoOut' == pseudoOut && I == sig.keyImage && D == sig.dInv8
  {
    hide Asked, Silent, AggregateQuestion, Group.HashToScalar, Readable, LeftAt, RightAt;
    var x := AggregateQuestion("CLSAG_agg_0", ring', I, D, pseudoOut');
    SilentAnswers(E, message, ring, pseudoOut, sig, x);
    AskedIs(E, message, ring, pseudoOut, sig, x);
    DomainsDiffer();
    if x == AggregateQuestion("CLSAG_agg_0", ring, sig.keyImage, sig.dInv8, pseudoOut) {
      AggregatesTellApart("CLSAG_agg_0", ring', I, D, pseudoOut', "CLSAG_agg_0", ring, sig.keyImage, sig.dInv8, pseudoOut);
    } else if x == AggregateQuestion("CLSAG_agg_1", ring, sig.keyImage, sig.dInv8, pseudoOut) {
      AggregatesTellApart("CLSAG_agg_0", ring', I, D, pseudoOut', "CLSAG_agg_1", ring, sig.keyImage, sig.dInv8, pseudoOut);
    } else {
      var i :| 0 <= i < |ring| && x == QuestionAt(E, message, ring, pseudoOut, sig, i);
      AggregateIsNoRound("CLSAG_agg_0", ring', I, D, pseudoOut', message, ring, pseudoOut,
                         LeftAt(E, message, ring, pseudoOut, sig, i), RightAt(E, message, ring, pseudoOut, sig, i));
    }
  }

  /** A round the silent hash answers is one of the signature's own. */
  lemma RoundIsOwn(E: Group, message: Chunk, ring: seq<RingMember>, pseudoOut: PointBytes, sig: Clsag,
                   message': Chunk, ring': seq<RingMember>, pseudoOut': PointBytes, L: Point, R: Point) returns (i: nat)
    requires Readable(ring, pseudoOut, sig)
    requires Silent(E, message, ring, pseudoOut, sig).HashToScalar(RoundQuestion(message', ring', pseudoOut', L, R)) != 0
    ensures message' == message && ring' == ring && pseudoOut' == pseudoOut
    ensures i < |ring| && L == LeftAt(E, message, ring, pseudoOut, sig, i) && R == RightAt(E, message, ring, pseudoOut, sig, i)
    ensures Silent(E, message, ring, pseudoOut, sig).HashToScalar(RoundQuestion(message', ring', pseudoOut', L, R))
         == ChallengeBefore(E, message, ring, pseudoOut, sig, i + 1)
  {
    hide Asked, Silent, AggregateQuestion, RoundQuestion, Group.HashToScalar, Readable, LeftAt, RightAt, ChallengeBefore;
    var x := RoundQuestion(message', ring', pseudoOut', L, R);
    SilentAnswers(E, message, ring, pseudoOut, sig, x);
    AskedIs(E, message, ring, pseudoOut, sig, x);
    AggregateIsNoRound("CLSAG_agg_0", ring, sig.keyImage, sig.dInv8, pseudoOut, message', ring', pseudoOut', L, R);
    AggregateIsNoRound("CLSAG_agg_1", ring, sig.keyImage, sig.dInv8, pseudoOut, message', ring', pseudoOut', L, R);
    i :| 0 <= i < |ring| && x == QuestionAt(E, message, ring, pseudoOut, sig, i);
    RoundsTellApart(message', ring', pseudoOut', L, R, message, ring, pseudoOut,
                    LeftAt(E, message, ring, pseudoOut, sig, i), RightAt(E, message, ring, pseudoOut, sig, i));
    ChallengeNext(E, message, ring, pseudoOut, sig, i);
  }

  // ---- The last response ---------------------------------------------------------------------------

  /** Two signatures with the same responses so far have walked the same way. */
  lemma {:induction false} SamePrefix(E: Group, message: Chunk, ring: seq<RingMember>, pseudoOut: PointBytes, sig: Clsag, s: seq<nat>, i: nat)
    requires Readable(ring, pseudoOut, sig) && |s| == |sig.s| && i <= |ring|
    requires forall k :: 0 <= k < i ==> E.F.R(s[k]) == E.F.R(sig.s[k])
    ensures Readable(ring, pseudoOut, sig.(s := s))
    ensures ContextOf(E, message, ring, pseudoOut, sig.(s := s)) == ContextOf(E, message, ring, pseudoOut, sig)
    ensures ChallengeBefore(E, message, ring, pseudoOut, sig.(s := s), i) == ChallengeBefore(E, message, ring, pseudoOut, sig, i)
  {
    hide Field.R, Aggregate, Group.Plus, Group.Times, Next;
    if i > 0 {
      SamePrefix(E, message, ring, pseudoOut, sig, s, i - 1);
    }
  }

  lemma LeftTellsApart(E: Group, P: Point, C: Point, offset: Point, muP: nat, muC: nat, c: int, s: int, t: int)
    requires LeftPoint(E, P, C, offset, muP, muC, s, c) == LeftPoint(E, P, C, offset, muP, muC, t, c)
    ensures E.F.R(s) == E.F.R(t)
  {
    var X := E.Times(c, E.Plus(E.Times(muP, P), E.Times(muC, E.Minus(C, offset))));
    E.F.Idem(s);
    E.F.Idem(t);
    hide Field.R;
    E.F.AddR(s, X.log);
    E.F.AddR(t, X.log);
    E.F.AddC(s + X.log, t + X.log, -X.log, -X.log);
  }

  lemma LeftFixesResponse(E: Group, E': Group, message: Chunk, ring: seq<RingMember>, pseudoOut: PointBytes, sig: Clsag, t: nat)
    requires Readable(ring, pseudoOut, sig) && |ring| >= 1 && E' == E.(hash := E'.hash)
    requires Readable(ring, pseudoOut, sig.(s := sig.s[|ring| - 1 := t]))
    requires ContextOf(E', message, ring, pseudoOut, sig.(s := sig.s[|ring| - 1 := t])) == ContextOf(E, message, ring, pseudoOut, sig)
    requires ChallengeBefore(E', message, ring, pseudoOut, sig.(s := sig.s[|ring| - 1 := t]), |ring| - 1)
          == ChallengeBefore(E, message, ring, pseudoOut, sig, |ring| - 1)
    requires LeftAt(E', message, ring, pseudoOut, sig.(s := sig.s[|ring| - 1 := t]), |ring| - 1)
          == LeftAt(E, message, ring, pseudoOut, sig, |ring| - 1)
    ensures E.F.R(t) == E.F.R(sig.s[|ring| - 1])
  {
    hide ChallengeBefore, ContextOf, Field.R;
    var i, ctx := |ring| - 1, ContextOf(E, message, ring, pseudoOut, sig);
    LeftTellsApart(E, ring[i].key.point, ring[i].commitment.point, pseudoOut.point, ctx.muP, ctx.muC,
                   ChallengeBefore(E, message, ring, pseudoOut, sig, i), E.F.R(sig.s[i]), E.F.R(t));
    E.F.Idem(t);
    E.F.Idem(sig.s[i]);
  }

  /**
   * The closing comparison and the response on G: unless a challenge repeats the first one, the group
   * whose hash is silent but for this signature's questions accepts another last response exactly when
   * it is the same scalar.
   */
  lemma LastResponseIsBound(E: Group, message: Chunk, ring: seq<RingMember>, pseudoOut: PointBytes, sig: Clsag, t: nat)
    requires Readable(ring, pseudoOut, sig) && |sig.s| == |ring| >= 1 && Accepts(E, message, ring, pseudoOut, sig)
    requires forall i :: 0 < i < |ring| ==> ChallengeBefore(E, message, ring, pseudoOut, sig, i) != E.F.R(sig.c1)
    ensures Accepts(Silent(E, message, ring, pseudoOut, sig), message, ring, pseudoOut, sig.(s := sig.s[|ring| - 1 := t]))
      <==> E.F.R(t) == E.F.R(sig.s[|ring| - 1])
  {
    hide Accepts, Silent, Readable, ChallengeBefore, ContextOf, LeftPoint, RightPoint, Field.R, Group.HashToScalar, RoundQuestion;
    var n, E', other := |ring|, Silent(E, message, ring, pseudoOut, sig), sig.(s := sig.s[|ring| - 1 := t]);
    StillAccepted(E, message, ring, pseudoOut, sig);
    SamePrefix(E', message, ring, pseudoOut, sig, other.s, n - 1);
    if E.F.R(t) == E.F.R(sig.s[n - 1]) {
      SameResponses(E', message, ring, pseudoOut, sig, other.s);
    } else if Accepts(E', message, ring, pseudoOut, other) {
      AcceptedNeeds(E', message, ring, pseudoOut, other);
      var L, R := LeftAt(E', message, ring, pseudoOut, other, n - 1), RightAt(E', message, ring, pseudoOut, other, n - 1);
      var i := RoundIsOwn(E, message, ring, pseudoOut, sig, message, ring, pseudoOut, L, R);
      assert i == n - 1;
      SilentContext(E, message, ring, pseudoOut, sig);
      SilentWalk(E, message, ring, pseudoOut, sig, n - 1);
      LeftFixesResponse(E, E', message, ring, pseudoOut, sig, t);
      assert false;
    }
  }

  lemma SameResponses(E: Group, message: Chunk, ring: seq<RingMember>, pseudoOut: PointBytes, sig: Clsag, s: seq<nat>)
    requires Readable(ring, pseudoOut, sig) && |s| == |sig.s| == |ring| && Accepts(E, message, ring, pseudoOut, sig)
    requires forall k :: 0 <= k < |ring| ==> E.F.R(s[k]) == E.F.R(sig.s[k])
    ensures Accepts(E, message, ring, pseudoOut, sig.(s := s))
  {
    hide Accepts, Readable, ChallengeBefore, ContextOf, Field.R;
    AcceptedIs(E, message, ring, pseudoOut, sig);
    AcceptedIs(E, message, ring, pseudoOut, sig.(s := s));
    forall i | 0 <= i <= |ring|
      ensures Readable(ring, pseudoOut, sig.(s := s))
      ensures ContextOf(E, message, ring, pseudoOut, sig.(s := s)) == ContextOf(E, message, ring, pseudoOut, sig)
      ensures ChallengeBefore(E, message, ring, pseudoOut, sig.(s := s), i) == ChallengeBefore(E, message, ring, pseudoOut, sig, i)
    {
      SamePrefix(E, message, ring, pseudoOut, sig, s, i);
    }
  }
}
