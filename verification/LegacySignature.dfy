/**
 * The pre-RingCT signatures: the plain one that authenticates an exported blob, and the ring of one
 * that stands behind every exported key image.
 */
module LegacySignature {
  import opened Sums
  import opened Scalars
  import opened Curve
  import opened MoneroCrypto
  import C = Clsag

  datatype Signature = Signature(c: nat, r: nat)

  datatype Problem = ZeroNonce | ZeroChallenge | ZeroResponse

  datatype Signed = Good(signature: Signature) | Bad(problem: Problem)

  /** Both halves below L: a scalar at or above the order is refused rather than reduced. */
  predicate Canonical(E: Group, s: Signature) {
    s.c < E.F.L && s.r < E.F.L
  }

  // ---- The plain signature -------------------------------------------------------------

  ghost predicate Accepts(E: Group, message: Chunk, publicKey: PointBytes, s: Signature) {
    && Canonical(E, s) && s.c != 0 && s.r != 0 && publicKey.Encodes?
    && var comm := E.Plus(E.Times(s.c, publicKey.point), E.Times(s.r, BASE));
       comm != ZERO && E.HashToScalar([message, PointChunk(publicKey), PointChunk(Encodes(comm))]) == s.c
  }

  /** The challenge a nonce leads to. */
  function NonceChallenge(E: Group, message: Chunk, publicKey: PointBytes, nonce: nat): nat {
    E.HashToScalar([message, PointChunk(publicKey), PointChunk(Encodes(E.Times(E.F.R(nonce), BASE)))])
  }

  /** A difference of reduced numbers is congruent to zero only when they are equal. */
  lemma DifferenceIsZero(F: Field, a: int, b: int)
    requires 0 <= a < F.L && 0 <= b < F.L
    ensures F.Sub(a, b) == 0 <==> a == b
  {
    F.Range(a - b);
    F.Range(a - b + F.L);
    F.Shift(a - b, 1);
  }

  /** monerosign.ts:426-453. */
  method GenerateSignature(E: Group, message: Chunk, publicKey: PointBytes, secret: nat, nonce: nat) returns (r: Signed)
    requires E.Valid()
    ensures r == Bad(ZeroNonce) <==> E.F.R(nonce) == 0
    ensures r == Bad(ZeroChallenge) <==> E.F.R(nonce) != 0 && NonceChallenge(E, message, publicKey, nonce) == 0
    ensures r == Bad(ZeroResponse) <==>
      && E.F.R(nonce) != 0 && NonceChallenge(E, message, publicKey, nonce) != 0
      && E.F.R(nonce) == E.F.R(NonceChallenge(E, message, publicKey, nonce) * E.F.R(secret))
    ensures r.Good? ==> Canonical(E, r.signature) && r.signature.c != 0 && r.signature.r != 0
    ensures r.Good? && publicKey == Encodes(E.Times(E.F.R(secret), BASE)) ==> Accepts(E, message, publicKey, r.signature)
  {
    hide Group.Times, Group.Plus, Field.R, Group.HashToScalar, Group.Valid;
    var k := E.F.R(nonce);
    if k == 0 { return Bad(ZeroNonce); }
    var c := E.HashToScalar([message, PointChunk(publicKey), PointChunk(Encodes(E.Times(k, BASE)))]);
    HashBelow(E, [message, PointChunk(publicKey), PointChunk(Encodes(E.Times(k, BASE)))]);
    if c == 0 { return Bad(ZeroChallenge); }
    var s := E.F.Sub(k, E.F.Mul(c, E.F.R(secret)));
    E.F.Range(k - E.F.Mul(c, E.F.R(secret)));
    E.F.Range(nonce);
    E.F.Range(c * E.F.R(secret));
    DifferenceIsZero(E.F, k, E.F.Mul(c, E.F.R(secret)));
    if s == 0 { return Bad(ZeroResponse); }
    Closes(E, BASE, k, c, E.F.R(secret), s);
    NonceShows(E, nonce);
    r := Good(Signature(c, s));
  }

  /** monerosign.ts:510-546. */
  method CheckSignature(E: Group, message: Chunk, publicKey: PointBytes, s: Signature) returns (ok: bool)
    requires E.Valid()
    ensures ok <==> Accepts(E, message, publicKey, s)
  {
    hide Group.Times, Group.Plus, Group.HashToScalar;
    if !Canonical(E, s) || s.c == 0 { return false; }
    if publicKey.Undecodable? || s.r == 0 { return false; }
    var comm := E.Plus(E.Times(s.c, publicKey.point), E.Times(s.r, BASE));
    if comm == ZERO { return false; }
    ok := E.HashToScalar([message, PointChunk(publicKey), PointChunk(Encodes(comm))]) == s.c;
  }

  lemma HashBelow(E: Group, chunks: seq<Chunk>)
    ensures E.HashToScalar(chunks) < E.F.L && E.F.R(E.HashToScalar(chunks)) == E.HashToScalar(chunks)
  {
    E.F.Range(E.hash(chunks));
    E.F.Idem(E.hash(chunks));
  }

  lemma NonceShows(E: Group, nonce: nat)
    requires E.F.R(nonce) != 0
    ensures E.Times(E.F.R(nonce), BASE) != ZERO
  {
    E.F.Idem(nonce);
    hide Field.R;
  }

  /** c·(x·B) + (k - c·x)·B = k·B for every torsion-free B. */
  lemma Closes(E: Group, B: Point, k: int, c: int, x: int, s: int)
    requires B.tor == 0 && s == E.F.Sub(k, E.F.Mul(c, x))
    ensures E.Plus(E.Times(c, E.Times(x, B)), E.Times(s, B)) == E.Times(k, B)
    ensures E.Plus(E.Times(s, B), E.Times(c, E.Times(x, B))) == E.Times(k, B)
  {
    ClosesLog(E.F, B.log, k, c, x, s);
    C.ZeroTorsion(s, x, c, k, 0, 0, c);
    hide Field.R;
  }

  lemma ClosesLog(F: Field, b: int, k: int, c: int, x: int, s: int)
    requires s == F.Sub(k, F.Mul(c, x))
    ensures F.R(F.R(c * F.R(x * b)) + F.R(s * b)) == F.R(k * b)
  {
    hide Field.R;
    F.MulV(c, c, x, x);
    F.SubV(k, k, F.Mul(c, x), c * x);
    F.MulR(c, x * b);
    F.MulC(s, k - c * x, b, b);
    F.AddR(c * F.R(x * b), s * b);
    F.AddC(c * F.R(x * b), c * (x * b), s * b, (k - c * x) * b);
    Associate(c, x, b);
    assert c * (x * b) + (k - c * x) * b == k * b;
  }

  // ---- The ring of one -------------------------------------------------------------------

  ghost predicate RingAccepts(E: Group, keyImage: PointBytes, oneTimeKey: PointBytes, s: Signature) {
    && Canonical(E, s) && s.c != 0 && s.r != 0 && keyImage.Encodes? && oneTimeKey.Encodes? && E.TorsionFree(keyImage.point)
    && RingChallenge(E, keyImage, E.Plus(E.Times(s.c, oneTimeKey.point), E.Times(s.r, BASE)),
                     E.Plus(E.Times(s.r, E.ec(oneTimeKey)), E.Times(s.c, keyImage.point))) == s.c
  }

  function RingChallenge(E: Group, keyImage: PointBytes, a: Point, b: Point): nat {
    E.HashToScalar([PointChunk(keyImage), PointChunk(Encodes(a)), PointChunk(Encodes(b))])
  }

  ghost predicate OwnImage(E: Group, keyImage: PointBytes, oneTimeKey: PointBytes, secret: nat) {
    && oneTimeKey == Encodes(E.Times(E.F.R(secret), BASE))
    && keyImage == Encodes(E.Times(E.F.R(secret), E.ec(oneTimeKey)))
  }

  /**
   * `generateRingSignatureOfOne`. It refuses a zero nonce only, so over a key and its own image the
   * check accepts exactly when neither half came out zero. monerosign.ts:580-603.
   */
  method GenerateRingSignatureOfOne(E: Group, keyImage: PointBytes, oneTimeKey: PointBytes, secret: nat, nonce: nat) returns (r: Signed)
    requires E.Valid()
    ensures r.Bad? <==> E.F.R(nonce) == 0
    ensures r.Good? ==> Canonical(E, r.signature)
    ensures r.Good? && OwnImage(E, keyImage, oneTimeKey, secret) ==>
      (RingAccepts(E, keyImage, oneTimeKey, r.signature) <==> r.signature.c != 0 && r.signature.r != 0)
  {
    hide Group.Times, Group.Plus, Field.R, Group.HashToScalar, Group.TorsionFree;
    var k := E.F.R(nonce);
    if k == 0 { return Bad(ZeroNonce); }
    var hp := E.ec(oneTimeKey);
    var c := RingChallenge(E, keyImage, E.Times(k, BASE), E.Times(k, hp));
    HashBelow(E, [PointChunk(keyImage), PointChunk(Encodes(E.Times(k, BASE))), PointChunk(Encodes(E.Times(k, hp)))]);
    var s := E.F.Sub(k, E.F.Mul(c, E.F.R(secret)));
    E.F.Range(k - E.F.Mul(c, E.F.R(secret)));
    EcFree(E, oneTimeKey);
    Closes(E, BASE, k, c, E.F.R(secret), s);
    Closes(E, hp, k, c, E.F.R(secret), s);
    E.TimesOnCurve(E.F.R(secret), hp);
    r := Good(Signature(c, s));
  }

  lemma EcFree(E: Group, b: PointBytes)
    requires E.Valid()
    ensures E.TorsionFree(E.ec(b)) && E.ec(b).tor == 0
  {
  }

  /** monerosign.ts:654-689. */
  method CheckRingSignatureOfOne(E: Group, keyImage: PointBytes, oneTimeKey: PointBytes, s: Signature) returns (ok: bool)
    requires E.Valid()
    ensures ok <==> RingAccepts(E, keyImage, oneTimeKey, s)
  {
    hide Group.Times, Group.Plus, Group.HashToScalar;
    if !Canonical(E, s) { return false; }
    if keyImage.Undecodable? || !E.TorsionFree(keyImage.point) || oneTimeKey.Undecodable? { return false; }
    if s.c == 0 || s.r == 0 { return false; }
    var a := E.Plus(E.Times(s.c, oneTimeKey.point), E.Times(s.r, BASE));
    var b := E.Plus(E.Times(s.r, E.ec(oneTimeKey)), E.Times(s.c, keyImage.point));
    ok := RingChallenge(E, keyImage, a, b) == s.c;
  }

  // ---- What a signature is bound to --------------------------------------------------------

  function Question(message: Chunk, publicKey: PointBytes, comm: Point): seq<Chunk> {
    [message, PointChunk(publicKey), PointChunk(Encodes(comm))]
  }

  /** The group whose hash answers this one question as before, and zero to every other. */
  ghost function Silent(E: Group, question: seq<Chunk>): (E': Group)
    ensures E' == E.(hash := E'.hash)
  {
    Rehashed(E, {question}, x => 0)
  }

  lemma SilentAnswers(E: Group, question: seq<Chunk>, x: seq<Chunk>)
    ensures Silent(E, question).HashToScalar(x) == if x == question then E.HashToScalar(x) else 0
  {
    E.F.Range(0);
    hide Field.R;
  }

  /** With the challenge and the commitment fixed, so is the response. */
  lemma ResponseIsFixed(E: Group, P: Point, r: nat, t: nat)
    requires r < E.F.L && t < E.F.L && E.Plus(P, E.Times(r, BASE)) == E.Plus(P, E.Times(t, BASE))
    ensures r == t
  {
    E.F.Range(r);
    E.F.Range(t);
    hide Field.R;
    E.F.AddR(P.log, r);
    E.F.AddR(P.log, t);
    E.F.AddC(P.log + r, P.log + t, -P.log, -P.log);
  }

  /**
   * With a hash that is silent but for the one question its verifier asks, an accepted signature is the
   * only one there is, for one message and one key.
   */
  lemma SignatureIsBound(E: Group, message: Chunk, publicKey: PointBytes, s: Signature,
                         message': Chunk, publicKey': PointBytes, s': Signature)
    requires publicKey.Encodes? && Accepts(E, message, publicKey, s)
    ensures var E' := Silent(E, Question(message, publicKey, E.Plus(E.Times(s.c, publicKey.point), E.Times(s.r, BASE))));
      Accepts(E', message, publicKey, s)
      && (Accepts(E', message', publicKey', s') ==> message' == message && publicKey' == publicKey && s' == s)
  {
    var comm := E.Plus(E.Times(s.c, publicKey.point), E.Times(s.r, BASE));
    var question := Question(message, publicKey, comm);
    SilentAnswers(E, question, question);
    var E' := Silent(E, question);
    if Accepts(E', message', publicKey', s') {
      var comm' := E.Plus(E.Times(s'.c, publicKey'.point), E.Times(s'.r, BASE));
      var question' := Question(message', publicKey', comm');
      SilentAnswers(E, question, question');
      hide Field.R, Group.HashToScalar, Group.Plus, Group.Times, Silent;
      assert question' == question;
      assert question'[0] == question[0] && question'[1] == question[1] && question'[2] == question[2];
      ResponseIsFixed(E, E.Times(s.c, publicKey.point), s.r, s'.r);
    }
  }

  /** So is a ring of one, for its key image and, over its key, both halves. */
  lemma RingOfOneIsBound(E: Group, keyImage: PointBytes, oneTimeKey: PointBytes, s: Signature,
                         keyImage': PointBytes, oneTimeKey': PointBytes, s': Signature)
    requires keyImage.Encodes? && oneTimeKey.Encodes? && RingAccepts(E, keyImage, oneTimeKey, s)
    ensures var E' := Silent(E, [PointChunk(keyImage),
                                 PointChunk(Encodes(E.Plus(E.Times(s.c, oneTimeKey.point), E.Times(s.r, BASE)))),
                                 PointChunk(Encodes(E.Plus(E.Times(s.r, E.ec(oneTimeKey)), E.Times(s.c, keyImage.point))))]);
      RingAccepts(E', keyImage, oneTimeKey, s)
      && (RingAccepts(E', keyImage', oneTimeKey', s') ==> keyImage' == keyImage && s'.c == s.c && (oneTimeKey' == oneTimeKey ==> s' == s))
  {
    var a := E.Plus(E.Times(s.c, oneTimeKey.point), E.Times(s.r, BASE));
    var b := E.Plus(E.Times(s.r, E.ec(oneTimeKey)), E.Times(s.c, keyImage.point));
    var question := [PointChunk(keyImage), PointChunk(Encodes(a)), PointChunk(Encodes(b))];
    SilentAnswers(E, question, question);
    var E' := Silent(E, question);
    if RingAccepts(E', keyImage', oneTimeKey', s') {
      var a' := E.Plus(E.Times(s'.c, oneTimeKey'.point), E.Times(s'.r, BASE));
      var b' := E.Plus(E.Times(s'.r, E.ec(oneTimeKey')), E.Times(s'.c, keyImage'.point));
      var question' := [PointChunk(keyImage'), PointChunk(Encodes(a')), PointChunk(Encodes(b'))];
      SilentAnswers(E, question, question');
      hide Field.R, Group.HashToScalar, Group.Plus, Group.Times, Silent;
      assert question' == question;
      assert question'[0] == question[0] && question'[1] == question[1];
      if oneTimeKey' == oneTimeKey { ResponseIsFixed(E, E.Times(s.c, oneTimeKey.point), s.r, s'.r); }
    }
  }
}
