/**
 * CLSAG, the ring signature that authorizes a spend: signing walks the ring from the secret index
 * and wraps, verifying walks it from index 0. `multiply` refuses a zero scalar; `multiplyUnsafe`
 * does not. Ring members may carry torsion.
 */
module Clsag {
  import opened Sums
  import opened Scalars
  import opened Curve

  datatype RingMember = RingMember(key: PointBytes, commitment: PointBytes)

  /** The secret key p, the commitment secret z, and where the real member is. */
  datatype SecretInput = SecretInput(p: nat, z: nat, index: int)

  datatype Clsag = Clsag(c1: nat, s: seq<nat>, keyImage: PointBytes, dInv8: PointBytes)

  datatype Problem = EmptyRing | IndexOutsideRing | WrongNonceCount | UndecodablePoint | ZeroScalar

  datatype Result<T> = Ok(value: T) | Err(problem: Problem)

  // ---- The hashes ----------------------------------------------------------------

  function KeyChunks(ring: seq<RingMember>): (r: seq<Chunk>) {
    if ring == [] then [] else KeyChunks(ring[..|ring| - 1]) + [PointChunk(ring[|ring| - 1].key)]
  }

  function CommitmentChunks(ring: seq<RingMember>): (r: seq<Chunk>) {
    if ring == [] then [] else CommitmentChunks(ring[..|ring| - 1]) + [PointChunk(ring[|ring| - 1].commitment)]
  }

  /** Monero's order: domain, keys, commitments, I, D/8, C_offset. monerosign.ts:260-262, 350-353. */
  function Aggregate(E: Group, domain: string, ring: seq<RingMember>, I: PointBytes, dInv8: PointBytes, pseudoOut: PointBytes): nat {
    E.HashToScalar([TextChunk(domain)] + KeyChunks(ring) + CommitmentChunks(ring)
                   + [PointChunk(I), PointChunk(dInv8), PointChunk(pseudoOut)])
  }

  /** The round hash: only L and R change from step to step. monerosign.ts:269-274, 358-360. */
  function RoundChallenge(E: Group, message: Chunk, ring: seq<RingMember>, pseudoOut: PointBytes, L: Point, R: Point): nat {
    E.HashToScalar([TextChunk("CLSAG_round")] + KeyChunks(ring) + CommitmentChunks(ring)
                   + [PointChunk(pseudoOut), message, PointChunk(Encodes(L)), PointChunk(Encodes(R))])
  }

  // ---- What a signature is checked against ---------------------------------------------

  /** Everything a verifier derives before it starts walking. */
  datatype Context = Context(message: Chunk, ring: seq<RingMember>, pseudoOut: PointBytes, muP: nat, muC: nat, aggImage: Point)

  ghost predicate RingDecodes(ring: seq<RingMember>) {
    forall i :: 0 <= i < |ring| ==> ring[i].key.Encodes? && ring[i].commitment.Encodes?
  }

  /** L_i = s·G + c·(μ_P·P_i + μ_C·(C_i - C_offset)). */
  function LeftPoint(E: Group, P: Point, C: Point, offset: Point, muP: nat, muC: nat, s: int, c: int): Point {
    E.Plus(E.Times(s, BASE), E.Times(c, E.Plus(E.Times(muP, P), E.Times(muC, E.Minus(C, offset)))))
  }

  /** R_i = s·Hp(P_i) + c·(μ_P·I + μ_C·D). */
  function RightPoint(E: Group, hp: Point, aggImage: Point, s: int, c: int): Point {
    E.Plus(E.Times(s, hp), E.Times(c, aggImage))
  }

  /** The challenge that follows member i. */
  ghost function Next(E: Group, ctx: Context, i: nat, s: int, c: int): nat
    requires i < |ctx.ring| && RingDecodes(ctx.ring) && ctx.pseudoOut.Encodes?
  {
    var m := ctx.ring[i];
    RoundChallenge(E, ctx.message, ctx.ring, ctx.pseudoOut,
                   LeftPoint(E, m.key.point, m.commitment.point, ctx.pseudoOut.point, ctx.muP, ctx.muC, s, c),
                   RightPoint(E, E.ec(m.key), ctx.aggImage, s, c))
  }

  /** The challenge reached after walking members 0 .. k-1 from c. */
  ghost function Walk(E: Group, ctx: Context, s: seq<nat>, c: nat, k: nat): nat
    requires k <= |ctx.ring| == |s| && RingDecodes(ctx.ring) && ctx.pseudoOut.Encodes?
  {
    if k == 0 then c else Next(E, ctx, k - 1, E.F.R(s[k - 1]), Walk(E, ctx, s, c, k - 1))
  }

  ghost predicate Readable(ring: seq<RingMember>, pseudoOut: PointBytes, sig: Clsag) {
    && |ring| == |sig.s| >= 1 && RingDecodes(ring) && pseudoOut.Encodes?
    && sig.keyImage.Encodes? && sig.dInv8.Encodes?
  }

  lemma ReadableRing(ring: seq<RingMember>, pseudoOut: PointBytes, sig: Clsag)
    requires Readable(ring, pseudoOut, sig)
    ensures RingDecodes(ring) && |sig.s| == |ring|
  {
  }

  ghost function ContextOf(E: Group, message: Chunk, ring: seq<RingMember>, pseudoOut: PointBytes, sig: Clsag): Context
    requires Readable(ring, pseudoOut, sig)
  {
    var muP := Aggregate(E, "CLSAG_agg_0", ring, sig.keyImage, sig.dInv8, pseudoOut);
    var muC := Aggregate(E, "CLSAG_agg_1", ring, sig.keyImage, sig.dInv8, pseudoOut);
    Context(message, ring, pseudoOut, muP, muC,
            E.Plus(E.Times(muP, sig.keyImage.point), E.Times(muC, E.Times(8, sig.dInv8.point))))
  }

  /**
   * A signature is valid when nothing multiplied by is zero and the walk from c1 around the whole
   * ring comes back to c1.
   */
  ghost predicate Accepts(E: Group, message: Chunk, ring: seq<RingMember>, pseudoOut: PointBytes, sig: Clsag) {
    && Readable(ring, pseudoOut, sig)
    && var ctx, c := ContextOf(E, message, ring, pseudoOut, sig), E.F.R(sig.c1);
       && ctx.muP != 0 && ctx.muC != 0
       && (forall i :: 0 <= i < |ring| ==> E.F.R(sig.s[i]) != 0 && Walk(E, ctx, sig.s, c, i) != 0)
       && Walk(E, ctx, sig.s, c, |ring|) == c
  }

  // ---- Verifying ---------------------------------------------------------------------------

  method RingReadable(ring: seq<RingMember>) returns (ok: bool)
    ensures ok <==> RingDecodes(ring)
  {
    for i := 0 to |ring|
      invariant RingDecodes(ring[..i])
    {
      if ring[i].key.Undecodable? || ring[i].commitment.Undecodable? { return false; }
    }
    assert ring[..|ring|] == ring;
    return true;
  }

  lemma WalkStep(E: Group, ctx: Context, s: seq<nat>, c: nat, k: nat)
    requires k < |ctx.ring| == |s| && RingDecodes(ctx.ring) && ctx.pseudoOut.Encodes?
    ensures Walk(E, ctx, s, c, 0) == c
    ensures Walk(E, ctx, s, c, k + 1) == Next(E, ctx, k, E.F.R(s[k]), Walk(E, ctx, s, c, k))
  {
  }

  /** The verifier's loop: give up at a zero response or challenge. monerosign.ts:362-370. */
  method WalkRing(E: Group, ctx: Context, s: seq<nat>, c1: nat) returns (ok: bool, c: nat)
    requires |ctx.ring| == |s| >= 1 && RingDecodes(ctx.ring) && ctx.pseudoOut.Encodes?
    ensures ok <==> forall i :: 0 <= i < |s| ==> E.F.R(s[i]) != 0 && Walk(E, ctx, s, c1, i) != 0
    ensures ok ==> c == Walk(E, ctx, s, c1, |s|)
  {
    hide Field.R, Walk, RoundChallenge, LeftPoint, RightPoint;
    c := c1;
    WalkStep(E, ctx, s, c1, 0);
    for i := 0 to |s|
      invariant c == Walk(E, ctx, s, c1, i)
      invariant forall k :: 0 <= k < i ==> E.F.R(s[k]) != 0 && Walk(E, ctx, s, c1, k) != 0
    {
      var si := E.F.R(s[i]);
      if si == 0 || c == 0 { return false, c; }
      WalkStep(E, ctx, s, c1, i);
      var m := ctx.ring[i];
      var L := LeftPoint(E, m.key.point, m.commitment.point, ctx.pseudoOut.point, ctx.muP, ctx.muC, si, c);
      var R := RightPoint(E, E.ec(m.key), ctx.aggImage, si, c);
      c := RoundChallenge(E, ctx.message, ctx.ring, ctx.pseudoOut, L, R);
    }
    ok := true;
  }

  /** `clsagVerify`. monerosign.ts:326-378. */
  method ClsagVerify(E: Group, message: Chunk, ring: seq<RingMember>, pseudoOut: PointBytes, sig: Clsag) returns (ok: bool)
    ensures ok <==> Accepts(E, message, ring, pseudoOut, sig)
  {
    hide Field.R, Walk, Aggregate, Group.Plus, Group.Times, RingDecodes;
    var n := |ring|;
    if n == 0 || |sig.s| != n { return false; }
    var decodes := RingReadable(ring);
    if !decodes || pseudoOut.Undecodable? || sig.keyImage.Undecodable? || sig.dInv8.Undecodable? { return false; }
    var I, D := sig.keyImage.point, E.Times(8, sig.dInv8.point);
    var muP := Aggregate(E, "CLSAG_agg_0", ring, sig.keyImage, sig.dInv8, pseudoOut);
    var muC := Aggregate(E, "CLSAG_agg_1", ring, sig.keyImage, sig.dInv8, pseudoOut);
    if muP == 0 || muC == 0 { return false; }
    var aggImage := E.Plus(E.Times(muP, I), E.Times(muC, D));
    var ctx := Context(message, ring, pseudoOut, muP, muC, aggImage);
    assert ctx == ContextOf(E, message, ring, pseudoOut, sig);
    var walked, c := WalkRing(E, ctx, sig.s, E.F.R(sig.c1));
    ok := walked && c == E.F.R(sig.c1);
  }

  // ---- Signing -------------------------------------------------------------------------------

  /** The ring closes: from every member the next challenge follows, wrapping around. */
  ghost predicate Closes(E: Group, ctx: Context, s: seq<nat>, cAt: seq<nat>)
    requires RingDecodes(ctx.ring) && ctx.pseudoOut.Encodes?
  {
    && |ctx.ring| == |s| == |cAt| >= 1
    && forall i :: 0 <= i < |s| ==> cAt[Succ(i, |s|)] == Next(E, ctx, i, E.F.R(s[i]), cAt[i])
  }

  function Succ(i: nat, n: nat): (r: nat)
    requires i < n
    ensures r < n
  {
    if i + 1 == n then 0 else i + 1
  }

  /** A closed ring, walked from index 0, visits exactly its own challenges and returns. */
  lemma {:induction false} WalkOfClosed(E: Group, ctx: Context, s: seq<nat>, cAt: seq<nat>, k: nat)
    requires RingDecodes(ctx.ring) && ctx.pseudoOut.Encodes? && Closes(E, ctx, s, cAt) && k <= |s|
    ensures Walk(E, ctx, s, cAt[0], k) == if k == |s| then cAt[0] else cAt[k]
  {
    hide Next, Field.R;
    if k > 0 {
      WalkOfClosed(E, ctx, s, cAt, k - 1);
      assert cAt[Succ(k - 1, |s|)] == Next(E, ctx, k - 1, E.F.R(s[k - 1]), cAt[k - 1]);
    }
  }

  /** The signer's response turns the real member's L and R into α·G and α·Hp. */
  lemma RealMember(E: Group, P: Point, C: Point, offset: Point, hp: Point, p: int, z: int, alpha: int, muP: nat, muC: nat,
                   c: int, s: int, aggImage: Point)
    requires P == E.Times(p, BASE) && E.Minus(C, offset) == E.Times(z, BASE) && E.TorsionFree(hp)
    requires aggImage == E.Plus(E.Times(muP, E.Times(p, hp)), E.Times(muC, E.Times(z, hp)))
    requires E.F.R(s) == E.F.R(alpha - c * (muP * p + muC * z))
    ensures LeftPoint(E, P, C, offset, muP, muC, s, c) == E.Times(alpha, BASE)
    ensures RightPoint(E, hp, aggImage, s, c) == E.Times(alpha, hp)
  {
    ResponseCloses(E, BASE, p, z, alpha, muP, muC, c, s);
    ResponseCloses(E, hp, p, z, alpha, muP, muC, c, s);
    hide Field.R;
  }

  /** s·B + c·(μ_P·(p·B) + μ_C·(z·B)) = α·B for any torsion-free B. */
  lemma ResponseCloses(E: Group, B: Point, p: int, z: int, alpha: int, muP: nat, muC: nat, c: int, s: int)
    requires B.tor == 0
    requires E.F.R(s) == E.F.R(alpha - c * (muP * p + muC * z))
    ensures E.Plus(E.Times(s, B), E.Times(c, E.Plus(E.Times(muP, E.Times(p, B)), E.Times(muC, E.Times(z, B)))))
         == E.Times(alpha, B)
  {
    ResponseLog(E.F, B.log, p, z, alpha, muP, muC, c, s);
    ZeroTorsion(s, p, z, alpha, muP, muC, c);
    hide Field.R;
  }

  lemma ZeroTorsion(s: int, p: int, z: int, alpha: int, muP: int, muC: int, c: int)
    ensures s * 0 == p * 0 == z * 0 == alpha * 0 == muP * 0 == muC * 0 == c * 0 == 0
  {
  }

  lemma ResponseLog(F: Field, b: int, p: int, z: int, alpha: int, muP: int, muC: int, c: int, s: int)
    requires F.R(s) == F.R(alpha - c * (muP * p + muC * z))
    ensures F.R(F.R(s * b) + F.R(c * F.R(F.R(muP * F.R(p * b)) + F.R(muC * F.R(z * b))))) == F.R(alpha * b)
  {
    hide Field.R;
    F.MulR(muP, p * b);
    F.MulR(muC, z * b);
    F.AddR(muP * F.R(p * b), muC * F.R(z * b));
    F.AddC(muP * F.R(p * b), muP * (p * b), muC * F.R(z * b), muC * (z * b));
    var w := muP * (p * b) + muC * (z * b);
    var inner := F.R(F.R(muP * F.R(p * b)) + F.R(muC * F.R(z * b)));
    assert inner == F.R(w);
    F.MulR(c, w);
    F.AddR(s * b, c * inner);
    F.MulC(s, alpha - c * (muP * p + muC * z), b, b);
    F.AddC(s * b, (alpha - c * (muP * p + muC * z)) * b, c * inner, c * w);
    ResponseShape(b, p, z, alpha, muP, muC, c);
  }

  lemma ResponseShape(b: int, p: int, z: int, alpha: int, muP: int, muC: int, c: int)
    ensures (alpha - c * (muP * p + muC * z)) * b + c * (muP * (p * b) + muC * (z * b)) == alpha * b
  {
    var u := muP * p + muC * z;
    assert muP * (p * b) + muC * (z * b) == u * b;
    assert (alpha - c * u) * b == alpha * b - (c * u) * b;
    Associate(c, u, b);
  }

  /** What the signer knows is what the ring says about its real member. */
  ghost predicate Owns(E: Group, ring: seq<RingMember>, pseudoOut: PointBytes, secret: SecretInput) {
    && 0 <= secret.index < |ring| && RingDecodes(ring) && pseudoOut.Encodes?
    && ring[secret.index].key.point == E.Times(E.F.R(secret.p), BASE)
    && E.Minus(ring[secret.index].commitment.point, pseudoOut.point) == E.Times(E.F.R(secret.z), BASE)
  }

  /** How many steps past l position i lies. */
  function Distance(i: nat, l: nat, n: nat): (d: nat)
    requires i < n && l < n
    ensures d < n
  {
    if i >= l then i - l else i + n - l
  }

  lemma NextPosition(l: nat, t: nat, n: nat)
    requires l < n && t + 1 <= n
    ensures (l + t) % n < n && Distance((l + t) % n, l, n) == t
    ensures (l + t + 1) % n == Succ((l + t) % n, n)
  {
    ModSmall(l + t, n);
    ModSmall(l + t + 1, n);
  }

  lemma ModSmall(x: nat, n: nat)
    requires n > 0 && x < 2 * n
    ensures x % n == if x < n then x else x - n
  {
  }

  /** The challenge that must follow member i: the commitment to α for the real one, Next for the rest. */
  ghost function Follows(E: Group, ctx: Context, l: nat, start: nat, i: nat, s: int, c: int): nat
    requires i < |ctx.ring| && RingDecodes(ctx.ring) && ctx.pseudoOut.Encodes?
  {
    if i == l then start else Next(E, ctx, i, s, c)
  }

  /** The walk so far: members up to t steps past l are linked, and c follows the last of them. */
  ghost predicate Walked(E: Group, ctx: Context, l: nat, start: nat, s: seq<nat>, cAt: seq<nat>, c: nat, t: nat)
    requires RingDecodes(ctx.ring) && ctx.pseudoOut.Encodes?
  {
    var n := |ctx.ring|;
    && |s| == |cAt| == n && l < n && t < n
    && (forall i :: 0 <= i < n && Distance(i, l, n) < t ==>
          cAt[Succ(i, n)] == Follows(E, ctx, l, start, i, E.F.R(s[i]), cAt[i]))
    && (forall i :: 0 <= i < n && Distance(i, l, n) == t ==> c == Follows(E, ctx, l, start, i, E.F.R(s[i]), cAt[i]))
    && (forall i :: 0 <= i < n && 1 <= Distance(i, l, n) <= t ==> E.F.R(s[i]) != 0 && E.F.R(cAt[i]) == cAt[i] != 0)
    && E.F.R(c) == c
  }

  lemma WalkedNext(E: Group, ctx: Context, l: nat, start: nat, s: seq<nat>, cAt: seq<nat>, c: nat, t: nat,
                   i: nat, j: nat, si: nat, s': seq<nat>, cAt': seq<nat>, c': nat)
    requires RingDecodes(ctx.ring) && ctx.pseudoOut.Encodes?
    requires Walked(E, ctx, l, start, s, cAt, c, t) && t + 1 < |ctx.ring|
    requires i < |ctx.ring| && j < |ctx.ring| && Succ(j, |ctx.ring|) == i
    requires Distance(j, l, |ctx.ring|) == t && Distance(i, l, |ctx.ring|) == t + 1
    requires s' == s[i := si] && cAt' == cAt[i := c] && E.F.R(si) == si != 0 && c != 0
    requires c' == Next(E, ctx, i, si, c) && E.F.R(c') == c'
    ensures Walked(E, ctx, l, start, s', cAt', c', t + 1)
  {
    hide Field.R, Next, RingDecodes;
    DistanceInjective(l, |ctx.ring|);
  }

  lemma DistanceInjective(l: nat, n: nat)
    requires l < n
    ensures forall i, j {:trigger Distance(i, l, n), Distance(j, l, n)} ::
      0 <= i < n && 0 <= j < n && Distance(i, l, n) == Distance(j, l, n) ==> i == j
    ensures forall i :: 0 <= i < n && Distance(i, l, n) + 1 < n ==> Distance(Succ(i, n), l, n) == Distance(i, l, n) + 1
    ensures forall i :: 0 <= i < n && Distance(i, l, n) + 1 == n ==> Succ(i, n) == l
  {
  }

  /** Every member walked and the real one's response set: the ring is closed. */
  lemma WalkedCloses(E: Group, ctx: Context, l: nat, start: nat, s: seq<nat>, cAt: seq<nat>, c: nat, sl: nat, cAt': seq<nat>, s': seq<nat>)
    requires RingDecodes(ctx.ring) && ctx.pseudoOut.Encodes?
    requires |ctx.ring| >= 1 && Walked(E, ctx, l, start, s, cAt, c, |ctx.ring| - 1)
    requires cAt' == cAt[l := c] && s' == s[l := sl]
    ensures start == Next(E, ctx, l, E.F.R(sl), c) ==> Closes(E, ctx, s', cAt')
    ensures forall i :: 0 <= i < |s'| && i != l ==> E.F.R(s'[i]) != 0 && cAt'[i] != 0
    ensures forall i :: 0 <= i < |cAt'| ==> E.F.R(cAt'[i]) == cAt'[i]
  {
    hide Field.R, Next, RingDecodes;
    var n := |ctx.ring|;
    DistanceInjective(l, n);
    if start == Next(E, ctx, l, E.F.R(sl), c) {
      forall i | 0 <= i < n ensures cAt'[Succ(i, n)] == Next(E, ctx, i, E.F.R(s'[i]), cAt'[i]) {
        assert Distance(i, l, n) < n - 1 || Distance(i, l, n) == n - 1;
        if Distance(i, l, n) + 1 < n { assert Distance(Succ(i, n), l, n) == Distance(i, l, n) + 1; }
      }
    }
  }

  // ---- The signer's own walk ---------------------------------------------------------------

  /** What the signer derives before walking. monerosign.ts:208-267. */
  ghost function SignerContext(E: Group, message: Chunk, ring: seq<RingMember>, secret: SecretInput, pseudoOut: PointBytes): (ctx: Context)
    requires 0 <= secret.index < |ring|
    ensures ctx.message == message && ctx.ring == ring && ctx.pseudoOut == pseudoOut
  {
    var hp := E.ec(ring[secret.index].key);
    var I, D := E.Times(E.F.R(secret.p), hp), E.Times(E.F.R(secret.z), hp);
    var dInv8 := Encodes(E.Times(E.F.Inverse(8), D));
    var muP := Aggregate(E, "CLSAG_agg_0", ring, Encodes(I), dInv8, pseudoOut);
    var muC := Aggregate(E, "CLSAG_agg_1", ring, Encodes(I), dInv8, pseudoOut);
    Context(message, ring, pseudoOut, muP, muC, E.Plus(E.Times(muP, I), E.Times(muC, D)))
  }

  /** The challenge the nonce commits to. */
  ghost function SignerStart(E: Group, message: Chunk, ring: seq<RingMember>, secret: SecretInput, pseudoOut: PointBytes, draws: seq<nat>): nat
    requires 0 <= secret.index < |ring| && draws != []
  {
    var alpha := E.F.R(draws[0]);
    RoundChallenge(E, message, ring, pseudoOut, E.Times(alpha, BASE), E.Times(alpha, E.ec(ring[secret.index].key)))
  }

  /** The challenge t steps past the real member. */
  ghost function SignerChain(E: Group, ctx: Context, l: nat, start: nat, draws: seq<nat>, t: nat): nat
    requires t < |ctx.ring| < |draws| && l < |ctx.ring| && RingDecodes(ctx.ring) && ctx.pseudoOut.Encodes?
  {
    if t == 0 then start
    else Next(E, ctx, (l + t) % |ctx.ring|, E.F.R(draws[t]), SignerChain(E, ctx, l, start, draws, t - 1))
  }

  lemma ChainStep(E: Group, ctx: Context, l: nat, start: nat, draws: seq<nat>, t: nat)
    requires t < |ctx.ring| < |draws| && l < |ctx.ring| && RingDecodes(ctx.ring) && ctx.pseudoOut.Encodes?
    ensures SignerChain(E, ctx, l, start, draws, 0) == start
    ensures t > 0 ==>
      SignerChain(E, ctx, l, start, draws, t)
      == Next(E, ctx, (l + t) % |ctx.ring|, E.F.R(draws[t]), SignerChain(E, ctx, l, start, draws, t - 1))
  {
    hide Next, Field.R;
  }

  /** Nothing the signer multiplies by on its walk is zero: no response drawn and no challenge met. */
  ghost predicate WalkIsClear(E: Group, ctx: Context, l: nat, start: nat, draws: seq<nat>)
    requires |ctx.ring| < |draws| && l < |ctx.ring| && RingDecodes(ctx.ring) && ctx.pseudoOut.Encodes?
  {
    && (forall t :: 1 <= t < |ctx.ring| ==> E.F.R(draws[t]) != 0)
    && (forall t :: 0 <= t < |ctx.ring| - 1 ==> SignerChain(E, ctx, l, start, draws, t) != 0)
  }

  /** The signer's inputs have the right shape. */
  ghost predicate Presented(ring: seq<RingMember>, secret: SecretInput, pseudoOut: PointBytes, draws: seq<nat>) {
    0 <= secret.index < |ring| && |draws| == |ring| + 1 && RingDecodes(ring) && pseudoOut.Encodes?
  }

  /** Nothing the signer multiplies by is zero. */
  ghost predicate SignerIsClear(E: Group, message: Chunk, ring: seq<RingMember>, secret: SecretInput, pseudoOut: PointBytes, draws: seq<nat>)
    requires Presented(ring, secret, pseudoOut, draws)
  {
    var ctx := SignerContext(E, message, ring, secret, pseudoOut);
    && E.F.R(secret.p) != 0 && E.F.R(secret.z) != 0 && ctx.muP != 0 && ctx.muC != 0 && E.F.R(draws[0]) != 0
    && WalkIsClear(E, ctx, secret.index, SignerStart(E, message, ring, secret, pseudoOut, draws), draws)
  }

  /** The challenge the walk comes back to the real member with. */
  ghost function LastChallenge(E: Group, message: Chunk, ring: seq<RingMember>, secret: SecretInput, pseudoOut: PointBytes, draws: seq<nat>): nat
    requires Presented(ring, secret, pseudoOut, draws)
  {
    SignerChain(E, SignerContext(E, message, ring, secret, pseudoOut), secret.index,
                SignerStart(E, message, ring, secret, pseudoOut, draws), draws, |ring| - 1)
  }

  /** The response that closes the ring. monerosign.ts:300-303. */
  ghost function ClosingResponse(E: Group, message: Chunk, ring: seq<RingMember>, secret: SecretInput, pseudoOut: PointBytes, draws: seq<nat>): int
    requires Presented(ring, secret, pseudoOut, draws)
  {
    var ctx, F := SignerContext(E, message, ring, secret, pseudoOut), E.F;
    F.Sub(F.R(draws[0]), F.Mul(LastChallenge(E, message, ring, secret, pseudoOut, draws),
                               F.Add(F.Mul(ctx.muP, F.R(secret.p)), F.Mul(ctx.muC, F.R(secret.z)))))
  }

  /** And neither is anything the verifier multiplies by. */
  ghost predicate SignatureIsClear(E: Group, message: Chunk, ring: seq<RingMember>, secret: SecretInput, pseudoOut: PointBytes, draws: seq<nat>)
    requires Presented(ring, secret, pseudoOut, draws)
  {
    && SignerIsClear(E, message, ring, secret, pseudoOut, draws)
    && LastChallenge(E, message, ring, secret, pseudoOut, draws) != 0
    && ClosingResponse(E, message, ring, secret, pseudoOut, draws) != 0
  }

  /** The signature the signer's draws lead to. monerosign.ts:276-310. */
  ghost function SignatureOf(E: Group, message: Chunk, ring: seq<RingMember>, secret: SecretInput, pseudoOut: PointBytes, draws: seq<nat>): Clsag
    requires Presented(ring, secret, pseudoOut, draws) && ClosingResponse(E, message, ring, secret, pseudoOut, draws) >= 0
  {
    var l, n, hp := secret.index, |ring|, E.ec(ring[secret.index].key);
    Clsag(SignerChain(E, SignerContext(E, message, ring, secret, pseudoOut), l,
                      SignerStart(E, message, ring, secret, pseudoOut, draws), draws, n - 1 - l),
          seq(n, i requires 0 <= i < n =>
            if i == l then ClosingResponse(E, message, ring, secret, pseudoOut, draws) else E.F.R(draws[Distance(i, l, n)])),
          Encodes(E.Times(E.F.R(secret.p), hp)), Encodes(E.Times(E.F.Inverse(8), E.Times(E.F.R(secret.z), hp))))
  }

  ghost predicate IsSignatureOf(E: Group, message: Chunk, ring: seq<RingMember>, secret: SecretInput, pseudoOut: PointBytes, draws: seq<nat>, sig: Clsag) {
    && Presented(ring, secret, pseudoOut, draws) && ClosingResponse(E, message, ring, secret, pseudoOut, draws) >= 0
    && sig == SignatureOf(E, message, ring, secret, pseudoOut, draws)
  }

  /** Every member up to the given number of steps past l has the draw of its step, and the challenge before it. */
  ghost predicate Filled(E: Group, ctx: Context, l: nat, start: nat, draws: seq<nat>, s: seq<nat>, cAt: seq<nat>, steps: nat)
    requires |ctx.ring| < |draws| && RingDecodes(ctx.ring) && ctx.pseudoOut.Encodes? && l < |ctx.ring|
  {
    var n := |ctx.ring|;
    && |s| == |cAt| == n
    && forall i :: 0 <= i < n && 1 <= Distance(i, l, n) < steps ==>
         s[i] == E.F.R(draws[Distance(i, l, n)]) && cAt[i] == SignerChain(E, ctx, l, start, draws, Distance(i, l, n) - 1)
  }

  lemma FilledNext(E: Group, ctx: Context, l: nat, start: nat, draws: seq<nat>, s: seq<nat>, cAt: seq<nat>, step: nat, i: nat)
    requires |ctx.ring| < |draws| && RingDecodes(ctx.ring) && ctx.pseudoOut.Encodes? && l < |ctx.ring|
    requires Filled(E, ctx, l, start, draws, s, cAt, step) && i < |ctx.ring| && 1 <= Distance(i, l, |ctx.ring|) == step
    ensures Filled(E, ctx, l, start, draws, s[i := E.F.R(draws[step])], cAt[i := SignerChain(E, ctx, l, start, draws, step - 1)], step + 1)
  {
    hide Field.R, SignerChain, RingDecodes;
    DistanceInjective(l, |ctx.ring|);
  }

  /** The ring walk of the signer, from l + 1 around to l. monerosign.ts:282-298. */
  method SignWalk(E: Group, ctx: Context, l: nat, start: nat, randomScalars: seq<nat>, s: array<nat>, cAt: array<nat>)
    returns (ok: bool, c: nat)
    requires RingDecodes(ctx.ring) && ctx.pseudoOut.Encodes? && l < |ctx.ring| == s.Length == cAt.Length
    requires |randomScalars| == |ctx.ring| + 1 && s != cAt && E.F.R(start) == start
    modifies s, cAt
    ensures ok ==> Walked(E, ctx, l, start, s[..], cAt[..], c, |ctx.ring| - 1)
    ensures ok <==> WalkIsClear(E, ctx, l, start, randomScalars)
    ensures ok ==> c == SignerChain(E, ctx, l, start, randomScalars, |ctx.ring| - 1)
    ensures ok ==> Filled(E, ctx, l, start, randomScalars, s[..], cAt[..], |ctx.ring|)
  {
    hide Field.R, Group.HashToScalar, RingDecodes, Walked, LeftPoint, RightPoint, SignerChain, Filled;
    var n := |ctx.ring|;
    c := start;
    WalkedStart(E, ctx, l, start, s[..], cAt[..]);
    ChainStep(E, ctx, l, start, randomScalars, 0);
    FilledStart(E, ctx, l, start, randomScalars, s[..], cAt[..]);
    for step := 1 to n
      invariant Filled(E, ctx, l, start, randomScalars, s[..], cAt[..], step)
      invariant Walked(E, ctx, l, start, s[..], cAt[..], c, step - 1)
      invariant c == SignerChain(E, ctx, l, start, randomScalars, step - 1)
      invariant forall t :: 1 <= t < step ==> E.F.R(randomScalars[t]) != 0
      invariant forall t :: 0 <= t < step - 1 ==> SignerChain(E, ctx, l, start, randomScalars, t) != 0
    {
      ChainStep(E, ctx, l, start, randomScalars, step);
      var i := (l + step) % n;
      var si := E.F.R(randomScalars[step]);
      if si == 0 || c == 0 { return false, c; }
      E.F.Idem(randomScalars[step]);
      ghost var s0, cAt0, c0 := s[..], cAt[..], c;
      cAt[i] := c;
      s[i] := si;
      var m := ctx.ring[i];
      assert m.key.Encodes? && m.commitment.Encodes? by { RingMemberDecodes(ctx.ring, i); }
      var L := LeftPoint(E, m.key.point, m.commitment.point, ctx.pseudoOut.point, ctx.muP, ctx.muC, si, c);
      var R := RightPoint(E, E.ec(m.key), ctx.aggImage, si, c);
      c := RoundChallenge(E, ctx.message, ctx.ring, ctx.pseudoOut, L, R);
      ChallengeCanonical(E, ctx.message, ctx.ring, ctx.pseudoOut, L, R);
      NextPosition(l, step - 1, n);
      NextPosition(l, step, n);
      WalkedNext(E, ctx, l, start, s0, cAt0, c0, step - 1, i, (l + step - 1) % n, si, s[..], cAt[..], c);
      FilledNext(E, ctx, l, start, randomScalars, s0, cAt0, step, i);
    }
    ok := true;
  }

  lemma FilledStart(E: Group, ctx: Context, l: nat, start: nat, draws: seq<nat>, s: seq<nat>, cAt: seq<nat>)
    requires |ctx.ring| < |draws| && RingDecodes(ctx.ring) && ctx.pseudoOut.Encodes? && l < |ctx.ring| == |s| == |cAt|
    ensures Filled(E, ctx, l, start, draws, s, cAt, 1)
  {
    hide RingDecodes;
  }

  lemma ChallengeCanonical(E: Group, message: Chunk, ring: seq<RingMember>, pseudoOut: PointBytes, L: Point, R: Point)
    ensures E.F.R(RoundChallenge(E, message, ring, pseudoOut, L, R)) == RoundChallenge(E, message, ring, pseudoOut, L, R)
  {
    E.F.Idem(E.hash([TextChunk("CLSAG_round")] + KeyChunks(ring) + CommitmentChunks(ring)
                    + [PointChunk(pseudoOut), message, PointChunk(Encodes(L)), PointChunk(Encodes(R))]));
    hide Field.R;
  }

  lemma RingMemberDecodes(ring: seq<RingMember>, i: nat)
    requires RingDecodes(ring) && i < |ring|
    ensures ring[i].key.Encodes? && ring[i].commitment.Encodes?
  {
  }

  lemma WalkedStart(E: Group, ctx: Context, l: nat, start: nat, s: seq<nat>, cAt: seq<nat>)
    requires RingDecodes(ctx.ring) && ctx.pseudoOut.Encodes? && l < |ctx.ring| == |s| == |cAt| && E.F.R(start) == start
    ensures Walked(E, ctx, l, start, s, cAt, start, 0)
  {
    hide Field.R, Next;
  }

  /** The challenge the signature's walk reaches at position l. */
  ghost function ChallengeAt(E: Group, message: Chunk, ring: seq<RingMember>, pseudoOut: PointBytes, sig: Clsag, l: nat): nat
    requires Readable(ring, pseudoOut, sig) && l < |ring|
  {
    Walk(E, ContextOf(E, message, ring, pseudoOut, sig), sig.s, E.F.R(sig.c1), l)
  }

  /**
   * `clsagSign`. It fails exactly when something it multiplies by is zero, and a signer who owns the
   * real member gets a signature that the verifier accepts exactly when neither the closing response
   * nor the challenge at the real index is zero: the signer never multiplies by those two, and the
   * verifier's `multiply` refuses zero. monerosign.ts:192-311.
   */
  method ClsagSign(E: Group, message: Chunk, ring: seq<RingMember>, secret: SecretInput, pseudoOut: PointBytes, randomScalars: seq<nat>)
    returns (r: Result<Clsag>)
    requires E.Valid()
    ensures ring == [] ==> r == Err(EmptyRing)
    ensures ring != [] && !(0 <= secret.index < |ring|) ==> r == Err(IndexOutsideRing)
    ensures 0 <= secret.index < |ring| && |randomScalars| != |ring| + 1 ==> r == Err(WrongNonceCount)
    ensures 0 <= secret.index < |ring| && |randomScalars| == |ring| + 1 && !(RingDecodes(ring) && pseudoOut.Encodes?) ==>
      r == Err(UndecodablePoint)
    ensures Presented(ring, secret, pseudoOut, randomScalars) ==>
      && (r.Ok? || r == Err(ZeroScalar))
      && (r.Ok? <==> SignerIsClear(E, message, ring, secret, pseudoOut, randomScalars))
    ensures r.Ok? ==> Presented(ring, secret, pseudoOut, randomScalars) && Readable(ring, pseudoOut, r.value)
    ensures r.Ok? ==>
      r.value.s[secret.index] == ClosingResponse(E, message, ring, secret, pseudoOut, randomScalars)
    ensures r.Ok? ==> IsSignatureOf(E, message, ring, secret, pseudoOut, randomScalars, r.value)
    ensures r.Ok? ==> r.value.keyImage == Encodes(E.Times(E.F.R(secret.p), E.ec(ring[secret.index].key)))
    ensures r.Ok? ==> r.value.dInv8 == Encodes(E.Times(E.F.Inverse(8), E.Times(E.F.R(secret.z), E.ec(ring[secret.index].key))))
    ensures r.Ok? && Owns(E, ring, pseudoOut, secret) ==>
      ChallengeAt(E, message, ring, pseudoOut, r.value, secret.index) == LastChallenge(E, message, ring, secret, pseudoOut, randomScalars)
    ensures r.Ok? && Owns(E, ring, pseudoOut, secret) ==>
      (Accepts(E, message, ring, pseudoOut, r.value) <==> SignatureIsClear(E, message, ring, secret, pseudoOut, randomScalars))
  {
    hide Field.R, Group.HashToScalar, RingDecodes, Walked, Walk, Accepts, Owns, Aggregate, RoundChallenge, Group.Times, Group.Plus, Group.Valid,
         SignerChain, WalkIsClear, ContextOf;
    var F, n, l := E.F, |ring|, secret.index;
    if n == 0 { return Err(EmptyRing); }
    if l < 0 || l >= n { return Err(IndexOutsideRing); }
    if |randomScalars| != n + 1 { return Err(WrongNonceCount); }
    var decodes := RingReadable(ring);
    if !decodes || pseudoOut.Undecodable? { return Err(UndecodablePoint); }
    var p, z := F.R(secret.p), F.R(secret.z);
    if p == 0 || z == 0 { return Err(ZeroScalar); }
    RingMemberDecodes(ring, l);
    var Hp := E.ec(ring[l].key);
    var I, D := E.Times(p, Hp), E.Times(z, Hp);
    EightInverts(E);
    var inv8 := Inv(F, 8);
    var dInv8 := E.Times(inv8, D);
    var muP := Aggregate(E, "CLSAG_agg_0", ring, Encodes(I), Encodes(dInv8), pseudoOut);
    var muC := Aggregate(E, "CLSAG_agg_1", ring, Encodes(I), Encodes(dInv8), pseudoOut);
    var alpha := F.R(randomScalars[0]);
    if muP == 0 || muC == 0 || alpha == 0 { return Err(ZeroScalar); }
    var aggImage := E.Plus(E.Times(muP, I), E.Times(muC, D));
    var ctx := Context(message, ring, pseudoOut, muP, muC, aggImage);
    var start := RoundChallenge(E, message, ring, pseudoOut, E.Times(alpha, BASE), E.Times(alpha, Hp));

    ChallengeCanonical(E, message, ring, pseudoOut, E.Times(alpha, BASE), E.Times(alpha, Hp));
    var s, cAt := new nat[n](_ => 0), new nat[n](_ => 0);
    var walked, c := SignWalk(E, ctx, l, start, randomScalars, s, cAt);
    if !walked { return Err(ZeroScalar); }
    ghost var s0, cAt0 := s[..], cAt[..];
    cAt[l] := c;
    var secretAgg := F.Add(F.Mul(muP, p), F.Mul(muC, z));
    s[l] := F.Sub(alpha, F.Mul(c, secretAgg));
    r := Ok(Clsag(cAt[0], s[..], Encodes(I), Encodes(dInv8)));
    SignatureFacts(E, message, ring, secret, pseudoOut, r.value, ctx, start, alpha, s0, cAt0, c, s[l], cAt[..], D);
    F.Idem(alpha - F.Mul(c, secretAgg));
    FilledIs(E, message, ring, secret, pseudoOut, randomScalars, ctx, start, s0, cAt0, s[l], r.value);
  }

  lemma FilledIs(E: Group, message: Chunk, ring: seq<RingMember>, secret: SecretInput, pseudoOut: PointBytes, draws: seq<nat>,
                 ctx: Context, start: nat, s: seq<nat>, cAt: seq<nat>, sl: nat, sig: Clsag)
    requires Presented(ring, secret, pseudoOut, draws) && ctx == SignerContext(E, message, ring, secret, pseudoOut)
    requires start == SignerStart(E, message, ring, secret, pseudoOut, draws)
    requires Filled(E, ctx, secret.index, start, draws, s, cAt, |ring|)
    requires sl == ClosingResponse(E, message, ring, secret, pseudoOut, draws) && sig.s == s[secret.index := sl]
    requires sig.c1 == cAt[secret.index := LastChallenge(E, message, ring, secret, pseudoOut, draws)][0]
    requires var hp := E.ec(ring[secret.index].key);
      sig.keyImage == Encodes(E.Times(E.F.R(secret.p), hp)) && sig.dInv8 == Encodes(E.Times(E.F.Inverse(8), E.Times(E.F.R(secret.z), hp)))
    ensures sig == SignatureOf(E, message, ring, secret, pseudoOut, draws)
  {
    hide Field.R, SignerChain, RingDecodes, ClosingResponse, SignerContext, SignerStart, Group.Times;
    var l, n := secret.index, |ring|;
    forall i | 0 <= i < n && i != l ensures sig.s[i] == E.F.R(draws[Distance(i, l, n)]) {
    }
    assert l != 0 ==> Distance(0, l, n) == n - l;
  }

  /** From the closed ring to what the verifier decides. */
  lemma SignatureFacts(E: Group, message: Chunk, ring: seq<RingMember>, secret: SecretInput, pseudoOut: PointBytes, sig: Clsag,
                       ctx: Context, start: nat, alpha: int, s: seq<nat>, cAt: seq<nat>, c: nat, sl: nat, cAt': seq<nat>, D: Point)
    requires E.Valid() && 0 <= secret.index < |ring| && RingDecodes(ring) && pseudoOut.Encodes?
    requires ctx.message == message && ctx.ring == ring && ctx.pseudoOut == pseudoOut && ctx.muP != 0 && ctx.muC != 0
    requires D == E.Times(E.F.R(secret.z), E.ec(ring[secret.index].key))
    requires sig.keyImage == Encodes(E.Times(E.F.R(secret.p), E.ec(ring[secret.index].key)))
    requires sig.dInv8 == Encodes(E.Times(E.F.Inverse(8), D))
    requires ctx.muP == Aggregate(E, "CLSAG_agg_0", ring, sig.keyImage, sig.dInv8, pseudoOut)
    requires ctx.muC == Aggregate(E, "CLSAG_agg_1", ring, sig.keyImage, sig.dInv8, pseudoOut)
    requires ctx.aggImage == E.Plus(E.Times(ctx.muP, sig.keyImage.point), E.Times(ctx.muC, D))
    requires start == RoundChallenge(E, message, ring, pseudoOut, E.Times(alpha, BASE), E.Times(alpha, E.ec(ring[secret.index].key)))
    requires Walked(E, ctx, secret.index, start, s, cAt, c, |ring| - 1)
    requires sl == E.F.Sub(alpha, E.F.Mul(c, E.F.Add(E.F.Mul(ctx.muP, E.F.R(secret.p)), E.F.Mul(ctx.muC, E.F.R(secret.z)))))
    requires cAt' == cAt[secret.index := c] && sig.s == s[secret.index := sl] && sig.c1 == cAt'[0]
    ensures Readable(ring, pseudoOut, sig) && ContextOf(E, message, ring, pseudoOut, sig) == ctx
    ensures Owns(E, ring, pseudoOut, secret) ==> c == ChallengeAt(E, message, ring, pseudoOut, sig, secret.index)
    ensures Owns(E, ring, pseudoOut, secret) ==>
      (Accepts(E, message, ring, pseudoOut, sig) <==>
       E.F.R(sl) != 0 && ChallengeAt(E, message, ring, pseudoOut, sig, secret.index) != 0)
  {
    hide Field.R, Group.HashToScalar, RingDecodes, Walked, Closes, Walk, Group.Times, Group.Plus, Group.Minus, Aggregate, RoundChallenge;
    var l, n := secret.index, |ring|;
    var hp, p, z := E.ec(ring[l].key), E.F.R(secret.p), E.F.R(secret.z);
    RingMemberDecodes(ring, l);
    E.TimesOnCurve(z, hp);
    EighthUndone(E, D);
    WalkedShape(E, ctx, l, start, s, cAt, c, n - 1);
    WalkedCloses(E, ctx, l, start, s, cAt, c, sl, cAt', sig.s);
    if Owns(E, ring, pseudoOut, secret) {
      ResponseCongruence(E.F, alpha, c, ctx.muP, p, ctx.muC, z);
      RealMember(E, ring[l].key.point, ring[l].commitment.point, pseudoOut.point, hp, p, z, alpha, ctx.muP, ctx.muC, c, E.F.R(sl), ctx.aggImage);
      ClosedRingDecides(E, message, ring, pseudoOut, sig, ctx, cAt', l);
    }
  }

  lemma WalkedShape(E: Group, ctx: Context, l: nat, start: nat, s: seq<nat>, cAt: seq<nat>, c: nat, t: nat)
    requires RingDecodes(ctx.ring) && ctx.pseudoOut.Encodes? && Walked(E, ctx, l, start, s, cAt, c, t)
    ensures |s| == |cAt| == |ctx.ring|
  {
    hide Field.R, Next;
  }

  lemma ResponseCongruence(F: Field, alpha: int, c: int, muP: int, p: int, muC: int, z: int)
    ensures F.R(F.R(F.Sub(alpha, F.Mul(c, F.Add(F.Mul(muP, p), F.Mul(muC, z)))))) == F.R(alpha - c * (muP * p + muC * z))
  {
    F.Idem(F.Sub(alpha, F.Mul(c, F.Add(F.Mul(muP, p), F.Mul(muC, z)))));
    hide Field.R;
    F.MulV(muP, muP, p, p);
    F.MulV(muC, muC, z, z);
    F.AddV(F.Mul(muP, p), muP * p, F.Mul(muC, z), muC * z);
    F.MulV(c, c, F.Add(F.Mul(muP, p), F.Mul(muC, z)), muP * p + muC * z);
    F.SubV(alpha, alpha, F.Mul(c, F.Add(F.Mul(muP, p), F.Mul(muC, z))), c * (muP * p + muC * z));
  }

  /** On a closed ring the verifier's only question is whether something it multiplies by is zero. */
  lemma ClosedRingDecides(E: Group, message: Chunk, ring: seq<RingMember>, pseudoOut: PointBytes, sig: Clsag, ctx: Context, cAt: seq<nat>, l: nat)
    requires Readable(ring, pseudoOut, sig) && ContextOf(E, message, ring, pseudoOut, sig) == ctx && l < |ring|
    requires ctx.muP != 0 && ctx.muC != 0 && Closes(E, ctx, sig.s, cAt) && E.F.R(sig.c1) == sig.c1 == cAt[0]
    requires forall i :: 0 <= i < |ring| && i != l ==> E.F.R(sig.s[i]) != 0 && cAt[i] != 0
    ensures ChallengeAt(E, message, ring, pseudoOut, sig, l) == cAt[l]
    ensures Accepts(E, message, ring, pseudoOut, sig) <==> E.F.R(sig.s[l]) != 0 && cAt[l] != 0
  {
    hide Field.R, Walk, Next, RingDecodes, Aggregate, Group.Times, Group.Plus;
    forall k | 0 <= k <= |ring| ensures Walk(E, ctx, sig.s, cAt[0], k) == if k == |ring| then cAt[0] else cAt[k] {
      WalkOfClosed(E, ctx, sig.s, cAt, k);
    }
  }

  // ---- The refusal is real ---------------------------------------------------------------------

  /**
   * A signer who owns the only member of a ring and whose nonce is the sum of the two secrets, under
   * a hash that always yields 1: the response is zero, and the honest signature is refused. The hash is
   * not the code's; this only shows that over an arbitrary group the condition cannot be dropped.
   */
  method HonestSignatureRefused(E: Group, message: Chunk) returns (sig: Clsag, accepted: bool)
    requires E.Valid() && forall chunks :: E.HashToScalar(chunks) == 1
    ensures Owns(E, [RingMember(Encodes(BASE), Encodes(BASE))], Encodes(ZERO), SecretInput(1, 1, 0))
    ensures !accepted
  {
    var ring := [RingMember(Encodes(BASE), Encodes(BASE))];
    OwnsExample(E, ring);
    hide Field.R, Accepts, Group.HashToScalar, Group.Times, Group.Minus, Owns, RingDecodes, ContextOf, Walk;
    var r := ClsagSign(E, message, ring, SecretInput(1, 1, 0), Encodes(ZERO), [2, 1]);
    sig := r.value;
    accepted := ClsagVerify(E, message, ring, Encodes(ZERO), sig);
    ghost var ctx := ContextOf(E, message, ring, Encodes(ZERO), sig);
    ChallengesAreOne(E, message, ring, sig);
    OneTwoCancel(E.F);
  }

  lemma OwnsExample(E: Group, ring: seq<RingMember>)
    requires E.Valid() && ring == [RingMember(Encodes(BASE), Encodes(BASE))]
    ensures Owns(E, ring, Encodes(ZERO), SecretInput(1, 1, 0)) && RingDecodes(ring)
    ensures E.F.R(1) == 1 && E.F.R(2) == 2 && !SomeDrawIsZero(E.F, [2, 1])
  {
    E.F.Range(1);
    E.F.Range(2);
  }

  lemma ChallengesAreOne(E: Group, message: Chunk, ring: seq<RingMember>, sig: Clsag)
    requires (forall chunks :: E.HashToScalar(chunks) == 1) && |ring| == 1 && Readable(ring, Encodes(ZERO), sig)
    ensures ContextOf(E, message, ring, Encodes(ZERO), sig).muP == 1 == ContextOf(E, message, ring, Encodes(ZERO), sig).muC
    ensures ChallengeAt(E, message, ring, Encodes(ZERO), sig, 0) == E.F.R(sig.c1)
  {
    hide Field.R;
  }

  lemma OneTwoCancel(F: Field)
    requires F.Valid()
    ensures F.Sub(2, F.Mul(1, F.Add(F.Mul(1, 1), F.Mul(1, 1)))) == 0
  {
    F.Range(0);
    F.Range(1);
    F.Range(2);
  }
}
