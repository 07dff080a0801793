/**
 * `signMoneroSpend`: a checked unsigned set in, a self-verifying transaction out. Each refusal after
 * the range proof guards against something the assembly has already made impossible.
 */
module MoneroBuild {
  import opened Sums
  import opened Scalars
  import opened Bytes
  import opened Orders
  import opened Curve
  import opened MoneroCrypto
  import opened MoneroSet
  import opened MoneroOutputs
  import opened MoneroExtra
  import opened MoneroInputs
  import opened MoneroBalance
  import C = Clsag
  import Spec = BulletproofPlusSpec
  import Verifier = BulletproofPlusVerifier
  import Opening = BulletproofPlusOpening
  import Prover = BulletproofPlusComplete
  import Honest = BulletproofPlusHonest

  // ---- Randomness ------------------------------------------------------------------------

  /** monerobuild.ts:237-239. */
  function SigningRandomCount(nInputs: nat, ringSize: nat, nOutputs: nat): int {
    1 + 1 + nOutputs + (nInputs - 1) + nInputs * (ringSize + 1) + Prover.RandomCount(nOutputs)
  }

  ghost predicate CountMatches(spend: UnsignedSet, randomScalars: seq<nat>) {
    |randomScalars| == SigningRandomCount(|spend.inputs|, spend.ringSize, |spend.outputs|)
  }

  // ---- Amounts ------------------------------------------------------------------------------

  function InputAmount(): UnsignedInput -> int { (i: UnsignedInput) => i.amount }
  function OutputAmount(): UnsignedOutput -> int { (o: UnsignedOutput) => o.amount }
  function BuiltInputAmount(): BuiltInput -> int { (b: BuiltInput) => b.source.amount }
  function BuiltAmount(): BuiltOutput -> int { (o: BuiltOutput) => o.source.amount }
  function BuiltMask(): BuiltOutput -> nat { (o: BuiltOutput) => o.mask }
  function BuiltCommitment(): BuiltOutput -> Point { (o: BuiltOutput) => o.commitment }
  function SourceOfOutput(): BuiltOutput -> UnsignedOutput { (o: BuiltOutput) => o.source }

  ghost predicate Balanced(spend: UnsignedSet) {
    SumOf(Map(InputAmount(), spend.inputs)) == SumOf(Map(OutputAmount(), spend.outputs)) + spend.fee
  }

  method TotalOf(amounts: seq<int>) returns (sum: int)
    ensures sum == SumOf(amounts)
  {
    sum := 0;
    for i := 0 to |amounts|
      invariant sum == SumOf(amounts[..i])
    {
      assert amounts[..i + 1][..i] == amounts[..i];
      sum := sum + amounts[i];
    }
    assert amounts[..|amounts|] == amounts;
  }

  lemma {:induction false} MapTwice<X, Y, Z>(g: Y -> Z, f: X -> Y, h: X -> Z, s: seq<X>)
    requires forall x :: x in s ==> h(x) == g(f(x))
    ensures Map(g, Map(f, s)) == Map(h, s)
  {
  }

  /** Shuffling the outputs and sorting the inputs leaves the balance as it was. */
  lemma BalanceSurvives(spend: UnsignedSet, inputs: seq<BuiltInput>, outputs: seq<BuiltOutput>)
    requires Balanced(spend)
    requires multiset(Map(SourceOfInput(), inputs)) == multiset(spend.inputs)
    requires multiset(Map(SourceOfOutput(), outputs)) == multiset(spend.outputs)
    ensures SumOf(Map(BuiltInputAmount(), inputs)) == SumOf(Map(BuiltAmount(), outputs)) + spend.fee
  {
    hide SumOf;
    MapPermutes(InputAmount(), Map(SourceOfInput(), inputs), spend.inputs);
    MapPermutes(OutputAmount(), Map(SourceOfOutput(), outputs), spend.outputs);
    MapTwice(InputAmount(), SourceOfInput(), BuiltInputAmount(), inputs);
    MapTwice(OutputAmount(), SourceOfOutput(), BuiltAmount(), outputs);
    SumPermutes(Map(BuiltInputAmount(), inputs), Map(InputAmount(), spend.inputs));
    SumPermutes(Map(BuiltAmount(), outputs), Map(OutputAmount(), spend.outputs));
  }

  // ---- The money equation ----------------------------------------------------------------------

  ghost predicate OutputsCommit(E: Group, outputs: seq<BuiltOutput>) {
    forall k :: 0 <= k < |outputs| ==>
      && 0 <= outputs[k].source.amount < TWO_64 && E.F.R(outputs[k].mask) == outputs[k].mask
      && outputs[k].commitment == CommitTo(E, outputs[k].source.amount, outputs[k].mask)
  }

  ghost predicate PseudoOutsCommit(E: Group, inputs: seq<BuiltInput>, masks: seq<nat>, pseudoOuts: seq<Point>) {
    && |inputs| == |masks| == |pseudoOuts|
    && forall i :: 0 <= i < |inputs| ==> pseudoOuts[i] == CommitTo(E, inputs[i].source.amount, masks[i])
  }

  ghost function PseudoOutsOf(E: Group, inputs: seq<BuiltInput>, masks: seq<nat>): (pseudoOuts: seq<Point>)
    ensures |pseudoOuts| == |inputs|
  {
    seq(|inputs|, i requires 0 <= i < |inputs| => if i < |masks| then CommitTo(E, inputs[i].source.amount, masks[i]) else ZERO)
  }

  lemma PseudoOutsAre(E: Group, inputs: seq<BuiltInput>, masks: seq<nat>, pseudoOuts: seq<Point>)
    requires PseudoOutsCommit(E, inputs, masks, pseudoOuts)
    ensures pseudoOuts == PseudoOutsOf(E, inputs, masks)
  {
    hide CommitTo;
  }

  /** Pseudo-outputs, and the check of the money equation on the curve. monerobuild.ts:500-520. */
  method CommitInputs(E: Group, spend: UnsignedSet, inputs: seq<BuiltInput>, outputs: seq<BuiltOutput>, draws: seq<nat>)
    returns (r: Outcome<(seq<nat>, seq<Point>)>)
    requires E.Valid() && OutputsCommit(E, outputs) && InputsFit(Map(SourceOfInput(), inputs)) && 0 <= spend.fee < TWO_64
    requires |inputs| >= 1 && |draws| == |inputs| - 1
    requires SumOf(Map(BuiltInputAmount(), inputs)) == SumOf(Map(BuiltAmount(), outputs)) + spend.fee
    ensures r.Done?
    ensures PseudoOutsCommit(E, inputs, r.value.0, r.value.1) && |r.value.0| == |r.value.1| == |inputs|
    ensures forall i :: 0 <= i < |inputs| ==> E.F.R(r.value.0[i]) == r.value.0[i]
    ensures r.value == (MasksFrom(E.F, Map(BuiltMask(), outputs), draws), PseudoOutsOf(E, inputs, MasksFrom(E.F, Map(BuiltMask(), outputs), draws)))
    ensures SumFrom(E, ZERO, r.value.1) == SumFrom(E, E.Times(spend.fee, E.H), Map(BuiltCommitment(), outputs))
  {
    hide *;
    var outMasks := Map(BuiltMask(), outputs);
    var masks := PseudoMasks(E, outMasks, |inputs|, draws);
    var pseudoOuts := PseudoOuts(E, inputs, masks);
    var commitments := Map(BuiltCommitment(), outputs);
    var lhs := AddPoints(E, ZERO, pseudoOuts);
    var feePoint := FeePoint(E, spend.fee);
    var rhs := AddPoints(E, feePoint, commitments);
    PseudoOutsAre(E, inputs, masks, pseudoOuts);
    CommitmentLists(E, inputs, masks, pseudoOuts, outputs);
    BalanceOnCurve(E, pseudoOuts, Map(BuiltInputAmount(), inputs), masks, commitments, Map(BuiltAmount(), outputs), outMasks, spend.fee);
    if lhs != rhs { return Refused(CommitmentsDoNotBalance); }
    r := Done((masks, pseudoOuts));
  }

  method FeePoint(E: Group, fee: int) returns (P: Point)
    requires E.Valid() && 0 <= fee < TWO_64
    ensures P == E.Times(fee, E.H)
  {
    CommitStart(E, 0);
    P := if fee == 0 then ZERO else E.Times(fee, E.H);
  }

  lemma CommitmentLists(E: Group, inputs: seq<BuiltInput>, masks: seq<nat>, pseudoOuts: seq<Point>, outputs: seq<BuiltOutput>)
    requires PseudoOutsCommit(E, inputs, masks, pseudoOuts) && OutputsCommit(E, outputs)
    ensures Commits(E, pseudoOuts, Map(BuiltInputAmount(), inputs), masks)
    ensures Commits(E, Map(BuiltCommitment(), outputs), Map(BuiltAmount(), outputs), Map(BuiltMask(), outputs))
  {
    hide CommitTo, Field.R;
  }

  method PseudoOuts(E: Group, inputs: seq<BuiltInput>, masks: seq<nat>) returns (pseudoOuts: seq<Point>)
    requires |inputs| == |masks| && InputsFit(Map(SourceOfInput(), inputs))
    requires forall i :: 0 <= i < |masks| ==> E.F.R(masks[i]) == masks[i]
    ensures PseudoOutsCommit(E, inputs, masks, pseudoOuts) && |pseudoOuts| == |inputs|
  {
    hide Field.R, CommitTo;
    pseudoOuts := [];
    for i := 0 to |inputs|
      invariant |pseudoOuts| == i
      invariant forall k :: 0 <= k < i ==> pseudoOuts[k] == CommitTo(E, inputs[k].source.amount, masks[k])
    {
      assert Map(SourceOfInput(), inputs)[i] == inputs[i].source;
      var c := Commit(E, inputs[i].source.amount, masks[i]);
      pseudoOuts := pseudoOuts + [c.value];
    }
  }

  // ---- The range proof ----------------------------------------------------------------------------

  function OutPk(outputs: seq<BuiltOutput>): (r: seq<PointBytes>)
    ensures |r| == |outputs| && forall k :: 0 <= k < |r| ==> r[k] == Encodes(outputs[k].commitment)
  {
    seq(|outputs|, k requires 0 <= k < |outputs| => Encodes(outputs[k].commitment))
  }

  /** The honest prover's run over the outputs. */
  ghost function RangeRun(E: Group, outputs: seq<BuiltOutput>, draws: seq<nat>): Honest.Run
    requires 1 <= |outputs| <= 16 && |draws| == Prover.RandomCount(|outputs|)
  {
    Prover.CeilLogPads(|outputs|);
    Honest.HonestRun(E, Map(BuiltAmount(), outputs), Prover.Gammas(E.F, Map(BuiltMask(), outputs)), draws)
  }

  /** No draw of the range proof is zero, and none of its challenges. */
  ghost predicate RangeIsClear(E: Group, outputs: seq<BuiltOutput>, draws: seq<nat>)
    requires 1 <= |outputs| <= 16 && |draws| == Prover.RandomCount(|outputs|)
  {
    !SomeDrawIsZero(E.F, draws) && Honest.NoZero(RangeRun(E, outputs, draws))
  }

  /** Proved, then put to the verifier over the published commitments. monerobuild.ts:523-531. */
  method ProveRange(E: Group, outputs: seq<BuiltOutput>, draws: seq<nat>) returns (r: Outcome<Spec.BulletproofPlus>)
    requires E.Valid() && OutputsCommit(E, outputs) && 1 <= |outputs| <= 16 && |draws| == Prover.RandomCount(|outputs|)
    ensures r.Done? <==> RangeIsClear(E, outputs, draws)
    ensures r.Done? ==> Spec.Accepts(E, OutPk(outputs), r.value) && r.value == Honest.HonestProof(RangeRun(E, outputs, draws))
    ensures r.Refused? ==> r.problem == SigningFailed(ZeroScalar)
  {
    hide *;
    var amounts, masks := Map(BuiltAmount(), outputs), Map(BuiltMask(), outputs);
    AmountsInRange(E, outputs, draws);
    var proved := Prover.ProveBulletproofPlus(E, amounts, masks, draws);
    RangeGives(E, outputs, draws, proved);
    if proved.Err? { return Refused(SigningFailed(ZeroScalar)); }
    PublishedAreEight(E, outputs, proved.value.V);
    var ok := Verifier.VerifyBulletproofPlus(E, OutPk(outputs), proved.value.proof);
    if !ok { return Refused(RangeProofRejected); }
    r := Done(proved.value.proof);
  }

  lemma AmountsInRange(E: Group, outputs: seq<BuiltOutput>, draws: seq<nat>)
    requires OutputsCommit(E, outputs) && 1 <= |outputs| <= 16 && |draws| == Prover.RandomCount(|outputs|)
    ensures Prover.Provable(Map(BuiltAmount(), outputs), Map(BuiltMask(), outputs), draws)
  {
    hide CommitTo, Field.R, Prover.RandomCount;
  }

  lemma RangeGives(E: Group, outputs: seq<BuiltOutput>, draws: seq<nat>, proved: Prover.Result<Prover.Proved>)
    requires 1 <= |outputs| <= 16 && |draws| == Prover.RandomCount(|outputs|)
    requires Prover.RunGives(E, Map(BuiltAmount(), outputs), Prover.Gammas(E.F, Map(BuiltMask(), outputs)), draws, 0, proved)
    ensures proved.Ok? <==> RangeIsClear(E, outputs, draws)
    ensures proved.Ok? ==> proved.value.proof == Honest.HonestProof(RangeRun(E, outputs, draws))
  {
    hide Honest.HonestRun, Honest.HonestProof, Honest.NoZero, Prover.RandomCount, Field.R, Spec.PadLog, Prover.RunGives, SomeDrawIsZero;
    Prover.EndsWhenClear(E, Map(BuiltAmount(), outputs), Prover.Gammas(E.F, Map(BuiltMask(), outputs)), draws, proved);
    Prover.GivesProof(E, Map(BuiltAmount(), outputs), Prover.Gammas(E.F, Map(BuiltMask(), outputs)), draws, proved);
  }

  lemma PublishedAreEight(E: Group, outputs: seq<BuiltOutput>, V: seq<PointBytes>)
    requires OutputsCommit(E, outputs) && |V| == |outputs| && Spec.AllDecode(V)
    requires forall i :: 0 <= i < |outputs| ==>
      E.Times(8, V[i].point) == CommitTo(E, Map(BuiltAmount(), outputs)[i], E.F.R(Map(BuiltMask(), outputs)[i]))
    ensures Prover.TimesEightBytes(E, V) == OutPk(outputs)
  {
    hide CommitTo, Group.Times, Field.R;
  }

  // ---- The prefix -----------------------------------------------------------------------------------

  ghost predicate Ascending(indexes: seq<nat>) {
    forall i, j :: 0 <= i < j < |indexes| ==> indexes[i] <= indexes[j]
  }

  /** Each index is the sum of the offsets up to it. */
  ghost predicate Offsets(offsets: seq<nat>, indexes: seq<nat>) {
    |offsets| == |indexes| && forall i :: 0 <= i < |indexes| ==> SumOf(offsets[..i + 1]) == indexes[i]
  }

  /** Each index less the one before. */
  ghost function Relative(indexes: seq<nat>): (offsets: seq<nat>)
    ensures |offsets| == |indexes|
  {
    seq<nat>(|indexes|, k requires 0 <= k < |indexes| =>
      if k == 0 then indexes[0] else if indexes[k] >= indexes[k - 1] then indexes[k] - indexes[k - 1] else 0)
  }

  /** `absoluteToRelative`: refuses exactly the unsorted, and loses nothing. monerowire.ts:94-103. */
  method AbsoluteToRelative(indexes: seq<nat>) returns (r: Outcome<seq<nat>>)
    ensures r.Done? <==> Ascending(indexes)
    ensures r.Done? ==> Offsets(r.value, indexes) && r.value == Relative(indexes)
    ensures r.Refused? ==> r.problem == RingNotSorted
  {
    hide Ascending, SumOf;
    var out: seq<nat> := [];
    var prev := 0;
    AscendingStart();
    for i := 0 to |indexes|
      invariant Ascending(indexes[..i]) && Offsets(out, indexes[..i]) && SumOf(out) == prev
      invariant prev == if i == 0 then 0 else indexes[i - 1]
      invariant |out| == i && forall k :: 0 <= k < i ==> out[k] == Relative(indexes)[k]
    {
      AscendingNext(indexes, i);
      if indexes[i] < prev { return Refused(RingNotSorted); }
      OffsetNext(out, indexes[..i], indexes[i] - prev, indexes[i]);
      assert indexes[..i + 1] == indexes[..i] + [indexes[i]];
      out := out + [indexes[i] - prev];
      prev := indexes[i];
    }
    assert indexes[..|indexes|] == indexes;
    r := Done(out);
  }

  lemma AscendingStart()
    ensures Ascending([]) && SumOf([]) == 0
  {
  }

  lemma OffsetNext(out: seq<nat>, indexes: seq<nat>, offset: nat, index: nat)
    requires Offsets(out, indexes) && SumOf(out) + offset == index
    ensures SumOf(out + [offset]) == index
    ensures Offsets(out + [offset], indexes + [index])
  {
    hide SumOf;
    SumOfNext(out, offset);
    var s, t := out + [offset], indexes + [index];
    forall i | 0 <= i < |t| ensures SumOf(s[..i + 1]) == t[i] {
      if i < |out| {
        assert s[..i + 1] == out[..i + 1];
      } else {
        assert s[..i + 1] == s;
      }
    }
  }

  lemma AscendingNext(indexes: seq<nat>, i: nat)
    requires i < |indexes| && Ascending(indexes[..i])
    ensures i > 0 && indexes[i] < indexes[i - 1] ==> !Ascending(indexes)
    ensures i == 0 || indexes[i] >= indexes[i - 1] ==> Ascending(indexes[..i + 1])
  {
    if i > 0 {
      forall j | 0 <= j < i ensures indexes[j] <= indexes[i - 1] {
        assert indexes[..i][j] <= indexes[..i][i - 1];
      }
    }
  }

  function GlobalIndexes(input: UnsignedInput): (r: seq<nat>)
    ensures |r| == |input.ring|
  {
    seq(|input.ring|, i requires 0 <= i < |input.ring| => input.ring[i].globalIndex)
  }

  ghost predicate RingsSorted(inputs: seq<UnsignedInput>) {
    forall i :: 0 <= i < |inputs| ==> Ascending(GlobalIndexes(inputs[i]))
  }

  ghost predicate WireInputsOf(inputs: seq<BuiltInput>, wire: seq<WireInput>) {
    && |wire| == |inputs|
    && forall i :: 0 <= i < |inputs| ==>
         Offsets(wire[i].keyOffsets, GlobalIndexes(inputs[i].source)) && wire[i].keyImage == inputs[i].keyImage
  }

  ghost function WireOf(inputs: seq<BuiltInput>): (wire: seq<WireInput>)
    ensures |wire| == |inputs|
  {
    seq(|inputs|, i requires 0 <= i < |inputs| => WireInput(Relative(GlobalIndexes(inputs[i].source)), inputs[i].keyImage))
  }

  /** monerobuild.ts:534-543. */
  method PrefixInputs(inputs: seq<BuiltInput>) returns (r: Outcome<seq<WireInput>>)
    ensures r.Done? ==> WireInputsOf(inputs, r.value) && r.value == WireOf(inputs)
    ensures r.Refused? ==> r.problem == RingNotSorted && exists b :: b in inputs && !Ascending(GlobalIndexes(b.source))
  {
    hide Ascending, Offsets, Relative;
    var wire: seq<WireInput> := [];
    for i := 0 to |inputs|
      invariant |wire| == i
      invariant forall k :: 0 <= k < i ==>
        Offsets(wire[k].keyOffsets, GlobalIndexes(inputs[k].source)) && wire[k] == WireOf(inputs)[k]
    {
      var offsets := AbsoluteToRelative(GlobalIndexes(inputs[i].source));
      if offsets.Refused? { return Refused(offsets.problem); }
      wire := wire + [WireInput(offsets.value, inputs[i].keyImage)];
    }
    r := Done(wire);
  }

  // ---- The ring signatures --------------------------------------------------------------------------

  function RingOf(input: UnsignedInput): (r: seq<C.RingMember>)
    ensures |r| == |input.ring| && forall i :: 0 <= i < |r| ==> r[i] == input.ring[i].member
  {
    seq(|input.ring|, i requires 0 <= i < |input.ring| => input.ring[i].member)
  }

  /** z = inputMask - pseudoMask is exactly what separates the two commitments. */
  lemma MaskDifference(E: Group, amount: int, inputMask: int, pseudoMask: int)
    requires E.Valid()
    ensures E.Minus(CommitTo(E, amount, inputMask), CommitTo(E, amount, pseudoMask))
         == E.Times(E.F.R(E.F.R(inputMask - pseudoMask)), BASE)
  {
    var P, Q := CommitTo(E, amount, inputMask), CommitTo(E, amount, pseudoMask);
    var h := E.H.log;
    CommitFacts(E, amount, inputMask);
    CommitFacts(E, amount, pseudoMask);
    E.F.Idem(inputMask - pseudoMask);
    E.F.Idem(E.F.R(inputMask - pseudoMask));
    E.PlusOnCurve(P, Q);
    hide Field.R, CommitTo, Group.Valid;
    E.F.SubC(P.log, inputMask + amount * h, Q.log, pseudoMask + amount * h);
  }

  /** What an input is signed with: its one-time secret, and what separates its commitment from its pseudo-output. */
  function SecretOf(E: Group, input: BuiltInput, pseudoMask: nat): C.SecretInput {
    C.SecretInput(input.oneTimeSecret, E.F.R(input.inputMask - pseudoMask), input.source.realPosition)
  }

  /** Nothing multiplied by in signing an input, or in checking the signature, is zero. */
  ghost predicate InputSignsClear(E: Group, message: Chunk, input: BuiltInput, pseudoMask: nat, pseudoOut: Point, nonces: seq<nat>) {
    && C.Presented(RingOf(input.source), SecretOf(E, input, pseudoMask), Encodes(pseudoOut), nonces)
    && C.SignatureIsClear(E, message, RingOf(input.source), SecretOf(E, input, pseudoMask), Encodes(pseudoOut), nonces)
  }

  /** One input signed and checked. monerobuild.ts:556-574. */
  method SignInput(E: Group, message: Chunk, input: BuiltInput, pseudoMask: nat, pseudoOut: Point, nonces: seq<nat>)
    returns (r: Outcome<C.Clsag>)
    requires E.Valid() && InputProved(E, input) && pseudoOut == CommitTo(E, input.source.amount, pseudoMask)
    requires |nonces| == |input.source.ring| + 1
    ensures r.Done? ==>
      && C.Accepts(E, message, RingOf(input.source), Encodes(pseudoOut), r.value)
      && r.value.keyImage == Encodes(input.keyImage)
    ensures r.Refused? ==> r.problem.SignatureRejected? || r.problem in {SigningFailed(UndecodablePoint), SigningFailed(ZeroScalar)}
    ensures r == Refused(SigningFailed(UndecodablePoint)) <==> !C.RingDecodes(RingOf(input.source))
    ensures r.Done? <==> InputSignsClear(E, message, input, pseudoMask, pseudoOut, nonces)
    ensures r.Done? ==>
      C.IsSignatureOf(E, message, RingOf(input.source), SecretOf(E, input, pseudoMask), Encodes(pseudoOut), nonces, r.value)
  {
    hide C.IsSignatureOf, C.Accepts, C.Owns, C.ChallengeAt, C.RingDecodes, C.Readable, C.SignerIsClear, C.SignatureIsClear, C.LastChallenge, C.ClosingResponse,
         CommitTo, Field.R, Group.Times, Group.Valid, InputProved;
    var ring, l := RingOf(input.source), input.source.realPosition;
    var z := E.F.R(input.inputMask - pseudoMask);
    var secret := C.SecretInput(input.oneTimeSecret, z, l);
    ProvedShape(E, input, pseudoMask);
    ClearNeedsClear(E, message, ring, secret, Encodes(pseudoOut), nonces);
    var signed := C.ClsagSign(E, message, ring, secret, Encodes(pseudoOut), nonces);
    if signed.Err? {
      return Refused(SigningFailed(if signed.problem == C.UndecodablePoint then UndecodablePoint else ZeroScalar));
    }
    C.ReadableRing(ring, Encodes(pseudoOut), signed.value);
    if signed.value.keyImage != Encodes(input.keyImage) { return Refused(KeyImageDisagrees); }
    var ok := C.ClsagVerify(E, message, ring, Encodes(pseudoOut), signed.value);
    if !ok { return Refused(SignatureRejected(signed.value)); }
    r := Done(signed.value);
  }

  lemma ClearNeedsClear(E: Group, message: Chunk, ring: seq<C.RingMember>, secret: C.SecretInput, pseudoOut: PointBytes, nonces: seq<nat>)
    ensures C.Presented(ring, secret, pseudoOut, nonces) && C.SignatureIsClear(E, message, ring, secret, pseudoOut, nonces) ==>
      C.SignerIsClear(E, message, ring, secret, pseudoOut, nonces)
    ensures C.Presented(ring, secret, pseudoOut, nonces) <==>
      0 <= secret.index < |ring| && |nonces| == |ring| + 1 && C.RingDecodes(ring) && pseudoOut.Encodes?
  {
    hide C.SignerIsClear, C.LastChallenge, C.ClosingResponse, C.RingDecodes;
  }

  /** A proved input is one its signer owns, whatever its pseudo-output's mask. */
  lemma ProvedShape(E: Group, input: BuiltInput, pseudoMask: nat)
    requires E.Valid() && InputProved(E, input)
    ensures input.source.realPosition < |RingOf(input.source)|
    ensures input.keyImage == E.Times(E.F.R(input.oneTimeSecret), E.ec(RingOf(input.source)[input.source.realPosition].key))
    ensures C.RingDecodes(RingOf(input.source)) ==>
      C.Owns(E, RingOf(input.source), Encodes(CommitTo(E, input.source.amount, pseudoMask)),
             C.SecretInput(input.oneTimeSecret, E.F.R(input.inputMask - pseudoMask), input.source.realPosition))
  {
    hide CommitTo, Field.R, Group.Times, Group.Minus, Group.Valid, C.RingDecodes;
    MaskDifference(E, input.source.amount, input.inputMask, pseudoMask);
  }

  ghost predicate AllSigned(E: Group, message: Chunk, inputs: seq<BuiltInput>, pseudoOuts: seq<Point>, clsags: seq<C.Clsag>) {
    && |clsags| <= |inputs| == |pseudoOuts|
    && forall i :: 0 <= i < |clsags| ==>
         && C.Accepts(E, message, RingOf(inputs[i].source), Encodes(pseudoOuts[i]), clsags[i])
         && clsags[i].keyImage == Encodes(inputs[i].keyImage)
  }

  ghost predicate AllRingsDecode(inputs: seq<UnsignedInput>) {
    forall i :: 0 <= i < |inputs| ==> C.RingDecodes(RingOf(inputs[i]))
  }

  /** The nonces of input i. */
  ghost function NoncesAt(randomScalars: seq<nat>, drawAt: nat, ringSize: nat, i: nat): seq<nat> {
    var from := drawAt + i * (ringSize + 1);
    if from + ringSize + 1 <= |randomScalars| then randomScalars[from..from + ringSize + 1] else []
  }

  lemma NoncesAre(randomScalars: seq<nat>, drawAt: nat, ringSize: nat, i: nat)
    requires drawAt + i * (ringSize + 1) + ringSize + 1 <= |randomScalars|
    ensures NoncesAt(randomScalars, drawAt, ringSize, i)
         == randomScalars[drawAt + i * (ringSize + 1)..drawAt + i * (ringSize + 1) + ringSize + 1]
  {
  }

  ghost predicate SignaturesAreClear(E: Group, message: Chunk, ringSize: nat, inputs: seq<BuiltInput>, masks: seq<nat>,
                                     pseudoOuts: seq<Point>, randomScalars: seq<nat>, drawAt: nat) {
    && |inputs| == |masks| == |pseudoOuts|
    && forall i :: 0 <= i < |inputs| ==>
         InputSignsClear(E, message, inputs[i], masks[i], pseudoOuts[i], NoncesAt(randomScalars, drawAt, ringSize, i))
  }

  /** A draw has one use: the nonces of input i are its own ringSize + 1 draws. */
  lemma NoncesAreOwn(randomScalars: seq<nat>, drawAt: nat, ringSize: nat, n: nat, i: nat, j: nat, i': nat, j': nat)
    requires drawAt + n * (ringSize + 1) <= |randomScalars| && i < n && i' < n && j <= ringSize && j' <= ringSize
    ensures 0 <= drawAt + i * (ringSize + 1) + j < |randomScalars|
    ensures |NoncesAt(randomScalars, drawAt, ringSize, i)| == ringSize + 1
    ensures NoncesAt(randomScalars, drawAt, ringSize, i)[j] == randomScalars[drawAt + i * (ringSize + 1) + j]
    ensures drawAt + i * (ringSize + 1) + j == drawAt + i' * (ringSize + 1) + j' <==> i == i' && j == j'
  {
    NextDraws(i, n, ringSize + 1);
    hide NoncesAt;
    NoncesAre(randomScalars, drawAt, ringSize, i);
    if i < i' { NextDraws(i, i', ringSize + 1); }
    if i' < i { NextDraws(i', i, ringSize + 1); }
  }

  ghost predicate SignaturesAre(E: Group, message: Chunk, ringSize: nat, inputs: seq<BuiltInput>, masks: seq<nat>,
                                pseudoOuts: seq<Point>, randomScalars: seq<nat>, drawAt: nat, clsags: seq<C.Clsag>) {
    && |clsags| == |inputs| == |masks| == |pseudoOuts|
    && forall i :: 0 <= i < |clsags| ==>
         SignatureIs(E, message, inputs[i], masks[i], pseudoOuts[i], NoncesAt(randomScalars, drawAt, ringSize, i), clsags[i])
  }

  ghost predicate SignatureIs(E: Group, message: Chunk, input: BuiltInput, mask: nat, pseudoOut: Point, nonces: seq<nat>, sig: C.Clsag) {
    C.IsSignatureOf(E, message, RingOf(input.source), SecretOf(E, input, mask), Encodes(pseudoOut), nonces, sig)
  }

  /** One CLSAG per input, ringSize + 1 draws each. monerobuild.ts:554-575. */
  method SignInputs(E: Group, message: Chunk, ringSize: nat, inputs: seq<BuiltInput>, masks: seq<nat>, pseudoOuts: seq<Point>,
                    randomScalars: seq<nat>, drawAt: nat) returns (r: Outcome<seq<C.Clsag>>, drawn: nat)
    requires E.Valid() && AllProved(E, inputs) && PseudoOutsCommit(E, inputs, masks, pseudoOuts)
    requires forall i :: 0 <= i < |inputs| ==> |inputs[i].source.ring| == ringSize
    requires drawAt + |inputs| * (ringSize + 1) <= |randomScalars|
    ensures r.Done? ==> |r.value| == |inputs| && AllSigned(E, message, inputs, pseudoOuts, r.value)
    ensures r.Done? ==> drawn == drawAt + |inputs| * (ringSize + 1)
    ensures r.Refused? ==> r.problem.SignatureRejected? || r.problem in {SigningFailed(UndecodablePoint), SigningFailed(ZeroScalar)}
    ensures r == Refused(SigningFailed(UndecodablePoint)) ==> !AllRingsDecode(Map(SourceOfInput(), inputs))
    ensures r.Done? <==> SignaturesAreClear(E, message, ringSize, inputs, masks, pseudoOuts, randomScalars, drawAt)
    ensures r.Done? ==> SignaturesAre(E, message, ringSize, inputs, masks, pseudoOuts, randomScalars, drawAt, r.value)
  {
    hide C.Accepts, C.RingDecodes, CommitTo, Field.R, Group.Valid, InputProved, InputSignsClear, NoncesAt, C.IsSignatureOf;
    var clsags: seq<C.Clsag> := [];
    drawn := drawAt;
    for i := 0 to |inputs|
      invariant |clsags| == i && AllSigned(E, message, inputs, pseudoOuts, clsags)
      invariant drawn == drawAt + i * (ringSize + 1)
      invariant forall k :: 0 <= k < i ==>
        InputSignsClear(E, message, inputs[k], masks[k], pseudoOuts[k], NoncesAt(randomScalars, drawAt, ringSize, k))
      invariant forall k :: 0 <= k < i ==>
        SignatureIs(E, message, inputs[k], masks[k], pseudoOuts[k], NoncesAt(randomScalars, drawAt, ringSize, k), clsags[k])
    {
      NextDraws(i, |inputs|, ringSize + 1);
      var nonces := randomScalars[drawn..drawn + ringSize + 1];
      NoncesAre(randomScalars, drawAt, ringSize, i);
      drawn := drawn + ringSize + 1;
      var one := SignInput(E, message, inputs[i], masks[i], pseudoOuts[i], nonces);
      if one.Refused? {
        assert Map(SourceOfInput(), inputs)[i] == inputs[i].source;
        return Refused(one.problem), drawn;
      }
      clsags := clsags + [one.value];
    }
    r := Done(clsags);
  }

  lemma NextDraws(i: nat, n: nat, each: nat)
    requires i < n
    ensures i * each + each == (i + 1) * each <= n * each
  {
  }

  // ---- The whole spend --------------------------------------------------------------------------------

  /** What a set and its draws let the caller check beforehand; then only a zero can stop the signing. */
  ghost predicate Signable(E: Group, parse: string -> ParsedAddress, wallet: Wallet, spend: UnsignedSet, randomScalars: seq<nat>)
    requires Parsed(spend)
  {
    && wallet.network == spend.network && Balanced(spend) && AddressesRead(parse, spend)
    && CountMatches(spend, randomScalars)
    && (forall i :: 0 <= i < |spend.outputs| ==>
          && parse(spend.outputs[i].address).spendPublic.Encodes? && parse(spend.outputs[i].address).viewPublic.Encodes?
          && (parse(spend.outputs[i].address).kind == Integrated ==> |parse(spend.outputs[i].address).paymentId| == 8))
    && IntegratedAlone(parse, spend)
    && InputsFit(spend.inputs) && AllOwned(E, wallet, spend.inputs)
    && AllRingsDecode(spend.inputs) && RingsSorted(spend.inputs)
  }
}
