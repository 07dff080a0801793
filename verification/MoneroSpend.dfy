/** The spend end to end: `signMoneroSpend`, and what its recipients can do with the result. */
module MoneroSpend {
  import opened Sums
  import opened Scalars
  import opened Bytes
  import opened Orders
  import opened Curve
  import opened MoneroCrypto
  import opened MoneroSet
  import opened MoneroOutputs
  import opened MoneroExtra
  import opened MoneroInputs
  import opened MoneroBalance
  import opened MoneroBuild
  import C = Clsag
  import Spec = BulletproofPlusSpec
  import Prover = BulletproofPlusComplete
  import Honest = BulletproofPlusHonest

  // ---- What was sent ---------------------------------------------------------------------

  /** The destination an output's own address string names. */
  function DestFor(parse: string -> ParsedAddress, out: BuiltOutput): Dest
    requires parse(out.source.address).Address?
  {
    DestOf(parse(out.source.address), out.source)
  }

  /** The transaction secret of position k: the k-th additional draw when there is one for it, else the main one. */
  function SecretAt(E: Group, dests: seq<Dest>, dest: Dest, randomScalars: seq<nat>, k: nat): nat
    requires 2 + k < |randomScalars|
  {
    TxPrivate(dests, dest, E.F.R(randomScalars[0]), E.F.R(randomScalars[2 + k]))
  }

  /** Every output, published key and payment id is the one its destination calls for. */
  ghost predicate Sent(E: Group, parse: string -> ParsedAddress, dests: seq<Dest>, randomScalars: seq<nat>,
                       outputs: seq<BuiltOutput>, extra: Extra)
  {
    && 2 + |outputs| <= |randomScalars|
    && (forall k :: 0 <= k < |outputs| ==>
          && parse(outputs[k].source.address).Address?
          && DestFor(parse, outputs[k]) in dests
          && Addressed(E, outputs[k], outputs[k].source, DestFor(parse, outputs[k]), k,
                       SecretAt(E, dests, DestFor(parse, outputs[k]), randomScalars, k)))
    && MainKey(E, dests, E.F.R(randomScalars[0])) == Ok(extra.txPublicKey)
    && |extra.additionalPublicKeys| == (if NeedAdditional(dests) then |outputs| else 0)
    && (forall k :: 0 <= k < |extra.additionalPublicKeys| ==>
          PublishedKey(E, DestFor(parse, outputs[k]), E.F.R(randomScalars[2 + k])) == Ok(extra.additionalPublicKeys[k]))
    && IdEncrypted(E, dests, E.F.R(randomScalars[0]), extra.encryptedPaymentId)
  }

  // ---- What a spend is made of, as a function of the set and the draws ---------------------

  ghost function AdditionalOf(F: Field, randomScalars: seq<nat>, n: nat): (secrets: seq<nat>)
    requires 2 + n <= |randomScalars|
    ensures |secrets| == n
  {
    seq(n, k requires 0 <= k < n => F.R(randomScalars[2 + k]))
  }

  ghost function OutputsOf(E: Group, spend: UnsignedSet, dests: seq<Dest>, order: seq<nat>, txSecret: nat, additional: seq<nat>): (outputs: seq<BuiltOutput>)
    requires |dests| == |spend.outputs| && |order| == |additional| && forall k :: 0 <= k < |order| ==> order[k] < |spend.outputs|
    requires forall i :: 0 <= i < |spend.outputs| ==> 0 <= spend.outputs[i].amount < TWO_64
    ensures |outputs| == |order|
  {
    seq(|order|, k requires 0 <= k < |order| =>
      OutputOf(E, spend.outputs[order[k]], dests[order[k]], k, TxPrivate(dests, dests[order[k]], txSecret, additional[k])))
  }

  ghost function ExtraOf(E: Group, dests: seq<Dest>, order: seq<nat>, txSecret: nat, additional: seq<nat>): Extra
    requires |order| == |additional| && forall k :: 0 <= k < |order| ==> order[k] < |dests|
  {
    Extra(PointOr(MainKey(E, dests, txSecret)),
          if NeedAdditional(dests) then seq(|order|, k requires 0 <= k < |order| => PointOr(PublishedKey(E, dests[order[k]], additional[k]))) else [],
          IdOf(E, dests, txSecret))
  }

  lemma BuiltIs(E: Group, spend: UnsignedSet, dests: seq<Dest>, order: seq<nat>, txSecret: nat, additional: seq<nat>,
                outputs: seq<BuiltOutput>, keys: seq<Point>, txPublic: Point, id: Option<seq<Byte>>)
    requires |dests| == |spend.outputs| && |order| == |additional| == |outputs|
    requires OutputsBuilt(E, spend, dests, order, txSecret, additional, outputs, keys)
    requires forall i :: 0 <= i < |spend.outputs| ==> 0 <= spend.outputs[i].amount < TWO_64
    requires MainKey(E, dests, txSecret) == Ok(txPublic) && id == IdOf(E, dests, txSecret)
    ensures outputs == OutputsOf(E, spend, dests, order, txSecret, additional)
    ensures Extra(txPublic, keys, id) == ExtraOf(E, dests, order, txSecret, additional)
  {
    hide Addressed, OutputOf, PublishedKey, MainKey, IdOf, NeedAdditional, TxPrivate;
    forall k | 0 <= k < |order|
      ensures outputs[k] == OutputOf(E, spend.outputs[order[k]], dests[order[k]], k, TxPrivate(dests, dests[order[k]], txSecret, additional[k]))
    {
      AddressedIs(E, outputs[k], spend.outputs[order[k]], dests[order[k]], k, TxPrivate(dests, dests[order[k]], txSecret, additional[k]));
    }
    assert keys == ExtraOf(E, dests, order, txSecret, additional).additionalPublicKeys;
  }

  /** The transaction key, the shuffle, the outputs and the extra field. monerobuild.ts:369-458. */
  method MakeOutputs(E: Group, parse: string -> ParsedAddress, spend: UnsignedSet, dests: seq<Dest>, randomScalars: seq<nat>)
    returns (r: Outcome<(seq<BuiltOutput>, Extra)>, drawn: nat)
    requires Parsed(spend) && AddressesRead(parse, spend) && dests == DestsOf(parse, spend)
    requires |randomScalars| >= 2 + |spend.outputs| && NeverStarves(E, randomScalars[1])
    ensures r.Done? ==> drawn == 2 + |spend.outputs|
    ensures MakingGives(E, spend, dests, randomScalars, r)
    ensures r.Done? ==> Sent(E, parse, dests, randomScalars, r.value.0, r.value.1)
    ensures r.Done? ==> multiset(Map(SourceOfOutput(), r.value.0)) == multiset(spend.outputs) && OutputsCommit(E, r.value.0)
    ensures r.Done? ==> |r.value.0| == |spend.outputs|
    ensures r.Refused? ==>
      r.problem in {ZeroTransactionKey, IntegratedNotAlone, SigningFailed(WrongLength), SigningFailed(UndecodablePoint), SigningFailed(ZeroScalar)}
    ensures r == Refused(ZeroTransactionKey) <==> E.F.R(randomScalars[0]) == 0
    ensures r == Refused(IntegratedNotAlone) ==> PaymentIdPlan(dests).Refused?
    ensures r.Refused? && r.problem in {SigningFailed(WrongLength), SigningFailed(UndecodablePoint)} ==> !DestsReadable(dests)
  {
    hide ShuffledOrder, OutputsOf, ExtraOf, OutputsAreClear, MakingGives, IdOf;
    hide Field.R, MainKey, PublishedKey, Addressed, PaymentIdPlan, IdEncrypted, NeedAdditional, OutputsBuilt, DestsReadable,
         NeverStarves, IsPermutation, Parsed, OutputsCommit, Sent, AllDestsDecode;
    drawn := 0;
    var txSecret := E.F.R(randomScalars[drawn]);
    drawn := drawn + 1;
    if txSecret == 0 {
      MakingFails(E, spend, dests, randomScalars, ZeroTransactionKey);
      return Refused(ZeroTransactionKey), drawn;
    }
    E.F.Idem(randomScalars[0]);
    MainKeyFails(E, dests, txSecret);
    var txPublic := MainKey(E, dests, txSecret);
    if txPublic.Err? {
      MakingFails(E, spend, dests, randomScalars, SigningFailed(txPublic.failure));
      return Refused(SigningFailed(txPublic.failure)), drawn;
    }
    FewOutputs(spend);
    var order := ShuffledIndices(E, |spend.outputs|, randomScalars[drawn]);
    drawn := drawn + 1;
    PickPermutes(spend.outputs, order);
    var additionalSecrets: seq<nat> := [];
    for position := 0 to |order|
      invariant drawn == 2 + position && |additionalSecrets| == position
      invariant forall k :: 0 <= k < position ==> additionalSecrets[k] == E.F.R(randomScalars[2 + k])
    {
      additionalSecrets := additionalSecrets + [E.F.R(randomScalars[drawn])];
      drawn := drawn + 1;
    }
    var built := BuildOutputs(E, spend, dests, order, txSecret, additionalSecrets);
    assert additionalSecrets == AdditionalOf(E.F, randomScalars, |spend.outputs|);
    if built.Err? {
      if built.failure == UndecodablePoint { UnreadableDest(dests); }
      MakingFails(E, spend, dests, randomScalars, SigningFailed(built.failure));
      return Refused(SigningFailed(built.failure)), drawn;
    }
    var id := EncryptId(E, dests, txSecret);
    if id.Refused? {
      MakingFails(E, spend, dests, randomScalars, id.problem);
      return Refused(id.problem), drawn;
    }
    var extra := Extra(txPublic.value, built.value.1, id.value);
    BuiltIs(E, spend, dests, order, txSecret, additionalSecrets, built.value.0, built.value.1, txPublic.value, id.value);
    MakingSucceeds(E, spend, dests, randomScalars, built.value.0, extra);
    BuiltAreSent(E, parse, spend, dests, order, randomScalars, additionalSecrets, built.value.0, extra);
    r := Done((built.value.0, extra));
  }

  /** Nothing multiplied by on the way to the outputs is zero. */
  ghost predicate MakingIsClear(E: Group, spend: UnsignedSet, dests: seq<Dest>, randomScalars: seq<nat>)
    requires Parsed(spend) && |dests| == |spend.outputs| && |randomScalars| >= 2 + |spend.outputs| && NeverStarves(E, randomScalars[1])
  {
    hide NeverStarves;
    && E.F.R(randomScalars[0]) != 0
    && OutputsAreClear(E, dests, ShuffledOrder(E, |spend.outputs|, randomScalars[1]), E.F.R(randomScalars[0]),
                       AdditionalOf(E.F, randomScalars, |spend.outputs|))
  }

  /** What the outputs come to, and when a zero stops them. */
  ghost predicate MakingGives(E: Group, spend: UnsignedSet, dests: seq<Dest>, randomScalars: seq<nat>, r: Outcome<(seq<BuiltOutput>, Extra)>)
    requires Parsed(spend) && |dests| == |spend.outputs| && |randomScalars| >= 2 + |spend.outputs| && NeverStarves(E, randomScalars[1])
  {
    hide NeverStarves;
    var order, txSecret := ShuffledOrder(E, |spend.outputs|, randomScalars[1]), E.F.R(randomScalars[0]);
    var additional := AdditionalOf(E.F, randomScalars, |spend.outputs|);
    && (r.Done? ==>
          && MakingIsClear(E, spend, dests, randomScalars)
          && r.value == (OutputsOf(E, spend, dests, order, txSecret, additional), ExtraOf(E, dests, order, txSecret, additional)))
    && (r.Refused? && r.problem in {ZeroTransactionKey, SigningFailed(ZeroScalar)} ==> !MakingIsClear(E, spend, dests, randomScalars))
  }

  lemma MakingFails(E: Group, spend: UnsignedSet, dests: seq<Dest>, randomScalars: seq<nat>, problem: Problem)
    requires Parsed(spend) && |dests| == |spend.outputs| && |randomScalars| >= 2 + |spend.outputs| && NeverStarves(E, randomScalars[1])
    requires problem in {ZeroTransactionKey, SigningFailed(ZeroScalar)} ==> !MakingIsClear(E, spend, dests, randomScalars)
    ensures MakingGives(E, spend, dests, randomScalars, Refused(problem))
  {
    hide NeverStarves, ShuffledOrder, OutputsOf, ExtraOf, MakingIsClear, Parsed;
  }

  lemma MakingSucceeds(E: Group, spend: UnsignedSet, dests: seq<Dest>, randomScalars: seq<nat>, outputs: seq<BuiltOutput>, extra: Extra)
    requires Parsed(spend) && |dests| == |spend.outputs| && |randomScalars| >= 2 + |spend.outputs| && NeverStarves(E, randomScalars[1])
    requires MakingIsClear(E, spend, dests, randomScalars)
    requires forall i :: 0 <= i < |spend.outputs| ==> 0 <= spend.outputs[i].amount < TWO_64
    requires |spend.outputs| <= 16
    requires outputs == OutputsOf(E, spend, dests, ShuffledOrder(E, |spend.outputs|, randomScalars[1]), E.F.R(randomScalars[0]),
                                  AdditionalOf(E.F, randomScalars, |spend.outputs|))
    requires extra == ExtraOf(E, dests, ShuffledOrder(E, |spend.outputs|, randomScalars[1]), E.F.R(randomScalars[0]),
                              AdditionalOf(E.F, randomScalars, |spend.outputs|))
    ensures MakingGives(E, spend, dests, randomScalars, Done((outputs, extra)))
  {
    hide NeverStarves, ShuffledOrder, OutputsOf, ExtraOf, MakingIsClear, Parsed;
  }

  lemma FewOutputs(spend: UnsignedSet)
    requires Parsed(spend)
    ensures |spend.outputs| <= 16 && forall i :: 0 <= i < |spend.outputs| ==> 0 <= spend.outputs[i].amount < TWO_64
  {
  }

  lemma UnreadableDest(dests: seq<Dest>)
    requires !AllDestsDecode(dests)
    ensures !DestsReadable(dests)
  {
  }

  lemma MainKeyFails(E: Group, dests: seq<Dest>, txSecret: nat)
    ensures MainKey(E, dests, txSecret).Err? ==>
      (MainKey(E, dests, txSecret).failure == ZeroScalar && E.F.R(txSecret) == 0)
      || (MainKey(E, dests, txSecret).failure == UndecodablePoint && !DestsReadable(dests))
  {
    hide Field.R;
    if SoleSubaddress(dests).Some? {
      assert dests == [dests[0]];
      PublishedKeyFails(E, dests[0], txSecret);
      assert SoleSubaddress(dests).value == dests[0];
    }
  }

  /** From positions in the order to what each output says about itself. */
  lemma BuiltAreSent(E: Group, parse: string -> ParsedAddress, spend: UnsignedSet, dests: seq<Dest>, order: seq<nat>,
                     randomScalars: seq<nat>, additionalSecrets: seq<nat>, outputs: seq<BuiltOutput>, extra: Extra)
    requires AddressesRead(parse, spend) && dests == DestsOf(parse, spend) && |randomScalars| >= 2 + |outputs|
    requires |outputs| == |order| == |additionalSecrets| == |spend.outputs|
    requires forall k :: 0 <= k < |order| ==> order[k] < |spend.outputs|
    requires forall k :: 0 <= k < |order| ==> additionalSecrets[k] == E.F.R(randomScalars[2 + k])
    requires OutputsBuilt(E, spend, dests, order, E.F.R(randomScalars[0]), additionalSecrets, outputs, extra.additionalPublicKeys)
    requires MainKey(E, dests, E.F.R(randomScalars[0])) == Ok(extra.txPublicKey)
    requires IdEncrypted(E, dests, E.F.R(randomScalars[0]), extra.encryptedPaymentId)
    ensures Sent(E, parse, dests, randomScalars, outputs, extra)
    ensures Map(SourceOfOutput(), outputs) == Pick(spend.outputs, order) && OutputsCommit(E, outputs)
  {
    hide Field.R, Addressed, PublishedKey, MainKey, IdEncrypted, NeedAdditional, CommitTo, OutputsCommit;
    forall k | 0 <= k < |outputs|
      ensures outputs[k].source == spend.outputs[order[k]] && parse(outputs[k].source.address).Address?
      ensures DestFor(parse, outputs[k]) == dests[order[k]]
    {
      AddressedSource(E, outputs[k], spend.outputs[order[k]], dests[order[k]], k,
                      TxPrivate(dests, dests[order[k]], E.F.R(randomScalars[0]), additionalSecrets[k]));
    }
    AddressedCommit(E, spend, dests, order, E.F.R(randomScalars[0]), additionalSecrets, outputs, extra.additionalPublicKeys);
  }

  lemma AddressedSource(E: Group, out: BuiltOutput, source: UnsignedOutput, dest: Dest, position: nat, secret: nat)
    requires Addressed(E, out, source, dest, position, secret)
    ensures out.source == source && 0 <= source.amount < TWO_64
    ensures E.F.R(out.mask) == out.mask && out.commitment == CommitTo(E, source.amount, out.mask)
  {
    hide Group.Times, Group.Plus, Group.HashToScalar, Digest;
    var d := GenerateKeyDerivation(E, dest.viewPublic, secret).value;
    E.F.Idem(CommitmentMask(E, DerivationToScalar(E, d, position)));
  }

  lemma AddressedCommit(E: Group, spend: UnsignedSet, dests: seq<Dest>, order: seq<nat>, txSecret: nat,
                        additionalSecrets: seq<nat>, outputs: seq<BuiltOutput>, keys: seq<Point>)
    requires OutputsBuilt(E, spend, dests, order, txSecret, additionalSecrets, outputs, keys)
    ensures OutputsCommit(E, outputs)
  {
    hide Field.R, Addressed, PublishedKey, CommitTo, NeedAdditional;
    forall k | 0 <= k < |outputs|
      ensures 0 <= outputs[k].source.amount < TWO_64 && E.F.R(outputs[k].mask) == outputs[k].mask
           && outputs[k].commitment == CommitTo(E, outputs[k].source.amount, outputs[k].mask)
    {
      AddressedSource(E, outputs[k], spend.outputs[order[k]], dests[order[k]], k,
                      TxPrivate(dests, dests[order[k]], txSecret, additionalSecrets[k]));
    }
  }

  // ---- The transaction -----------------------------------------------------------------------

  function WireOutputOf(): BuiltOutput -> WireOutput { (o: BuiltOutput) => WireOutput(o.oneTimeKey, o.viewTag) }
  function EcdhOf(): BuiltOutput -> seq<Byte> { (o: BuiltOutput) => o.ecdhAmount }

  /** The prefix and base say what was built, and every signature is over exactly them. */
  ghost predicate WellMade(spend: UnsignedSet, tx: SignedTx) {
    && multiset(Map(SourceOfInput(), tx.inputs)) == multiset(spend.inputs)
    && multiset(Map(SourceOfOutput(), tx.outputs)) == multiset(spend.outputs)
    && WireInputsOf(tx.inputs, tx.prefix.inputs)
    && tx.prefix.outputs == Map(WireOutputOf(), tx.outputs)
    && tx.base == RctBase(spend.fee, Map(EcdhOf(), tx.outputs), OutPk(tx.outputs))
  }

  /** What the network checks: the money equation, the range proof, one ring signature per input, key images in order. */
  ghost predicate Verifies(E: Group, preHash: (Prefix, RctBase, Spec.BulletproofPlus) -> Chunk, tx: SignedTx) {
    && |tx.pseudoOuts| == |tx.inputs| == |tx.clsags|
    && SumFrom(E, ZERO, tx.pseudoOuts) == SumFrom(E, E.Times(tx.base.fee, E.H), Map(BuiltCommitment(), tx.outputs))
    && Spec.Accepts(E, tx.base.outPk, tx.proof)
    && AllSigned(E, preHash(tx.prefix, tx.base, tx.proof), tx.inputs, tx.pseudoOuts, tx.clsags)
    && Descending(E, tx.inputs)
    && AllProved(E, tx.inputs)
  }

  /** Enough draws for the masks and the range proof. */
  predicate Enough(randomScalars: seq<nat>, nIn: nat, nOut: nat) {
    1 <= nIn && 1 <= nOut <= 16 && 1 + nOut + nIn + Prover.RandomCount(nOut) <= |randomScalars|
  }

  ghost function MaskDraws(randomScalars: seq<nat>, nIn: nat, nOut: nat): (draws: seq<nat>)
    requires Enough(randomScalars, nIn, nOut)
    ensures |draws| == nIn - 1
  {
    randomScalars[2 + nOut..1 + nOut + nIn]
  }

  ghost function RangeDraws(randomScalars: seq<nat>, nIn: nat, nOut: nat): (draws: seq<nat>)
    requires Enough(randomScalars, nIn, nOut)
    ensures |draws| == Prover.RandomCount(nOut)
  {
    randomScalars[1 + nOut + nIn..1 + nOut + nIn + Prover.RandomCount(nOut)]
  }

  /** What every ring signature of the spend is over. */
  ghost function MessageOf(E: Group, preHash: (Prefix, RctBase, Spec.BulletproofPlus) -> Chunk, spend: UnsignedSet,
                           outputs: seq<BuiltOutput>, extra: Extra, inputs: seq<BuiltInput>, randomScalars: seq<nat>): Chunk
    requires Enough(randomScalars, |inputs|, |outputs|)
  {
    hide Prover.RandomCount;
    preHash(Prefix(WireOf(inputs), Map(WireOutputOf(), outputs), extra),
            RctBase(spend.fee, Map(EcdhOf(), outputs), OutPk(outputs)),
            Honest.HonestProof(RangeRun(E, outputs, RangeDraws(randomScalars, |inputs|, |outputs|))))
  }

  /** The range proof meets no zero and neither does any ring signature. */
  ghost predicate AssemblyIsClear(E: Group, preHash: (Prefix, RctBase, Spec.BulletproofPlus) -> Chunk, spend: UnsignedSet,
                                  outputs: seq<BuiltOutput>, extra: Extra, inputs: seq<BuiltInput>, randomScalars: seq<nat>)
    requires Enough(randomScalars, |inputs|, |outputs|)
  {
    hide Prover.RandomCount;
    var masks := MasksFrom(E.F, Map(BuiltMask(), outputs), MaskDraws(randomScalars, |inputs|, |outputs|));
    && RangeIsClear(E, outputs, RangeDraws(randomScalars, |inputs|, |outputs|))
    && SignaturesAreClear(E, MessageOf(E, preHash, spend, outputs, extra, inputs, randomScalars), spend.ringSize, inputs, masks,
                          PseudoOutsOf(E, inputs, masks), randomScalars, 1 + |outputs| + |inputs| + Prover.RandomCount(|outputs|))
  }

  /** The transaction, part by part, as the set and the draws determine it. */
  ghost predicate TxIs(E: Group, preHash: (Prefix, RctBase, Spec.BulletproofPlus) -> Chunk, spend: UnsignedSet,
                       outputs: seq<BuiltOutput>, extra: Extra, inputs: seq<BuiltInput>, randomScalars: seq<nat>, tx: SignedTx) {
    hide Prover.RandomCount;
    && Enough(randomScalars, |inputs|, |outputs|)
    && tx.prefix == Prefix(WireOf(inputs), Map(WireOutputOf(), outputs), extra)
    && tx.base == RctBase(spend.fee, Map(EcdhOf(), outputs), OutPk(outputs))
    && tx.proof == Honest.HonestProof(RangeRun(E, outputs, RangeDraws(randomScalars, |inputs|, |outputs|)))
    && tx.inputs == inputs && tx.outputs == outputs
    && var masks := MasksFrom(E.F, Map(BuiltMask(), outputs), MaskDraws(randomScalars, |inputs|, |outputs|));
       && tx.pseudoOuts == PseudoOutsOf(E, inputs, masks)
       && SignaturesAre(E, preHash(tx.prefix, tx.base, tx.proof), spend.ringSize, inputs, masks, tx.pseudoOuts, randomScalars,
                        1 + |outputs| + |inputs| + Prover.RandomCount(|outputs|), tx.clsags)
  }

  /** When the assembly succeeds. */
  ghost predicate AssemblyGives(E: Group, preHash: (Prefix, RctBase, Spec.BulletproofPlus) -> Chunk, spend: UnsignedSet,
                                outputs: seq<BuiltOutput>, extra: Extra, inputs: seq<BuiltInput>, randomScalars: seq<nat>, done: bool) {
    && Enough(randomScalars, |inputs|, |outputs|)
    && (done ==> AssemblyIsClear(E, preHash, spend, outputs, extra, inputs, randomScalars))
    && (AssemblyIsClear(E, preHash, spend, outputs, extra, inputs, randomScalars) && RingsSorted(spend.inputs) ==> done)
  }

  /** What each refusal takes away from it. */
  lemma AssemblyNeeds(E: Group, preHash: (Prefix, RctBase, Spec.BulletproofPlus) -> Chunk, spend: UnsignedSet,
                      outputs: seq<BuiltOutput>, extra: Extra, inputs: seq<BuiltInput>, randomScalars: seq<nat>)
    requires Enough(randomScalars, |inputs|, |outputs|)
    ensures !RangeIsClear(E, outputs, RangeDraws(randomScalars, |inputs|, |outputs|)) || !RingsSorted(spend.inputs) ==>
      AssemblyGives(E, preHash, spend, outputs, extra, inputs, randomScalars, false)
    ensures AssemblyIsClear(E, preHash, spend, outputs, extra, inputs, randomScalars) ==>
      AssemblyGives(E, preHash, spend, outputs, extra, inputs, randomScalars, true)
    ensures !AssemblyIsClear(E, preHash, spend, outputs, extra, inputs, randomScalars) ==>
      AssemblyGives(E, preHash, spend, outputs, extra, inputs, randomScalars, false)
  {
    hide RangeIsClear, SignaturesAreClear, MasksFrom, PseudoOutsOf, MessageOf, RingsSorted, Prover.RandomCount;
  }

  lemma DrawsSuffice(spend: UnsignedSet, nIn: nat, nOut: nat, randomScalars: seq<nat>)
    requires Parsed(spend) && CountMatches(spend, randomScalars) && nIn == |spend.inputs| && nOut == |spend.outputs|
    ensures Enough(randomScalars, nIn, nOut)
    ensures 1 + nOut + nIn + Prover.RandomCount(nOut) + nIn * (spend.ringSize + 1) == |randomScalars|
  {
    hide Prover.RandomCount;
    assert nIn * (spend.ringSize + 1) >= 0;
  }

  /** Everything from the proved inputs on. monerobuild.ts:496-594. */
  method Assemble(E: Group, preHash: (Prefix, RctBase, Spec.BulletproofPlus) -> Chunk, spend: UnsignedSet,
                  outputs: seq<BuiltOutput>, extra: Extra, proved: seq<BuiltInput>, randomScalars: seq<nat>, drawAt: nat)
    returns (r: Outcome<SignedTx>, drawn: nat)
    requires E.Valid() && Parsed(spend) && Balanced(spend)
    requires OutputsCommit(E, outputs) && multiset(Map(SourceOfOutput(), outputs)) == multiset(spend.outputs)
    requires AllProved(E, proved) && Map(SourceOfInput(), proved) == spend.inputs
    requires drawAt == 2 + |spend.outputs|
    requires CountMatches(spend, randomScalars)
    ensures r.Done? ==> r.value.outputs == outputs && r.value.prefix.extra == extra
    ensures r.Done? ==> WellMade(spend, r.value) && Verifies(E, preHash, r.value) && drawn == |randomScalars|
    ensures r.Refused? ==>
      r.problem.SignatureRejected? || r.problem in {RingNotSorted, SigningFailed(UndecodablePoint), SigningFailed(ZeroScalar)}
    ensures r == Refused(SigningFailed(UndecodablePoint)) ==> !AllRingsDecode(spend.inputs)
    ensures r == Refused(RingNotSorted) ==> !RingsSorted(spend.inputs)
    ensures AssemblyGives(E, preHash, spend, outputs, extra, Sorted(E, proved), randomScalars, r.Done?)
    ensures r.Done? ==> TxIs(E, preHash, spend, outputs, extra, Sorted(E, proved), randomScalars, r.value)
  {
    hide Group.Valid, Group.Times, Field.R, OutputsCommit, PseudoOutsCommit, SumOf, SumFrom, Spec.Accepts, AllSigned, Descending,
         Balanced, AllProved, WireInputsOf, AllRingsDecode, RingsSorted, Prover.RandomCount, Sorted, AssemblyGives, RangeIsClear,
         SignaturesAreClear, MasksFrom, PseudoOutsOf, WireOf, Honest.HonestProof, RangeRun, SignaturesAre;
    drawn := drawAt;
    var inputs := SortInputs(E, proved);
    SortedInputs(E, spend, proved, inputs);
    SameCount(inputs, proved);
    SameCount(Map(SourceOfOutput(), outputs), spend.outputs);
    BalanceSurvives(spend, inputs, outputs);
    var nIn, nOut := |inputs|, |outputs|;
    DrawsSuffice(spend, nIn, nOut, randomScalars);
    var funded := CommitInputs(E, spend, inputs, outputs, randomScalars[drawn..drawn + nIn - 1]);
    var masks, pseudoOuts := funded.value.0, funded.value.1;
    drawn := drawn + nIn - 1;
    var need := Prover.BppRandomCount(nOut);
    var proof := ProveRange(E, outputs, randomScalars[drawn..drawn + need]);
    drawn := drawn + need;
    AssemblyNeeds(E, preHash, spend, outputs, extra, inputs, randomScalars);
    if proof.Refused? { return Refused(proof.problem), drawn; }
    var wire := PrefixInputs(inputs);
    if wire.Refused? {
      UnsortedRing(spend, inputs);
      return Refused(wire.problem), drawn;
    }
    var prefix := Prefix(wire.value, Map(WireOutputOf(), outputs), extra);
    var base := RctBase(spend.fee, Map(EcdhOf(), outputs), OutPk(outputs));
    var message := preHash(prefix, base, proof.value);
    var clsags;
    clsags, drawn := SignInputs(E, message, spend.ringSize, inputs, masks, pseudoOuts, randomScalars, drawn);
    if clsags.Refused? {
      RejectedInput(spend, inputs);
      return Refused(clsags.problem), drawn;
    }
    r := Done(SignedTx(prefix, base, proof.value, pseudoOuts, clsags.value, outputs, inputs));
  }

  lemma SameCount<T>(a: seq<T>, b: seq<T>)
    requires multiset(a) == multiset(b)
    ensures |a| == |b|
  {
    assert |a| == |multiset(a)| == |multiset(b)| == |b|;
  }

  lemma SortedInputs(E: Group, spend: UnsignedSet, proved: seq<BuiltInput>, inputs: seq<BuiltInput>)
    requires Parsed(spend) && AllProved(E, proved) && Map(SourceOfInput(), proved) == spend.inputs
    requires multiset(inputs) == multiset(proved)
    ensures AllProved(E, inputs) && multiset(Map(SourceOfInput(), inputs)) == multiset(spend.inputs)
    ensures InputsFit(Map(SourceOfInput(), inputs))
    ensures forall i :: 0 <= i < |inputs| ==> inputs[i].source in spend.inputs && |inputs[i].source.ring| == spend.ringSize
  {
    hide InputProved;
    MapPermutes(SourceOfInput(), inputs, proved);
    forall i | 0 <= i < |inputs| ensures inputs[i] in proved && inputs[i].source in spend.inputs {
      assert inputs[i] in multiset(inputs);
      assert inputs[i] in multiset(proved);
      var j :| 0 <= j < |proved| && proved[j] == inputs[i];
      assert spend.inputs[j] == inputs[i].source;
    }
    forall b | b in inputs ensures InputProved(E, b) {
    }
  }

  lemma UnsortedRing(spend: UnsignedSet, inputs: seq<BuiltInput>)
    requires forall i :: 0 <= i < |inputs| ==> inputs[i].source in spend.inputs
    requires exists b :: b in inputs && !Ascending(GlobalIndexes(b.source))
    ensures !RingsSorted(spend.inputs)
  {
    hide Ascending;
  }

  lemma RejectedInput(spend: UnsignedSet, inputs: seq<BuiltInput>)
    requires forall i :: 0 <= i < |inputs| ==> inputs[i].source in spend.inputs
    ensures !AllRingsDecode(Map(SourceOfInput(), inputs)) ==> !AllRingsDecode(spend.inputs)
  {
    hide C.RingDecodes;
  }

  /** Every refusal past these stands for a scalar that came out zero. */
  ghost predicate OnlyZeroCanRefuse(problem: Problem) {
    problem in {ZeroTransactionKey, SigningFailed(ZeroScalar)} || problem.SignatureRejected?
  }

  /**
   * No scalar this spend is made with comes out zero: the transaction secret and each output's, the
   * wallet's secret and shared scalar for each input, the draws and challenges of the range proof, and
   * the hashes, challenges and responses of each ring signature.
   */
  ghost predicate NothingIsZero(E: Group, parse: string -> ParsedAddress, preHash: (Prefix, RctBase, Spec.BulletproofPlus) -> Chunk,
                                wallet: Wallet, spend: UnsignedSet, randomScalars: seq<nat>)
    requires Parsed(spend) && Signable(E, parse, wallet, spend, randomScalars) && (|randomScalars| > 1 ==> NeverStarves(E, randomScalars[1]))
  {
    hide *;
    SignableMeans(E, parse, wallet, spend, randomScalars);
    SetShape(spend);
    FewOutputs(spend);
    CountIs(spend, randomScalars);
    DrawsSuffice(spend, |spend.inputs|, |spend.outputs|, randomScalars);
    var dests, order := DestsOf(parse, spend), ShuffledOrder(E, |spend.outputs|, randomScalars[1]);
    var txSecret, additional := E.F.R(randomScalars[0]), AdditionalOf(E.F, randomScalars, |spend.outputs|);
    && MakingIsClear(E, spend, dests, randomScalars)
    && InputsAreClear(E, wallet, spend.inputs)
    && AssemblyIsClear(E, preHash, spend, OutputsOf(E, spend, dests, order, txSecret, additional),
                       ExtraOf(E, dests, order, txSecret, additional), Sorted(E, InputsOf(E, wallet, spend.inputs)), randomScalars)
  }

  lemma CountIs(spend: UnsignedSet, randomScalars: seq<nat>)
    ensures CountMatches(spend, randomScalars) <==> |randomScalars| == SigningRandomCount(|spend.inputs|, spend.ringSize, |spend.outputs|)
  {
  }

  /** The transaction is what the set, the wallet and the draws make it, and nothing else. */
  ghost predicate SpendIs(E: Group, parse: string -> ParsedAddress, preHash: (Prefix, RctBase, Spec.BulletproofPlus) -> Chunk,
                          wallet: Wallet, spend: UnsignedSet, randomScalars: seq<nat>, tx: SignedTx)
    requires Parsed(spend) && (|randomScalars| > 1 ==> NeverStarves(E, randomScalars[1]))
  {
    hide *;
    SetShape(spend);
    FewOutputs(spend);
    CountIs(spend, randomScalars);
    && AddressesRead(parse, spend) && CountMatches(spend, randomScalars)
    && var dests, order := DestsOf(parse, spend), ShuffledOrder(E, |spend.outputs|, randomScalars[1]);
       var txSecret, additional := E.F.R(randomScalars[0]), AdditionalOf(E.F, randomScalars, |spend.outputs|);
       TxIs(E, preHash, spend, OutputsOf(E, spend, dests, order, txSecret, additional), ExtraOf(E, dests, order, txSecret, additional),
            Sorted(E, InputsOf(E, wallet, spend.inputs)), randomScalars, tx)
  }

  /** Each step's own account of the zeros, put together. */
  lemma StepsTell(E: Group, parse: string -> ParsedAddress, preHash: (Prefix, RctBase, Spec.BulletproofPlus) -> Chunk, wallet: Wallet,
                  spend: UnsignedSet, randomScalars: seq<nat>, made: Outcome<(seq<BuiltOutput>, Extra)>)
    requires Parsed(spend) && Signable(E, parse, wallet, spend, randomScalars)
    requires |randomScalars| >= 2 + |spend.outputs| && NeverStarves(E, randomScalars[1]) && AddressesRead(parse, spend) && InputsFit(spend.inputs)
    requires MakingGives(E, spend, DestsOf(parse, spend), randomScalars, made)
    ensures made.Refused? && made.problem in {ZeroTransactionKey, SigningFailed(ZeroScalar)} ==>
      !NothingIsZero(E, parse, preHash, wallet, spend, randomScalars)
    ensures !InputsAreClear(E, wallet, spend.inputs) ==> !NothingIsZero(E, parse, preHash, wallet, spend, randomScalars)
    ensures made.Done? && InputsAreClear(E, wallet, spend.inputs) ==>
      forall done :: AssemblyGives(E, preHash, spend, made.value.0, made.value.1, Sorted(E, InputsOf(E, wallet, spend.inputs)), randomScalars, done) ==>
        (done <==> NothingIsZero(E, parse, preHash, wallet, spend, randomScalars))
  {
    hide Parsed, Signable, NeverStarves, AddressesRead, DestsOf, InputsFit, MakingIsClear, InputsAreClear, AssemblyIsClear, OutputsOf, ExtraOf,
         ShuffledOrder, AdditionalOf, Sorted, InputsOf, RingsSorted, Enough, Field.R, AllOwned, AllRingsDecode, Balanced, PaymentIdPlan,
         DestsReadable, CountMatches;
    SignableMeans(E, parse, wallet, spend, randomScalars);
  }

  /**
   * `signMoneroSpend`. What it refuses and why; what it hands back; that it takes exactly the
   * randomness it asked for; and that the refusals guarding its own work never fire.
   * monerobuild.ts:306-600.
   */
  method SignMoneroSpend(E: Group, parse: string -> ParsedAddress, preHash: (Prefix, RctBase, Spec.BulletproofPlus) -> Chunk,
                         wallet: Wallet, spend: UnsignedSet, randomScalars: seq<nat>) returns (r: Outcome<SignedTx>, drawn: nat)
    requires E.Valid() && Parsed(spend) && (|randomScalars| > 1 ==> NeverStarves(E, randomScalars[1]))
    ensures wallet.network != spend.network <==> r == Refused(WrongNetwork)
    ensures wallet.network == spend.network ==>
      (!CountMatches(spend, randomScalars) <==> r == Refused(WrongRandomCount))
    ensures wallet.network == spend.network && CountMatches(spend, randomScalars) ==>
      (!Balanced(spend) <==> r == Refused(Unbalanced))
    ensures r.Done? ==> AddressesRead(parse, spend) && drawn == |randomScalars|
    ensures r.Done? ==> Sent(E, parse, DestsOf(parse, spend), randomScalars, r.value.outputs, r.value.prefix.extra)
    ensures r.Done? ==> ExtraIsDue(E, parse, spend, randomScalars, r.value.prefix.extra)
    ensures r == Refused(IntegratedNotAlone) ==> !IntegratedAlone(parse, spend)
    ensures r.Done? ==> WellMade(spend, r.value) && Verifies(E, preHash, r.value)
    ensures r.Refused? ==> r.problem !in {CommitmentsDoNotBalance, RangeProofRejected, KeyImageDisagrees}
    ensures r == Refused(ZeroTransactionKey) ==> SomeDrawIsZero(E.F, randomScalars)
    ensures Signable(E, parse, wallet, spend, randomScalars) && r.Refused? ==> OnlyZeroCanRefuse(r.problem)
    ensures Signable(E, parse, wallet, spend, randomScalars) ==>
      (r.Done? <==> NothingIsZero(E, parse, preHash, wallet, spend, randomScalars))
    ensures r.Done? ==> SpendIs(E, parse, preHash, wallet, spend, randomScalars, r.value)
  {
    hide Group.Valid, Field.R, Sent, WellMade, Verifies, Balanced, NeverStarves, Parsed, AddressesRead, Signable,
         Prover.RandomCount, OutputsCommit, AllProved, MakingGives, MakingIsClear, InputsOf, InputsAreClear, AssemblyGives, NothingIsZero,
         Sorted, OutputsOf, ExtraOf, ShuffledOrder, ExtraIsDue, IntegratedAlone, PaymentIdPlan, NonChange,
         SpendIs, TxIs;
    drawn := 0;
    if Signable(E, parse, wallet, spend, randomScalars) { SignableMeans(E, parse, wallet, spend, randomScalars); }
    if wallet.network != spend.network { return Refused(WrongNetwork), drawn; }
    var need := SigningRandomCount(|spend.inputs|, spend.ringSize, |spend.outputs|);
    if |randomScalars| != need { return Refused(WrongRandomCount), drawn; }
    var inTotal := TotalOf(Map(InputAmount(), spend.inputs));
    var outTotal := TotalOf(Map(OutputAmount(), spend.outputs));
    BalancedIs(spend);
    if inTotal != outTotal + spend.fee { return Refused(Unbalanced), drawn; }
    SetShape(spend);
    var dests := ParseDestinations(parse, spend);
    if dests.Refused? { return Refused(dests.problem), drawn; }
    assert dests.value == DestsOf(parse, spend);
    var made;
    made, drawn := MakeOutputs(E, parse, spend, dests.value, randomScalars);
    if Signable(E, parse, wallet, spend, randomScalars) { StepsTell(E, parse, preHash, wallet, spend, randomScalars, made); }
    if made.Refused? {
      PlanRefuses(parse, spend);
      return Refused(made.problem), drawn;
    }
    SentIsDue(E, parse, spend, randomScalars, made.value.0, made.value.1);
    var proved := ProveInputs(E, wallet, spend.inputs);
    if proved.Refused? { return Refused(proved.problem), drawn; }
    r, drawn := Assemble(E, preHash, spend, made.value.0, made.value.1, proved.value, randomScalars, drawn);
    if r.Done? { SpendGives(E, parse, preHash, wallet, spend, randomScalars, made, r.value); }
  }

  lemma SentIsDue(E: Group, parse: string -> ParsedAddress, spend: UnsignedSet, randomScalars: seq<nat>, outputs: seq<BuiltOutput>, extra: Extra)
    requires AddressesRead(parse, spend) && |outputs| == |spend.outputs|
    requires Sent(E, parse, DestsOf(parse, spend), randomScalars, outputs, extra)
    ensures ExtraIsDue(E, parse, spend, randomScalars, extra)
  {
    hide IdEncrypted, NeedAdditional, IdWhereDue, AdditionalWhereDue, Addressed, Field.R, MainKey, PublishedKey, DestsOf, AddressesRead, DestFor;
    EncryptedIsDue(E, parse, spend, E.F.R(randomScalars[0]), extra.encryptedPaymentId);
    AdditionalIsDue(parse, spend, extra.additionalPublicKeys);
  }

  lemma SpendGives(E: Group, parse: string -> ParsedAddress, preHash: (Prefix, RctBase, Spec.BulletproofPlus) -> Chunk, wallet: Wallet,
                   spend: UnsignedSet, randomScalars: seq<nat>, made: Outcome<(seq<BuiltOutput>, Extra)>, tx: SignedTx)
    requires Parsed(spend) && AddressesRead(parse, spend) && CountMatches(spend, randomScalars) && InputsFit(spend.inputs)
    requires |randomScalars| >= 2 + |spend.outputs| && NeverStarves(E, randomScalars[1])
    requires MakingGives(E, spend, DestsOf(parse, spend), randomScalars, made) && made.Done?
    requires TxIs(E, preHash, spend, made.value.0, made.value.1, Sorted(E, InputsOf(E, wallet, spend.inputs)), randomScalars, tx)
    ensures SpendIs(E, parse, preHash, wallet, spend, randomScalars, tx)
  {
    hide Parsed, NeverStarves, AddressesRead, DestsOf, InputsFit, MakingIsClear, TxIs, OutputsOf, ExtraOf, ShuffledOrder, AdditionalOf,
         Sorted, InputsOf, Field.R, CountMatches;
  }

  lemma BalancedIs(spend: UnsignedSet)
    ensures Balanced(spend) <==> SumOf(Map(InputAmount(), spend.inputs)) == SumOf(Map(OutputAmount(), spend.outputs)) + spend.fee
  {
  }

  lemma SetShape(spend: UnsignedSet)
    requires Parsed(spend)
    ensures InputsFit(spend.inputs)
    ensures SigningRandomCount(|spend.inputs|, spend.ringSize, |spend.outputs|) >= 2 + |spend.outputs|
  {
    assert |spend.inputs| * (spend.ringSize + 1) >= 0;
  }

  lemma SignableMeans(E: Group, parse: string -> ParsedAddress, wallet: Wallet, spend: UnsignedSet, randomScalars: seq<nat>)
    requires Parsed(spend) && Signable(E, parse, wallet, spend, randomScalars)
    ensures wallet.network == spend.network && Balanced(spend)
    ensures CountMatches(spend, randomScalars)
    ensures AddressesRead(parse, spend) && DestsReadable(DestsOf(parse, spend)) && PaymentIdPlan(DestsOf(parse, spend)).Done?
    ensures InputsFit(spend.inputs) && AllOwned(E, wallet, spend.inputs)
    ensures AllRingsDecode(spend.inputs) && RingsSorted(spend.inputs)
  {
    hide AllOwned, AllRingsDecode, RingsSorted, PaymentIdPlan, SigningRandomCount, Balanced, IntegratedAlone;
    PlanRefuses(parse, spend);
  }
}
