/** The inputs of a spend: each proved to be this wallet's and worth what it claims before anything is signed. */
module MoneroInputs {
  import opened Sums
  import opened Scalars
  import opened Bytes
  import opened Orders
  import opened Curve
  import opened MoneroCrypto
  import opened MoneroSet
  import C = Clsag

  function RealMember(input: UnsignedInput): C.RingMember
    requires input.realPosition < |input.ring|
  {
    input.ring[input.realPosition].member
  }

  /** What a proved input's secrets say about its real ring member: exactly what CLSAG needs. */
  ghost predicate InputProved(E: Group, b: BuiltInput) {
    && b.source.realPosition < |b.source.ring|
    && E.F.R(b.oneTimeSecret) != 0
    && RealMember(b.source).key == Encodes(E.Times(E.F.R(b.oneTimeSecret), BASE))
    && RealMember(b.source).commitment == Encodes(CommitTo(E, b.source.amount, b.inputMask))
    && b.keyImage == E.Times(E.F.R(b.oneTimeSecret), E.ec(RealMember(b.source).key))
  }

  /** The set's claim about an input, checked against the wallet's own keys. */
  ghost predicate OwnedInput(E: Group, wallet: Wallet, input: UnsignedInput)
    requires input.realPosition < |input.ring|
  {
    && input.txPublicKey.Encodes?
    && wallet.spendPublic == Encodes(E.Times(E.F.R(wallet.spendSecret), BASE))
    && match GenerateKeyDerivation(E, input.txPublicKey, wallet.viewSecret)
       case Err(_) => true
       case Ok(d) =>
         DerivationToScalar(E, d, input.indexInTx) == 0
         || (&& DerivePublicKey(E, d, input.indexInTx, wallet.spendPublic).Ok?
             && RealMember(input).key == Encodes(DerivePublicKey(E, d, input.indexInTx, wallet.spendPublic).value)
             && RealMember(input).commitment
                == Encodes(CommitTo(E, input.amount, E.F.R(CommitmentMask(E, DerivationToScalar(E, d, input.indexInTx))))))
  }

  /** The input with what the wallet's keys make of it. */
  ghost function InputOf(E: Group, wallet: Wallet, input: UnsignedInput): BuiltInput
    requires input.realPosition < |input.ring|
  {
    var d := PointOr(GenerateKeyDerivation(E, input.txPublicKey, wallet.viewSecret));
    var secret := DeriveSecretKey(E, d, input.indexInTx, wallet.spendSecret);
    BuiltInput(input, secret, PointOr(GenerateKeyImage(E, RealMember(input).key, secret)),
               E.F.R(CommitmentMask(E, DerivationToScalar(E, d, input.indexInTx))))
  }

  /** Neither the view secret, nor the shared scalar, nor the one-time secret is zero. */
  ghost predicate InputIsClear(E: Group, wallet: Wallet, input: UnsignedInput) {
    match GenerateKeyDerivation(E, input.txPublicKey, wallet.viewSecret)
    case Ok(d) =>
      DerivationToScalar(E, d, input.indexInTx) != 0 && DeriveSecretKey(E, d, input.indexInTx, wallet.spendSecret) != 0
    case Err(f) => f != ZeroScalar
  }

  /** monerobuild.ts:469-494. */
  method ProveInput(E: Group, wallet: Wallet, input: UnsignedInput) returns (r: Outcome<BuiltInput>)
    requires input.realPosition < |input.ring| && 0 <= input.amount < TWO_64
    ensures r.Done? ==> r.value.source == input && InputProved(E, r.value)
    ensures r.Done? ==> r.value == InputOf(E, wallet, input) && InputIsClear(E, wallet, input)
    ensures r == Refused(SigningFailed(ZeroScalar)) ==> !InputIsClear(E, wallet, input)
    ensures r.Refused? ==> r.problem in {NotOurs, SecretMismatch, AmountMismatch, SigningFailed(UndecodablePoint), SigningFailed(ZeroScalar)}
    ensures r.Refused? && r.problem != SigningFailed(ZeroScalar) ==> !OwnedInput(E, wallet, input)
  {
    hide Field.R, Group.Times, Group.Plus, CommitTo, CommitmentMask, DerivationToScalar;
    var derivation := GenerateKeyDerivation(E, input.txPublicKey, wallet.viewSecret);
    if derivation.Err? { return Refused(SigningFailed(derivation.failure)); }
    var d, member := derivation.value, RealMember(input);
    var derived := DerivePublicKey(E, d, input.indexInTx, wallet.spendPublic);
    if derived.Err? { return Refused(SigningFailed(derived.failure)); }
    if Encodes(derived.value) != member.key { return Refused(NotOurs); }
    var oneTimeSecret := DeriveSecretKey(E, d, input.indexInTx, wallet.spendSecret);
    SecretReduced(E, d, input.indexInTx, wallet.spendSecret);
    if wallet.spendPublic == Encodes(E.Times(E.F.R(wallet.spendSecret), BASE)) {
      DerivedPair(E, d, input.indexInTx, wallet.spendSecret);
    }
    var public := PublicFromSecret(E, oneTimeSecret);
    if public.Err? { return Refused(SigningFailed(public.failure)); }
    if Encodes(public.value) != member.key { return Refused(SecretMismatch); }
    var mask := CommitmentMask(E, DerivationToScalar(E, d, input.indexInTx));
    var commitment := Commit(E, input.amount, mask);
    if Encodes(commitment.value) != member.commitment { return Refused(AmountMismatch); }
    var keyImage := GenerateKeyImage(E, member.key, oneTimeSecret);
    r := Done(BuiltInput(input, oneTimeSecret, keyImage.value, E.F.R(mask)));
  }

  lemma SecretReduced(E: Group, derivation: Point, index: nat, baseSecret: nat)
    ensures E.F.R(DeriveSecretKey(E, derivation, index, baseSecret)) == DeriveSecretKey(E, derivation, index, baseSecret)
  {
    E.F.Idem(baseSecret + DerivationToScalar(E, derivation, index));
    hide Field.R;
  }

  ghost predicate InputsFit(inputs: seq<UnsignedInput>) {
    forall i :: 0 <= i < |inputs| ==> inputs[i].realPosition < |inputs[i].ring| && 0 <= inputs[i].amount < TWO_64
  }

  ghost predicate AllOwned(E: Group, wallet: Wallet, inputs: seq<UnsignedInput>)
    requires InputsFit(inputs)
  {
    forall i :: 0 <= i < |inputs| ==> OwnedInput(E, wallet, inputs[i])
  }

  ghost predicate AllProved(E: Group, built: seq<BuiltInput>) {
    forall b :: b in built ==> InputProved(E, b)
  }

  function SourceOfInput(): BuiltInput -> UnsignedInput { (b: BuiltInput) => b.source }

  ghost function InputsOf(E: Group, wallet: Wallet, inputs: seq<UnsignedInput>): (built: seq<BuiltInput>)
    requires InputsFit(inputs)
    ensures |built| == |inputs|
  {
    seq(|inputs|, i requires 0 <= i < |inputs| => InputOf(E, wallet, inputs[i]))
  }

  ghost predicate InputsAreClear(E: Group, wallet: Wallet, inputs: seq<UnsignedInput>) {
    forall i :: 0 <= i < |inputs| ==> InputIsClear(E, wallet, inputs[i])
  }

  /** monerobuild.ts:468-494. */
  method ProveInputs(E: Group, wallet: Wallet, inputs: seq<UnsignedInput>) returns (r: Outcome<seq<BuiltInput>>)
    requires InputsFit(inputs)
    ensures r.Done? ==> Map(SourceOfInput(), r.value) == inputs && AllProved(E, r.value)
    ensures r.Done? ==> r.value == InputsOf(E, wallet, inputs) && InputsAreClear(E, wallet, inputs)
    ensures r == Refused(SigningFailed(ZeroScalar)) ==> !InputsAreClear(E, wallet, inputs)
    ensures r.Refused? ==> r.problem in {NotOurs, SecretMismatch, AmountMismatch, SigningFailed(UndecodablePoint), SigningFailed(ZeroScalar)}
    ensures r.Refused? && r.problem != SigningFailed(ZeroScalar) ==> !AllOwned(E, wallet, inputs)
  {
    hide InputProved, OwnedInput, InputOf, InputIsClear;
    var built: seq<BuiltInput> := [];
    for i := 0 to |inputs|
      invariant Map(SourceOfInput(), built) == inputs[..i] && AllProved(E, built)
      invariant |built| == i && forall k :: 0 <= k < i ==> built[k] == InputOf(E, wallet, inputs[k]) && InputIsClear(E, wallet, inputs[k])
    {
      var one := ProveInput(E, wallet, inputs[i]);
      if one.Refused? { return Refused(one.problem); }
      built := built + [one.value];
      assert inputs[..i + 1] == inputs[..i] + [inputs[i]];
    }
    assert inputs[..|inputs|] == inputs;
    r := Done(built);
  }
}
