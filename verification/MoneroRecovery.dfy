/** The other end of a spend: the recipient's view secret and the published keys give everything back. */
module MoneroRecovery {
  import opened Sums
  import opened Scalars
  import opened Bytes
  import opened Orders
  import opened Curve
  import opened MoneroCrypto
  import opened MoneroSet
  import opened MoneroOutputs
  import opened MoneroExtra
  import opened MoneroInputs
  import opened MoneroBuild
  import opened MoneroSpend
  import C = Clsag

  /** The destination is this wallet's address at the given index, and its kind says which sort that is. */
  ghost predicate AddressOf(E: Group, dest: Dest, wallet: Wallet, major: nat, minor: nat) {
    && E.F.R(wallet.viewSecret) != 0
    && wallet.spendPublic == Encodes(E.Times(E.F.R(wallet.spendSecret), BASE))
    && SubaddressKeys(E, wallet.spendPublic, wallet.viewSecret, major, minor) == Ok(AddressKeys(dest.spendPublic, dest.viewPublic))
    && (dest.isSubaddress <==> major != 0 || minor != 0)
  }

  /**
   * What the recipient computes from the published key of an output and its own view secret: the key
   * the output was made from, the view tag, the amount, and a commitment that rebuilds.
   */
  ghost predicate Recovers(E: Group, out: BuiltOutput, k: nat, published: Point, viewSecret: nat, spendKey: PointBytes) {
    match GenerateKeyDerivation(E, Encodes(published), viewSecret)
    case Err(_) => false
    case Ok(d) =>
      var shared := DerivationToScalar(E, d, k);
      && spendKey.Encodes?
      && DerivePublicKey(E, d, k, spendKey) == Ok(out.oneTimeKey)
      && DeriveSubaddressPublicKey(E, Encodes(out.oneTimeKey), d, k) == Ok(spendKey.point)
      && DeriveViewTag(E, d, k) == out.viewTag
      && |out.ecdhAmount| == 8 && LittleEndian(XorAll(out.ecdhAmount, AmountMask(E, shared))) == out.source.amount
      && Commit(E, out.source.amount, CommitmentMask(E, shared)) == Ok(out.commitment)
  }

  /** The point that both the view key and the published key are multiples of. */
  ghost function BaseOf(dest: Dest): Point
    requires dest.spendPublic.Encodes?
  {
    if dest.isSubaddress then dest.spendPublic.point else BASE
  }

  lemma AddressShape(E: Group, dest: Dest, wallet: Wallet, major: nat, minor: nat)
    requires E.Valid() && AddressOf(E, dest, wallet, major, minor)
    ensures dest.spendPublic.Encodes? && E.OnCurve(dest.spendPublic.point)
    ensures dest.viewPublic == Encodes(E.Times(E.F.R(wallet.viewSecret), BaseOf(dest)))
  {
    E.TimesOnCurve(E.F.R(wallet.spendSecret), BASE);
    if dest.isSubaddress {
      E.PlusOnCurve(wallet.spendPublic.point, E.Times(SubaddressSecretKey(E, wallet.viewSecret, major, minor), BASE));
    }
    hide Group.Times, Group.Plus, Field.R, SubaddressSecretKey, Group.OnCurve;
  }

  /** Whatever the mix of destinations, the key published for an output is its secret times its base. */
  lemma PublishedIsMultiple(E: Group, parse: string -> ParsedAddress, dests: seq<Dest>, randomScalars: seq<nat>,
                            outputs: seq<BuiltOutput>, extra: Extra, k: nat)
    requires Sent(E, parse, dests, randomScalars, outputs, extra) && k < |outputs|
    requires DestFor(parse, outputs[k]).spendPublic.Encodes?
    ensures var dest := DestFor(parse, outputs[k]);
      KeyAt(dests, dest, extra, k) == E.Times(E.F.R(SecretAt(E, dests, dest, randomScalars, k)), BaseOf(dest))
  {
    hide Group.Times, Field.R, Addressed, IdEncrypted, SubaddressCount, FirstSubaddress;
    var dest := DestFor(parse, outputs[k]);
    var i :| 0 <= i < |dests| && dests[i] == dest;
    SubaddressCounts(dests, i);
    if dest.isSubaddress && !NeedAdditional(dests) {
      assert dests == [dest];
      SoleIs(dest);
    }
  }

  lemma SoleIs(dest: Dest)
    requires dest.isSubaddress
    ensures SubaddressCount([dest]) == 1 && FirstSubaddress([dest]) == Some(dest)
  {
    assert SubaddressCount([dest][1..]) == 0;
  }

  /** Both sides hold one derivation. */
  lemma SameDerivation(E: Group, dest: Dest, viewSecret: nat, secret: nat, published: Point)
    requires dest.spendPublic.Encodes? && E.F.R(viewSecret) != 0
    requires dest.viewPublic == Encodes(E.Times(E.F.R(viewSecret), BaseOf(dest)))
    requires published == E.Times(E.F.R(secret), BaseOf(dest))
    requires GenerateKeyDerivation(E, dest.viewPublic, secret).Ok?
    ensures GenerateKeyDerivation(E, Encodes(published), viewSecret) == GenerateKeyDerivation(E, dest.viewPublic, secret)
  {
    SharedSecret(E, BaseOf(dest), E.F.R(viewSecret), E.F.R(secret));
    hide Group.Times, Field.R;
  }

  /** An output addressed under a derivation is recovered under the same one. */
  lemma AddressedRecovers(E: Group, out: BuiltOutput, dest: Dest, k: nat, secret: nat, published: Point, viewSecret: nat)
    requires Addressed(E, out, out.source, dest, k, secret)
    requires dest.spendPublic.Encodes? && E.OnCurve(dest.spendPublic.point)
    requires GenerateKeyDerivation(E, Encodes(published), viewSecret) == GenerateKeyDerivation(E, dest.viewPublic, secret)
    ensures Recovers(E, out, k, published, viewSecret, dest.spendPublic)
  {
    var d := GenerateKeyDerivation(E, dest.viewPublic, secret).value;
    hide Group.Times, Group.Plus, Group.Minus, Field.R, Group.HashToScalar, Digest, CommitTo, LittleEndian, ToBytes, XorAll, Group.OnCurve,
         GenerateKeyDerivation;
    DerivedUndone(E, d, k, dest.spendPublic.point);
    AmountRoundTrip(E, out.source.amount, DerivationToScalar(E, d, k));
  }

  /**
   * For every mix of standard, integrated and subaddress destinations, and every output of a spend,
   * the wallet whose address it was sent to recovers it from the key published for its position.
   */
  lemma RecipientRecovers(E: Group, parse: string -> ParsedAddress, dests: seq<Dest>, randomScalars: seq<nat>,
                          outputs: seq<BuiltOutput>, extra: Extra, k: nat, wallet: Wallet, major: nat, minor: nat)
    requires E.Valid() && Sent(E, parse, dests, randomScalars, outputs, extra) && k < |outputs|
    requires AddressOf(E, DestFor(parse, outputs[k]), wallet, major, minor)
    ensures var dest := DestFor(parse, outputs[k]);
      Recovers(E, outputs[k], k, KeyAt(dests, dest, extra, k), wallet.viewSecret, dest.spendPublic)
  {
    var dest := DestFor(parse, outputs[k]);
    var secret, published := SecretAt(E, dests, dest, randomScalars, k), KeyAt(dests, dest, extra, k);
    hide Group.Times, Field.R, Group.OnCurve, KeyAt, SecretAt, SubaddressKeys, Recovers, IdEncrypted, PublishedKey, MainKey, Group.Valid,
         NeedAdditional, GenerateKeyDerivation, DerivationToScalar, DerivePublicKey, DeriveViewTag, AmountMask, CommitmentMask;
    AddressShape(E, dest, wallet, major, minor);
    PublishedIsMultiple(E, parse, dests, randomScalars, outputs, extra, k);
    SameDerivation(E, dest, wallet.viewSecret, secret, published);
    AddressedRecovers(E, outputs[k], dest, k, secret, published, wallet.viewSecret);
  }

  /**
   * And can spend it: listed as an input, with its one-time key and commitment at the real position of
   * any ring, it passes every check the recipient's own vault makes before signing.
   */
  lemma RecoveredIsSpendable(E: Group, out: BuiltOutput, k: nat, published: Point, wallet: Wallet, input: UnsignedInput)
    requires Recovers(E, out, k, published, wallet.viewSecret, wallet.spendPublic)
    requires wallet.spendPublic == Encodes(E.Times(E.F.R(wallet.spendSecret), BASE))
    requires input.txPublicKey == Encodes(published) && input.indexInTx == k && input.amount == out.source.amount
    requires input.realPosition < |input.ring|
    requires RealMember(input) == C.RingMember(Encodes(out.oneTimeKey), Encodes(out.commitment))
    ensures OwnedInput(E, wallet, input)
  {
    hide Group.Times, Field.R, Group.HashToScalar, CommitTo, LittleEndian, XorAll, Digest, GenerateKeyDerivation, DerivationToScalar,
         DeriveSubaddressPublicKey, DeriveViewTag;
  }

  lemma MainKeyOfStandard(E: Group, dests: seq<Dest>, dest: Dest, txSecret: nat)
    requires dest in dests && !dest.isSubaddress
    ensures MainKey(E, dests, txSecret) == PublicFromSecret(E, txSecret)
  {
    hide Field.R, SubaddressCount;
    var i :| 0 <= i < |dests| && dests[i] == dest;
    SubaddressCounts(dests, i);
  }

  /** The sole recipient of an integrated address reads its payment id back out of the extra field. */
  lemma PaymentIdRecovered(E: Group, parse: string -> ParsedAddress, dests: seq<Dest>, randomScalars: seq<nat>,
                           outputs: seq<BuiltOutput>, extra: Extra, dest: Dest, wallet: Wallet)
    requires E.Valid() && Sent(E, parse, dests, randomScalars, outputs, extra)
    requires NonChange(dests) == [dest] && dest.paymentId.Some? && AddressOf(E, dest, wallet, 0, 0)
    ensures extra.encryptedPaymentId.Some? && |extra.encryptedPaymentId.value| == 8
    ensures match GenerateKeyDerivation(E, Encodes(extra.txPublicKey), wallet.viewSecret)
            case Err(_) => false
            case Ok(d) => XorAll(extra.encryptedPaymentId.value, PaymentIdPad(E, d)) == dest.paymentId.value
  {
    var txSecret := E.F.R(randomScalars[0]);
    IntegratedGetsItsId(dests);
    NonChangeAre(dests);
    assert dest in NonChange(dests);
    MainKeyOfStandard(E, dests, dest, txSecret);
    hide Group.Times, Field.R, Group.OnCurve, SubaddressKeys, PublishedKey, MainKey, Group.Valid, Addressed, PaymentIdPlan, NonChange,
         NeedAdditional, GenerateKeyDerivation, DerivationToScalar, XorAll, PaymentIdPad, SecretAt, KeyAt;
    AddressShape(E, dest, wallet, 0, 0);
    SameDerivation(E, dest, wallet.viewSecret, txSecret, extra.txPublicKey);
    var d := GenerateKeyDerivation(E, dest.viewPublic, txSecret).value;
    PaymentIdRoundTrip(E, dest.paymentId.value, d);
  }

  // ---- What stands on the chain ----------------------------------------------------------------

  /** The address's spend key, and the view secret its holder scans with. */
  ghost predicate KeysOf(E: Group, address: ParsedAddress, S: Point, viewSecret: nat) {
    && address.Address? && E.OnCurve(S) && E.F.R(viewSecret) != 0
    && address.spendPublic == Encodes(S)
    && address.viewPublic == Encodes(E.Times(E.F.R(viewSecret), if address.kind == Subaddress then S else BASE))
  }

  /** The key to scan position k with: its own when there is one and the address is a subaddress, else the main one. */
  function KeyToScan(tx: SignedTx, address: ParsedAddress, k: nat): Point {
    if address.Address? && address.kind == Subaddress && k < |tx.prefix.extra.additionalPublicKeys| then tx.prefix.extra.additionalPublicKeys[k]
    else tx.prefix.extra.txPublicKey
  }

  /** Position k of the transaction, as published, is the holder's, for this amount. */
  ghost predicate OnChain(E: Group, tx: SignedTx, k: nat, published: Point, viewSecret: nat, S: Point, amount: int) {
    && k < |tx.prefix.outputs| && k < |tx.base.ecdhAmounts| && k < |tx.base.outPk|
    && match GenerateKeyDerivation(E, Encodes(published), viewSecret)
       case Err(_) => false
       case Ok(d) =>
         var shared := DerivationToScalar(E, d, k);
         && tx.prefix.outputs[k] == WireOutput(E.Plus(S, E.Times(shared, BASE)), DeriveViewTag(E, d, k))
         && |tx.base.ecdhAmounts[k]| == 8 && LittleEndian(XorAll(tx.base.ecdhAmounts[k], AmountMask(E, shared))) == amount
         && tx.base.outPk[k] == Encodes(CommitTo(E, amount, E.F.R(CommitmentMask(E, shared))))
  }

  lemma FoundOnChain(E: Group, parse: string -> ParsedAddress, spend: UnsignedSet, randomScalars: seq<nat>, tx: SignedTx, k: nat,
                     S: Point, viewSecret: nat)
    requires E.Valid() && AddressesRead(parse, spend) && WellMade(spend, tx) && k < |tx.outputs|
    requires Sent(E, parse, DestsOf(parse, spend), randomScalars, tx.outputs, tx.prefix.extra)
    requires KeysOf(E, parse(tx.outputs[k].source.address), S, viewSecret)
    ensures OnChain(E, tx, k, KeyToScan(tx, parse(tx.outputs[k].source.address), k), viewSecret, S, tx.outputs[k].source.amount)
  {
    var dests, extra := DestsOf(parse, spend), tx.prefix.extra;
    var dest := DestFor(parse, tx.outputs[k]);
    var secret, published := SecretAt(E, dests, dest, randomScalars, k), KeyToScan(tx, parse(tx.outputs[k].source.address), k);
    hide Group.Times, Group.Plus, Group.Minus, Field.R, Group.OnCurve, SecretAt, SubaddressKeys, IdEncrypted, PublishedKey, MainKey, Group.Valid,
         NeedAdditional, GenerateKeyDerivation, DerivationToScalar, DeriveViewTag, AmountMask, CommitmentMask, CommitTo, LittleEndian, XorAll,
         DestsOf, AddressesRead, WireInputsOf;
    PublishedIsMultiple(E, parse, dests, randomScalars, tx.outputs, extra, k);
    SameDerivation(E, dest, viewSecret, secret, published);
    AddressedRecovers(E, tx.outputs[k], dest, k, secret, published, viewSecret);
  }

  /**
   * From the set and the published transaction alone: up to the order of positions, every output asked
   * for is there, and whoever holds its address finds it there with the amount asked for.
   */
  lemma EveryPaymentIsFound(E: Group, parse: string -> ParsedAddress, spend: UnsignedSet, randomScalars: seq<nat>, tx: SignedTx)
    returns (order: seq<nat>)
    requires E.Valid() && AddressesRead(parse, spend) && WellMade(spend, tx)
    requires Sent(E, parse, DestsOf(parse, spend), randomScalars, tx.outputs, tx.prefix.extra)
    ensures IsPermutation(order, |spend.outputs|) && |order| == |spend.outputs| == |tx.prefix.outputs|
    ensures forall k :: 0 <= k < |order| ==> order[k] < |spend.outputs|
    ensures forall k: nat, S, viewSecret: nat ::
      k < |order| && KeysOf(E, parse(spend.outputs[order[k]].address), S, viewSecret) ==>
        OnChain(E, tx, k, KeyToScan(tx, parse(spend.outputs[order[k]].address), k), viewSecret, S, spend.outputs[order[k]].amount)
  {
    hide KeysOf, OnChain, Sent, AddressesRead, WireInputsOf, Group.Valid, KeyToScan;
    order := OrderBetween(Map(SourceOfOutput(), tx.outputs), spend.outputs);
    forall k: nat, S, viewSecret: nat | k < |order| && KeysOf(E, parse(spend.outputs[order[k]].address), S, viewSecret)
      ensures OnChain(E, tx, k, KeyToScan(tx, parse(spend.outputs[order[k]].address), k), viewSecret, S, spend.outputs[order[k]].amount)
    {
      FoundOnChain(E, parse, spend, randomScalars, tx, k, S, viewSecret);
    }
  }

  /** And whoever can open the address's spend key can open the output. */
  lemma FoundIsOpened(E: Group, tx: SignedTx, k: nat, published: Point, viewSecret: nat, spendSecret: nat, amount: int)
    requires OnChain(E, tx, k, published, viewSecret, E.Times(E.F.R(spendSecret), BASE), amount)
    ensures GenerateKeyDerivation(E, Encodes(published), viewSecret).Ok?
    ensures tx.prefix.outputs[k].key
         == E.Times(DeriveSecretKey(E, GenerateKeyDerivation(E, Encodes(published), viewSecret).value, k, spendSecret), BASE)
  {
    var d := GenerateKeyDerivation(E, Encodes(published), viewSecret).value;
    var t := DerivationToScalar(E, d, k);
    E.F.AddR(spendSecret, t);
    hide Field.R, DerivationToScalar, GenerateKeyDerivation, DeriveViewTag, XorAll, LittleEndian, CommitTo, AmountMask, CommitmentMask;
    TimesBasePlus(E, E.F.R(spendSecret), t);
  }

  // ---- The payment id on the chain -------------------------------------------------------------

  /**
   * The secret the id was encrypted under is the one its recipient shares with the main key: exactly
   * for an address that is not a subaddress, for the only output, and for a spend key that is G itself.
   */
  lemma IdIsReadable(E: Group, parse: string -> ParsedAddress, spend: UnsignedSet, randomScalars: seq<nat>, tx: SignedTx, i: nat,
                     S: Point, viewSecret: nat)
    requires E.Valid() && AddressesRead(parse, spend) && IdIsDue(parse, spend, i)
    requires Sent(E, parse, DestsOf(parse, spend), randomScalars, tx.outputs, tx.prefix.extra)
    requires KeysOf(E, parse(spend.outputs[i].address), S, viewSecret) && E.F.R(randomScalars[0]) != 0
    ensures IdIsUnder(E, parse(spend.outputs[i].address), E.F.R(randomScalars[0]), tx.prefix.extra.txPublicKey, viewSecret)
      <==> parse(spend.outputs[i].address).kind != Subaddress || |spend.outputs| == 1 || S.log == 1
  {
    var address, r := parse(spend.outputs[i].address), E.F.R(randomScalars[0]);
    E.F.Idem(randomScalars[0]);
    E.F.Idem(viewSecret);
    var V := if address.kind == Subaddress then S else BASE;
    var B := if |spend.outputs| == 1 then V else BASE;
    MainKeyIs(E, parse, spend, i, r, S);
    SharedWhen(E, V, B, E.F.R(viewSecret), r);
    hide Group.Times, Field.R, Addressed, IdEncrypted, SolePayee, Group.Valid, Group.OnCurve, MainKey, DestsOf;
  }

  /** The recipient's derivation from the main key is the one the id was encrypted under. */
  ghost predicate IdIsUnder(E: Group, address: ParsedAddress, txSecret: nat, txPublicKey: Point, viewSecret: nat) {
    && address.Address? && address.viewPublic.Encodes?
    && GenerateKeyDerivation(E, Encodes(txPublicKey), viewSecret) == Ok(E.Times(8, E.Times(E.F.R(txSecret), address.viewPublic.point)))
  }

  /** Which base the main key is a multiple of. */
  lemma MainKeyIs(E: Group, parse: string -> ParsedAddress, spend: UnsignedSet, i: nat, r: nat, S: Point)
    requires AddressesRead(parse, spend) && IdIsDue(parse, spend, i) && E.F.R(r) != 0
    requires parse(spend.outputs[i].address).spendPublic == Encodes(S)
    requires MainKey(E, DestsOf(parse, spend), r).Ok?
    ensures MainKey(E, DestsOf(parse, spend), r).value
         == E.Times(E.F.R(r), if |spend.outputs| == 1 && parse(spend.outputs[i].address).kind == Subaddress then S else BASE)
  {
    hide Field.R, Group.Times, SubaddressCount, FirstSubaddress;
    var dests := DestsOf(parse, spend);
    if |spend.outputs| == 1 {
      assert dests == [dests[0]];
      if dests[0].isSubaddress {
        SoleIs(dests[0]);
      } else {
        SubaddressCounts(dests, 0);
      }
    }
  }

  /** 8·a·(r·B) is 8·r·(a·V) exactly when B and V have the same component of order L. */
  lemma SharedWhen(E: Group, V: Point, B: Point, a: int, r: int)
    requires E.Valid() && E.OnCurve(V) && E.OnCurve(B) && E.F.R(a) != 0 && E.F.R(r) != 0
    ensures E.Times(8, E.Times(a, E.Times(r, B))) == E.Times(8, E.Times(r, E.Times(a, V))) <==> B.log == V.log
  {
    SharedSecret(E, V, a, r);
    E.TimesOnCurve(8, E.Times(a, E.Times(r, B)));
    E.TimesOnCurve(8, E.Times(a, E.Times(r, V)));
    E.F.Range(B.log);
    E.F.Range(V.log);
    E.F.Range(8);
    ThriceTimes(E.F, a, r, B.log);
    ThriceTimes(E.F, a, r, V.log);
    E.F.NonzeroProduct(a, r);
    E.F.NonzeroProduct(8, a * r);
    if E.F.R(8 * (a * r) * B.log) == E.F.R(8 * (a * r) * V.log) {
      E.F.Divide(8 * (a * r), B.log, V.log);
    }
    hide Field.R;
  }

  lemma ThriceTimes(F: Field, a: int, r: int, x: int)
    ensures F.R(8 * F.R(a * F.R(r * x))) == F.R(8 * (a * r) * x)
  {
    hide Field.R;
    F.MulR(a, r * x);
    F.MulR(8, a * (r * x));
    Associate(a, r, x);
    Associate(8, a * r, x);
  }

  /** When it is, the recipient reads its id, or the zeros of an address that has none. */
  lemma IdIsRead(E: Group, parse: string -> ParsedAddress, spend: UnsignedSet, randomScalars: seq<nat>, extra: Extra, i: nat, viewSecret: nat)
    requires ExtraIsDue(E, parse, spend, randomScalars, extra) && IdIsDue(parse, spend, i)
    requires IdIsUnder(E, parse(spend.outputs[i].address), E.F.R(randomScalars[0]), extra.txPublicKey, viewSecret)
    ensures extra.encryptedPaymentId.Some? && |extra.encryptedPaymentId.value| == 8
    ensures GenerateKeyDerivation(E, Encodes(extra.txPublicKey), viewSecret).Ok?
    ensures XorAll(extra.encryptedPaymentId.value, PaymentIdPad(E, GenerateKeyDerivation(E, Encodes(extra.txPublicKey), viewSecret).value))
         == IdFor(parse(spend.outputs[i].address))
  {
    hide Group.Times, Field.R, XorAll, PaymentIdPad, GenerateKeyDerivation;
    var address := parse(spend.outputs[i].address);
    assert IdSentTo(E, address, E.F.R(randomScalars[0]), extra.encryptedPaymentId);
    PaymentIdRoundTrip(E, IdFor(address), E.Times(8, E.Times(E.F.R(E.F.R(randomScalars[0])), address.viewPublic.point)));
  }
}
