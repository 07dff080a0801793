/** The extra field of a spend: the payment id and the additional keys, and what the set alone says of them. */
module MoneroExtra {
  import opened Sums
  import opened Scalars
  import opened Bytes
  import opened Orders
  import opened Curve
  import opened MoneroCrypto
  import opened MoneroSet
  import opened MoneroOutputs

  // ---- The payment id -----------------------------------------------------------------------

  ghost function DestsOf(parse: string -> ParsedAddress, spend: UnsignedSet): (dests: seq<Dest>)
    requires AddressesRead(parse, spend)
    ensures |dests| == |spend.outputs|
  {
    seq(|spend.outputs|, i requires 0 <= i < |spend.outputs| => DestOf(parse(spend.outputs[i].address), spend.outputs[i]))
  }

  ghost predicate DestsReadable(dests: seq<Dest>) {
    forall i :: 0 <= i < |dests| ==> DestDecodes(dests[i]) && (dests[i].paymentId.Some? ==> |dests[i].paymentId.value| == 8)
  }

  /** The payment id, encrypted for whoever the plan names. monerobuild.ts:444-453. */
  method EncryptId(E: Group, dests: seq<Dest>, txSecret: nat) returns (r: Outcome<Option<seq<Byte>>>)
    ensures r.Refused? ==> r.problem in {IntegratedNotAlone, SigningFailed(WrongLength), SigningFailed(UndecodablePoint), SigningFailed(ZeroScalar)}
    ensures r == Refused(IntegratedNotAlone) ==> PaymentIdPlan(dests).Refused?
    ensures r.Refused? && r.problem in {SigningFailed(WrongLength), SigningFailed(UndecodablePoint)} ==> !DestsReadable(dests)
    ensures r.Done? ==> IdEncrypted(E, dests, txSecret, r.value) && r.value == IdOf(E, dests, txSecret)
    ensures r == Refused(SigningFailed(ZeroScalar)) ==> E.F.R(txSecret) == 0
  {
    hide Field.R, Group.Times, PaymentIdPad;
    var plan := PaymentIdPlan(dests);
    PlanNamesADest(dests);
    if plan.Refused? { return Refused(IntegratedNotAlone); }
    if plan.value.None? { return Done(None); }
    var e := EncryptPaymentId(E, plan.value.value.0, plan.value.value.1, txSecret);
    if e.Err? { return Refused(SigningFailed(e.failure)); }
    r := Done(Some(e.value));
  }

  /** The encrypted payment id of a spend. */
  ghost function IdOf(E: Group, dests: seq<Dest>, txSecret: nat): Option<seq<Byte>> {
    match PaymentIdPlan(dests)
    case Done(Some(plan)) =>
      if |plan.0| <= 32 then Some(XorAll(plan.0, PaymentIdPad(E, PointOr(GenerateKeyDerivation(E, plan.1, txSecret))))) else None
    case _ => None
  }

  ghost predicate IdEncrypted(E: Group, dests: seq<Dest>, txSecret: nat, encrypted: Option<seq<Byte>>) {
    match PaymentIdPlan(dests)
    case Refused(_) => false
    case Done(None) => encrypted == None
    case Done(Some(plan)) =>
      match GenerateKeyDerivation(E, plan.1, txSecret)
      case Err(_) => false
      case Ok(d) => |plan.0| == 8 && encrypted == Some(XorAll(plan.0, PaymentIdPad(E, d)))
  }

  lemma {:induction false} NonChangeAre(dests: seq<Dest>)
    ensures forall d :: d in NonChange(dests) ==> d in dests && !d.isSelf
  {
    if dests != [] {
      NonChangeAre(dests[..|dests| - 1]);
    }
  }

  lemma PlanNamesADest(dests: seq<Dest>)
    ensures PaymentIdPlan(dests).Refused? ==> PaymentIdPlan(dests).problem == IntegratedNotAlone
    ensures PaymentIdPlan(dests).Done? && PaymentIdPlan(dests).value.Some? ==>
      var plan := PaymentIdPlan(dests).value.value;
      exists d :: d in dests && d.viewPublic == plan.1 && (|plan.0| == 8 || d.paymentId == Some(plan.0))
  {
    NonChangeAre(dests);
    FirstIntegratedHasOne(NonChange(dests));
    var nonChange := NonChange(dests);
    if PaymentIdPlan(dests).Done? && PaymentIdPlan(dests).value.Some? && FirstIntegrated(nonChange).None? {
      assert nonChange[0] in dests;
    }
  }

  // ---- Read off the set ---------------------------------------------------------------------

  /** Output i is the only one that is neither change nor a dummy. */
  ghost predicate SolePayee(spend: UnsignedSet, i: nat) {
    && i < |spend.outputs| && !spend.outputs[i].change && !spend.outputs[i].dummy
    && forall j :: 0 <= j < |spend.outputs| && j != i ==> spend.outputs[j].change || spend.outputs[j].dummy
  }

  ghost predicate IsIntegrated(parse: string -> ParsedAddress, spend: UnsignedSet, i: nat) {
    i < |spend.outputs| && parse(spend.outputs[i].address).Address? && parse(spend.outputs[i].address).kind == Integrated
  }

  /** An integrated address that is paid is the only one paid. */
  ghost predicate IntegratedAlone(parse: string -> ParsedAddress, spend: UnsignedSet) {
    forall i: nat :: IsIntegrated(parse, spend, i) && !spend.outputs[i].change && !spend.outputs[i].dummy ==> SolePayee(spend, i)
  }

  /** A payment id is due to a sole payee who has one, and zeros to any sole payee of a small spend. */
  ghost predicate IdIsDue(parse: string -> ParsedAddress, spend: UnsignedSet, i: nat) {
    SolePayee(spend, i) && (IsIntegrated(parse, spend, i) || |spend.outputs| <= 2)
  }

  ghost function IdFor(address: ParsedAddress): seq<Byte> {
    if address.Address? && address.kind == Integrated then address.paymentId else [0, 0, 0, 0, 0, 0, 0, 0]
  }

  /** Whoever is due an id gets it, eight bytes under the secret shared with its view key, and nobody else does. */
  ghost predicate IdWhereDue(E: Group, parse: string -> ParsedAddress, spend: UnsignedSet, txSecret: nat, encrypted: Option<seq<Byte>>) {
    && (encrypted.Some? <==> exists i: nat :: IdIsDue(parse, spend, i))
    && forall i: nat :: IdIsDue(parse, spend, i) ==> IdSentTo(E, parse(spend.outputs[i].address), txSecret, encrypted)
  }

  ghost predicate IdSentTo(E: Group, address: ParsedAddress, txSecret: nat, encrypted: Option<seq<Byte>>) {
    && address.Address? && address.viewPublic.Encodes? && |IdFor(address)| == 8
    && encrypted == Some(XorAll(IdFor(address), PaymentIdPad(E, E.Times(8, E.Times(E.F.R(txSecret), address.viewPublic.point)))))
  }

  /** Additional keys, one for each output, exactly when some output of several goes to a subaddress. */
  ghost predicate AdditionalWhereDue(parse: string -> ParsedAddress, spend: UnsignedSet, additionalPublicKeys: seq<Point>) {
    if |spend.outputs| > 1 && exists i: nat :: IsSubaddress(parse, spend, i)
    then |additionalPublicKeys| == |spend.outputs|
    else additionalPublicKeys == []
  }

  ghost predicate IsSubaddress(parse: string -> ParsedAddress, spend: UnsignedSet, i: nat) {
    i < |spend.outputs| && parse(spend.outputs[i].address).Address? && parse(spend.outputs[i].address).kind == Subaddress
  }

  lemma {:induction false} NoneLeft(dests: seq<Dest>)
    ensures NonChange(dests) == [] <==> forall j :: 0 <= j < |dests| ==> dests[j].isSelf
  {
    if dests != [] {
      NoneLeft(dests[..|dests| - 1]);
    }
  }

  lemma {:induction false} OneLeft(dests: seq<Dest>, i: nat)
    requires i < |dests| && !dests[i].isSelf && forall j :: 0 <= j < |dests| && j != i ==> dests[j].isSelf
    ensures NonChange(dests) == [dests[i]]
  {
    var n := |dests| - 1;
    if i == n {
      NoneLeft(dests[..n]);
    } else {
      OneLeft(dests[..n], i);
    }
  }

  lemma {:induction false} LeftIs(dests: seq<Dest>) returns (i: nat)
    requires NonChange(dests) != []
    ensures i < |dests| && !dests[i].isSelf && dests[i] in NonChange(dests)
    ensures |NonChange(dests)| == 1 ==> forall j :: 0 <= j < |dests| && j != i ==> dests[j].isSelf
  {
    var n := |dests| - 1;
    if dests[n].isSelf {
      i := LeftIs(dests[..n]);
    } else {
      i := n;
      NoneLeft(dests[..n]);
    }
  }

  lemma {:induction false} IsLeft(dests: seq<Dest>, i: nat)
    requires i < |dests| && !dests[i].isSelf
    ensures dests[i] in NonChange(dests)
  {
    if i < |dests| - 1 {
      IsLeft(dests[..|dests| - 1], i);
    }
  }

  lemma PayeeIsLeft(parse: string -> ParsedAddress, spend: UnsignedSet, i: nat)
    requires AddressesRead(parse, spend) && SolePayee(spend, i)
    ensures i < |spend.outputs| && !spend.outputs[i].change && !spend.outputs[i].dummy
    ensures NonChange(DestsOf(parse, spend)) == [DestsOf(parse, spend)[i]]
  {
    hide NonChange;
    OneLeft(DestsOf(parse, spend), i);
  }

  lemma LeftIsPayee(parse: string -> ParsedAddress, spend: UnsignedSet) returns (i: nat)
    requires AddressesRead(parse, spend) && |NonChange(DestsOf(parse, spend))| == 1
    ensures i < |spend.outputs| && SolePayee(spend, i)
  {
    hide NonChange;
    i := LeftIs(DestsOf(parse, spend));
    var dests := DestsOf(parse, spend);
    forall j | 0 <= j < |spend.outputs| && j != i ensures spend.outputs[j].change || spend.outputs[j].dummy {
      assert dests[j].isSelf;
    }
  }

  /** An integrated address that is paid, and is not alone: exactly then the plan refuses. */
  lemma PlanRefuses(parse: string -> ParsedAddress, spend: UnsignedSet)
    requires AddressesRead(parse, spend)
    ensures PaymentIdPlan(DestsOf(parse, spend)).Refused? <==> !IntegratedAlone(parse, spend)
  {
    hide NonChange, SolePayee, FirstIntegrated;
    var dests := DestsOf(parse, spend);
    var left := NonChange(dests);
    IntegratedGetsItsId(dests);
    FirstIntegratedHasOne(left);
    NonChangeAre(dests);
    forall i: nat | IsIntegrated(parse, spend, i) && !spend.outputs[i].change && !spend.outputs[i].dummy
      ensures dests[i] in left && dests[i].paymentId.Some?
      ensures |left| == 1 <==> SolePayee(spend, i)
    {
      IsLeft(dests, i);
      LeftAndSole(parse, spend, i);
    }
    if PaymentIdPlan(dests).Refused? {
      var d := FirstIntegrated(left).value;
      var i :| 0 <= i < |dests| && dests[i] == d;
      assert IsIntegrated(parse, spend, i);
    }
  }

  lemma LeftAndSole(parse: string -> ParsedAddress, spend: UnsignedSet, i: nat)
    requires AddressesRead(parse, spend) && i < |spend.outputs| && !spend.outputs[i].change && !spend.outputs[i].dummy
    ensures |NonChange(DestsOf(parse, spend))| == 1 <==> SolePayee(spend, i)
  {
    hide NonChange, AddressesRead;
    if SolePayee(spend, i) {
      PayeeIsLeft(parse, spend, i);
    } else if |NonChange(DestsOf(parse, spend))| == 1 {
      var j := LeftIsPayee(parse, spend);
    }
  }

  /** Who the plan names, when it does not refuse. */
  lemma PlanNames(parse: string -> ParsedAddress, spend: UnsignedSet, i: nat)
    requires AddressesRead(parse, spend) && IdIsDue(parse, spend, i)
    ensures PaymentIdPlan(DestsOf(parse, spend))
         == Done(Some((IdFor(parse(spend.outputs[i].address)), parse(spend.outputs[i].address).viewPublic)))
  {
    hide NonChange, SolePayee;
    PayeeIsLeft(parse, spend, i);
    FirstOfOne(DestsOf(parse, spend)[i]);
    EightZeros();
  }

  lemma FirstOfOne(d: Dest)
    ensures FirstIntegrated([d]) == if d.paymentId.Some? then Some(d) else None
  {
    assert [d][1..] == [];
  }

  lemma EightZeros()
    ensures Zeros(8) == [0, 0, 0, 0, 0, 0, 0, 0]
  {
    assert Zeros(4) == [0, 0, 0, 0];
  }

  lemma PlanNamesOnlyWhenDue(parse: string -> ParsedAddress, spend: UnsignedSet)
    requires AddressesRead(parse, spend)
    requires PaymentIdPlan(DestsOf(parse, spend)).Done? && PaymentIdPlan(DestsOf(parse, spend)).value.Some?
    ensures exists i: nat :: IdIsDue(parse, spend, i)
  {
    hide NonChange, SolePayee;
    var i := LeftIsPayee(parse, spend);
    PayeeIsLeft(parse, spend, i);
    FirstOfOne(DestsOf(parse, spend)[i]);
    assert IdIsDue(parse, spend, i);
  }

  /** What the extra field carries, from the set alone. */
  lemma EncryptedIsDue(E: Group, parse: string -> ParsedAddress, spend: UnsignedSet, txSecret: nat, encrypted: Option<seq<Byte>>)
    requires AddressesRead(parse, spend) && IdEncrypted(E, DestsOf(parse, spend), txSecret, encrypted)
    ensures IdWhereDue(E, parse, spend, txSecret, encrypted)
  {
    hide SolePayee, PaymentIdPlan, Field.R, Group.Times, PaymentIdPad, XorAll, IdFor, DestsOf;
    forall i: nat | IdIsDue(parse, spend, i)
      ensures i < |spend.outputs| && encrypted.Some? && IdSentTo(E, parse(spend.outputs[i].address), txSecret, encrypted)
    {
      PlanNames(parse, spend, i);
      PayeeIsLeft(parse, spend, i);
    }
    if encrypted.Some? { PlanNamesOnlyWhenDue(parse, spend); }
  }

  lemma {:induction false} NoSubaddress(dests: seq<Dest>)
    ensures SubaddressCount(dests) == 0 <==> forall i :: 0 <= i < |dests| ==> !dests[i].isSubaddress
  {
    if dests != [] {
      NoSubaddress(dests[1..]);
      assert dests == [dests[0]] + dests[1..];
    }
  }

  lemma AdditionalIsDue(parse: string -> ParsedAddress, spend: UnsignedSet, additionalPublicKeys: seq<Point>)
    requires AddressesRead(parse, spend)
    requires |additionalPublicKeys| == if NeedAdditional(DestsOf(parse, spend)) then |spend.outputs| else 0
    ensures AdditionalWhereDue(parse, spend, additionalPublicKeys)
  {
    hide SubaddressCount;
    var dests := DestsOf(parse, spend);
    NoSubaddress(dests);
    forall i: nat | i < |spend.outputs| ensures dests[i].isSubaddress <==> IsSubaddress(parse, spend, i) {
    }
    if SubaddressCount(dests) > 0 {
      var i :| 0 <= i < |dests| && dests[i].isSubaddress;
      assert IsSubaddress(parse, spend, i);
    }
  }

  /** The extra field of a spend, from the set, the addresses and the transaction secret. */
  ghost predicate ExtraIsDue(E: Group, parse: string -> ParsedAddress, spend: UnsignedSet, randomScalars: seq<nat>, extra: Extra) {
    && |randomScalars| > 0
    && IdWhereDue(E, parse, spend, E.F.R(randomScalars[0]), extra.encryptedPaymentId)
    && AdditionalWhereDue(parse, spend, extra.additionalPublicKeys)
  }
}
