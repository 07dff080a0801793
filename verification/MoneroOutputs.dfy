/** The outputs of a spend: destinations read, transaction keys chosen by address kind, outputs built. */
module MoneroOutputs {
  import opened Sums
  import opened Scalars
  import opened Bytes
  import opened Orders
  import opened Curve
  import opened MoneroCrypto
  import opened MoneroSet

  // ---- Destinations -------------------------------------------------------------------

  function DestOf(address: ParsedAddress, output: UnsignedOutput): Dest
    requires address.Address?
  {
    Dest(address.spendPublic, address.viewPublic, address.kind == Subaddress, output.change || output.dummy,
         if address.kind == Integrated then Some(address.paymentId) else None)
  }

  ghost predicate AddressesRead(parse: string -> ParsedAddress, spend: UnsignedSet) {
    forall i :: 0 <= i < |spend.outputs| ==>
      parse(spend.outputs[i].address).Address? && parse(spend.outputs[i].address).network == spend.network
  }

  /** monerobuild.ts:340-356. */
  method ParseDestinations(parse: string -> ParsedAddress, spend: UnsignedSet) returns (r: Outcome<seq<Dest>>)
    ensures r.Done? <==> AddressesRead(parse, spend)
    ensures r.Done? ==>
      && |r.value| == |spend.outputs|
      && forall i :: 0 <= i < |r.value| ==> r.value[i] == DestOf(parse(spend.outputs[i].address), spend.outputs[i])
    ensures r.Refused? ==> r.problem in {InvalidAddress, WrongAddressNetwork}
    ensures r == Refused(InvalidAddress) ==> exists i :: 0 <= i < |spend.outputs| && parse(spend.outputs[i].address).Unreadable?
    ensures r == Refused(WrongAddressNetwork) ==>
      exists i :: 0 <= i < |spend.outputs| && parse(spend.outputs[i].address).Address?
               && parse(spend.outputs[i].address).network != spend.network
  {
    var dests: seq<Dest> := [];
    for i := 0 to |spend.outputs|
      invariant |dests| == i
      invariant forall k :: 0 <= k < i ==>
        && parse(spend.outputs[k].address).Address? && parse(spend.outputs[k].address).network == spend.network
        && dests[k] == DestOf(parse(spend.outputs[k].address), spend.outputs[k])
    {
      var parsed := parse(spend.outputs[i].address);
      if parsed.Unreadable? { return Refused(InvalidAddress); }
      if parsed.network != spend.network { return Refused(WrongAddressNetwork); }
      dests := dests + [DestOf(parsed, spend.outputs[i])];
    }
    r := Done(dests);
  }

  function SubaddressCount(dests: seq<Dest>): (n: nat)
    ensures n <= |dests|
  {
    if dests == [] then 0 else SubaddressCount(dests[1..]) + if dests[0].isSubaddress then 1 else 0
  }

  function FirstSubaddress(dests: seq<Dest>): (r: Option<Dest>) {
    if dests == [] then None else if dests[0].isSubaddress then Some(dests[0]) else FirstSubaddress(dests[1..])
  }

  lemma {:induction false} SubaddressCounts(dests: seq<Dest>, i: nat)
    requires i < |dests|
    ensures dests[i].isSubaddress ==> SubaddressCount(dests) > 0
    ensures !dests[i].isSubaddress ==> SubaddressCount(dests) < |dests|
  {
    if i > 0 {
      SubaddressCounts(dests[1..], i - 1);
    }
  }

  /** Every destination standard, or a single one which is a subaddress, needs no more than the main key. monerobuild.ts:360-364. */
  function NeedAdditional(dests: seq<Dest>): bool {
    SubaddressCount(dests) > 0 && (|dests| - SubaddressCount(dests) > 0 || SubaddressCount(dests) > 1)
  }

  function SoleSubaddress(dests: seq<Dest>): Option<Dest> {
    if SubaddressCount(dests) == |dests| == 1 then FirstSubaddress(dests) else None
  }

  // ---- Transaction keys ---------------------------------------------------------------

  /** r·D for a subaddress, r·G for everything else. monerobuild.ts:376-379, 412-416. */
  function PublishedKey(E: Group, dest: Dest, secret: nat): Result<Point> {
    if dest.isSubaddress then
      if dest.spendPublic.Undecodable? then Err(UndecodablePoint)
      else Ok(E.Times(E.F.R(secret), dest.spendPublic.point))
    else PublicFromSecret(E, secret)
  }

  /** monerobuild.ts:376-379. */
  function MainKey(E: Group, dests: seq<Dest>, txSecret: nat): Result<Point> {
    match SoleSubaddress(dests)
    case Some(sole) => PublishedKey(E, sole, txSecret)
    case None => PublicFromSecret(E, txSecret)
  }

  /** Which secret an output's shared secret comes from. monerobuild.ts:424. */
  function TxPrivate(dests: seq<Dest>, dest: Dest, txSecret: nat, additionalSecret: nat): nat {
    if dest.isSubaddress && NeedAdditional(dests) then additionalSecret else txSecret
  }

  // ---- One output -----------------------------------------------------------------------

  /** What an output sent to a destination under a transaction secret consists of. */
  ghost predicate Addressed(E: Group, out: BuiltOutput, source: UnsignedOutput, dest: Dest, position: nat, secret: nat) {
    out.source == source &&
    match GenerateKeyDerivation(E, dest.viewPublic, secret)
    case Err(_) => false
    case Ok(d) =>
      var shared := DerivationToScalar(E, d, position);
      && DerivePublicKey(E, d, position, dest.spendPublic) == Ok(out.oneTimeKey)
      && out.viewTag == DeriveViewTag(E, d, position)
      && 0 <= source.amount < TWO_64
      && out.ecdhAmount == XorAll(ToBytes(source.amount, 8), AmountMask(E, shared))
      && out.mask == E.F.R(CommitmentMask(E, shared))
      && out.commitment == CommitTo(E, source.amount, out.mask)
  }

  /** The output itself. */
  ghost function OutputOf(E: Group, source: UnsignedOutput, dest: Dest, position: nat, secret: nat): BuiltOutput
    requires source.amount >= 0
  {
    var d := PointOr(GenerateKeyDerivation(E, dest.viewPublic, secret));
    var shared := DerivationToScalar(E, d, position);
    var mask := E.F.R(CommitmentMask(E, shared));
    BuiltOutput(source, PointOr(DerivePublicKey(E, d, position, dest.spendPublic)), DeriveViewTag(E, d, position),
                XorAll(ToBytes(source.amount, 8), AmountMask(E, shared)), CommitTo(E, source.amount, mask), mask)
  }

  /** Nothing else is addressed to that destination under that secret. */
  lemma AddressedIs(E: Group, out: BuiltOutput, source: UnsignedOutput, dest: Dest, position: nat, secret: nat)
    requires Addressed(E, out, source, dest, position, secret)
    ensures source.amount >= 0 && out == OutputOf(E, source, dest, position, secret)
  {
    hide Group.Times, Group.Plus, Group.HashToScalar, Digest, XorAll, ToBytes, CommitTo, CommitmentMask, DeriveViewTag;
  }

  /** Neither the secret nor the shared scalar of an output is zero. */
  ghost predicate OutputIsClear(E: Group, dest: Dest, position: nat, secret: nat) {
    match GenerateKeyDerivation(E, dest.viewPublic, secret)
    case Ok(d) => DerivationToScalar(E, d, position) != 0
    case Err(f) => f != ZeroScalar
  }

  /** Why building an output can fail. */
  ghost predicate DestDecodes(dest: Dest) {
    dest.spendPublic.Encodes? && dest.viewPublic.Encodes?
  }

  /** monerobuild.ts:425-436. */
  method BuildOutput(E: Group, source: UnsignedOutput, dest: Dest, position: nat, secret: nat) returns (r: Result<BuiltOutput>)
    requires 0 <= source.amount < TWO_64
    ensures r.Ok? ==> Addressed(E, r.value, source, dest, position, secret) && OutputIsClear(E, dest, position, secret)
    ensures r.Err? ==> r.failure == ZeroScalar || (r.failure == UndecodablePoint && !DestDecodes(dest))
    ensures r == Err(ZeroScalar) ==> !OutputIsClear(E, dest, position, secret)
  {
    hide Field.R, Group.Times, Group.Plus, Group.HashToScalar, Digest, Xor;
    var derivation := GenerateKeyDerivation(E, dest.viewPublic, secret);
    if derivation.Err? { return Err(derivation.failure); }
    var d := derivation.value;
    var shared := DerivationToScalar(E, d, position);
    var mask := CommitmentMask(E, shared);
    var key := DerivePublicKey(E, d, position, dest.spendPublic);
    if key.Err? { return Err(key.failure); }
    var ecdh := EncryptAmount(E, source.amount, shared);
    var commitment := Commit(E, source.amount, mask);
    r := Ok(BuiltOutput(source, key.value, DeriveViewTag(E, d, position), ecdh, commitment.value, E.F.R(mask)));
  }

  // ---- All outputs ------------------------------------------------------------------------

  /** The published key that belongs to output k: its own when there are additional ones, else the main one. */
  function KeyAt(dests: seq<Dest>, dest: Dest, extra: Extra, k: nat): Point {
    if dest.isSubaddress && NeedAdditional(dests) && k < |extra.additionalPublicKeys| then extra.additionalPublicKeys[k]
    else extra.txPublicKey
  }

  ghost predicate OutputsBuilt(E: Group, spend: UnsignedSet, dests: seq<Dest>, order: seq<nat>, txSecret: nat,
                               additionalSecrets: seq<nat>, outputs: seq<BuiltOutput>, additionalKeys: seq<Point>)
  {
    && |dests| == |spend.outputs|
    && |outputs| <= |order| == |additionalSecrets|
    && (forall k :: 0 <= k < |order| ==> order[k] < |spend.outputs|)
    && (forall k :: 0 <= k < |outputs| ==>
          Addressed(E, outputs[k], spend.outputs[order[k]], dests[order[k]], k,
                    TxPrivate(dests, dests[order[k]], txSecret, additionalSecrets[k])))
    && |additionalKeys| == (if NeedAdditional(dests) then |outputs| else 0)
    && (forall k :: 0 <= k < |additionalKeys| ==>
          PublishedKey(E, dests[order[k]], additionalSecrets[k]) == Ok(additionalKeys[k]))
  }

  /** A key that is published for its own sake is not the secret zero's. */
  ghost predicate KeyIsClear(E: Group, dest: Dest, secret: nat) {
    dest.isSubaddress || E.F.R(secret) != 0
  }

  /** Nothing multiplied by on the way to the outputs is zero. */
  ghost predicate OutputsAreClear(E: Group, dests: seq<Dest>, order: seq<nat>, txSecret: nat, additionalSecrets: seq<nat>) {
    && |order| == |additionalSecrets| && (forall k :: 0 <= k < |order| ==> order[k] < |dests|)
    && forall k :: 0 <= k < |order| ==>
         && OutputIsClear(E, dests[order[k]], k, TxPrivate(dests, dests[order[k]], txSecret, additionalSecrets[k]))
         && (NeedAdditional(dests) ==> KeyIsClear(E, dests[order[k]], additionalSecrets[k]))
  }

  ghost predicate AllDestsDecode(dests: seq<Dest>) {
    forall i :: 0 <= i < |dests| ==> DestDecodes(dests[i])
  }

  /** monerobuild.ts:402-437. */
  method BuildOutputs(E: Group, spend: UnsignedSet, dests: seq<Dest>, order: seq<nat>, txSecret: nat, additionalSecrets: seq<nat>)
    returns (r: Result<(seq<BuiltOutput>, seq<Point>)>)
    requires |dests| == |spend.outputs| && |order| == |additionalSecrets|
    requires forall k :: 0 <= k < |order| ==> order[k] < |spend.outputs|
    requires forall i :: 0 <= i < |spend.outputs| ==> 0 <= spend.outputs[i].amount < TWO_64
    ensures r.Ok? ==>
      && |r.value.0| == |order|
      && OutputsBuilt(E, spend, dests, order, txSecret, additionalSecrets, r.value.0, r.value.1)
    ensures r.Ok? ==> OutputsAreClear(E, dests, order, txSecret, additionalSecrets)
    ensures r.Err? ==> r.failure == ZeroScalar || (r.failure == UndecodablePoint && !AllDestsDecode(dests))
    ensures r == Err(ZeroScalar) ==> !OutputsAreClear(E, dests, order, txSecret, additionalSecrets)
  {
    hide Field.R, Addressed, PublishedKey, TxPrivate, SubaddressCount, FirstSubaddress, DestDecodes, OutputIsClear, KeyIsClear;
    var outputs: seq<BuiltOutput>, keys: seq<Point> := [], [];
    for position := 0 to |order|
      invariant |outputs| == position
      invariant OutputsBuilt(E, spend, dests, order, txSecret, additionalSecrets, outputs, keys)
      invariant forall k :: 0 <= k < position ==>
        && OutputIsClear(E, dests[order[k]], k, TxPrivate(dests, dests[order[k]], txSecret, additionalSecrets[k]))
        && (NeedAdditional(dests) ==> KeyIsClear(E, dests[order[k]], additionalSecrets[k]))
    {
      var dest := dests[order[position]];
      if NeedAdditional(dests) {
        var pub := PublishedKey(E, dest, additionalSecrets[position]);
        PublishedKeyClear(E, dest, additionalSecrets[position]);
        if pub.Err? {
          PublishedKeyFails(E, dest, additionalSecrets[position]);
          return Err(pub.failure);
        }
        keys := keys + [pub.value];
      }
      var built := BuildOutput(E, spend.outputs[order[position]], dest, position,
                               TxPrivate(dests, dest, txSecret, additionalSecrets[position]));
      if built.Err? { return Err(built.failure); }
      outputs := outputs + [built.value];
    }
    r := Ok((outputs, keys));
  }

  lemma PublishedKeyClear(E: Group, dest: Dest, secret: nat)
    ensures PublishedKey(E, dest, secret).Ok? ==> KeyIsClear(E, dest, secret)
    ensures PublishedKey(E, dest, secret) == Err(ZeroScalar) ==> !KeyIsClear(E, dest, secret)
  {
    hide Field.R;
  }

  lemma PublishedKeyFails(E: Group, dest: Dest, secret: nat)
    ensures PublishedKey(E, dest, secret).Err? ==>
      (PublishedKey(E, dest, secret).failure == ZeroScalar && E.F.R(secret) == 0)
      || (PublishedKey(E, dest, secret).failure == UndecodablePoint && !DestDecodes(dest))
  {
    hide Field.R;
  }

  // ---- The payment id -------------------------------------------------------------------------

  function NonChange(dests: seq<Dest>): (r: seq<Dest>) {
    if dests == [] then [] else NonChange(dests[..|dests| - 1]) + if dests[|dests| - 1].isSelf then [] else [dests[|dests| - 1]]
  }

  function FirstIntegrated(dests: seq<Dest>): Option<Dest> {
    if dests == [] then None else if dests[0].paymentId.Some? then Some(dests[0]) else FirstIntegrated(dests[1..])
  }

  function Zeros(k: nat): (s: seq<Byte>)
    ensures |s| == k
  {
    if k == 0 then [] else [0] + Zeros(k - 1)
  }

  /** Which payment id is encrypted for whom, if any. monerobuild.ts:444-453. */
  function PaymentIdPlan(dests: seq<Dest>): Outcome<Option<(seq<Byte>, PointBytes)>> {
    var nonChange := NonChange(dests);
    match FirstIntegrated(nonChange)
    case Some(integrated) =>
      if |nonChange| == 1 && integrated.paymentId.Some? then Done(Some((integrated.paymentId.value, integrated.viewPublic)))
      else Refused(IntegratedNotAlone)
    case None =>
      if |dests| <= 2 && |nonChange| == 1 then Done(Some((Zeros(8), nonChange[0].viewPublic))) else Done(None)
  }

  lemma {:induction false} FirstIntegratedHasOne(dests: seq<Dest>)
    ensures FirstIntegrated(dests).Some? ==> FirstIntegrated(dests).value in dests && FirstIntegrated(dests).value.paymentId.Some?
    ensures FirstIntegrated(dests).None? <==> forall d :: d in dests ==> d.paymentId.None?
  {
    if dests != [] {
      FirstIntegratedHasOne(dests[1..]);
      assert dests == [dests[0]] + dests[1..];
    }
  }

  /** The id carried is the integrated address's, and only when that is the one destination that is not change. */
  lemma {:induction false} IntegratedGetsItsId(dests: seq<Dest>)
    ensures PaymentIdPlan(dests).Refused? <==> (exists d :: d in NonChange(dests) && d.paymentId.Some?) && |NonChange(dests)| != 1
    ensures forall d :: NonChange(dests) == [d] && d.paymentId.Some? ==>
      PaymentIdPlan(dests) == Done(Some((d.paymentId.value, d.viewPublic)))
  {
    FirstIntegratedHasOne(NonChange(dests));
  }
}
