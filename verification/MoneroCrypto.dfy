/** The derivations a Monero output is built from, and how its recipient takes them apart again. */
module MoneroCrypto {
  import opened Sums
  import opened Scalars
  import opened Curve
  import opened Bytes

  /** What the exceptions of these functions say. */
  datatype Failure = UndecodablePoint | ZeroScalar | AmountOutOfRange | WrongLength

  datatype Result<T> = Ok(value: T) | Err(failure: Failure)

  /** A 32-byte Keccak digest. */
  function Digest(E: Group, chunks: seq<Chunk>): (bytes: seq<Byte>)
    ensures |bytes| == 32
  {
    seq<Byte>(32, i requires 0 <= i < 32 => E.keccak(chunks, i))
  }

  /** The point of a result that has one. */
  function PointOr(r: Result<Point>): Point {
    match r
    case Ok(P) => P
    case Err(_) => ZERO
  }

  // ---- Keys -------------------------------------------------------------------------

  /** monero.ts:128-134. */
  function PublicFromSecret(E: Group, secret: nat): Result<Point> {
    if E.F.R(secret) == 0 then Err(ZeroScalar) else Ok(E.Times(E.F.R(secret), BASE))
  }

  /** 8·(secret·P): clearing the cofactor drops any torsion the sender's key carried. monerocrypto.ts:281-287. */
  function GenerateKeyDerivation(E: Group, publicKey: PointBytes, secret: nat): Result<Point> {
    if publicKey.Undecodable? then Err(UndecodablePoint)
    else if E.F.R(secret) == 0 then Err(ZeroScalar)
    else Ok(E.Times(8, E.Times(E.F.R(secret), publicKey.point)))
  }

  /** monerocrypto.ts:311-318. */
  function DerivationToScalar(E: Group, derivation: Point, index: nat): nat {
    E.HashToScalar([PointChunk(Encodes(derivation)), NumberChunk(index)])
  }

  /** monerocrypto.ts:333-341. */
  function DeriveViewTag(E: Group, derivation: Point, index: nat): Byte {
    Digest(E, [TextChunk("view_tag"), PointChunk(Encodes(derivation)), NumberChunk(index)])[0]
  }

  /** base + H_s(derivation, i)·G. monerocrypto.ts:349-358. */
  function DerivePublicKey(E: Group, derivation: Point, index: nat, base: PointBytes): Result<Point> {
    var scalar := DerivationToScalar(E, derivation, index);
    if scalar == 0 then Err(ZeroScalar)
    else if base.Undecodable? then Err(UndecodablePoint)
    else Ok(E.Plus(base.point, E.Times(scalar, BASE)))
  }

  /** monerocrypto.ts:366-375. */
  function DeriveSecretKey(E: Group, derivation: Point, index: nat, baseSecret: nat): nat {
    E.F.R(baseSecret + DerivationToScalar(E, derivation, index))
  }

  /** output - H_s(derivation, i)·G. monerocrypto.ts:462-470. */
  function DeriveSubaddressPublicKey(E: Group, outputKey: PointBytes, derivation: Point, index: nat): Result<Point> {
    var scalar := DerivationToScalar(E, derivation, index);
    if outputKey.Undecodable? then Err(UndecodablePoint)
    else if scalar == 0 then Err(ZeroScalar)
    else Ok(E.Minus(outputKey.point, E.Times(scalar, BASE)))
  }

  /** x·Hp(P). monerocrypto.ts:530-535. */
  function GenerateKeyImage(E: Group, publicKey: PointBytes, secret: nat): Result<Point> {
    if E.F.R(secret) == 0 then Err(ZeroScalar) else Ok(E.Times(E.F.R(secret), E.ec(publicKey)))
  }

  // ---- Subaddresses -------------------------------------------------------------------

  const TWO_32 := 0x1_0000_0000

  /** Both indexes are written as 32 bits. monerocrypto.ts:387-407. */
  function SubaddressSecretKey(E: Group, viewSecret: nat, major: nat, minor: nat): nat {
    E.HashToScalar([TextChunk("SubAddr\0"), ScalarChunk(viewSecret), NumberChunk(major % TWO_32), NumberChunk(minor % TWO_32)])
  }

  datatype AddressKeys = AddressKeys(spend: PointBytes, view: PointBytes)

  /** (0, 0) is the main address, and not the formula at a zero offset. monerocrypto.ts:437-452. */
  function SubaddressKeys(E: Group, spendPublic: PointBytes, viewSecret: nat, major: nat, minor: nat): Result<AddressKeys> {
    if major == 0 && minor == 0 then
      if E.F.R(viewSecret) == 0 then Err(ZeroScalar)
      else Ok(AddressKeys(spendPublic, Encodes(E.Times(E.F.R(viewSecret), BASE))))
    else
      var m := SubaddressSecretKey(E, viewSecret, major, minor);
      if spendPublic.Undecodable? then Err(UndecodablePoint)
      else if m == 0 then Err(ZeroScalar)
      else
        var D := E.Plus(spendPublic.point, E.Times(m, BASE));
        Ok(AddressKeys(Encodes(D), Encodes(E.Times(E.F.R(viewSecret), D))))
  }

  /** The secret that spends from a subaddress: the wallet's own and the index's. */
  function SubaddressSpendSecret(E: Group, spendSecret: nat, viewSecret: nat, major: nat, minor: nat): nat {
    if major == 0 && minor == 0 then E.F.R(spendSecret)
    else E.F.R(spendSecret + SubaddressSecretKey(E, viewSecret, major, minor))
  }

  /** A wallet can open both keys of every subaddress it hands out. */
  lemma SubaddressIsOwned(E: Group, spendSecret: nat, viewSecret: nat, major: nat, minor: nat, keys: AddressKeys)
    requires SubaddressKeys(E, Encodes(E.Times(E.F.R(spendSecret), BASE)), viewSecret, major, minor) == Ok(keys)
    ensures keys.spend == Encodes(E.Times(SubaddressSpendSecret(E, spendSecret, viewSecret, major, minor), BASE))
    ensures keys.view == Encodes(E.Times(E.F.R(viewSecret), if major == 0 && minor == 0 then BASE else keys.spend.point))
    ensures (if major == 0 && minor == 0 then E.F.R(viewSecret) else SubaddressSecretKey(E, viewSecret, major, minor)) != 0
  {
    var m := SubaddressSecretKey(E, viewSecret, major, minor);
    E.F.AddR(spendSecret, m);
    E.F.AddR(E.F.R(spendSecret), m);
    hide Field.R, SubaddressSecretKey;
    TimesBasePlus(E, E.F.R(spendSecret), m);
    TimesBasePlus(E, spendSecret, m);
  }

  /** No two spend keys share a subaddress, whatever the view secret. */
  lemma SubaddressesDiffer(E: Group, P: Point, Q: Point, viewSecret: nat, major: nat, minor: nat)
    requires E.OnCurve(P) && E.OnCurve(Q) && P != Q
    requires SubaddressKeys(E, Encodes(P), viewSecret, major, minor).Ok?
    ensures SubaddressKeys(E, Encodes(Q), viewSecret, major, minor).Ok?
    ensures SubaddressKeys(E, Encodes(P), viewSecret, major, minor).value.spend
         != SubaddressKeys(E, Encodes(Q), viewSecret, major, minor).value.spend
  {
    var M := E.Times(SubaddressSecretKey(E, viewSecret, major, minor), BASE);
    PlusMinus(E, P, M);
    PlusMinus(E, Q, M);
    hide Field.R, SubaddressSecretKey, Group.Plus, Group.Times, Group.Minus;
  }

  // ---- Amounts ------------------------------------------------------------------------

  /** monerocrypto.ts:588-590. */
  function CommitmentMask(E: Group, shared: nat): nat {
    E.HashToScalar([TextChunk("commitment_mask"), ScalarChunk(shared)])
  }

  /** monerocrypto.ts:599-601. */
  function AmountMask(E: Group, shared: nat): (bytes: seq<Byte>)
    ensures |bytes| == 32
  {
    Digest(E, [TextChunk("amount"), ScalarChunk(shared)])
  }

  /** monerocrypto.ts:612-624. */
  function Commit(E: Group, amount: int, mask: nat): Result<Point> {
    if amount < 0 || amount >= TWO_64 then Err(AmountOutOfRange)
    else Ok(CommitTo(E, amount, E.F.R(mask)))
  }

  lemma Pow256Eight()
    ensures Pow256(8) == TWO_64
  {
    assert Pow256(4) == 0x1_0000_0000 by { assert Pow256(2) == 0x1_0000; }
    assert Pow256(6) == 0x1_0000_0000_0000;
  }

  /** The eight little-endian bytes of the amount under the shared mask. monerobuild.ts:261-267. */
  method EncryptAmount(E: Group, amount: int, shared: nat) returns (out: seq<Byte>)
    requires 0 <= amount < TWO_64
    ensures out == XorAll(ToBytes(amount, 8), AmountMask(E, shared))
  {
    hide Xor, Digest;
    var mask := AmountMask(E, shared);
    out := [];
    var n := amount;
    for i := 0 to 8
      invariant |out| == i && n >= 0
      invariant ToBytes(n, 8 - i) == ToBytes(amount, 8)[i..]
      invariant forall k :: 0 <= k < i ==> out[k] == Xor(ToBytes(amount, 8)[k], mask[k])
    {
      assert ToBytes(n, 8 - i)[0] == n % 256 && ToBytes(n, 8 - i)[1..] == ToBytes(n / 256, 8 - i - 1);
      out := out + [Xor(n % 256, mask[i])];
      n := n / 256;
    }
  }

  /** The number the decrypted bytes write from the given one on. */
  ghost function PlainFrom(masked: seq<Byte>, mask: seq<Byte>, byte: nat): (n: nat)
    requires |masked| <= |mask| && byte <= |masked|
  {
    LittleEndian(XorAll(masked, mask)[byte..])
  }

  lemma PlainStep(masked: seq<Byte>, mask: seq<Byte>, byte: nat)
    requires |masked| <= |mask| && byte <= |masked|
    ensures byte == |masked| ==> PlainFrom(masked, mask, byte) == 0
    ensures byte < |masked| ==> PlainFrom(masked, mask, byte) == PlainFrom(masked, mask, byte + 1) * 256 + Xor(masked[byte], mask[byte])
    ensures PlainFrom(masked, mask, 0) == LittleEndian(XorAll(masked, mask))
  {
    hide Xor;
    var plain := XorAll(masked, mask);
    assert plain[0..] == plain;
    if byte < |masked| {
      assert plain[byte..][1..] == plain[byte + 1..] && plain[byte..][0] == plain[byte];
    }
  }

  /** The recipient's loop, highest byte first. wallet/src/core/moneroscan.ts:537-546. */
  method DecryptAmount(E: Group, masked: seq<Byte>, shared: nat) returns (amount: nat)
    requires |masked| == 8
    ensures amount == LittleEndian(XorAll(masked, AmountMask(E, shared)))
  {
    hide *;
    var mask := AmountMask(E, shared);
    PlainStep(masked, mask, 8);
    amount := 0;
    var byte := 7;
    while byte >= 0
      invariant -1 <= byte <= 7
      invariant amount == PlainFrom(masked, mask, byte + 1)
    {
      PlainStep(masked, mask, byte);
      amount := amount * 256 + Xor(masked[byte], mask[byte]);
      byte := byte - 1;
    }
  }

  /** What the recipient decrypts is the amount that was encrypted. */
  lemma AmountRoundTrip(E: Group, amount: int, shared: nat)
    requires 0 <= amount < TWO_64
    ensures LittleEndian(XorAll(XorAll(ToBytes(amount, 8), AmountMask(E, shared)), AmountMask(E, shared))) == amount
  {
    Pow256Eight();
    XorAllUndone(ToBytes(amount, 8), AmountMask(E, shared));
    BytesRoundTrip(amount, 8);
  }

  // ---- Payment ids ----------------------------------------------------------------------

  function PaymentIdPad(E: Group, derivation: Point): (pad: seq<Byte>)
    ensures |pad| == 32
  {
    Digest(E, [PointChunk(Encodes(derivation)), BytesChunk([0x8d])])
  }

  /** monerocrypto.ts:483-493. */
  method EncryptPaymentId(E: Group, paymentId: seq<Byte>, viewPublic: PointBytes, txSecret: nat) returns (r: Result<seq<Byte>>)
    ensures |paymentId| != 8 ==> r == Err(WrongLength)
    ensures |paymentId| == 8 ==>
      r == match GenerateKeyDerivation(E, viewPublic, txSecret)
           case Err(f) => Err(f)
           case Ok(d) => Ok(XorAll(paymentId, PaymentIdPad(E, d)))
  {
    hide Xor, Digest, Field.R, Group.Times;
    if |paymentId| != 8 { return Err(WrongLength); }
    var derivation := GenerateKeyDerivation(E, viewPublic, txSecret);
    if derivation.Err? { return Err(derivation.failure); }
    var pad := PaymentIdPad(E, derivation.value);
    var out: seq<Byte> := [];
    for i := 0 to 8
      invariant |out| == i && forall k :: 0 <= k < i ==> out[k] == Xor(paymentId[k], pad[k])
    {
      out := out + [Xor(paymentId[i], pad[i])];
    }
    assert out == XorAll(paymentId, pad);
    r := Ok(out);
  }

  // ---- Both sides meet ------------------------------------------------------------------

  /**
   * The shared secret: 8·a·(r·P) is 8·r·(a·P), for any point at all. Whatever the sender publishes and
   * whatever the recipient's view key is, they need only be multiples of one base.
   */
  lemma SharedSecret(E: Group, P: Point, a: int, r: int)
    ensures E.Times(8, E.Times(a, E.Times(r, P))) == E.Times(8, E.Times(r, E.Times(a, P)))
  {
    E.TimesOnCurve(8, E.Times(a, E.Times(r, P)));
    E.TimesOnCurve(8, E.Times(r, E.Times(a, P)));
    SharedLog(E.F, P.log, a, r);
    hide Field.R;
  }

  lemma SharedLog(F: Field, p: int, a: int, r: int)
    ensures F.R(8 * F.R(a * F.R(r * p))) == F.R(8 * F.R(r * F.R(a * p)))
  {
    hide Field.R;
    F.MulR(a, r * p);
    F.MulR(r, a * p);
    Associate(a, r, p);
    Associate(r, a, p);
    assert a * r == r * a;
  }

  /** Adding and taking away the same point. */
  lemma PlusMinus(E: Group, P: Point, Q: Point)
    requires E.OnCurve(P)
    ensures E.Minus(E.Plus(P, Q), Q) == P
  {
    E.F.Range(P.log);
    TorsionPlusMinus(P.tor, Q.tor);
    hide Field.R;
    E.F.AddR(P.log + Q.log, -Q.log);
    assert E.F.R(P.log + Q.log) - Q.log == E.F.R(P.log + Q.log) + -Q.log;
  }

  lemma TorsionPlusMinus(p: int, q: int)
    requires 0 <= p < 8
    ensures ((p + q) % 8 - q) % 8 == p
  {
    var k := (p + q) / 8;
    assert (p + q) % 8 - q == p + -k * 8;
    assert (p + -k * 8) % 8 == p % 8;
  }

  /** (s + t)·G = s·G + t·G. */
  lemma TimesBasePlus(E: Group, s: int, t: int)
    ensures E.Times(E.F.R(s + t), BASE) == E.Plus(E.Times(s, BASE), E.Times(t, BASE))
  {
    E.F.Idem(s + t);
    hide Field.R;
    E.F.AddR(s, t);
  }

  /** The one-time key's secret half: what `derive_secret_key` returns opens what `derive_public_key` returns. */
  lemma DerivedPair(E: Group, derivation: Point, index: nat, baseSecret: nat)
    requires DerivationToScalar(E, derivation, index) != 0
    ensures DerivePublicKey(E, derivation, index, Encodes(E.Times(E.F.R(baseSecret), BASE)))
         == Ok(E.Times(DeriveSecretKey(E, derivation, index, baseSecret), BASE))
  {
    var t := DerivationToScalar(E, derivation, index);
    E.F.AddR(baseSecret, t);
    hide Field.R, DerivationToScalar;
    TimesBasePlus(E, E.F.R(baseSecret), t);
  }

  /** `derive_subaddress_public_key` takes back exactly what `derive_public_key` added. */
  lemma DerivedUndone(E: Group, derivation: Point, index: nat, base: Point)
    requires E.OnCurve(base) && DerivationToScalar(E, derivation, index) != 0
    ensures DerivePublicKey(E, derivation, index, Encodes(base)).Ok?
    ensures DeriveSubaddressPublicKey(E, Encodes(DerivePublicKey(E, derivation, index, Encodes(base)).value), derivation, index)
         == Ok(base)
  {
    hide Field.R, DerivationToScalar, Group.Plus, Group.Minus, Group.Times;
    PlusMinus(E, base, E.Times(DerivationToScalar(E, derivation, index), BASE));
  }

  /** Encrypting twice under the two halves of one shared secret gives the payment id back. */
  lemma PaymentIdRoundTrip(E: Group, paymentId: seq<Byte>, derivation: Point)
    requires |paymentId| == 8
    ensures XorAll(XorAll(paymentId, PaymentIdPad(E, derivation)), PaymentIdPad(E, derivation)) == paymentId
  {
    XorAllUndone(paymentId, PaymentIdPad(E, derivation));
  }

  // ---- How the hashes keep apart --------------------------------------------------------

  /** What is hashed to a scalar here. */
  datatype ScalarQuery =
    | SharedScalar(derivation: Point, index: nat)
    | SubaddressScalar(viewSecret: nat, major: nat, minor: nat)
    | MaskScalar(shared: nat)
  {
    /** Subaddress indexes count modulo 2^32 only. */
    ghost predicate Distinct(other: ScalarQuery) {
      if this.SubaddressScalar? && other.SubaddressScalar? then
        viewSecret != other.viewSecret || major % TWO_32 != other.major % TWO_32 || minor % TWO_32 != other.minor % TWO_32
      else this != other
    }
  }

  function ScalarOf(E: Group, q: ScalarQuery): nat {
    match q
    case SharedScalar(d, i) => DerivationToScalar(E, d, i)
    case SubaddressScalar(v, major, minor) => SubaddressSecretKey(E, v, major, minor)
    case MaskScalar(s) => CommitmentMask(E, s)
  }

  /** No two of these scalars are tied: two that differ in kind or in anything hashed can be any two scalars. */
  lemma ScalarsAreFree(E: Group, q: ScalarQuery, r: ScalarQuery, u: nat, v: nat) returns (E': Group)
    requires q.Distinct(r) && u < E.F.L && v < E.F.L
    ensures E' == E.(hash := E'.hash) && ScalarOf(E', q) == u && ScalarOf(E', r) == v
  {
    var x, y := ScalarQuestion(q), ScalarQuestion(r);
    hide Group.HashToScalar;
    E' := TwoAnswers(E, x, u, y, v);
  }

  function ScalarQuestion(q: ScalarQuery): seq<Chunk> {
    match q
    case SharedScalar(d, i) => [PointChunk(Encodes(d)), NumberChunk(i)]
    case SubaddressScalar(v, major, minor) => [TextChunk("SubAddr\0"), ScalarChunk(v), NumberChunk(major % TWO_32), NumberChunk(minor % TWO_32)]
    case MaskScalar(s) => [TextChunk("commitment_mask"), ScalarChunk(s)]
  }

  /** What is hashed to bytes. */
  datatype ByteQuery = TagBytes(derivation: Point, index: nat) | AmountBytes(shared: nat) | PadBytes(derivation: Point)

  function ByteQuestion(q: ByteQuery): seq<Chunk> {
    match q
    case TagBytes(d, i) => [TextChunk("view_tag"), PointChunk(Encodes(d)), NumberChunk(i)]
    case AmountBytes(s) => [TextChunk("amount"), ScalarChunk(s)]
    case PadBytes(d) => [PointChunk(Encodes(d)), BytesChunk([0x8d])]
  }

  /** The bytes made of a query: the view tag is one, the two pads are 32. */
  ghost predicate BytesOf(E: Group, q: ByteQuery, bytes: seq<Byte>)
    requires |bytes| == 32
  {
    match q
    case TagBytes(d, i) => DeriveViewTag(E, d, i) == bytes[0]
    case AmountBytes(s) => AmountMask(E, s) == bytes
    case PadBytes(d) => PaymentIdPad(E, d) == bytes
  }

  /** Nor are the view tag, the amount mask and the payment id pad. */
  lemma BytesAreFree(E: Group, q: ByteQuery, r: ByteQuery, u: seq<Byte>, v: seq<Byte>) returns (E': Group)
    requires q != r && |u| == 32 && |v| == 32
    ensures E' == E.(keccak := E'.keccak) && BytesOf(E', q, u) && BytesOf(E', r, v)
  {
    var x, y := ByteQuestion(q), ByteQuestion(r);
    E' := E.(keccak := (z: seq<Chunk>, i: nat) => if i >= 32 then 0 else if z == x then u[i] else if z == y then v[i] else 0);
    assert Digest(E', x) == u && Digest(E', y) == v;
    hide Digest;
  }
}
