/** Cutting a message into equal fragments, and the frames of an animation made of them. */
module UrEncoding {
  import opened Primes
  import opened Bytes
  import opened Fountain
  import opened Pieces

  const MAX_MESSAGE_BYTES := 8 * 1024 * 1024
  const MAX_FRAGMENTS := 2048
  const TWO_32 := 0x1_0000_0000

  datatype Option<T> = None | Some(value: T)

  /** What both ends share: the checksum, and the draws that a frame number and a checksum seed. */
  datatype Codec = Codec(crc: seq<Byte> -> nat, seeded: (nat, nat) -> Draws) {
    ghost predicate Valid() {
      forall a: nat, b: nat :: UnitDraws(seeded(a, b))
    }

    /** The fragments of frame seqNum; both words of the seed are written as 32 bits. fountain.ts:152-177. */
    function Choose(seqNum: nat, seqLength: nat, checksum: nat): seq<nat>
      requires Valid() && seqNum >= 1 && seqLength >= 1
    {
      Chosen(seeded(seqNum % TWO_32, checksum % TWO_32), seqNum, seqLength)
    }
  }

  /** A frame as a camera reads it, its text already decoded to fields. */
  datatype Frame =
    | Noise
    | Whole(typ: string, cbor: seq<Byte>)
    | Part(typ: string, outerNum: nat, outerLength: nat, seqNum: nat, seqLength: nat, messageLength: nat, checksum: nat,
           fragment: seq<Byte>)

  // ---- Fragment length ---------------------------------------------------------------------

  function CeilDiv(a: nat, b: nat): nat
    requires b > 0
  {
    (a + b - 1) / b
  }

  lemma CeilDivFacts(a: nat, b: nat)
    requires b > 0
    ensures CeilDiv(a, b) * b >= a && (a > 0 ==> (CeilDiv(a, b) - 1) * b < a)
    ensures CeilDiv(a, b) == 0 <==> a == 0
  {
    var q := CeilDiv(a, b);
    assert a + b - 1 == q * b + (a + b - 1) % b;
    assert (q - 1) * b == q * b - b;
    assert q == 0 ==> q * b == 0;
  }

  /** ceil(a/b) is the least q with q·b >= a. */
  lemma CeilDivLeast(a: nat, b: nat, q: nat)
    requires b > 0 && q * b >= a
    ensures CeilDiv(a, b) <= q
  {
    CeilDivFacts(a, b);
    if CeilDiv(a, b) > q {
      MulMonotone(q, CeilDiv(a, b) - 1, b);
    }
  }

  lemma MulMonotone(a: int, b: int, n: nat)
    requires a <= b
    ensures a * n <= b * n
  {
  }

  /** The first count whose fragments are small enough, or the last one tried. */
  ghost predicate Nominal(length: nat, maxLength: int, minLength: nat, fl: nat)
    requires minLength > 0
  {
    if length == 0 then fl == 1
    else exists count :: 1 <= count <= CeilDiv(length, minLength)
                      && fl == CeilDiv(length, count)
                      && (fl <= maxLength || count == CeilDiv(length, minLength))
                      && forall c :: 1 <= c < count ==> CeilDiv(length, c) > maxLength
  }

  /** ur.ts:80-92. */
  method NominalFragmentLength(messageLength: nat, maxFragmentLength: int, minFragmentLength: nat) returns (fl: nat)
    requires minFragmentLength > 0
    ensures Nominal(messageLength, maxFragmentLength, minFragmentLength, fl) && fl >= 1
  {
    hide CeilDiv;
    var maxCount := CeilDiv(messageLength, minFragmentLength);
    CeilDivFacts(messageLength, minFragmentLength);
    fl := messageLength;
    var count := 1;
    while count <= maxCount
      invariant 1 <= count <= maxCount + 1
      invariant forall c :: 1 <= c < count ==> CeilDiv(messageLength, c) > maxFragmentLength
      invariant count > 1 ==> fl == CeilDiv(messageLength, count - 1)
      invariant count == 1 ==> fl == messageLength
    {
      fl := CeilDiv(messageLength, count);
      CeilDivFacts(messageLength, count);
      if fl <= maxFragmentLength { break; }
      count := count + 1;
    }
    if messageLength == 0 {
      fl := 1;
    } else {
      CeilDivFacts(messageLength, if count > maxCount then maxCount else count);
      assert fl == CeilDiv(messageLength, if count > maxCount then maxCount else count);
    }
  }

  /** A limit of at least the smallest fragment is always met. */
  lemma NominalFits(length: nat, maxLength: int, minLength: nat, fl: nat)
    requires minLength > 0 && Nominal(length, maxLength, minLength, fl) && maxLength >= minLength
    ensures 1 <= fl <= maxLength
  {
    hide CeilDiv;
    if length > 0 {
      var m := CeilDiv(length, minLength);
      CeilDivFacts(length, minLength);
      assert minLength * m == m * minLength;
      CeilDivLeast(length, m, minLength);
      var count :| 1 <= count <= m && fl == CeilDiv(length, count) && (fl <= maxLength || count == m);
      CeilDivFacts(length, count);
    }
  }

  // ---- Fragments -------------------------------------------------------------------------------

  function FragmentCount(length: nat, fl: nat): (n: nat)
    requires fl > 0
    ensures n >= 1
  {
    CeilDivFacts(length, fl);
    if length == 0 then 1 else CeilDiv(length, fl)
  }

  /** Fragment i: the message from i·fl on, zeros past its end. */
  function Fragment(message: seq<Byte>, fl: nat, i: nat): (f: seq<Byte>)
    ensures |f| == fl
  {
    seq<Byte>(fl, k requires 0 <= k < fl => if i * fl + k < |message| then message[i * fl + k] else 0)
  }

  function Fragments(message: seq<Byte>, fl: nat): (F: seq<seq<Byte>>)
    requires fl > 0
    ensures |F| == FragmentCount(|message|, fl) && Uniform(F, fl)
  {
    seq(FragmentCount(|message|, fl), i requires 0 <= i < FragmentCount(|message|, fl) => Fragment(message, fl, i))
  }

  /** ur.ts:94-105. */
  method Partition(message: seq<Byte>, fl: nat) returns (fragments: seq<seq<Byte>>)
    requires fl > 0
    ensures fragments == Fragments(message, fl)
  {
    hide CeilDiv;
    fragments := [];
    var at := 0;
    ghost var n := CeilDiv(|message|, fl);
    CeilDivFacts(|message|, fl);
    while at < |message|
      invariant at == |fragments| * fl && |fragments| <= n
      invariant forall i :: 0 <= i < |fragments| ==> fragments[i] == Fragment(message, fl, i)
    {
      ghost var i := |fragments|;
      if i >= n { MulMonotone(n, i, fl); }
      var taken := if at + fl <= |message| then message[at..at + fl] else message[at..];
      var fragment := taken + Zeroes(fl - |taken|);
      assert fragment == Fragment(message, fl, i);
      fragments := fragments + [fragment];
      NextOffset(i, fl);
      at := at + fl;
    }
    if |fragments| < n && |message| > 0 { MulMonotone(|fragments|, n - 1, fl); }
    if |fragments| == 0 {
      fragments := [Zeroes(fl)];
      assert Fragment(message, fl, 0) == Zeroes(fl);
    }
  }

  lemma NextOffset(i: nat, fl: nat)
    ensures (i + 1) * fl == i * fl + fl
  {
  }

  function Zeroes(k: nat): (s: seq<Byte>)
    ensures |s| == k && forall i :: 0 <= i < k ==> s[i] == 0
  {
    seq<Byte>(k, i => 0)
  }

  // ---- Putting the message back together ----------------------------------------------------------

  /** The first n fragments end to end. */
  function Joined(F: seq<seq<Byte>>, n: nat): seq<Byte>
    requires n <= |F|
  {
    if n == 0 then [] else Joined(F, n - 1) + F[n - 1]
  }

  lemma {:induction false} JoinedAt(message: seq<Byte>, fl: nat, n: nat)
    requires fl > 0 && n <= FragmentCount(|message|, fl)
    ensures |Joined(Fragments(message, fl), n)| == n * fl
    ensures forall j :: 0 <= j < n * fl ==>
      Joined(Fragments(message, fl), n)[j] == if j < |message| then message[j] else 0
  {
    hide FragmentCount;
    if n > 0 {
      JoinedAt(message, fl, n - 1);
      NextOffset(n - 1, fl);
      assert Fragments(message, fl)[n - 1] == Fragment(message, fl, n - 1);
    }
  }

  /**
   * The fragments of any message, at any fragment length, are the message followed by fewer zeros than
   * a fragment holds.
   */
  lemma FragmentsCover(message: seq<Byte>, fl: nat)
    requires fl > 0
    ensures var F := Fragments(message, fl);
      && |F| * fl >= |message| && |Joined(F, |F|)| == |F| * fl
      && Joined(F, |F|)[..|message|] == message
      && (forall j :: |message| <= j < |F| * fl ==> Joined(F, |F|)[j] == 0)
      && (message != [] ==> |F| * fl - |message| < fl)
  {
    hide Joined, Fragment, CeilDiv;
    CeilDivFacts(|message|, fl);
    var F := Fragments(message, fl);
    JoinedAt(message, fl, |F|);
    NextOffset(|F| - 1, fl);
  }

  // ---- Frames -----------------------------------------------------------------------------------------

  /** A message being animated: what every frame of it has in common. */
  datatype Source = Source(typ: string, cbor: seq<Byte>, fl: nat) {
    ghost function F(): (F: seq<seq<Byte>>)
      requires fl > 0
      ensures |F| >= 1 && Uniform(F, fl)
    {
      Fragments(cbor, fl)
    }
  }

  /** Frame seqNum of a message's animation. */
  ghost function FrameOf(c: Codec, src: Source, seqNum: nat): Frame
    requires c.Valid() && src.fl > 0 && seqNum >= 1
  {
    if |src.F()| == 1 then Whole(src.typ, src.cbor)
    else Part(src.typ, seqNum, |src.F()|, seqNum, |src.F()|, |src.cbor|, c.crc(src.cbor),
              Mix(src.F(), src.fl, SetOf(c.Choose(seqNum, |src.F()|, c.crc(src.cbor)))))
  }

  /** Which fragments a mixed frame exclusive-ors: draw k + 2 of the generator its number and the checksum seed picks the k-th. */
  lemma FrameNamesInTurn(c: Codec, seqNum: nat, seqLength: nat, checksum: nat, k: nat)
    requires c.Valid() && seqNum > seqLength >= 1 && k < |c.Choose(seqNum, seqLength, checksum)|
    ensures var u, r := c.seeded(seqNum % TWO_32, checksum % TWO_32), c.Choose(seqNum, seqLength, checksum);
      && UnitDraws(u) && |r| == Degree(seqLength, u(0), u(1)) && r[k] < seqLength && r[k] !in r[..k]
      && |set i: nat | i < r[k] && i !in r[..k]| == Scale(u(k + 2), seqLength - k)
  {
    hide Degree, Shuffled, Scale;
    ChosenInTurn(c.seeded(seqNum % TWO_32, checksum % TWO_32), seqNum, seqLength, k);
  }

  predicate IsUrType(typ: string) {
    typ != "" && forall ch :: ch in typ ==> 'a' <= ch <= 'z' || '0' <= ch <= '9' || ch == '-'
  }

  /** By code: the lower-case letters, the digits and the hyphen, and a name of at least one. */
  lemma TypeCharacters(typ: string)
    ensures IsUrType(typ) <==>
      |typ| > 0 && forall i :: 0 <= i < |typ| ==> 97 <= typ[i] as int <= 122 || 48 <= typ[i] as int <= 57 || typ[i] as int == 45
  {
    assert 'a' as int == 97 && 'z' as int == 122 && '0' as int == 48 && '9' as int == 57 && '-' as int == 45;
    forall i | 0 <= i < |typ| ensures typ[i] in typ && (typ[i] as int == 45 ==> typ[i] == '-') {
    }
  }

  class UrEncoder {
    const codec: Codec
    const typ: string
    const seqLength: nat
    const fragments: seq<seq<Byte>>
    const messageLength: nat
    const checksum: nat
    var seqNum: nat
    ghost const source: Source

    ghost predicate Valid()
      reads this
    {
      && codec.Valid() && source.fl > 0 && seqNum < TWO_32
      && typ == source.typ && fragments == source.F() && seqLength == |fragments|
      && messageLength == |source.cbor| && checksum == codec.crc(source.cbor)
    }

    /** ur.ts:128-135. */
    constructor (c: Codec, urType: string, cbor: seq<Byte>, maxFragmentLength: int)
      requires c.Valid() && IsUrType(urType)
      ensures Valid() && codec == c && source.typ == urType && source.cbor == cbor && seqNum == 0
      ensures Nominal(|cbor|, maxFragmentLength, 10, source.fl)
    {
      codec := c;
      typ := urType;
      messageLength := |cbor|;
      checksum := c.crc(cbor);
      var fl := NominalFragmentLength(|cbor|, maxFragmentLength, 10);
      var cut := Partition(cbor, fl);
      fragments := cut;
      seqLength := |cut|;
      seqNum := 0;
      source := Source(urType, cbor, fl);
    }

    /**
     * The next frame. The counter is 32 bits wide; when it wraps to zero there is no fragment -1 to
     * mix and the call throws. ur.ts:138-153.
     */
    method NextPart() returns (frame: Option<Frame>)
      requires Valid()
      modifies this
      ensures Valid() && seqNum == (old(seqNum) + 1) % TWO_32
      ensures frame.None? <==> seqNum == 0 && seqLength > 1
      ensures seqLength == 1 ==> frame == Some(Whole(source.typ, source.cbor))
      ensures seqNum >= 1 ==> frame == Some(FrameOf(codec, source, seqNum))
    {
      hide Fragments, Chosen, UnitDraws, Mix, XorInto, DistinctBelow, CeilDiv, Joined;
      seqNum := (seqNum + 1) % TWO_32;
      if seqLength == 1 {
        WholeAgain(source);
        frame := Some(Whole(typ, fragments[0][..messageLength]));
        return;
      }
      if seqNum == 0 { return None; }
      var indexes := ChooseFragments(codec.seeded(seqNum % TWO_32, checksum % TWO_32), seqNum, seqLength);
      var mixed := MixFragments(source.F(), source.fl, fragments, indexes);
      frame := Some(Part(typ, seqNum, seqLength, seqNum, seqLength, messageLength, checksum, mixed));
    }
  }

  lemma WholeAgain(src: Source)
    requires src.fl > 0 && |src.F()| == 1
    ensures |src.F()[0]| >= |src.cbor| && src.F()[0][..|src.cbor|] == src.cbor
  {
    hide Fragments;
    FragmentsCover(src.cbor, src.fl);
    assert Joined(src.F(), 1) == Joined(src.F(), 0) + src.F()[0];
    assert Joined(src.F(), 1) == src.F()[0];
  }

  /** The exclusive-or of the chosen fragments, one after another. ur.ts:148-149. */
  method MixFragments(ghost F: seq<seq<Byte>>, ghost fl: nat, fragments: seq<seq<Byte>>, indexes: seq<nat>) returns (mixed: seq<Byte>)
    requires Uniform(F, fl) && F == fragments && |F| >= 1 && DistinctBelow(indexes, |F|)
    ensures mixed == Mix(F, fl, SetOf(indexes))
  {
    hide Mix, XorInto;
    mixed := Zeroes(|fragments[0]|);
    MixNone(F, fl);
    assert SetOf(indexes[..0]) == {};
    for i := 0 to |indexes|
      invariant mixed == Mix(F, fl, SetOf(indexes[..i]))
    {
      assert indexes[..i + 1] == indexes[..i] + [indexes[i]];
      assert SetOf(indexes[..i + 1]) == SetOf(indexes[..i]) + {indexes[i]};
      MixPlus(F, fl, SetOf(indexes[..i]), indexes[i]);
      mixed := XorInto(mixed, fragments[indexes[i]]);
    }
    assert indexes[..|indexes|] == indexes;
  }

  lemma MixNone(F: seq<seq<Byte>>, fl: nat)
    requires Uniform(F, fl)
    ensures Mix(F, fl, {}) == Zeroes(fl)
  {
    forall k | 0 <= k < fl ensures MixByte(F, fl, {}, |F|, k) == 0 {
      MixByteNone(F, fl, {}, |F|, k);
    }
  }
}
