/** The LV1 wire: a payload cut into numbered frames, and the collector a camera feeds. */
module Envelope {
  import opened Bytes
  import Base32
  import Crc

  const MAX_PARTS := 2048

  datatype Option<T> = None | Some(value: T)

  datatype Kind = Account | Psbt | XmrUnsigned | XmrSigned | XmrOutputs | XmrKeyImages | XmrFile | TxSigned

  /** A frame that passed the reader: LV1, a known kind, 1 <= index <= total <= 2048. envelope.ts:267-282. */
  datatype Part = Part(kind: Kind, index: nat, total: nat, digest: Crc.Word, body: seq<Base32.Digit>) {
    predicate Fits() {
      1 <= index <= total <= MAX_PARTS
    }
  }

  datatype Problem = NotAPart | OtherSet | DoesNotAddUp

  datatype Progress = Progress(kind: Kind, have: nat, total: nat, payload: Option<seq<Byte>>, problem: Option<Problem>)

  // ---- Cutting ---------------------------------------------------------------------------

  function Least(a: nat, b: nat): nat { if a <= b then a else b }

  /** payload.subarray(i·size, (i + 1)·size). */
  function Slice(payload: seq<Byte>, size: nat, i: nat): (s: seq<Byte>) {
    payload[Least(i * size, |payload|)..Least(i * size + size, |payload|)]
  }

  /** How many parts: at least one, even for nothing. */
  function PartCount(length: nat, size: nat): (n: nat)
    requires size > 0
    ensures n >= 1 && n * size >= length && (length > 0 ==> (n - 1) * size < length)
  {
    Ceiling(length, size);
    if length == 0 then 1 else (length + size - 1) / size
  }

  lemma Ceiling(a: nat, b: nat)
    requires b > 0
    ensures (a + b - 1) / b * b >= a && (a > 0 ==> (a + b - 1) / b >= 1 && ((a + b - 1) / b - 1) * b < a)
  {
    var q := (a + b - 1) / b;
    assert a + b - 1 == q * b + (a + b - 1) % b;
    assert (q - 1) * b == q * b - b;
    assert q == 0 ==> q * b == 0;
  }

  /** Slices 0 .. n-1 end to end. */
  function Joined(payload: seq<Byte>, size: nat, n: nat): seq<Byte> {
    if n == 0 then [] else Joined(payload, size, n - 1) + Slice(payload, size, n - 1)
  }

  lemma {:induction false} SlicesJoin(payload: seq<Byte>, size: nat, n: nat)
    ensures Joined(payload, size, n) == payload[..Least(n * size, |payload|)]
  {
    if n > 0 {
      SlicesJoin(payload, size, n - 1);
      assert n * size == (n - 1) * size + size;
    }
  }

  /** The frames of a payload. */
  function FrameOf(kind: Kind, payload: seq<Byte>, size: nat, i: nat): Part
    requires size > 0 && 1 <= i <= PartCount(|payload|, size)
  {
    Part(kind, i, PartCount(|payload|, size), Crc.Crc32Of(payload), Base32.Encoded(Slice(payload, size, i - 1)))
  }

  ghost predicate FramesFrom(kind: Kind, payload: seq<Byte>, size: nat, frames: seq<Part>)
    requires size > 0
  {
    |frames| <= PartCount(|payload|, size)
    && forall i :: 0 <= i < |frames| ==> frames[i] == FrameOf(kind, payload, size, i + 1)
  }

  /** `encodeParts`, refusing what the wire does not allow. envelope.ts:237-255. */
  method EncodeParts(crc: Crc.Crc32, kind: Kind, payload: seq<Byte>, partBytes: int) returns (frames: Option<seq<Part>>)
    requires crc.Valid()
    modifies crc
    ensures crc.Valid()
    ensures var size := if partBytes < 1 then 1 else partBytes;
      && (frames.None? <==> PartCount(|payload|, size) > MAX_PARTS)
      && (frames.Some? ==> |frames.value| == PartCount(|payload|, size) && FramesFrom(kind, payload, size, frames.value))
  {
    hide Base32.Encoded, Crc.Crc32Of, PartCount, Slice;
    var size := if partBytes < 1 then 1 else partBytes;
    var digest := crc.Compute(payload);
    var total := PartCount(|payload|, size);
    if total > MAX_PARTS { return None; }
    var out: seq<Part> := [];
    for i := 0 to total
      invariant crc.Valid() && |out| == i && FramesFrom(kind, payload, size, out)
    {
      var body := Base32.Base32Encode(Slice(payload, size, i));
      out := out + [Part(kind, i + 1, total, digest, body)];
    }
    frames := Some(out);
  }

  /** Every frame the encoder writes is one the reader lets through. */
  lemma FramesFit(kind: Kind, payload: seq<Byte>, size: nat, frames: seq<Part>, i: nat)
    requires size > 0 && FramesFrom(kind, payload, size, frames) && PartCount(|payload|, size) <= MAX_PARTS && i < |frames|
    ensures frames[i].Fits() && frames[i].index == i + 1
  {
    hide Base32.Encoded, Crc.Crc32Of, Slice, PartCount;
  }

  // ---- Collecting ----------------------------------------------------------------------------

  /** The bodies of parts 1 .. n, decoded, end to end. */
  function Gathered(parts: map<nat, seq<Base32.Digit>>, n: nat): seq<Byte>
    requires forall i :: 1 <= i <= n ==> i in parts
  {
    if n == 0 then [] else Gathered(parts, n - 1) + Base32.Decoded(parts[n])
  }

  /** All parts gathered so far are the payload's own. */
  ghost predicate PartsOf(parts: map<nat, seq<Base32.Digit>>, payload: seq<Byte>, size: nat) {
    forall i :: i in parts ==> i >= 1 && parts[i] == Base32.Encoded(Slice(payload, size, i - 1))
  }

  lemma {:induction false} GatheredIsJoined(parts: map<nat, seq<Base32.Digit>>, payload: seq<Byte>, size: nat, n: nat)
    requires PartsOf(parts, payload, size) && forall i :: 1 <= i <= n ==> i in parts
    ensures Gathered(parts, n) == Joined(payload, size, n)
  {
    if n > 0 {
      GatheredIsJoined(parts, payload, size, n - 1);
      Base32.RoundTrip(Slice(payload, size, n - 1));
    }
  }

  /** A payload's own parts, all of them, are the payload. */
  lemma WholePayload(parts: map<nat, seq<Base32.Digit>>, payload: seq<Byte>, size: nat)
    requires size > 0 && PartsOf(parts, payload, size) && forall i :: 1 <= i <= PartCount(|payload|, size) ==> i in parts
    ensures Gathered(parts, PartCount(|payload|, size)) == payload
  {
    GatheredIsJoined(parts, payload, size, PartCount(|payload|, size));
    SlicesJoin(payload, size, PartCount(|payload|, size));
  }

  /** n keys between 1 and n are all of them. */
  lemma AllIndexes(keys: set<nat>, n: nat)
    requires |keys| >= n && forall i :: i in keys ==> 1 <= i <= n
    ensures |keys| == n && forall i :: 1 <= i <= n ==> i in keys
  {
    SubsetSize(keys, UpTo(n));
    if |keys| == n {
      SameSet(keys, UpTo(n));
    }
  }

  function UpTo(n: nat): (s: set<nat>)
    ensures |s| == n && forall i :: i in s <==> 1 <= i <= n
  {
    if n == 0 then {} else UpTo(n - 1) + {n}
  }

  lemma SubsetSize(x: set<nat>, y: set<nat>)
    requires x <= y
    ensures |x| <= |y|
  {
    assert y == x + (y - x);
  }

  lemma SameSet(x: set<nat>, y: set<nat>)
    requires x <= y && |x| == |y|
    ensures x == y
  {
    assert |y - x| == |y| - |x|;
  }

  /** A payload being shown: what it is and how it was cut. */
  datatype Source = Source(kind: Kind, payload: seq<Byte>, size: nat)

  ghost predicate FrameFrom(src: Source, part: Part) {
    && src.size > 0 && 1 <= part.index <= PartCount(|src.payload|, src.size)
    && part == FrameOf(src.kind, src.payload, src.size, part.index)
  }

  /** The collector. A ghost field remembers which payload, if any one, all the parts since the last reset come from. */
  class Collector {
    const crc: Crc.Crc32
    var kind: Option<Kind>
    var digest: Option<Crc.Word>
    var total: nat
    var parts: map<nat, seq<Base32.Digit>>
    ghost var source: Option<Source>

    ghost predicate Valid()
      reads this, crc
    {
      && crc.Valid()
      && kind.Some? == digest.Some?
      && (digest.None? ==> total == 0 && parts == map[] && source.None?)
      && (forall i :: i in parts ==> 1 <= i <= total)
      && (source.Some? ==> CameFrom(source.value))
    }

    ghost predicate CameFrom(src: Source)
      reads this
    {
      && src.size > 0 && kind == Some(src.kind) && digest == Some(Crc.Crc32Of(src.payload))
      && total == PartCount(|src.payload|, src.size) && PartsOf(parts, src.payload, src.size)
    }

    constructor (c: Crc.Crc32)
      requires c.Valid()
      ensures Valid() && crc == c && digest.None?
    {
      crc := c;
      kind, digest, total, parts, source := None, None, 0, map[], None;
    }

    /** envelope.ts:309-316. */
    method Status() returns (p: Progress)
      ensures p == Progress(if kind.Some? then kind.value else Psbt, |parts|, total, None, None)
    {
      p := Progress(if kind.Some? then kind.value else Psbt, |parts|, total, None, None);
    }

    /** envelope.ts:318-323. */
    method Reset()
      modifies this
      ensures kind.None? && digest.None? && total == 0 && parts == map[] && source.None?
    {
      kind, digest, total, parts, source := None, None, 0, map[], None;
    }

    /** Another payload's frame starts the collector again on it. envelope.ts:338-345. */
    method Begin(part: Part, ghost from: Option<Source>)
      requires Valid() && part.Fits() && (from.Some? ==> FrameFrom(from.value, part))
      modifies this
      ensures digest == Some(part.digest) && kind == Some(part.kind)
      ensures old(digest) == digest && old(kind) == kind ==> unchanged(this)
      ensures !(old(digest) == digest && old(kind) == kind) ==> total == part.total && parts == map[] && source == from
      ensures Valid()
    {
      hide PartsOf, PartCount, FrameOf, Crc.Crc32Of, Crc.Filled;
      if from.Some? { FrameShape(from.value, part); }
      if digest.Some? && (part.digest != digest.value || kind != Some(part.kind)) { Reset(); }
      if digest.None? {
        kind, digest, total := Some(part.kind), Some(part.digest), part.total;
        source := from;
        NothingYet(from);
      }
    }

    /** One more part of the payload in progress. envelope.ts:356-391. */
    method Add(part: Part) returns (p: Progress)
      requires Valid() && part.Fits() && digest == Some(part.digest) && kind == Some(part.kind) && total == part.total
      requires source.Some? ==> FrameFrom(source.value, part)
      modifies this, crc
      ensures Valid()
      ensures p.problem.None? || p.problem == Some(DoesNotAddUp)
      ensures p.problem == Some(DoesNotAddUp) ==> p.payload.None? && digest.None? && parts == map[] && old(source).None?
      ensures p.problem.None? ==>
        && digest == old(digest) && kind == old(kind) && total == old(total) && source == old(source)
        && parts == old(parts)[part.index := part.body] && (kind.Some? ==> p.kind == kind.value)
      ensures p.payload.Some? ==>
        && p.problem.None? && Crc.Crc32Of(p.payload.value) == part.digest
        && (forall i :: 1 <= i <= total ==> i in parts) && p.payload.value == Gathered(parts, total)
        && (source.Some? ==> p.payload.value == source.value.payload)
      ensures p.problem.None? && (forall i :: 1 <= i <= total ==> i in parts) ==> p.payload.Some?
    {
      hide Gathered, PartsOf, PartCount, FrameOf, Crc.Crc32Of, Crc.Filled;
      if source.Some? {
        FrameShape(source.value, part);
        OneMore(parts, source.value, part);
      }
      parts := parts[part.index := part.body];
      if |parts| < total {
        if forall i :: 1 <= i <= total ==> i in parts { EnoughKeys(parts, total); }
        p := Status();
        return;
      }
      AllKeys(parts, total);
      var payload := Assemble(parts, total);
      if source.Some? { WholePayload(parts, source.value.payload, source.value.size); }
      var check := crc.Compute(payload);
      if check != part.digest {
        Reset();
        return Progress(part.kind, 0, 0, None, Some(DoesNotAddUp));
      }
      p := Progress(part.kind, total, total, Some(payload), None);
    }

    /**
     * A scanned frame, or None for anything that is not one. Whatever came before, a payload handed
     * over has the announced digest and is the parts gathered since the last reset, in order; and when
     * those all come from one payload it is handed over exactly when none is missing. `from`, a ghost,
     * may name a payload this frame is a frame of. envelope.ts:334-392.
     */
    method Offer(scanned: Option<Part>, ghost from: Option<Source>) returns (p: Progress)
      requires Valid() && (scanned.Some? ==> scanned.value.Fits())
      requires from.Some? ==> scanned.Some? && FrameFrom(from.value, scanned.value)
      modifies this, crc
      ensures Valid()
      ensures scanned.None? ==> p.problem == Some(NotAPart) && p.payload.None? && unchanged(this)
      ensures p.payload.Some? ==>
        && scanned.Some? && p.kind == scanned.value.kind && kind == Some(p.kind)
        && digest == Some(scanned.value.digest) && Crc.Crc32Of(p.payload.value) == scanned.value.digest
        && (forall i :: 1 <= i <= total ==> i in parts) && p.payload.value == Gathered(parts, total)
      ensures p.problem == Some(OtherSet) ==> p.payload.None? && unchanged(this)
      ensures p.problem == Some(DoesNotAddUp) ==> p.payload.None? && digest.None? && parts == map[]
      ensures scanned.Some? && p.problem.None? ==>
        var same := old(digest) == Some(scanned.value.digest) && old(kind) == Some(scanned.value.kind);
        && digest == Some(scanned.value.digest) && kind == Some(scanned.value.kind) && total == scanned.value.total
        && parts == (if same then old(parts) else map[])[scanned.value.index := scanned.value.body]
        && source == (if !same then from else if old(source) == from then from else None)
      ensures from.Some? && (old(source) == from || old(digest) != Some(scanned.value.digest) || old(kind) != Some(scanned.value.kind)) ==>
        && p.problem.None?
        && (p.payload.Some? <==> forall i :: 1 <= i <= total ==> i in parts)
        && (p.payload.Some? ==> p.payload.value == from.value.payload)
    {
      hide Gathered, PartsOf, PartCount, FrameOf, Crc.Crc32Of, Crc.Filled;
      if scanned.None? {
        p := Status();
        return p.(problem := Some(NotAPart));
      }
      var part := scanned.value;
      if from.Some? { FrameShape(from.value, part); }
      Begin(part, from);
      if part.total != total {
        p := Status();
        return p.(problem := Some(OtherSet));
      }
      source := if source == from then from else None;
      p := Add(part);
    }
  }

  lemma FrameShape(src: Source, part: Part)
    requires FrameFrom(src, part)
    ensures src.size > 0 && part.kind == src.kind && part.digest == Crc.Crc32Of(src.payload) && part.total == PartCount(|src.payload|, src.size)
    ensures part.index >= 1 && part.body == Base32.Encoded(Slice(src.payload, src.size, part.index - 1))
  {
  }

  lemma NothingYet(from: Option<Source>)
    ensures from.Some? ==> PartsOf(map[], from.value.payload, from.value.size)
  {
  }

  lemma OneMore(parts: map<nat, seq<Base32.Digit>>, src: Source, part: Part)
    requires PartsOf(parts, src.payload, src.size) && part.index >= 1
    requires part.body == Base32.Encoded(Slice(src.payload, src.size, part.index - 1))
    ensures PartsOf(parts[part.index := part.body], src.payload, src.size)
  {
    hide Base32.Encoded, Slice;
  }

  lemma AllKeys(parts: map<nat, seq<Base32.Digit>>, n: nat)
    requires |parts| >= n && forall i :: i in parts ==> 1 <= i <= n
    ensures |parts| == n && forall i :: 1 <= i <= n ==> i in parts
  {
    assert |parts.Keys| == |parts|;
    AllIndexes(parts.Keys, n);
  }

  lemma EnoughKeys(parts: map<nat, seq<Base32.Digit>>, n: nat)
    requires forall i :: 1 <= i <= n ==> i in parts
    ensures |parts| >= n
  {
    assert |parts.Keys| == |parts|;
    SubsetSize(UpTo(n), parts.Keys);
  }

  /** envelope.ts:361-374. */
  method Assemble(parts: map<nat, seq<Base32.Digit>>, total: nat) returns (payload: seq<Byte>)
    requires forall i :: 1 <= i <= total ==> i in parts
    ensures payload == Gathered(parts, total)
  {
    payload := [];
    for i := 0 to total
      invariant payload == Gathered(parts, i)
    {
      var decoded := Base32.Base32Decode(parts[i + 1]);
      payload := payload + decoded;
    }
  }

  /** What the digest rules out: bytes of the right length that differ from what was sent inside four consecutive bytes. */
  lemma NoSmallCorruption(sent: seq<Byte>, received: seq<Byte>, i: nat, w: nat)
    requires |sent| == |received| && w <= 4 && i + w <= |sent|
    requires sent[..i] == received[..i] && sent[i + w..] == received[i + w..]
    requires Crc.Crc32Of(received) == Crc.Crc32Of(sent)
    ensures received == sent
  {
    if received != sent {
      Crc.BurstShows(sent, received, i, w);
    }
  }

  // ---- Whole runs ----------------------------------------------------------------------------

  ghost predicate Seen(frames: seq<Part>, i: nat) {
    exists k :: 0 <= k < |frames| && frames[k].index == i
  }

  /** All the frames of one payload, in any order, with any repeats: the payload, and nothing before the last of them. */
  method Scan(c: Collector, ghost src: Source, frames: seq<Part>) returns (p: Progress)
    requires c.Valid() && frames != [] && (forall k :: 0 <= k < |frames| ==> frames[k].Fits() && FrameFrom(src, frames[k]))
    requires c.digest == Some(Crc.Crc32Of(src.payload)) && c.kind == Some(src.kind) ==> c.source == Some(src)
    modifies c, c.crc
    ensures c.Valid() && c.source == Some(src)
    ensures p.problem.None? && (p.payload.Some? ==> p.payload.value == src.payload)
    ensures (forall i :: 1 <= i <= PartCount(|src.payload|, src.size) ==> Seen(frames, i)) ==> p.payload == Some(src.payload)
  {
    hide PartsOf, PartCount, FrameOf, Crc.Crc32Of, Gathered;
    p := c.Status();
    for k := 0 to |frames|
      invariant c.Valid() && (k > 0 ==> c.source == Some(src) && p.problem.None?)
      invariant k == 0 ==> (c.digest == Some(Crc.Crc32Of(src.payload)) && c.kind == Some(src.kind) ==> c.source == Some(src))
      invariant k > 0 ==> (p.payload.Some? <==> forall i :: 1 <= i <= c.total ==> i in c.parts)
      invariant k > 0 ==> (p.payload.Some? ==> p.payload.value == src.payload)
      invariant k > 0 ==> forall j :: 0 <= j < k ==> frames[j].index in c.parts
    {
      FrameShape(src, frames[k]);
      p := c.Offer(Some(frames[k]), Some(src));
    }
    if forall i :: 1 <= i <= PartCount(|src.payload|, src.size) ==> Seen(frames, i) {
      forall i | 1 <= i <= c.total ensures i in c.parts {
        assert Seen(frames, i);
      }
    }
  }
}
