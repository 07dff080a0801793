/**
 * The collector of an animated message: fields updated in place, frames in any order, peeling until
 * the queue is dry. Two ghost fields remember what the frames since the last reset were: the message
 * they all came from, if there is one, and the index set of each.
 */
module UrCollecting {
  import opened Bytes
  import opened Fountain
  import opened Pieces
  import opened Peeling
  import opened UrEncoding
  import Cbor

  datatype Problem = NotAUr | DoesNotAddUp

  /** What a scan reports back after a frame. */
  datatype Progress = Progress(typ: string, have: nat, total: nat, cbor: Option<seq<Byte>>, problem: Option<Problem>)

  /** A frame that passed the reader. ur.ts:171-181. */
  datatype UrPart =
    | WholePart(typ: string, cbor: seq<Byte>)
    | SplitPart(typ: string, seqNum: nat, seqLength: nat, messageLength: nat, checksum: nat, fragment: seq<Byte>)

  /** The array a frame of an animation wraps. ur.ts:151. */
  function BodyOf(seqNum: nat, seqLength: nat, messageLength: nat, checksum: nat, fragment: seq<Byte>): Cbor.Value {
    Cbor.Items([Cbor.Number(seqNum), Cbor.Number(seqLength), Cbor.Number(messageLength), Cbor.Number(checksum), Cbor.String(fragment)])
  }

  /** How many bytes it takes, every head in its shortest form. */
  function BodyLength(seqNum: nat, seqLength: nat, messageLength: nat, checksum: nat, fragment: seq<Byte>): nat {
    1 + |Cbor.Head(0, seqNum)| + |Cbor.Head(0, seqLength)| + |Cbor.Head(0, messageLength)| + |Cbor.Head(0, checksum)|
      + |Cbor.Head(2, |fragment|)| + |fragment|
  }

  lemma ShortHead(major: Cbor.Major, length: nat)
    ensures |Cbor.Head(major, length)| <= 5 && (length < 24 ==> |Cbor.Head(major, length)| == 1)
  {
  }

  lemma BodyTakes(seqNum: nat, seqLength: nat, messageLength: nat, checksum: nat, fragment: seq<Byte>)
    ensures |Cbor.Encoding(BodyOf(seqNum, seqLength, messageLength, checksum, fragment))|
         == BodyLength(seqNum, seqLength, messageLength, checksum, fragment)
    ensures BodyLength(seqNum, seqLength, messageLength, checksum, fragment) <= |fragment| + 26
  {
    hide Cbor.Head;
    ShortHead(0, seqNum);
    ShortHead(0, seqLength);
    ShortHead(0, messageLength);
    ShortHead(0, checksum);
    ShortHead(2, |fragment|);
    ShortHead(4, 5);
    var v := BodyOf(seqNum, seqLength, messageLength, checksum, fragment);
    assert |Cbor.Encoding(v)| == |Cbor.Head(4, 5)| + |Cbor.EncodingOf(v, 5)|;
    assert |Cbor.EncodingOf(v, 5)| == |Cbor.EncodingOf(v, 4)| + |Cbor.Encoding(Cbor.String(fragment))|;
    assert |Cbor.EncodingOf(v, 4)| == |Cbor.EncodingOf(v, 3)| + |Cbor.Head(0, checksum)|;
    assert |Cbor.EncodingOf(v, 3)| == |Cbor.EncodingOf(v, 2)| + |Cbor.Head(0, messageLength)|;
    assert |Cbor.EncodingOf(v, 2)| == |Cbor.EncodingOf(v, 1)| + |Cbor.Head(0, seqLength)|;
    assert |Cbor.EncodingOf(v, 1)| == |Cbor.EncodingOf(v, 0)| + |Cbor.Head(0, seqNum)|;
  }

  /**
   * The reader's checks on a decoded frame. The ceilings on the text of a component, two characters a
   * byte, are checked before it is decoded; four bytes of it are the checksum. ur.ts:190-240.
   */
  function ParseUr(frame: Frame): Option<UrPart> {
    match frame
    case Noise => None
    case Whole(typ, cbor) => if IsUrType(typ) && |cbor| + 4 <= MAX_MESSAGE_BYTES then Some(WholePart(typ, cbor)) else None
    case Part(typ, outerNum, outerLength, seqNum, seqLength, messageLength, checksum, fragment) =>
      if && IsUrType(typ) && outerNum >= 1 && 1 <= outerLength <= MAX_FRAGMENTS
         && fragment != [] && seqNum == outerNum && seqLength == outerLength
         && 1 <= messageLength <= MAX_MESSAGE_BYTES && |fragment| * seqLength >= messageLength
         && BodyLength(seqNum, seqLength, messageLength, checksum, fragment) + 4 <= MAX_MESSAGE_BYTES
      then Some(SplitPart(typ, seqNum, seqLength, messageLength, checksum, fragment)) else None
  }

  /** The header every frame of one message repeats. */
  datatype Header = Header(typ: Option<string>, seqLength: nat, messageLength: nat, checksum: nat, fragmentLength: nat)

  const BLANK := Header(None, 0, 0, 0, 0)

  ghost predicate HeaderOf(c: Codec, src: Source, m: Header) {
    && src.fl > 0 && m == Header(Some(src.typ), |src.F()|, |src.cbor|, c.crc(src.cbor), src.fl)
  }

  /** A header that a frame with more than one fragment can have left behind. */
  ghost predicate SplitHeader(m: Header) {
    && m.typ.Some? && m.seqLength >= 1 && m.messageLength >= 1 && m.fragmentLength >= 1
    && m.messageLength <= m.seqLength * m.fragmentLength
  }

  /** What has come in so far, well-formed whatever the frames were. */
  ghost predicate Collecting(c: Codec, m: Header, h: Held, done: Option<seq<Byte>>) {
    && SplitHeader(m) && Fits(h, m.seqLength, m.fragmentLength)
    && |h.simple| <= m.seqLength
    && (|h.simple| < m.seqLength ==> Clear(h.mixed, h.simple.Keys) && done.None?)
    && (done.Some? ==> |done.value| == m.messageLength && c.crc(done.value) == m.checksum)
  }

  /** Nothing offered is forgotten. */
  ghost predicate Remembers(offered: set<set<nat>>, h: Held) {
    forall S :: S in offered ==> Covers(S, h.simple.Keys, h.Pieces())
  }

  /** All of it comes from one message, and so does the result. */
  ghost predicate From(c: Codec, src: Source, m: Header, h: Held, done: Option<seq<Byte>>) {
    && HeaderOf(c, src, m) && Genuine(h, src.F(), src.fl)
    && (done.Some? ==> done.value == src.cbor)
    && (done.None? ==> |h.simple| < m.seqLength)
  }

  class UrCollector {
    const codec: Codec
    var typ: Option<string>
    var seqLength: nat
    var messageLength: nat
    var checksum: nat
    var fragmentLength: nat
    var simple: map<nat, seq<Byte>>
    var mixed: seq<Piece>
    var queue: seq<Piece>
    var done: Option<seq<Byte>>

    ghost var source: Option<Source>
    ghost var offered: set<set<nat>>

    ghost function Meta(): Header
      reads this
    {
      Header(typ, seqLength, messageLength, checksum, fragmentLength)
    }

    ghost function Now(): Held
      reads this
    {
      Held(simple, mixed, queue)
    }

    ghost predicate Blank()
      reads this
    {
      && Meta() == BLANK && Now() == Held(map[], [], []) && done.None? && source.None? && offered == {}
    }

    /** A single-frame message is simply there. */
    ghost predicate HoldsWhole()
      reads this
    {
      && typ.Some? && Meta() == Header(typ, 1, 0, 0, 0) && Now() == Held(map[], [], []) && done.Some?
      && source.None? && offered == {}
    }

    ghost predicate InProgress()
      reads this
    {
      && Collecting(codec, Meta(), Now(), done) && Remembers(offered, Now())
      && (source.Some? ==> From(codec, source.value, Meta(), Now(), done))
    }

    /** Between frames: finished, or the queue run dry with fragments still missing. */
    ghost predicate Valid()
      reads this
    {
      codec.Valid() && (Blank() || HoldsWhole() || (InProgress() && (done.Some? || (queue == [] && |simple| < seqLength))))
    }

    constructor (c: Codec)
      requires c.Valid()
      ensures Valid() && codec == c && Blank()
    {
      codec := c;
      typ, seqLength, messageLength, checksum, fragmentLength := None, 0, 0, 0, 0;
      simple, mixed, queue, done := map[], [], [], None;
      source, offered := None, {};
    }

    /** ur.ts:284-291. */
    method Status() returns (p: Progress)
      ensures p == Progress(if typ.Some? then typ.value else "", |simple|, seqLength, done, None)
    {
      p := Progress(if typ.Some? then typ.value else "", |simple|, seqLength, done, None);
    }

    /** ur.ts:293-303. */
    method Reset()
      modifies this
      ensures Blank()
    {
      typ, seqLength, messageLength, checksum, fragmentLength := None, 0, 0, 0, 0;
      simple, mixed, queue, done := map[], [], [], None;
      source, offered := None, {};
    }

    /** Feed a newly known piece back through everything still mixed. ur.ts:410-418. */
    method ReduceMixedBy(piece: Piece)
      modifies this`mixed, this`queue
      ensures mixed == Remaining(old(mixed), piece) && queue == old(queue) + Singles(old(mixed), piece)
    {
      var remaining: seq<Piece> := [];
      for i := 0 to |mixed|
        invariant mixed == old(mixed)
        invariant remaining == Remaining(mixed[..i], piece) && queue == old(queue) + Singles(mixed[..i], piece)
      {
        assert mixed[..i + 1][..i] == mixed[..i];
        var reduced := Reduce(mixed[i], piece);
        if |reduced.indexes| == 1 {
          queue := queue + [reduced];
        } else if |reduced.indexes| > 1 {
          remaining := remaining + [reduced];
        }
      }
      assert mixed[..|mixed|] == mixed;
      mixed := remaining;
    }

    /** The piece in hand: well-formed, and genuine when everything held is. */
    ghost predicate InHand(piece: Piece, least: nat)
      reads this
    {
      && PieceOk(piece, seqLength, fragmentLength) && |piece.indexes| >= least
      && (source.Some? ==> source.value.fl > 0 && Carries(piece, source.value.F(), source.value.fl))
    }

    /** Collecting, with what is known of where it comes from. */
    ghost predicate Sound()
      reads this
    {
      && codec.Valid() && Collecting(codec, Meta(), Now(), done)
      && (source.Some? ==> From(codec, source.value, Meta(), Now(), done))
    }

    /** ur.ts:373-386. */
    method TakeSimple(piece: Piece)
      requires Sound() && done.None? && InHand(piece, 1) && |piece.indexes| == 1
      modifies this`simple, this`mixed, this`queue, this`done
      ensures Sound() && Advances(old(Now()), piece, Now())
    {
      hide Fits, Advances, Covers, Clear, Genuine, PieceOk, Carries, Reduce, Remaining, Singles, HeaderOf, Joined, JoinedMap;
      var index := piece.indexes[0];
      ghost var h := Now();
      assert piece.indexes == [index];
      if index in simple {
        KnownCovers(index, piece, simple.Keys, h.Pieces());
        NothingNew(h, piece);
        return;
      }
      RoomForOne(h, piece, index, seqLength, fragmentLength);
      if source.Some? {
        HeaderShape(codec, source.value, Meta());
        GenuineNewFragment(h, piece, index, seqLength, fragmentLength, source.value.F());
      }
      simple := simple[index := piece.fragment];
      if |simple| == seqLength {
        LastFragment(h, piece, index, seqLength, fragmentLength);
        KnownFragments(Now(), seqLength, fragmentLength);
        var message := Assemble(simple, seqLength, fragmentLength);
        var trimmed := message[..messageLength];
        if source.Some? {
          WholeMessage(codec, source.value, Meta(), Now());
        }
        if codec.crc(trimmed) == checksum { done := Some(trimmed); }
        return;
      }
      NewFragment(h, piece, index, seqLength, fragmentLength);
      ReduceMixedBy(piece);
    }

    /** ur.ts:388-407. */
    method TakeMixed(piece: Piece)
      requires Sound() && done.None? && InHand(piece, 2)
      modifies this`mixed, this`queue
      ensures Sound() && Advances(old(Now()), piece, Now())
    {
      hide Fits, Advances, Covers, Clear, Genuine, PieceOk, Carries, Reduce, Remaining, Singles, HeaderOf, ReducedBy, Peeled, Partway;
      ghost var h := Now();
      if exists other :: other in mixed && SetOf(other.indexes) == SetOf(piece.indexes) {
        ghost var other :| other in mixed && SetOf(other.indexes) == SetOf(piece.indexes);
        SelfCovers(other, simple.Keys, h.Pieces());
        NothingNew(h, piece);
        return;
      }
      var known := SubtractSimple(piece);
      PeeledBy(piece, known, h, seqLength, fragmentLength);
      var reduced := SubtractMixed(known, SetOf(piece.indexes));
      if |reduced.indexes| == 0 {
        PeeledAway(piece, reduced, h, seqLength, fragmentLength);
        return;
      }
      PeeledOk(piece, reduced, h, seqLength, fragmentLength);
      if source.Some? {
        HeaderShape(codec, source.value, Meta());
        GenuineMixture(h, reduced, seqLength, fragmentLength, source.value.F());
      }
      if |reduced.indexes| == 1 {
        PeeledToOne(piece, reduced, h, seqLength, fragmentLength);
        queue := queue + [reduced];
        return;
      }
      PeeledToMixture(piece, reduced, h, seqLength, fragmentLength);
      ReduceMixedBy(reduced);
      mixed := mixed + [reduced];
    }

    /** Every known fragment taken out, in whatever order the map yields them. ur.ts:394-397. */
    method SubtractSimple(piece: Piece) returns (reduced: Piece)
      requires Sound() && InHand(piece, 2)
      ensures Partway(reduced, SetOf(piece.indexes), seqLength, fragmentLength) && |reduced.indexes| <= |piece.indexes|
      ensures SetOf(reduced.indexes) == SetOf(piece.indexes) - simple.Keys
      ensures source.Some? && reduced.indexes != [] ==> Carries(reduced, source.value.F(), source.value.fl)
    {
      hide Clear, AllOk, Covers, AllCarry, Carries, Reduce, PieceOk;
      reduced := piece;
      var left := simple.Keys;
      while left != {}
        invariant left <= simple.Keys
        invariant Partway(reduced, SetOf(piece.indexes), seqLength, fragmentLength) && |reduced.indexes| <= |piece.indexes|
        invariant SetOf(reduced.indexes) == SetOf(piece.indexes) - (simple.Keys - left)
        invariant source.Some? && reduced.indexes != [] ==> Carries(reduced, source.value.F(), source.value.fl)
        decreases |left|
      {
        var index :| index in left;
        SubtractKnown(reduced, index, simple[index], SetOf(piece.indexes), seqLength, fragmentLength);
        if source.Some? {
          SubtractKnownCarries(reduced, index, simple[index], SetOf(piece.indexes), seqLength, fragmentLength, source.value.F());
        }
        reduced := Reduce(reduced, Piece([index], simple[index]));
        left := left - {index};
      }
    }

    /** ur.ts:398. */
    method SubtractMixed(piece: Piece, ghost S: set<nat>) returns (reduced: Piece)
      requires Sound() && Partway(piece, S, seqLength, fragmentLength)
      requires source.Some? && piece.indexes != [] ==> Carries(piece, source.value.F(), source.value.fl)
      ensures reduced == ReducedBy(piece, mixed)
      ensures source.Some? && reduced.indexes != [] ==> Carries(reduced, source.value.F(), source.value.fl)
    {
      hide Reduce, Carries, Partway, PieceOk, Clear;
      if source.Some? {
        ReducedByCarries(piece, mixed, S, seqLength, fragmentLength, source.value.F());
      }
      reduced := piece;
      for i := 0 to |mixed|
        invariant reduced == ReducedBy(piece, mixed[..i])
      {
        assert mixed[..i + 1][..i] == mixed[..i];
        reduced := Reduce(reduced, mixed[i]);
      }
      assert mixed[..|mixed|] == mixed;
    }

    /** One turn: whatever the piece, pieces, then indexes, then queue go down. ur.ts:364-371. */
    method Step()
      requires Sound() && Remembers(offered, Now()) && done.None? && queue != []
      modifies this`simple, this`mixed, this`queue, this`done
      ensures Sound() && Remembers(offered, Now()) && old(simple).Keys <= simple.Keys
      ensures var before, after := |old(mixed)| + |old(queue)|, |mixed| + |queue|;
        var total, total' := IndexTotal(old(mixed)) + IndexTotal(old(queue)), IndexTotal(mixed) + IndexTotal(queue);
        after < before || (after == before && (total' < total || (total' == total && |queue| < |old(queue)|)))
    {
      hide Collecting, From, Advances, Covers, Remembers, PieceOk, Carries;
      ghost var h := Now();
      var piece := queue[0];
      PieceInHand(codec, Meta(), h, done, source);
      queue := queue[1..];
      ghost var h1 := Now();
      QueueShift(codec, Meta(), h, done, source);
      if |piece.indexes| == 0 { return; }
      if |piece.indexes| == 1 {
        TakeSimple(piece);
      } else {
        TakeMixed(piece);
      }
      StillRemembers(offered, h, Now());
      StepShrinks(h, Now());
    }

    /**
     * A frame of another message is somebody scanning a second one: start again on it rather than
     * reject it for ever. ur.ts:326-341.
     */
    method Admit(part: UrPart, ghost from: Option<Source>)
      requires Valid() && part.SplitPart? && SplitHeader(HeaderIn(part))
      requires from.Some? ==> HeaderOf(codec, from.value, HeaderIn(part))
      modifies this
      ensures Meta() == HeaderIn(part)
      ensures old(Meta()) == HeaderIn(part) ==> unchanged(this) && InProgress()
      ensures old(Meta()) != HeaderIn(part) ==>
        Now() == Held(map[], [], []) && done.None? && source == from && offered == {} && InProgress()
    {
      hide Collecting, From, Remembers, HeaderOf;
      if Meta() == HeaderIn(part) {
        SameHeaderGoesOn();
      }
      var mismatch := typ.Some? && (typ.value != part.typ || seqLength != part.seqLength || messageLength != part.messageLength
                                    || checksum != part.checksum || |part.fragment| != fragmentLength);
      if mismatch { Reset(); }
      if typ.None? {
        if !mismatch { Restart(); }
        typ, seqLength, messageLength := Some(part.typ), part.seqLength, part.messageLength;
        checksum, fragmentLength := part.checksum, |part.fragment|;
        source := from;
        FreshStart(codec, HeaderIn(part));
      }
    }

    lemma SameHeaderGoesOn()
      requires Valid() && SplitHeader(Meta())
      ensures InProgress()
    {
    }

    /** Without a type nothing has come in yet. */
    lemma Restart()
      requires Valid() && typ.None?
      ensures Now() == Held(map[], [], []) && done.None? && source.None? && offered == {}
    {
      hide Clear;
    }

    /** The queue, turn by turn, until it is dry or the message is there. ur.ts:345. */
    method Peel()
      requires Sound() && Remembers(offered, Now())
      modifies this`simple, this`mixed, this`queue, this`done
      ensures Sound() && Remembers(offered, Now()) && (done.Some? || queue == [])
      ensures |simple| <= seqLength && (source.Some? && done.None? ==> |simple| < seqLength)
    {
      hide Collecting, From, Remembers;
      while done.None? && queue != []
        invariant Sound() && Remembers(offered, Now())
        decreases |mixed| + |queue|, IndexTotal(mixed) + IndexTotal(queue), |queue|
      {
        Step();
      }
      CollectedShape(codec, Meta(), Now(), done, source);
    }

    /** A frame of the message being collected. ur.ts:342-361. */
    method Take(part: UrPart, ghost joint: Option<Source>) returns (p: Progress)
      requires codec.Valid() && InProgress() && part.SplitPart? && part.seqNum >= 1 && Meta() == HeaderIn(part) && done.None?
      requires joint.Some? ==>
        && joint == source
        && Carries(Piece(codec.Choose(part.seqNum, part.seqLength, part.checksum), part.fragment), joint.value.F(), joint.value.fl)
      modifies this
      ensures Valid()
      ensures p.problem == Some(DoesNotAddUp) ==> joint.None? && Blank() && p.cbor.None?
      ensures p.problem != Some(DoesNotAddUp) ==>
        && p == Progress(part.typ, |simple|, seqLength, done, None) && InProgress() && Meta() == HeaderIn(part) && source == joint
        && offered == old(offered) + {SetOf(codec.Choose(part.seqNum, part.seqLength, part.checksum))}
    {
      hide Collecting, From, Remembers, PieceOk, Carries, Chosen, UnitDraws, DistinctBelow, SetOf;
      ghost var m := HeaderIn(part);
      HeaderSane(codec, m, Now(), done);
      var indexes := ChooseFragments(codec.seeded(part.seqNum % TWO_32, part.checksum % TWO_32), part.seqNum, part.seqLength);
      var piece := Piece(indexes, part.fragment);
      PieceIsOk(piece, seqLength);
      Enqueue(codec, m, Now(), piece, joint, offered);
      queue := queue + [piece];
      offered := offered + {SetOf(indexes)};
      source := joint;
      Peel();
      if done.None? && |simple| == seqLength {
        Reset();
        return Progress(part.typ, 0, 0, None, Some(DoesNotAddUp));
      }
      p := Status();
    }

    /**
     * One frame from the camera. `from`, a ghost, may name a message this frame is a frame of.
     * ur.ts:305-362.
     */
    method Offer(frame: Frame, ghost from: Option<Source>) returns (p: Progress)
      requires Valid() && (from.Some? ==> FrameFrom(codec, from.value, frame))
      modifies this
      ensures Valid()
      ensures ParseUr(frame).None? ==> p.problem == Some(NotAUr) && unchanged(this)
      ensures ParseUr(frame).Some? && ParseUr(frame).value.WholePart? ==>
        HoldsWhole() && typ == Some(frame.typ) && done == Some(frame.cbor) && p == Progress(frame.typ, 1, 1, done, None)
      ensures ParseUr(frame).Some? && ParseUr(frame).value.SplitPart? ==>
        var m := HeaderIn(ParseUr(frame).value);
        var joint := Joint(old(Meta()) == m, old(source), from);
        && (p.problem == Some(DoesNotAddUp) ==> joint.None? && Blank() && p.cbor.None?)
        && (p.problem != Some(DoesNotAddUp) ==>
              && p == Progress(frame.typ, |simple|, seqLength, done, None)
              && InProgress() && Meta() == m
              && (old(Meta()) == m && old(done).Some? ==> unchanged(this))
              && (!(old(Meta()) == m && old(done).Some?) ==>
                    && source == joint
                    && offered == (if old(Meta()) == m then old(offered) else {})
                                  + {SetOf(codec.Choose(frame.seqNum, frame.seqLength, frame.checksum))}))
    {
      hide Collecting, From, Remembers, Carries, FrameFrom, HeaderOf, Chosen, SetOf;
      var parsed := ParseUr(frame);
      if parsed.None? {
        p := Status();
        p := p.(problem := Some(NotAUr));
        return;
      }
      var part := parsed.value;
      if part.WholePart? {
        Reset();
        typ, seqLength, done := Some(part.typ), 1, Some(part.cbor);
        p := Progress(part.typ, 1, 1, done, None);
        return;
      }
      ghost var joint := Joint(Meta() == HeaderIn(part), source, from);
      if from.Some? { FrameIsGenuine(codec, from.value, frame); }
      Admit(part, from);
      if done.Some? {
        p := Status();
        return;
      }
      p := Take(part, joint);
    }
  }

  /** Frames of one message leave one header behind. */
  function HeaderIn(part: UrPart): Header
    requires part.SplitPart?
  {
    Header(Some(part.typ), part.seqLength, part.messageLength, part.checksum, |part.fragment|)
  }

  ghost predicate FrameFrom(c: Codec, src: Source, frame: Frame) {
    c.Valid() && src.fl > 0 && exists seqNum: nat :: seqNum >= 1 && frame == FrameOf(c, src, seqNum)
  }

  /** The one message everything comes from, if this frame keeps it that way. */
  ghost function Joint(same: bool, source: Option<Source>, from: Option<Source>): Option<Source> {
    if !same then from else if source == from then from else None
  }

  lemma FreshStart(c: Codec, m: Header)
    requires SplitHeader(m)
    ensures Collecting(c, m, Held(map[], [], []), None) && Remembers({}, Held(map[], [], []))
    ensures forall src: Source :: HeaderOf(c, src, m) ==> From(c, src, m, Held(map[], [], []), None)
  {
    hide HeaderOf;
    forall src: Source | HeaderOf(c, src, m) ensures From(c, src, m, Held(map[], [], []), None) {
      HeaderShape(c, src, m);
    }
  }

  /** A frame of a message repeats its header, and carries the mixture its number stands for. */
  lemma FrameIsGenuine(c: Codec, src: Source, frame: Frame)
    requires FrameFrom(c, src, frame) && ParseUr(frame).Some? && ParseUr(frame).value.SplitPart?
    ensures HeaderOf(c, src, HeaderIn(ParseUr(frame).value))
    ensures Carries(Piece(c.Choose(frame.seqNum, frame.seqLength, frame.checksum), frame.fragment), src.F(), src.fl)
  {
    hide Fragments, Mix, Chosen, UnitDraws, SetOf;
  }

  lemma PieceIsOk(piece: Piece, n: nat)
    requires DistinctBelow(piece.indexes, n)
    ensures PieceOk(piece, n, |piece.fragment|)
  {
  }

  /** A piece joins the queue, and its index set the sets to remember. */
  lemma Enqueue(c: Codec, m: Header, h: Held, piece: Piece, source: Option<Source>, offered: set<set<nat>>)
    requires Collecting(c, m, h, None) && Remembers(offered, h)
    requires PieceOk(piece, m.seqLength, m.fragmentLength) && |piece.indexes| >= 1
    requires source.Some? ==> From(c, source.value, m, h, None) && Carries(piece, source.value.F(), source.value.fl)
    ensures var h' := Held(h.simple, h.mixed, h.queue + [piece]);
      && Collecting(c, m, h', None) && Remembers(offered + {SetOf(piece.indexes)}, h')
      && (source.Some? ==> From(c, source.value, m, h', None))
  {
    hide PieceOk, Clear, Carries, Covers, SetOf;
    var h' := Held(h.simple, h.mixed, h.queue + [piece]);
    SelfCovers(piece, h'.simple.Keys, h'.Pieces());
    AllSelfCovered(h.Pieces(), h.simple.Keys, h'.Pieces());
    forall S | S in offered ensures Covers(S, h'.simple.Keys, h'.Pieces()) {
      CoverStep(S, h.simple.Keys, h.Pieces(), h'.simple.Keys, h'.Pieces());
    }
  }

  lemma HeaderSane(c: Codec, m: Header, h: Held, done: Option<seq<Byte>>)
    requires Collecting(c, m, h, done)
    ensures SplitHeader(m)
  {
  }

  lemma CollectedShape(c: Codec, m: Header, h: Held, done: Option<seq<Byte>>, source: Option<Source>)
    requires Collecting(c, m, h, done) && (source.Some? ==> From(c, source.value, m, h, done))
    ensures |h.simple| <= m.seqLength && (source.Some? && done.None? ==> |h.simple| < m.seqLength)
  {
  }

  /** The front of the queue is well-formed, and genuine if all of it is. */
  lemma PieceInHand(c: Codec, m: Header, h: Held, done: Option<seq<Byte>>, source: Option<Source>)
    requires Collecting(c, m, h, done) && h.queue != []
    requires source.Some? ==> From(c, source.value, m, h, done)
    ensures PieceOk(h.queue[0], m.seqLength, m.fragmentLength) && |h.queue[0].indexes| >= 1
    ensures source.Some? ==> source.value.fl > 0 && Carries(h.queue[0], source.value.F(), source.value.fl)
  {
    hide Carries, PieceOk, Clear;
    assert h.queue[0] in h.queue;
  }

  lemma QueueShift(c: Codec, m: Header, h: Held, done: Option<seq<Byte>>, source: Option<Source>)
    requires Collecting(c, m, h, done) && h.queue != []
    requires source.Some? ==> From(c, source.value, m, h, done)
    ensures var h' := Held(h.simple, h.mixed, h.queue[1..]);
      Collecting(c, m, h', done) && (source.Some? ==> From(c, source.value, m, h', done))
  {
    hide Carries, PieceOk, Clear;
    assert forall p :: p in h.queue[1..] ==> p in h.queue;
  }

  lemma StillRemembers(offered: set<set<nat>>, h: Held, h': Held)
    requires Remembers(offered, h) && h.queue != []
    requires Advances(Held(h.simple, h.mixed, h.queue[1..]), h.queue[0], h')
    ensures Remembers(offered, h')
  {
    hide Covers;
    var rest := h.mixed + h.queue[1..];
    OneCovered(h.queue[0], h'.simple.Keys, h'.Pieces());
    AllCoveredConcat(rest, [h.queue[0]], h'.simple.Keys, h'.Pieces());
    forall p | p in h.Pieces() ensures Covers(SetOf(p.indexes), h'.simple.Keys, h'.Pieces()) {
      assert h.queue == [h.queue[0]] + h.queue[1..];
      assert p in rest + [h.queue[0]];
    }
    forall S | S in offered ensures Covers(S, h'.simple.Keys, h'.Pieces()) {
      CoverStep(S, h.simple.Keys, h.Pieces(), h'.simple.Keys, h'.Pieces());
    }
  }

  lemma StepShrinks(h: Held, h': Held)
    requires h.queue != [] && Advances(Held(h.simple, h.mixed, h.queue[1..]), h.queue[0], h')
    ensures h.simple.Keys <= h'.simple.Keys
    ensures var before, after := |h.mixed| + |h.queue|, |h'.mixed| + |h'.queue|;
      var total, total' := IndexTotal(h.mixed) + IndexTotal(h.queue), IndexTotal(h'.mixed) + IndexTotal(h'.queue);
      after < before || (after == before && (total' < total || (total' == total && |h'.queue| < |h.queue|)))
  {
    assert h.queue == [h.queue[0]] + h.queue[1..];
    IndexTotalConcat([h.queue[0]], h.queue[1..]);
    IndexTotalOne(h.queue[0]);
    hide IndexTotal, Covers, AllCovered;
  }

  lemma HeaderShape(c: Codec, src: Source, m: Header)
    requires HeaderOf(c, src, m)
    ensures src.fl > 0 && src.fl == m.fragmentLength && |src.F()| == m.seqLength
  {
  }

  lemma KnownFragments(h: Held, n: nat, fl: nat)
    requires Fits(h, n, fl)
    ensures forall i :: i in h.simple ==> i < n && |h.simple[i]| == fl
  {
  }

  lemma RoomForOne(h: Held, piece: Piece, index: nat, n: nat, fl: nat)
    requires Fits(h, n, fl) && PieceOk(piece, n, fl) && piece.indexes == [index] && index !in h.simple && |h.simple| <= n
    ensures |h.simple| < n && index < n
    ensures |h.simple[index := piece.fragment]| == |h.simple| + 1
  {
    assert piece.indexes[0] == index;
    assert |h.simple.Keys| == |h.simple|;
    if |h.simple| == n {
      FullKeys(h.simple.Keys, n);
    }
    assert h.simple[index := piece.fragment].Keys == h.simple.Keys + {index};
  }

  // ---- The whole message ----------------------------------------------------------------------

  function JoinedMap(simple: map<nat, seq<Byte>>, n: nat): seq<Byte>
    requires forall i :: 0 <= i < n ==> i in simple
  {
    if n == 0 then [] else JoinedMap(simple, n - 1) + simple[n - 1]
  }

  /** The fragments set side by side in one buffer. ur.ts:379-380. */
  method Assemble(simple: map<nat, seq<Byte>>, n: nat, fl: nat) returns (bytes: seq<Byte>)
    requires forall i :: 0 <= i < n ==> i in simple && |simple[i]| == fl
    ensures bytes == JoinedMap(simple, n) && |bytes| == n * fl
  {
    var message := new Byte[n * fl](_ => 0);
    for i := 0 to n
      invariant i * fl <= n * fl && message[..i * fl] == JoinedMap(simple, i)
    {
      NextOffset(i, fl);
      MulMonotone(i + 1, n, fl);
      SetBytes(message, simple[i], i * fl);
    }
    bytes := message[..];
  }

  /** `message.set(fragment, at)`. */
  method SetBytes(message: array<Byte>, fragment: seq<Byte>, at: nat)
    requires at + |fragment| <= message.Length
    modifies message
    ensures message[..at + |fragment|] == old(message[..at]) + fragment
  {
    forall k | 0 <= k < |fragment| {
      message[at + k] := fragment[k];
    }
  }

  lemma {:induction false} JoinedMapIs(simple: map<nat, seq<Byte>>, F: seq<seq<Byte>>, n: nat)
    requires n <= |F| && forall i :: 0 <= i < n ==> i in simple && simple[i] == F[i]
    ensures JoinedMap(simple, n) == Joined(F, n)
  {
    if n > 0 {
      JoinedMapIs(simple, F, n - 1);
    }
  }

  /** A message's own fragments, all of them, come back as the message. */
  lemma WholeMessage(c: Codec, src: Source, m: Header, h: Held)
    requires HeaderOf(c, src, m) && Genuine(h, src.F(), src.fl) && forall i :: 0 <= i < m.seqLength ==> i in h.simple
    ensures |JoinedMap(h.simple, m.seqLength)| >= |src.cbor| == m.messageLength
    ensures JoinedMap(h.simple, m.seqLength)[..m.messageLength] == src.cbor && c.crc(src.cbor) == m.checksum
  {
    JoinedMapIs(h.simple, src.F(), m.seqLength);
    FragmentsCover(src.cbor, src.fl);
    hide Fragments, Joined;
  }

  // ---- Whole runs ---------------------------------------------------------------------------------

  /** What it takes for the reader to let a message's frames through at all. */
  predicate Readable(src: Source)
    requires src.fl > 0
  {
    IsUrType(src.typ) && |src.cbor| >= 1
    && (if FragmentCount(|src.cbor|, src.fl) == 1 then |src.cbor| + 4 <= MAX_MESSAGE_BYTES
        else |src.cbor| <= MAX_MESSAGE_BYTES && FragmentCount(|src.cbor|, src.fl) <= MAX_FRAGMENTS && src.fl <= MAX_MESSAGE_BYTES / 2)
  }

  /** The reader's answer to a message's frames, however it was cut. */
  lemma PassesExactly(c: Codec, src: Source, seqNum: nat)
    requires c.Valid() && src.fl > 0 && seqNum >= 1 && |src.cbor| >= 1
    ensures ParseUr(FrameOf(c, src, seqNum)).Some? <==>
      && IsUrType(src.typ)
      && (if FragmentCount(|src.cbor|, src.fl) == 1 then |src.cbor| + 4 <= MAX_MESSAGE_BYTES
          else && |src.cbor| <= MAX_MESSAGE_BYTES && FragmentCount(|src.cbor|, src.fl) <= MAX_FRAGMENTS
               && BodyLength(seqNum, |src.F()|, |src.cbor|, c.crc(src.cbor), FrameOf(c, src, seqNum).fragment) + 4 <= MAX_MESSAGE_BYTES)
  {
    hide Mix, Fragment, Chosen, UnitDraws, SetOf, Joined, BodyLength, FragmentCount;
    FragmentsCover(src.cbor, src.fl);
    assert |src.F()| == FragmentCount(|src.cbor|, src.fl);
    assert src.fl * |src.F()| == |src.F()| * src.fl;
  }

  lemma ReadablePasses(c: Codec, src: Source, seqNum: nat)
    requires c.Valid() && src.fl > 0 && seqNum >= 1 && |src.cbor| >= 1 && Readable(src)
    ensures ParseUr(FrameOf(c, src, seqNum)).Some?
  {
    hide Mix, Fragment, Chosen, UnitDraws, SetOf, Joined, BodyLength, ParseUr, FragmentCount;
    PassesExactly(c, src, seqNum);
    if FragmentCount(|src.cbor|, src.fl) > 1 {
      BodyTakes(seqNum, |src.F()|, |src.cbor|, c.crc(src.cbor), FrameOf(c, src, seqNum).fragment);
    }
  }

  /** More than one fragment means none is longer than half the message. */
  lemma NominalHalves(src: Source, maxLength: int, minLength: nat)
    requires minLength > 0 && src.fl > 0 && Nominal(|src.cbor|, maxLength, minLength, src.fl)
    ensures FragmentCount(|src.cbor|, src.fl) > 1 ==> 2 * src.fl <= |src.cbor| + 1
  {
    if |src.cbor| > 0 {
      var count :| 1 <= count <= CeilDiv(|src.cbor|, minLength) && src.fl == CeilDiv(|src.cbor|, count);
      if count > 1 {
        CeilDivFacts(|src.cbor|, 2);
        MulMonotone(2, count, CeilDiv(|src.cbor|, 2));
        CeilDivLeast(|src.cbor|, count, CeilDiv(|src.cbor|, 2));
      } else {
        CeilDivLeast(|src.cbor|, src.fl, 1);
      }
    }
  }

  /**
   * The encoder sets no ceiling and the reader does: of a message cut as the encoder cuts it, every
   * frame is let through, or none is.
   */
  lemma ReadableExactly(c: Codec, src: Source, seqNum: nat, maxLength: int, minLength: nat)
    requires c.Valid() && src.fl > 0 && seqNum >= 1 && |src.cbor| >= 1
    requires minLength > 0 && Nominal(|src.cbor|, maxLength, minLength, src.fl)
    ensures ParseUr(FrameOf(c, src, seqNum)).Some? <==> Readable(src)
  {
    hide Mix, Fragment, Chosen, UnitDraws, SetOf, Joined, BodyLength, ParseUr, FragmentCount, Nominal;
    PassesExactly(c, src, seqNum);
    NominalHalves(src, maxLength, minLength);
    if Readable(src) { ReadablePasses(c, src, seqNum); }
  }

  /** The frame numbers of a run are those of one message's animation. */
  ghost predicate FramesOf(c: Codec, src: Source, frames: seq<Frame>, nums: seq<nat>) {
    && c.Valid() && src.fl > 0 && |frames| == |nums|
    && forall k :: 0 <= k < |frames| ==> nums[k] >= 1 && frames[k] == FrameOf(c, src, nums[k])
  }

  /** After a run of one message's frames: nothing but that message, and every set offered still remembered. */
  ghost predicate Scanned(c: UrCollector, src: Source, nums: seq<nat>)
    requires c.codec.Valid() && src.fl > 0
    reads c
  {
    && c.Valid() && c.InProgress() && c.source == Some(src) && HeaderOf(c.codec, src, c.Meta())
    && (c.done.None? ==> SetsOffered(c.codec, src, nums, c.offered))
  }

  ghost predicate SetsOffered(c: Codec, src: Source, nums: seq<nat>, offered: set<set<nat>>)
    requires c.Valid() && src.fl > 0
  {
    forall k :: 0 <= k < |nums| ==> nums[k] >= 1 && SetOf(c.Choose(nums[k], |src.F()|, c.crc(src.cbor))) in offered
  }

  /** Not a stranger with the same header: either another message's header, or this message and nothing else so far. */
  ghost predicate NoImpostor(c: UrCollector, src: Source)
    reads c
  {
    HeaderOf(c.codec, src, c.Meta()) ==> c.source == Some(src)
  }

  /** One more frame of the message. */
  method ScanOne(c: UrCollector, ghost src: Source, frame: Frame, ghost seqNum: nat, ghost nums: seq<nat>) returns (p: Progress)
    requires c.Valid() && src.fl > 0 && Readable(src) && |src.F()| > 1 && seqNum >= 1 && frame == FrameOf(c.codec, src, seqNum)
    requires (nums == [] && NoImpostor(c, src)) || Scanned(c, src, nums)
    modifies c
    ensures c.codec.Valid() && Scanned(c, src, nums + [seqNum]) && p.cbor == c.done
  {
    hide Collecting, From, Remembers, HeaderOf, Chosen, UnitDraws, Readable, SetOf, Mix, Fragments;
    assert FrameFrom(c.codec, src, frame);
    ReadablePasses(c.codec, src, seqNum) by { NotEmpty(src); }
    SplitOf(c.codec, src, seqNum);
    ghost var m := HeaderIn(ParseUr(frame).value);
    OneHeader(c.codec, src, m, c.Meta());
    if c.source.Some? && c.InProgress() {
      HeaderKept(c.codec, c.source.value, c.Meta(), c.Now(), c.done);
    }
    p := c.Offer(frame, Some(src));
  }

  lemma NotEmpty(src: Source)
    requires src.fl > 0 && Readable(src)
    ensures |src.cbor| >= 1
  {
  }

  lemma SplitOf(c: Codec, src: Source, seqNum: nat)
    requires c.Valid() && src.fl > 0 && |src.F()| > 1 && seqNum >= 1 && ParseUr(FrameOf(c, src, seqNum)).Some?
    ensures ParseUr(FrameOf(c, src, seqNum)).value.SplitPart?
    ensures HeaderOf(c, src, HeaderIn(ParseUr(FrameOf(c, src, seqNum)).value))
    ensures var f := FrameOf(c, src, seqNum); f.seqNum == seqNum && f.seqLength == |src.F()| && f.checksum == c.crc(src.cbor)
  {
    hide Mix, Fragments, Chosen, UnitDraws, SetOf;
  }

  lemma OneHeader(c: Codec, src: Source, m: Header, m': Header)
    requires HeaderOf(c, src, m)
    ensures HeaderOf(c, src, m') <==> m == m'
  {
  }

  lemma HeaderKept(c: Codec, src: Source, m: Header, h: Held, done: Option<seq<Byte>>)
    requires From(c, src, m, h, done)
    ensures HeaderOf(c, src, m)
  {
  }

  /**
   * Peeling is exhaustive. At rest no mixture that was ever offered is down to one unknown fragment:
   * as soon as all but one of its fragments are known, so is the last.
   */
  lemma PeelingIsExhaustive(c: UrCollector, S: set<nat>, x: nat)
    requires c.Valid() && c.InProgress() && c.done.None?
    requires S in c.offered && x in S && forall i :: i in S && i != x ==> i in c.simple
    ensures x in c.simple
  {
    hide Covers, SetOf;
    assert Covers(S, c.simple.Keys, c.Now().Pieces());
    NoLoneUnknown(S, x, c.Now(), c.seqLength, c.fragmentLength);
  }

  /** A first-pass frame that was offered is a fragment that is known. */
  lemma FirstPassKnown(c: UrCollector, src: Source, nums: seq<nat>, i: nat)
    requires c.codec.Valid() && src.fl > 0 && Scanned(c, src, nums) && c.done.None?
    requires i < |src.F()| && i + 1 in nums
    ensures i in c.simple
  {
    hide HeaderOf, Fragments, Collecting, Remembers, From;
    var k :| 0 <= k < |nums| && nums[k] == i + 1;
    assert c.codec.Choose(i + 1, |src.F()|, c.codec.crc(src.cbor)) == [i];
    assert SetOf([i]) == {i};
    PeelingIsExhaustive(c, {i}, i);
  }

  /** Once every first-pass frame has been offered, the message is there. */
  lemma FirstPassCompletes(c: UrCollector, src: Source, nums: seq<nat>)
    requires c.codec.Valid() && src.fl > 0 && Scanned(c, src, nums)
    requires forall i :: 1 <= i <= |src.F()| ==> i in nums
    ensures c.done.Some?
  {
    if c.done.None? {
      HeaderShape(c.codec, src, c.Meta());
      hide HeaderOf, Fragments, Scanned;
      forall i: nat | i < c.seqLength ensures i in c.simple {
        FirstPassKnown(c, src, nums, i);
      }
      AllKnownIsDone(c, src, nums);
    }
  }

  lemma AllKnownIsDone(c: UrCollector, src: Source, nums: seq<nat>)
    requires c.codec.Valid() && src.fl > 0 && Scanned(c, src, nums)
    requires forall i: nat :: i < c.seqLength ==> i in c.simple
    ensures c.done.Some?
  {
    hide HeaderOf, Fragments, Genuine, Remembers, Fits;
    assert |c.simple.Keys| == |c.simple|;
    SubsetSize(Below(c.seqLength), c.simple.Keys);
  }

  lemma SubsetSize(x: set<nat>, y: set<nat>)
    requires x <= y
    ensures |x| <= |y|
  {
    assert |y| == |x| + |y - x| by { assert y == x + (y - x); }
  }

  /** How far a run has come. */
  ghost predicate Reached(c: UrCollector, src: Source, nums: seq<nat>)
    reads c
  {
    && c.Valid() && src.fl > 0
    && if nums == [] then NoImpostor(c, src)
       else if |src.F()| == 1 then c.done == Some(src.cbor)
       else Scanned(c, src, nums)
  }

  method ScanNext(c: UrCollector, ghost src: Source, frame: Frame, ghost seqNum: nat, ghost nums: seq<nat>) returns (p: Progress)
    requires src.fl > 0 && Readable(src) && seqNum >= 1 && Reached(c, src, nums) && frame == FrameOf(c.codec, src, seqNum)
    modifies c
    ensures Reached(c, src, nums + [seqNum]) && p.cbor == c.done
  {
    hide Collecting, From, Remembers, HeaderOf, Chosen, UnitDraws, Readable, SetOf, Mix, Fragments, Scanned, NoImpostor;
    ReadablePasses(c.codec, src, seqNum) by { NotEmpty(src); }
    if frame.Whole? {
      p := c.Offer(frame, None);
    } else {
      p := ScanOne(c, src, frame, seqNum, nums);
      ScannedIsValid(c, src, nums + [seqNum]);
    }
  }

  /**
   * A scan of any frames of one animation, in any order and with any repeats, whatever the collector
   * was looking at before: it never holds anything but the message, and once each of the first
   * seqLength frames has been seen it holds it.
   */
  method Scan(c: UrCollector, ghost src: Source, frames: seq<Frame>, ghost nums: seq<nat>) returns (p: Progress)
    requires c.Valid() && FramesOf(c.codec, src, frames, nums) && Readable(src) && frames != [] && NoImpostor(c, src)
    modifies c
    ensures p.cbor == c.done && (p.cbor.Some? ==> p.cbor.value == src.cbor)
    ensures |src.F()| == 1 || (forall i :: 1 <= i <= |src.F()| ==> i in nums) ==> p.cbor == Some(src.cbor)
  {
    hide Readable, FrameOf, Reached, NoImpostor, Scanned;
    ReachedStart(c, src);
    p := c.Status();
    for i := 0 to |frames|
      invariant Reached(c, src, nums[..i]) && (i > 0 ==> p.cbor == c.done)
    {
      assert nums[..i + 1] == nums[..i] + [nums[i]];
      p := ScanNext(c, src, frames[i], nums[i], nums[..i]);
    }
    assert nums[..|frames|] == nums;
    ReachedEnd(c, src, nums);
  }

  lemma ReachedStart(c: UrCollector, src: Source)
    requires c.Valid() && src.fl > 0 && NoImpostor(c, src)
    ensures Reached(c, src, [])
  {
  }

  lemma ReachedEnd(c: UrCollector, src: Source, nums: seq<nat>)
    requires Reached(c, src, nums) && nums != []
    ensures c.done.Some? ==> c.done.value == src.cbor
    ensures |src.F()| == 1 || (forall i :: 1 <= i <= |src.F()| ==> i in nums) ==> c.done == Some(src.cbor)
  {
    hide Scanned;
    if |src.F()| > 1 {
      OnlyTheMessage(c, src, nums);
    }
  }

  lemma ScannedIsValid(c: UrCollector, src: Source, nums: seq<nat>)
    requires c.codec.Valid() && src.fl > 0
    ensures Scanned(c, src, nums) ==> c.Valid()
  {
  }

  lemma OnlyTheMessage(c: UrCollector, src: Source, nums: seq<nat>)
    requires c.codec.Valid() && src.fl > 0 && Scanned(c, src, nums)
    ensures c.done.Some? ==> c.done.value == src.cbor
    ensures (forall i :: 1 <= i <= |src.F()| ==> i in nums) ==> c.done == Some(src.cbor)
  {
    hide Collecting, Genuine, HeaderOf;
    if forall i :: 1 <= i <= |src.F()| ==> i in nums {
      FirstPassCompletes(c, src, nums);
    }
  }
}
