/**
 * UTF-8 as the runtime banner writes it out: an encoder over UTF-16 code units and the decoder's state
 * machine, which steps its index back to reconsider a byte. Sections 3 and 4 of RFC 3629.
 */
module Utf8 {
  import opened Bytes

  type Unit = u: int | 0 <= u < 0x10000

  predicate High(u: int) { 0xd800 <= u <= 0xdbff }
  predicate Low(u: int) { 0xdc00 <= u <= 0xdfff }

  /** A Unicode scalar value: any code point but a surrogate. */
  predicate Scalar(c: int) {
    0 <= c < 0x110000 && !High(c) && !Low(c)
  }

  // ---- One code point ------------------------------------------------------------------

  function EncodeCode(c: nat): (b: seq<Byte>)
    requires Scalar(c)
    ensures 1 <= |b| <= 4
  {
    if c < 0x80 then [c]
    else if c < 0x800 then [0xc0 + c / 64, 0x80 + c % 64]
    else if c < 0x10000 then [0xe0 + c / 4096, 0x80 + c / 64 % 64, 0x80 + c % 64]
    else [0xf0 + c / 262144, 0x80 + c / 4096 % 64, 0x80 + c / 64 % 64, 0x80 + c % 64]
  }

  /** The table of section 4 of RFC 3629: how long, in what ranges, and which bits of the code point each byte carries. */
  lemma EncodedBytes(c: nat)
    requires Scalar(c)
    ensures var b := EncodeCode(c);
      && (c < 0x80 <==> |b| == 1) && (0x80 <= c < 0x800 <==> |b| == 2) && (0x800 <= c < 0x10000 <==> |b| == 3)
      && (|b| == 1 ==> b[0] == c)
      && (|b| == 2 ==> 0xc2 <= b[0] <= 0xdf && c == (b[0] as int - 0xc0) * 0x40 + (b[1] as int - 0x80))
      && (|b| == 3 ==> 0xe0 <= b[0] <= 0xef && c == (b[0] as int - 0xe0) * 0x1000 + (b[1] as int - 0x80) * 0x40 + (b[2] as int - 0x80))
      && (|b| == 4 ==> 0xf0 <= b[0] <= 0xf4)
      && (|b| == 4 ==>
            c == (b[0] as int - 0xf0) * 0x40000 + (b[1] as int - 0x80) * 0x1000 + (b[2] as int - 0x80) * 0x40 + (b[3] as int - 0x80))
      && (forall k :: 1 <= k < |b| ==> 0x80 <= b[k] <= 0xbf)
  {
    assert c / 64 / 64 == c / 4096 && c / 4096 / 64 == c / 262144;
  }

  /** The code units of a code point: a surrogate pair past U+FFFF. */
  function UnitsOf(c: nat): (u: seq<Unit>)
    requires Scalar(c)
    ensures 1 <= |u| <= 2
  {
    if c > 0xffff then [0xd800 + (c - 0x10000) / 1024, 0xdc00 + (c - 0x10000) % 1024] else [c]
  }

  function EncodeAll(cs: seq<nat>): (b: seq<Byte>)
    requires forall c :: c in cs ==> Scalar(c)
  {
    if cs == [] then [] else EncodeCode(cs[0]) + EncodeAll(cs[1..])
  }

  function AllUnits(cs: seq<nat>): (u: seq<Unit>)
    requires forall c :: c in cs ==> Scalar(c)
  {
    if cs == [] then [] else UnitsOf(cs[0]) + AllUnits(cs[1..])
  }

  /** Valid UTF-8: the encodings of some scalar values, one after another. */
  ghost predicate ValidUtf8(b: seq<Byte>) {
    exists cs: seq<nat> :: (forall c :: c in cs ==> Scalar(c)) && b == EncodeAll(cs)
  }

  // ---- Encoding --------------------------------------------------------------------------

  /** The code point that begins a text, a lone surrogate read as U+FFFD. */
  function First(text: seq<Unit>): (c: nat)
    requires text != []
    ensures Scalar(c)
  {
    if High(text[0]) && |text| > 1 && Low(text[1]) then (text[0] as int - 0xd800) * 0x400 + (text[1] as int - 0xdc00) + 0x10000
    else if High(text[0]) || Low(text[0]) then 0xfffd
    else text[0]
  }

  function Taken(text: seq<Unit>): (k: nat)
    requires text != []
    ensures 1 <= k <= 2 && k <= |text|
  {
    if High(text[0]) && |text| > 1 && Low(text[1]) then 2 else 1
  }

  function CodePoints(text: seq<Unit>): (cs: seq<nat>)
    ensures forall c :: c in cs ==> Scalar(c)
  {
    if text == [] then [] else [First(text)] + CodePoints(text[Taken(text)..])
  }

  /** The bytes of the code points of a text. */
  function Encoded(text: seq<Unit>): (b: seq<Byte>) {
    EncodeAll(CodePoints(text))
  }

  lemma EncodedNext(text: seq<Unit>)
    requires text != []
    ensures Encoded(text) == EncodeCode(First(text)) + Encoded(text[Taken(text)..])
  {
    assert CodePoints(text)[1..] == CodePoints(text[Taken(text)..]);
  }

  /** `encodeUTF8`: four bytes a unit set aside, filled from the front, trimmed at the end. encoding.js:36-73. */
  method EncodeUTF8(text: seq<Unit>) returns (bytes: seq<Byte>)
    ensures bytes == Encoded(text)
  {
    hide Encoded, EncodeCode;
    var out := new Byte[|text| * 4](_ => 0);
    var at := 0;
    var i := 0;
    while i < |text|
      invariant 0 <= i <= |text| && 0 <= at <= 4 * i
      invariant out[..at] + Encoded(text[i..]) == Encoded(text)
      decreases |text| - i
    {
      EncodedNext(text[i..]);
      ghost var c := First(text[i..]);
      ghost var k := Taken(text[i..]);
      assert text[i..][k..] == text[i + k..];
      var code: int := text[i];
      if code >= 0xd800 && code <= 0xdbff && i + 1 < |text| {
        var low: int := text[i + 1];
        if low >= 0xdc00 && low <= 0xdfff {
          code := (code - 0xd800) * 0x400 + (low - 0xdc00) + 0x10000;
          i := i + 1;
        }
      }
      if code >= 0xd800 && code <= 0xdfff { code := 0xfffd; }
      assert code == c;
      ghost var before := out[..at];
      at := Put(out, at, code);
      assert out[..at] == before + EncodeCode(c);
      i := i + 1;
    }
    EncodedEmpty(text);
    bytes := out[..at];
  }

  lemma EncodedEmpty(text: seq<Unit>)
    ensures Encoded(text[|text|..]) == []
  {
  }

  /** The bytes of one code point, pushed where the buffer has got to. encoding.js:56-70. */
  method Put(out: array<Byte>, start: nat, code: nat) returns (at: nat)
    requires Scalar(code) && start + 4 <= out.Length
    modifies out
    ensures at == start + |EncodeCode(code)| && out[..at] == old(out[..start]) + EncodeCode(code)
    ensures forall i :: 0 <= i < start ==> out[i] == old(out[i])
  {
    at := start;
    if code < 0x80 {
      out[at] := code;
      at := at + 1;
    } else if code < 0x800 {
      out[at], out[at + 1] := 0xc0 + code / 64, 0x80 + code % 64;
      at := at + 2;
    } else if code < 0x10000 {
      out[at], out[at + 1], out[at + 2] := 0xe0 + code / 4096, 0x80 + code / 64 % 64, 0x80 + code % 64;
      at := at + 3;
    } else {
      out[at], out[at + 1] := 0xf0 + code / 262144, 0x80 + code / 4096 % 64;
      out[at + 2], out[at + 3] := 0x80 + code / 64 % 64, 0x80 + code % 64;
      at := at + 4;
    }
  }

  // ---- The decoder's state machine -----------------------------------------------------------

  /** How many continuation bytes a lead asked for and how many came, and the range the next must be in. */
  datatype State = State(code: nat, needed: nat, seen: nat, lower: nat, upper: nat)

  const START := State(0, 0, 0, 0x80, 0xbf)

  function One(u: Unit): seq<Unit> { [u] }

  /** A byte read as a lead. encoding.js:112-133. */
  function Lead(b: Byte): (r: (State, seq<Unit>)) {
    if b <= 0x7f then (START, One(b))
    else if 0xc2 <= b <= 0xdf then (State(b % 32, 1, 0, 0x80, 0xbf), [])
    else if 0xe0 <= b <= 0xef then (State(b % 16, 2, 0, if b == 0xe0 then 0xa0 else 0x80, if b == 0xed then 0x9f else 0xbf), [])
    else if 0xf0 <= b <= 0xf4 then (State(b % 8, 3, 0, if b == 0xf0 then 0x90 else 0x80, if b == 0xf4 then 0x8f else 0xbf), [])
    else (START, One(0xfffd))
  }

  /** A continuation byte in range. encoding.js:144-157. */
  function Continue(s: State, b: Byte): (r: (State, seq<Unit>))
    requires s.seen + 1 == s.needed ==> Scalar(s.code * 64 + b % 64)
  {
    var code := s.code * 64 + b % 64;
    if s.seen + 1 != s.needed then (State(code, s.needed, s.seen + 1, 0x80, 0xbf), [])
    else (START, UnitsOf(code))
  }

  /** What a state can be: never a step away from an overlong form, a surrogate, or a value past U+10FFFF. */
  predicate Reachable(s: State) {
    || s == START
    || (s.needed == 1 && s.seen == 0 && 2 <= s.code <= 31 && s.lower == 0x80 && s.upper == 0xbf)
    || (s.needed == 2 && s.seen == 0 && s.code <= 15 && s.lower == (if s.code == 0 then 0xa0 else 0x80)
        && s.upper == (if s.code == 13 then 0x9f else 0xbf))
    || (s.needed == 2 && s.seen == 1 && 32 <= s.code < 1024 && !(864 <= s.code < 896) && s.lower == 0x80 && s.upper == 0xbf)
    || (s.needed == 3 && s.seen == 0 && s.code <= 4 && s.lower == (if s.code == 0 then 0x90 else 0x80)
        && s.upper == (if s.code == 4 then 0x8f else 0xbf))
    || (s.needed == 3 && s.seen == 1 && 16 <= s.code < 272 && s.lower == 0x80 && s.upper == 0xbf)
    || (s.needed == 3 && s.seen == 2 && 1024 <= s.code < 17408 && s.lower == 0x80 && s.upper == 0xbf)
  }

  lemma LeadReachable(b: Byte)
    ensures Reachable(Lead(b).0)
  {
  }

  lemma ContinueReachable(s: State, b: Byte)
    requires Reachable(s) && s.needed != 0 && s.lower <= b <= s.upper
    ensures s.seen + 1 == s.needed ==> Scalar(s.code * 64 + b % 64)
    ensures Reachable(Continue(s, b).0)
  {
  }

  /** One byte, reconsidered as a lead when it ends a sequence early. */
  function Feed(s: State, b: Byte): (r: (State, seq<Unit>))
    requires Reachable(s)
    ensures Reachable(r.0)
  {
    LeadReachable(b);
    if s.needed == 0 then Lead(b)
    else if b < s.lower || b > s.upper then (Lead(b).0, [0xfffd] + Lead(b).1)
    else
      ContinueReachable(s, b);
      Continue(s, b)
  }

  function Run(s: State, b: seq<Byte>): (r: (State, seq<Unit>))
    requires Reachable(s)
    ensures Reachable(r.0)
    decreases |b|
  {
    if b == [] then (s, [])
    else
      var one := Feed(s, b[0]);
      var rest := Run(one.0, b[1..]);
      (rest.0, one.1 + rest.1)
  }

  /** A sequence still open at the end is one error. */
  function Decoded(b: seq<Byte>): (text: seq<Unit>) {
    var r := Run(START, b);
    r.1 + if r.0.needed != 0 then [0xfffd] else []
  }

  /**
   * `decodeUTF8`. A byte outside the expected range closes the sequence and is looked at again, the
   * index stepped back; that can happen once a byte, since by then nothing is needed. encoding.js:99-162.
   */
  method DecodeUTF8(bytes: seq<Byte>) returns (out: seq<Unit>)
    ensures out == Decoded(bytes)
  {
    hide Reachable, Run, Feed;
    out := [];
    var s := START;
    var i := 0;
    StartReachable();
    assert bytes[0..] == bytes;
    while i < |bytes|
      invariant 0 <= i <= |bytes| && Reachable(s)
      invariant Run(START, bytes).0 == Run(s, bytes[i..]).0 && Run(START, bytes).1 == out + Run(s, bytes[i..]).1
      decreases |bytes| - i, s.needed
    {
      var byte := bytes[i];
      assert bytes[i..][0] == byte && bytes[i..][1..] == bytes[i + 1..];
      RunNext(s, bytes[i..]);
      if s.needed == 0 {
        var lead := Lead(byte);
        out := out + lead.1;
        s := lead.0;
        i := i + 1;
        continue;
      }
      if byte < s.lower || byte > s.upper {
        s := START;
        out := out + [0xfffd];
        i := i - 1;
        i := i + 1;
        continue;
      }
      var next := Continue(s, byte);
      out := out + next.1;
      s := next.0;
      i := i + 1;
    }
    RunNone(s);
    if s.needed != 0 { out := out + [0xfffd]; }
  }

  /** What the next byte does, by the three cases of the loop. */
  lemma RunNext(s: State, rest: seq<Byte>)
    requires Reachable(s) && rest != []
    ensures Reachable(START) && Reachable(Lead(rest[0]).0)
    ensures s.needed == 0 ==>
      Run(s, rest).0 == Run(Lead(rest[0]).0, rest[1..]).0 && Run(s, rest).1 == Lead(rest[0]).1 + Run(Lead(rest[0]).0, rest[1..]).1
    ensures s.needed != 0 && (rest[0] < s.lower || rest[0] > s.upper) ==>
      Run(s, rest).0 == Run(START, rest).0 && Run(s, rest).1 == [0xfffd] + Run(START, rest).1
    ensures s.needed != 0 && s.lower <= rest[0] <= s.upper ==>
      && (s.seen + 1 == s.needed ==> Scalar(s.code * 64 + rest[0] % 64))
      && Reachable(Continue(s, rest[0]).0)
      && Run(s, rest).0 == Run(Continue(s, rest[0]).0, rest[1..]).0
      && Run(s, rest).1 == Continue(s, rest[0]).1 + Run(Continue(s, rest[0]).0, rest[1..]).1
  {
    hide Run;
    RunStep(s, rest);
    RunStep(START, rest) by { StartReachable(); }
    FeedCases(s, rest[0]);
    FeedCases(START, rest[0]);
  }

  lemma RunStep(s: State, rest: seq<Byte>)
    requires Reachable(s) && rest != []
    ensures Run(s, rest).0 == Run(Feed(s, rest[0]).0, rest[1..]).0
    ensures Run(s, rest).1 == Feed(s, rest[0]).1 + Run(Feed(s, rest[0]).0, rest[1..]).1
  {
    hide Feed, Reachable;
  }

  lemma FeedCases(s: State, b: Byte)
    requires Reachable(s)
    ensures Reachable(START) && Reachable(Lead(b).0)
    ensures s.needed == 0 ==> Feed(s, b) == Lead(b)
    ensures s.needed != 0 && (b < s.lower || b > s.upper) ==> Feed(s, b).0 == Lead(b).0 && Feed(s, b).1 == [0xfffd] + Lead(b).1
    ensures s.needed != 0 && s.lower <= b <= s.upper ==>
      && (s.seen + 1 == s.needed ==> Scalar(s.code * 64 + b % 64))
      && Reachable(Continue(s, b).0) && Feed(s, b) == Continue(s, b)
  {
    StartReachable();
    LeadReachable(b);
    if s.needed != 0 && s.lower <= b <= s.upper {
      ContinueReachable(s, b);
    }
    hide Reachable, Lead, Continue, Scalar;
  }

  lemma StartReachable()
    ensures Reachable(START)
  {
  }

  // ---- Round trips -----------------------------------------------------------------------------

  lemma {:induction false} RunConcat(s: State, a: seq<Byte>, b: seq<Byte>)
    requires Reachable(s)
    ensures Run(s, a + b).0 == Run(Run(s, a).0, b).0 && Run(s, a + b).1 == Run(s, a).1 + Run(Run(s, a).0, b).1
    decreases |a|
  {
    hide Reachable, Feed;
    if a == [] {
      assert a + b == b;
    } else {
      assert (a + b)[1..] == a[1..] + b;
      RunConcat(Feed(s, a[0]).0, a[1..], b);
    }
  }

  lemma RunOne(s: State, b: Byte, rest: seq<Byte>)
    requires Reachable(s)
    ensures Run(s, [b] + rest).0 == Run(Feed(s, b).0, rest).0 && Run(s, [b] + rest).1 == Feed(s, b).1 + Run(Feed(s, b).0, rest).1
  {
    assert ([b] + rest)[1..] == rest;
  }

  /** From rest, the bytes of a code point yield exactly its units, and rest again. */
  lemma RunCode(c: nat)
    requires Scalar(c)
    ensures Reachable(START) && Run(START, EncodeCode(c)).0 == START && Run(START, EncodeCode(c)).1 == UnitsOf(c)
  {
    var b := EncodeCode(c);
    if c < 0x80 {
      RunOne(START, b[0], []);
    } else if c < 0x800 {
      TwoBytes(c);
    } else if c < 0x10000 {
      ThreeBytes(c);
    } else {
      FourBytes(c);
    }
  }

  lemma TwoBytes(c: nat)
    requires 0x80 <= c < 0x800
    ensures Run(START, EncodeCode(c)).0 == START && Run(START, EncodeCode(c)).1 == UnitsOf(c)
  {
    var s := State(c / 64, 1, 0, 0x80, 0xbf);
    assert EncodeCode(c) == [0xc0 + c / 64] + ([0x80 + c % 64] + []);
    assert Feed(START, 0xc0 + c / 64).0 == s && Feed(START, 0xc0 + c / 64).1 == [];
    LastByte(s, c % 64, c);
    hide Feed, Reachable, Run, UnitsOf, EncodeCode;
    RunOne(START, 0xc0 + c / 64, [0x80 + c % 64] + []);
    RunOne(s, 0x80 + c % 64, []);
    RunNone(START);
  }

  /** Base-64 digits. */
  lemma Digits(c: nat)
    ensures c / 64 == c / 4096 * 64 + c / 64 % 64 && c == c / 64 * 64 + c % 64
    ensures c / 4096 == c / 262144 * 64 + c / 4096 % 64
  {
  }

  lemma Continuation(d: nat)
    requires d < 64
    ensures (0x80 + d) % 64 == d
  {
  }

  lemma ThreeBytes(c: nat)
    requires 0x800 <= c < 0x10000 && Scalar(c)
    ensures Run(START, EncodeCode(c)).0 == START && Run(START, EncodeCode(c)).1 == UnitsOf(c)
  {
    var h, m, l := c / 4096, c / 64 % 64, c % 64;
    Digits(c);
    Continuation(m);
    Continuation(l);
    assert EncodeCode(c) == [0xe0 + h] + ([0x80 + m] + ([0x80 + l] + []));
    var s1 := State(h, 2, 0, if h == 0 then 0xa0 else 0x80, if h == 13 then 0x9f else 0xbf);
    var s2 := State(h * 64 + m, 2, 1, 0x80, 0xbf);
    LeadThree(h);
    SecondOfThree(h, m);
    LastByte(s2, l, c);
    hide Feed, Reachable, UnitsOf, EncodeCode, Run;
    RunOne(START, 0xe0 + h, [0x80 + m] + ([0x80 + l] + []));
    RunOne(s1, 0x80 + m, [0x80 + l] + []);
    RunOne(s2, 0x80 + l, []);
    RunNone(START);
  }

  lemma RunNone(s: State)
    requires Reachable(s)
    ensures Run(s, []) == (s, [])
  {
  }

  lemma LeadThree(h: nat)
    requires h < 16
    ensures Reachable(START)
    ensures Feed(START, 0xe0 + h).0 == State(h, 2, 0, if h == 0 then 0xa0 else 0x80, if h == 13 then 0x9f else 0xbf)
    ensures Feed(START, 0xe0 + h).1 == []
  {
  }

  lemma SecondOfThree(h: nat, m: nat)
    requires h < 16 && m < 64 && (h == 0 ==> m >= 32) && (h == 13 ==> m < 32)
    ensures var s := State(h, 2, 0, if h == 0 then 0xa0 else 0x80, if h == 13 then 0x9f else 0xbf);
      && Reachable(s)
      && Feed(s, 0x80 + m).0 == State(h * 64 + m, 2, 1, 0x80, 0xbf) && Feed(s, 0x80 + m).1 == []
  {
    Continuation(m);
  }

  /** The byte that completes a sequence. */
  lemma LastByte(s: State, l: nat, c: nat)
    requires Reachable(s) && s.needed > 0 && s.seen + 1 == s.needed && l < 64 && c == s.code * 64 + l && s.lower == 0x80 && s.upper == 0xbf
    ensures Scalar(c) && Feed(s, 0x80 + l).0 == START && Feed(s, 0x80 + l).1 == UnitsOf(c)
  {
    Continuation(l);
  }

  lemma FourBytes(c: nat)
    requires 0x10000 <= c && Scalar(c)
    ensures Run(START, EncodeCode(c)).0 == START && Run(START, EncodeCode(c)).1 == UnitsOf(c)
  {
    FourDigits(c);
    FourShape(c);
    hide *;
    FourOf(c / 262144, c / 4096 % 64, c / 64 % 64, c % 64, c);
  }

  lemma FourOf(t: nat, h: nat, m: nat, l: nat, c: nat)
    requires t <= 4 && h < 64 && m < 64 && l < 64 && (t == 0 ==> h >= 16) && (t == 4 ==> h < 16)
    requires c == ((t * 64 + h) * 64 + m) * 64 + l && Scalar(c)
    ensures var b := [0xf0 + t] + ([0x80 + h] + ([0x80 + m] + ([0x80 + l] + [])));
      Run(START, b).0 == START && Run(START, b).1 == UnitsOf(c)
  {
    hide *;
    var s1 := State(t, 3, 0, if t == 0 then 0x90 else 0x80, if t == 4 then 0x8f else 0xbf);
    var s2 := State(t * 64 + h, 3, 1, 0x80, 0xbf);
    var s3 := State((t * 64 + h) * 64 + m, 3, 2, 0x80, 0xbf);
    LeadFour(t);
    SecondOfFour(t, h);
    ThirdOfFour(t * 64 + h, m);
    LastByte(s3, l, c);
    RunFour(0xf0 + t, 0x80 + h, 0x80 + m, 0x80 + l, s1, s2, s3, UnitsOf(c));
  }

  lemma FourShape(c: nat)
    requires 0x10000 <= c && Scalar(c)
    ensures EncodeCode(c) == [0xf0 + c / 262144] + ([0x80 + c / 4096 % 64] + ([0x80 + c / 64 % 64] + ([0x80 + c % 64] + [])))
  {
  }

  lemma RunFour(b0: Byte, b1: Byte, b2: Byte, b3: Byte, s1: State, s2: State, s3: State, out: seq<Unit>)
    requires Reachable(START) && Reachable(s1) && Reachable(s2) && Reachable(s3)
    requires Feed(START, b0).0 == s1 && Feed(START, b0).1 == [] && Feed(s1, b1).0 == s2 && Feed(s1, b1).1 == []
    requires Feed(s2, b2).0 == s3 && Feed(s2, b2).1 == [] && Feed(s3, b3).0 == START && Feed(s3, b3).1 == out
    ensures var b := [b0] + ([b1] + ([b2] + ([b3] + [])));
      Run(START, b).0 == START && Run(START, b).1 == out
  {
    hide Feed, Reachable, Run;
    RunNone(START);
    RunOne(s3, b3, []);
    RunOne(s2, b2, [b3] + []);
    RunOne(s1, b1, [b2] + ([b3] + []));
    RunOne(START, b0, [b1] + ([b2] + ([b3] + [])));
  }

  lemma FourDigits(c: nat)
    requires 0x10000 <= c < 0x110000
    ensures var t, h, m, l := c / 262144, c / 4096 % 64, c / 64 % 64, c % 64;
      && t <= 4 && h < 64 && m < 64 && l < 64 && (t == 0 ==> h >= 16) && (t == 4 ==> h < 16)
      && c == ((t * 64 + h) * 64 + m) * 64 + l && 16 <= t * 64 + h < 272
  {
    Digits(c);
  }

  lemma LeadFour(t: nat)
    requires t <= 4
    ensures Reachable(START)
    ensures Feed(START, 0xf0 + t).0 == State(t, 3, 0, if t == 0 then 0x90 else 0x80, if t == 4 then 0x8f else 0xbf)
    ensures Feed(START, 0xf0 + t).1 == []
  {
  }

  lemma SecondOfFour(t: nat, h: nat)
    requires t <= 4 && h < 64 && (t == 0 ==> h >= 16) && (t == 4 ==> h < 16)
    ensures var s := State(t, 3, 0, if t == 0 then 0x90 else 0x80, if t == 4 then 0x8f else 0xbf);
      && Reachable(s)
      && Feed(s, 0x80 + h).0 == State(t * 64 + h, 3, 1, 0x80, 0xbf) && Feed(s, 0x80 + h).1 == []
  {
    Continuation(h);
  }

  lemma ThirdOfFour(code: nat, m: nat)
    requires 16 <= code < 272 && m < 64
    ensures var s := State(code, 3, 1, 0x80, 0xbf);
      && Reachable(s)
      && Feed(s, 0x80 + m).0 == State(code * 64 + m, 3, 2, 0x80, 0xbf) && Feed(s, 0x80 + m).1 == []
      && Reachable(State(code * 64 + m, 3, 2, 0x80, 0xbf))
  {
    Continuation(m);
  }

  lemma {:induction false} RunAll(cs: seq<nat>)
    requires forall c :: c in cs ==> Scalar(c)
    ensures Reachable(START) && Run(START, EncodeAll(cs)).0 == START && Run(START, EncodeAll(cs)).1 == AllUnits(cs)
  {
    hide Feed, EncodeCode, UnitsOf;
    if cs != [] {
      RunCode(cs[0]);
      RunConcat(START, EncodeCode(cs[0]), EncodeAll(cs[1..]));
      RunAll(cs[1..]);
    }
  }

  /** A surrogate that is not half of a pair. */
  predicate Lone(text: seq<Unit>, i: nat)
    requires i < |text|
  {
    (High(text[i]) && !(i + 1 < |text| && Low(text[i + 1]))) || (Low(text[i]) && !(i > 0 && High(text[i - 1])))
  }

  /** The text with every lone surrogate replaced. */
  function Repaired(text: seq<Unit>): (r: seq<Unit>)
    ensures |r| == |text|
  {
    seq<Unit>(|text|, i requires 0 <= i < |text| => if Lone(text, i) then 0xfffd else text[i])
  }

  lemma RepairedNext(text: seq<Unit>)
    requires text != []
    ensures Repaired(text) == UnitsOf(First(text)) + Repaired(text[Taken(text)..])
  {
    var k := Taken(text);
    var rest := text[k..];
    assert UnitsOf(First(text)) == Repaired(text)[..k];
    forall i: nat | i < |rest| ensures Lone(rest, i) <==> Lone(text, i + k) {
    }
  }

  lemma {:induction false} UnitsOfCodePoints(text: seq<Unit>)
    ensures AllUnits(CodePoints(text)) == Repaired(text)
    decreases |text|
  {
    if text == [] {
    } else {
      UnitsOfCodePoints(text[Taken(text)..]);
      RepairedNext(text);
      hide First, UnitsOf, Repaired, Taken;
      assert CodePoints(text)[1..] == CodePoints(text[Taken(text)..]);
    }
  }

  /** Decoding what was encoded gives the text back, lone surrogates replaced. */
  lemma DecodeOfEncode(text: seq<Unit>)
    ensures Decoded(Encoded(text)) == Repaired(text)
  {
    RunAll(CodePoints(text));
    UnitsOfCodePoints(text);
  }

  /** The encoder writes nothing but valid UTF-8. */
  lemma EncodedIsValid(text: seq<Unit>)
    ensures ValidUtf8(Encoded(text))
  {
    assert Encoded(text) == EncodeAll(CodePoints(text));
  }

  /** The first code point of the units of code points, and how many units it took. */
  lemma FirstOfUnits(c: nat, rest: seq<Unit>)
    requires Scalar(c)
    ensures First(UnitsOf(c) + rest) == c && Taken(UnitsOf(c) + rest) == |UnitsOf(c)|
  {
    if c > 0xffff {
      var v := c - 0x10000;
      assert v == v / 1024 * 1024 + v % 1024;
    }
  }

  lemma {:induction false} CodePointsOfUnits(cs: seq<nat>)
    requires forall c :: c in cs ==> Scalar(c)
    ensures CodePoints(AllUnits(cs)) == cs
  {
    if cs != [] {
      var text, rest := AllUnits(cs), AllUnits(cs[1..]);
      FirstOfUnits(cs[0], rest);
      CodePointsOfUnits(cs[1..]);
      assert text[|UnitsOf(cs[0])|..] == rest;
      assert CodePoints(text) == [cs[0]] + CodePoints(rest);
    }
  }

  /** Encoding what was decoded gives valid bytes back. */
  lemma EncodeOfDecode(b: seq<Byte>)
    requires ValidUtf8(b)
    ensures Encoded(Decoded(b)) == b
  {
    var cs: seq<nat> :| (forall c :: c in cs ==> Scalar(c)) && b == EncodeAll(cs);
    RunAll(cs);
    CodePointsOfUnits(cs);
    assert Decoded(b) == AllUnits(cs);
  }

  // ---- Whatever comes in -------------------------------------------------------------------------

  /** Well-formed UTF-16: surrogates only in pairs. */
  ghost predicate WellFormed(text: seq<Unit>) {
    forall i: nat :: i < |text| ==> !Lone(text, i)
  }

  lemma WellFormedConcat(a: seq<Unit>, b: seq<Unit>)
    requires WellFormed(a) && WellFormed(b)
    ensures WellFormed(a + b)
  {
    var t := a + b;
    forall i: nat | i < |t| ensures !Lone(t, i) {
      if i < |a| {
        assert !Lone(a, i);
      } else {
        assert !Lone(b, i - |a|);
        if i == |a| && a != [] { assert !Lone(a, |a| - 1); }
      }
    }
  }

  lemma UnitsWellFormed(c: nat)
    requires Scalar(c)
    ensures WellFormed(UnitsOf(c))
  {
  }

  lemma FeedWellFormed(s: State, b: Byte)
    requires Reachable(s)
    ensures WellFormed(Feed(s, b).1)
  {
    if s.needed != 0 && s.lower <= b <= s.upper {
      ContinueReachable(s, b);
      if s.seen + 1 == s.needed {
        UnitsWellFormed(s.code * 64 + b % 64);
      }
    }
    hide Reachable;
  }

  lemma {:induction false} RunWellFormed(s: State, b: seq<Byte>)
    requires Reachable(s)
    ensures WellFormed(Run(s, b).1)
    decreases |b|
  {
    hide Reachable, Feed, WellFormed;
    if b == [] {
      EmptyWellFormed();
    } else {
      FeedWellFormed(s, b[0]);
      RunWellFormed(Feed(s, b[0]).0, b[1..]);
      WellFormedConcat(Feed(s, b[0]).1, Run(Feed(s, b[0]).0, b[1..]).1);
    }
  }

  lemma EmptyWellFormed()
    ensures WellFormed([])
  {
  }

  /** Any bytes at all decode to well-formed text, which then survives encoding and decoding. */
  lemma DecodedIsWellFormed(b: seq<Byte>)
    ensures WellFormed(Decoded(b))
    ensures Decoded(Encoded(Decoded(b))) == Decoded(b)
  {
    StartReachable();
    RunWellFormed(START, b);
    var r := Run(START, b);
    assert WellFormed([0xfffd]);
    WellFormedConcat(r.1, [0xfffd]);
    assert r.1 + [] == r.1;
    DecodeOfEncode(Decoded(b));
    NothingToRepair(Decoded(b));
  }

  lemma NothingToRepair(text: seq<Unit>)
    requires WellFormed(text)
    ensures Repaired(text) == text
  {
    hide Lone;
  }
}
