/** Monero's base58: eight bytes to eleven characters, block by block, and one shorter block at the end. */
module Base58 {
  import opened Bytes
  import opened Radix

  datatype Problem = WrongLength | NotInAlphabet(c: char) | Overflows

  datatype Result<T> = Ok(value: T) | Refused(problem: Problem)

  ghost predicate IsAlphabet(alphabet: string) {
    |alphabet| == 58 && Distinct(alphabet)
  }

  /** monero.ts:176: how many characters a block of n bytes takes. */
  function BlockChars(n: nat): (chars: nat)
    requires n <= 8
  {
    [0, 2, 3, 5, 6, 7, 9, 10, 11][n]
  }

  lemma {:induction false} PowerAdds(base: nat, j: nat, k: nat)
    ensures Power(base, j + k) == Power(base, j) * Power(base, k)
  {
    if k > 0 {
      PowerAdds(base, j, k - 1);
      Regroup(Power(base, j), Power(base, k - 1), base);
    }
  }

  lemma Regroup(a: nat, b: nat, c: nat)
    ensures a * b * c == a * (b * c)
  {
  }

  lemma SmallPowers()
    ensures Power(256, 0) == 1 && Power(256, 1) == 0x100 && Power(256, 2) == 0x10000 && Power(256, 4) == 0x1_0000_0000
    ensures Power(58, 0) == 1 && Power(58, 1) == 58 && Power(58, 2) == 3364 && Power(58, 3) == 195112 && Power(58, 5) == 656356768
  {
  }

  lemma Products(base: nat)
    ensures Power(base, 3) == Power(base, 2) * Power(base, 1)
    ensures Power(base, 5) == Power(base, 3) * Power(base, 2)
    ensures Power(base, 6) == Power(base, 3) * Power(base, 3)
    ensures Power(base, 7) == Power(base, 5) * Power(base, 2)
    ensures Power(base, 8) == Power(base, 5) * Power(base, 3)
    ensures Power(base, 9) == Power(base, 6) * Power(base, 3)
    ensures Power(base, 10) == Power(base, 5) * Power(base, 5)
    ensures Power(base, 11) == Power(base, 6) * Power(base, 5)
  {
    hide Power;
    PowerAdds(base, 2, 1);
    PowerAdds(base, 3, 2);
    PowerAdds(base, 3, 3);
    PowerAdds(base, 5, 2);
    PowerAdds(base, 5, 3);
    PowerAdds(base, 6, 3);
    PowerAdds(base, 5, 5);
    PowerAdds(base, 6, 5);
  }

  /** The characters of a block always have room for its bytes. */
  lemma BlockHasRoom(n: nat)
    requires n <= 8
    ensures Power(256, n) <= Power(58, BlockChars(n))
  {
    hide Power;
    SmallPowers();
    Products(58);
    Products(256);
    PowerAdds(256, 4, 4);
  }

  /** And one character fewer would not do, so every entry of the table is forced. */
  lemma BlockIsTight(n: nat, chars: nat)
    requires n <= 8
    ensures 1 <= n ==> Power(58, BlockChars(n) - 1) < Power(256, n)
    ensures Power(256, n) <= Power(58, chars) <==> BlockChars(n) <= chars
  {
    hide Power;
    SmallPowers();
    Products(58);
    Products(256);
    PowerAdds(256, 4, 4);
    PowerAdds(58, 3, 1);
    PowerAdds(58, 5, 1);
    PowerAdds(58, 5, 3);
    if chars >= BlockChars(n) {
      PowersGrow(58, BlockChars(n), chars);
    } else {
      PowersGrow(58, chars, BlockChars(n) - 1);
    }
  }

  lemma {:induction false} PowersGrow(base: nat, j: nat, k: nat)
    requires base >= 1 && j <= k
    ensures 1 <= Power(base, j) <= Power(base, k)
    decreases k
  {
    if j < k {
      PowersGrow(base, j, k - 1);
      Larger(Power(base, k - 1), base);
    } else if k > 0 {
      PowersGrow(base, k - 1, k - 1);
      Larger(Power(base, k - 1), base);
    }
  }

  lemma Larger(a: nat, base: nat)
    requires a >= 1 && base >= 1
    ensures a * base >= a
  {
  }

  /** BLOCK_CHARS.indexOf: how many bytes so many characters make, or a negative number. */
  function BlockBytes(chars: nat): (n: int)
    ensures n <= 8 && (n >= 0 ==> BlockChars(n) == chars)
    ensures n < 0 ==> forall m: nat :: m <= 8 ==> BlockChars(m) != chars
  {
    match chars
    case 0 => 0
    case 2 => 1
    case 3 => 2
    case 5 => 3
    case 6 => 4
    case 7 => 5
    case 9 => 6
    case 10 => 7
    case 11 => 8
    case _ => -1
  }

  // ---- One block -----------------------------------------------------------------------

  /** The text writes the block's number in as many characters as the block takes. */
  ghost predicate BlockSpells(alphabet: string, text: string, bytes: seq<Byte>)
    requires IsAlphabet(alphabet)
  {
    && |bytes| <= 8 && |text| == BlockChars(|bytes|) && Spellable(alphabet, text)
    && Value(Digits(alphabet, text), 58) == Value(bytes, 256)
  }

  lemma BlockHasOneMeaning(alphabet: string, text: string, a: seq<Byte>, b: seq<Byte>)
    requires IsAlphabet(alphabet) && BlockSpells(alphabet, text, a) && BlockSpells(alphabet, text, b)
    ensures a == b
  {
    hide Value, Digits;
    SameLength(a, b, 256);
  }

  lemma BlockHasOneSpelling(alphabet: string, bytes: seq<Byte>, s: string, t: string)
    requires IsAlphabet(alphabet) && BlockSpells(alphabet, s, bytes) && BlockSpells(alphabet, t, bytes)
    ensures s == t
  {
    hide Value, Digits;
    SameLength(Digits(alphabet, s), Digits(alphabet, t), 58);
    DigitsTellApart(alphabet, s, t);
  }

  /** monero.ts:178-189. */
  method EncodeBlock(alphabet: string, bytes: seq<Byte>) returns (r: Result<string>)
    requires IsAlphabet(alphabet)
    ensures |bytes| > 8 ==> r == Refused(WrongLength)
    ensures |bytes| <= 8 ==> r.Ok? && BlockSpells(alphabet, r.value, bytes)
  {
    hide Value, Minimal, Digits, Quotient, Remainder, Distinct, BlockSpells, BlockChars;
    if |bytes| > 8 {
      return Refused(WrongLength);
    }
    var chars := BlockChars(|bytes|);
    var n: nat := 0;
    var i := 0;
    EmptyValue(256);
    while i < |bytes|
      invariant i <= |bytes| && n == Value(bytes[..i], 256)
    {
      ValueOfNext(bytes, 256, i);
      n := n * 256 + bytes[i];
      i := i + 1;
    }
    assert bytes[..i] == bytes;
    ghost var value := n;
    var out := "";
    ghost var digits: seq<nat> := [];
    while n > 0
      invariant InBase(digits, 58) && out == Characters(alphabet, digits)
      invariant Minimal(value, 58) == Minimal(n, 58) + digits
    {
      MinimalNext(n, 58, digits);
      var digit := Remainder(n, 58);
      digits := [digit] + digits;
      out := [alphabet[digit]] + out;
      n := Quotient(n, 58);
    }
    MinimalOfZero(58);
    assert [] + digits == digits;
    Padded(alphabet, bytes, digits);
    return Ok(seq(chars - |out|, k => alphabet[0]) + out);
  }

  lemma Padded(alphabet: string, bytes: seq<Byte>, digits: seq<nat>)
    requires IsAlphabet(alphabet) && |bytes| <= 8 && InBase(digits, 58) && digits == Minimal(Value(bytes, 256), 58)
    ensures |digits| <= BlockChars(|bytes|)
    ensures BlockSpells(alphabet, seq(BlockChars(|bytes|) - |digits|, k => alphabet[0]) + Characters(alphabet, digits), bytes)
  {
    hide Value, Minimal, Digits, Power, Distinct, BlockChars;
    ValueBound(bytes, 256);
    BlockHasRoom(|bytes|);
    MinimalIsShort(Value(bytes, 256), 58, BlockChars(|bytes|));
    var z := BlockChars(|bytes|) - |digits|;
    assert seq(z, k => alphabet[0]) + Characters(alphabet, digits) == Characters(alphabet, Zeros(z) + digits);
    DigitsOfCharacters(alphabet, Zeros(z) + digits);
    ZerosAddNothing(z, digits, 58);
    ValueOfMinimal(Value(bytes, 256), 58);
  }

  /** monero.ts:191-207: a block is read exactly when it spells some bytes, and then as those. */
  method DecodeBlock(alphabet: string, text: string) returns (r: Result<seq<Byte>>)
    requires IsAlphabet(alphabet)
    ensures r.Ok? <==> exists b :: BlockSpells(alphabet, text, b)
    ensures r.Ok? ==> BlockSpells(alphabet, text, r.value)
    ensures r == Refused(WrongLength) <==> BlockBytes(|text|) < 0
    ensures r.Refused? && r.problem.NotInAlphabet? ==> r.problem.c in text && r.problem.c !in alphabet
    ensures r == Refused(Overflows) ==>
      Spellable(alphabet, text) && BlockBytes(|text|) >= 0 && Value(Digits(alphabet, text), 58) >= Power(256, BlockBytes(|text|))
  {
    hide Value, Digits, Distinct, BlockChars, Fixed, Quotient, Remainder, Power;
    var length := BlockBytes(|text|);
    if length < 0 {
      return Refused(WrongLength);
    }
    var n: nat := 0;
    var i := 0;
    EmptyDigits(alphabet);
    while i < |text|
      invariant i <= |text| && Spellable(alphabet, text[..i]) && n == Value(Digits(alphabet, text[..i]), 58)
    {
      var index := IndexOf(alphabet, text[i]);
      if index < 0 {
        return Refused(NotInAlphabet(text[i]));
      }
      DigitsOfNext(alphabet, text, i);
      n := n * 58 + index;
      i := i + 1;
    }
    assert text[..i] == text;
    if n >= Power(256, length) {
      forall b ensures !BlockSpells(alphabet, text, b) {
        TooLarge(alphabet, text, b, length);
      }
      return Refused(Overflows);
    }
    ValueOfFixed(n, 256, length);
    ghost var value := n;
    var out := new Byte[length];
    i := length;
    while i > 0
      invariant 0 <= i <= length
      invariant Fixed(value, 256, length) == Fixed(n, 256, i) + out[i..]
    {
      FixedNext(n, 256, i, out[i..]);
      i := i - 1;
      out[i] := Remainder(n, 256);
      assert out[i..] == [Remainder(n, 256)] + out[i + 1..];
      n := Quotient(n, 256);
    }
    FixedNone(n, 256);
    assert out[..] == [] + out[0..];
    assert BlockSpells(alphabet, text, out[..]);
    return Ok(out[..]);
  }

  lemma EmptyDigits(alphabet: string)
    ensures Digits(alphabet, "") == [] && Value([], 58) == 0 && ""[..0] == ""
  {
  }

  lemma TooLarge(alphabet: string, text: string, b: seq<Byte>, length: nat)
    requires IsAlphabet(alphabet) && Spellable(alphabet, text) && length <= 8 && BlockChars(length) == |text|
    requires Value(Digits(alphabet, text), 58) >= Power(256, length)
    ensures !BlockSpells(alphabet, text, b)
  {
    hide Value, Digits, Power;
    ValueBound(b, 256);
  }

  lemma FixedNext(n: nat, base: nat, k: nat, rest: seq<nat>)
    requires base > 1 && k > 0
    ensures Fixed(n, base, k) + rest == Fixed(Quotient(n, base), base, k - 1) + ([Remainder(n, base)] + rest)
  {
    hide Quotient, Remainder;
  }

  lemma FixedNone(n: nat, base: nat)
    requires base > 1
    ensures Fixed(n, base, 0) == []
  {
  }

  // ---- Block after block -------------------------------------------------------------------

  ghost predicate Spells(alphabet: string, text: string, bytes: seq<Byte>)
    requires IsAlphabet(alphabet)
    decreases |bytes|
  {
    if |bytes| < 8 then BlockSpells(alphabet, text, bytes)
    else |text| >= 11 && BlockSpells(alphabet, text[..11], bytes[..8]) && Spells(alphabet, text[11..], bytes[8..])
  }

  lemma OnlyEightTakeEleven(n: nat)
    requires n <= 8
    ensures BlockChars(n) <= 11 && (BlockChars(n) == 11 <==> n == 8) && (BlockChars(n) == 0 <==> n == 0)
  {
  }

  lemma {:induction false} LengthsAgree(alphabet: string, text: string, bytes: seq<Byte>)
    requires IsAlphabet(alphabet) && Spells(alphabet, text, bytes)
    ensures |bytes| >= 8 <==> |text| >= 11
    ensures |bytes| == 0 <==> |text| == 0
  {
    hide Value, Digits, BlockChars;
    if |bytes| < 8 {
      OnlyEightTakeEleven(|bytes|);
    }
  }

  lemma {:induction false} TextHasOneMeaning(alphabet: string, text: string, a: seq<Byte>, b: seq<Byte>)
    requires IsAlphabet(alphabet) && Spells(alphabet, text, a) && Spells(alphabet, text, b)
    ensures a == b
    decreases |a|
  {
    hide BlockSpells;
    LengthsAgree(alphabet, text, a);
    LengthsAgree(alphabet, text, b);
    if |a| < 8 {
      BlockHasOneMeaning(alphabet, text, a, b);
    } else {
      BlockHasOneMeaning(alphabet, text[..11], a[..8], b[..8]);
      TextHasOneMeaning(alphabet, text[11..], a[8..], b[8..]);
      assert a == a[..8] + a[8..] && b == b[..8] + b[8..];
    }
  }

  lemma {:induction false} BytesHaveOneSpelling(alphabet: string, bytes: seq<Byte>, s: string, t: string)
    requires IsAlphabet(alphabet) && Spells(alphabet, s, bytes) && Spells(alphabet, t, bytes)
    ensures s == t
    decreases |bytes|
  {
    hide BlockSpells;
    if |bytes| < 8 {
      BlockHasOneSpelling(alphabet, bytes, s, t);
    } else {
      BlockHasOneSpelling(alphabet, bytes[..8], s[..11], t[..11]);
      BytesHaveOneSpelling(alphabet, bytes[8..], s[11..], t[11..]);
      assert s == s[..11] + s[11..] && t == t[..11] + t[11..];
    }
  }

  lemma OneBlock(alphabet: string, text: string, bytes: seq<Byte>)
    requires IsAlphabet(alphabet) && BlockSpells(alphabet, text, bytes)
    ensures Spells(alphabet, text, bytes)
  {
    hide Value, Digits;
    if |bytes| == 8 {
      assert text[..11] == text && bytes[..8] == bytes && text[11..] == "" && bytes[8..] == [];
      EmptySpells(alphabet);
    }
  }

  lemma EmptySpells(alphabet: string)
    requires IsAlphabet(alphabet)
    ensures Spells(alphabet, "", [])
  {
  }

  /** A block may follow whole blocks. */
  lemma {:induction false} ThenBlock(alphabet: string, text: string, bytes: seq<Byte>, u: string, b: seq<Byte>, blocks: nat)
    requires IsAlphabet(alphabet) && Spells(alphabet, text, bytes) && |bytes| == 8 * blocks && BlockSpells(alphabet, u, b)
    ensures Spells(alphabet, text + u, bytes + b)
    decreases blocks
  {
    hide BlockSpells;
    if blocks == 0 {
      LengthsAgree(alphabet, text, bytes);
      assert text + u == u && bytes + b == b;
      OneBlock(alphabet, u, b);
    } else {
      ThenBlock(alphabet, text[11..], bytes[8..], u, b, blocks - 1);
      assert (text + u)[..11] == text[..11] && (text + u)[11..] == text[11..] + u;
      assert (bytes + b)[..8] == bytes[..8] && (bytes + b)[8..] == bytes[8..] + b;
    }
  }

  /** A text that spells anything spells it block by block. */
  lemma {:induction false} BlockWithin(alphabet: string, text: string, bytes: seq<Byte>, blocks: nat)
    requires IsAlphabet(alphabet) && Spells(alphabet, text, bytes) && 11 * blocks < |text|
    ensures 8 * blocks < |bytes|
    ensures 11 * blocks + 11 <= |text| ==>
      8 * blocks + 8 <= |bytes| && BlockSpells(alphabet, text[11 * blocks..11 * blocks + 11], bytes[8 * blocks..8 * blocks + 8])
    ensures 11 * blocks + 11 > |text| ==> BlockSpells(alphabet, text[11 * blocks..], bytes[8 * blocks..])
    decreases blocks
  {
    hide BlockSpells;
    LengthsAgree(alphabet, text, bytes);
    if blocks == 0 {
      assert text[0..] == text && bytes[0..] == bytes && text[0..11 * 0] == [];
    } else {
      var k := blocks - 1;
      BlockWithin(alphabet, text[11..], bytes[8..], k);
      assert text[11..][11 * k..] == text[11 * blocks..] && bytes[8..][8 * k..] == bytes[8 * blocks..];
      if 11 * blocks + 11 <= |text| {
        assert text[11..][11 * k..11 * k + 11] == text[11 * blocks..11 * blocks + 11];
        assert bytes[8..][8 * k..8 * k + 8] == bytes[8 * blocks..8 * blocks + 8];
      }
    }
  }

  /** monero.ts:209-217. */
  method Encode(alphabet: string, bytes: seq<Byte>) returns (text: string)
    requires IsAlphabet(alphabet)
    ensures Spells(alphabet, text, bytes)
  {
    hide BlockSpells, Spells;
    text := "";
    var at := 0;
    ghost var blocks: nat := 0;
    EmptySpells(alphabet);
    while at + 8 <= |bytes|
      invariant at == 8 * blocks <= |bytes| && Spells(alphabet, text, bytes[..at])
    {
      var block := EncodeBlock(alphabet, bytes[at..at + 8]);
      ThenBlock(alphabet, text, bytes[..at], block.value, bytes[at..at + 8], blocks);
      assert bytes[..at] + bytes[at..at + 8] == bytes[..at + 8];
      text := text + block.value;
      at := at + 8;
      blocks := blocks + 1;
    }
    if at < |bytes| {
      var block := EncodeBlock(alphabet, bytes[at..]);
      ThenBlock(alphabet, text, bytes[..at], block.value, bytes[at..], blocks);
      assert bytes[..at] + bytes[at..] == bytes;
      text := text + block.value;
    } else {
      assert bytes[..at] == bytes;
    }
  }

  function Concat(parts: seq<seq<Byte>>): (bytes: seq<Byte>) {
    if parts == [] then [] else Concat(parts[..|parts| - 1]) + parts[|parts| - 1]
  }

  lemma ConcatNext(parts: seq<seq<Byte>>, i: nat)
    requires i < |parts|
    ensures Concat(parts[..i + 1]) == Concat(parts[..i]) + parts[i]
  {
    assert parts[..i + 1][..i] == parts[..i];
  }

  lemma ConcatPush(parts: seq<seq<Byte>>, part: seq<Byte>)
    ensures Concat(parts + [part]) == Concat(parts) + part
  {
    assert (parts + [part])[..|parts|] == parts;
  }

  /** monero.ts:226-233: the parts laid end to end in one new array. */
  method Assemble(parts: seq<seq<Byte>>) returns (bytes: seq<Byte>)
    ensures bytes == Concat(parts)
  {
    var total := 0;
    var i := 0;
    while i < |parts|
      invariant i <= |parts| && total == |Concat(parts[..i])|
    {
      ConcatNext(parts, i);
      total := total + |parts[i]|;
      i := i + 1;
    }
    assert parts[..i] == parts;
    var out := new Byte[total](_ => 0);
    var offset := 0;
    i := 0;
    while i < |parts|
      invariant i <= |parts| && offset == |Concat(parts[..i])| <= total && out[..offset] == Concat(parts[..i])
    {
      ConcatNext(parts, i);
      PrefixIsNoLonger(parts, i + 1);
      Set(out, parts[i], offset);
      offset := offset + |parts[i]|;
      i := i + 1;
    }
    assert parts[..i] == parts && out[..] == out[..offset];
    return out[..];
  }

  lemma {:induction false} PrefixIsNoLonger(parts: seq<seq<Byte>>, i: nat)
    requires i <= |parts|
    ensures |Concat(parts[..i])| <= |Concat(parts)|
    decreases |parts| - i
  {
    if i == |parts| {
      assert parts[..i] == parts;
    } else {
      ConcatNext(parts, i);
      PrefixIsNoLonger(parts, i + 1);
    }
  }

  /** Uint8Array.set. */
  method Set(out: array<Byte>, part: seq<Byte>, offset: nat)
    requires offset + |part| <= out.Length
    modifies out
    ensures out[..] == old(out[..offset]) + part + old(out[offset + |part|..])
  {
    var k := 0;
    while k < |part|
      invariant k <= |part|
      invariant out[..] == old(out[..offset]) + part[..k] + old(out[offset + k..])
    {
      out[offset + k] := part[k];
      k := k + 1;
    }
    assert part[..k] == part;
  }

  /** monero.ts:219-234: a text is read exactly when it spells some bytes, and then as those. */
  method Decode(alphabet: string, text: string) returns (r: Result<seq<Byte>>)
    requires IsAlphabet(alphabet)
    ensures r.Ok? <==> exists b :: Spells(alphabet, text, b)
    ensures r.Ok? ==> Spells(alphabet, text, r.value)
  {
    hide BlockSpells, Spells;
    var parts: seq<seq<Byte>> := [];
    var at := 0;
    ghost var blocks: nat := 0;
    EmptySpells(alphabet);
    while at + 11 <= |text|
      invariant at == 11 * blocks <= |text| && |Concat(parts)| == 8 * blocks && Spells(alphabet, text[..at], Concat(parts))
    {
      var slice := text[at..at + 11];
      var part := DecodeBlock(alphabet, slice);
      if part.Refused? {
        forall b | Spells(alphabet, text, b) ensures exists c :: BlockSpells(alphabet, slice, c) {
          BlockWithin(alphabet, text, b, blocks);
        }
        return Refused(part.problem);
      }
      WholeBlock(alphabet, slice, part.value);
      ThenBlock(alphabet, text[..at], Concat(parts), slice, part.value, blocks);
      assert text[..at] + slice == text[..at + 11];
      ConcatPush(parts, part.value);
      parts := parts + [part.value];
      at := at + 11;
      blocks := blocks + 1;
    }
    if at < |text| {
      var part := DecodeBlock(alphabet, text[at..]);
      if part.Refused? {
        forall b | Spells(alphabet, text, b) ensures exists c :: BlockSpells(alphabet, text[at..], c) {
          BlockWithin(alphabet, text, b, blocks);
        }
        return Refused(part.problem);
      }
      ThenBlock(alphabet, text[..at], Concat(parts), text[at..], part.value, blocks);
      assert text[..at] + text[at..] == text;
      ConcatPush(parts, part.value);
      parts := parts + [part.value];
    } else {
      assert text[..at] == text;
    }
    var bytes := Assemble(parts);
    return Ok(bytes);
  }

  lemma WholeBlock(alphabet: string, text: string, bytes: seq<Byte>)
    requires IsAlphabet(alphabet) && BlockSpells(alphabet, text, bytes) && |text| == 11
    ensures |bytes| == 8
  {
    OnlyEightTakeEleven(|bytes|);
  }

  // ---- Both ways round -------------------------------------------------------------------------

  /** monero.ts:209-234: any bytes come back from their text. */
  method BytesComeBack(alphabet: string, bytes: seq<Byte>) returns (r: Result<seq<Byte>>)
    requires IsAlphabet(alphabet)
    ensures r == Ok(bytes)
  {
    hide Spells;
    var text := Encode(alphabet, bytes);
    r := Decode(alphabet, text);
    TextHasOneMeaning(alphabet, text, r.value, bytes);
  }

  /** monero.ts:209-234: any text that is read is written again. */
  method TextComesBack(alphabet: string, text: string) returns (r: Result<seq<Byte>>, again: string)
    requires IsAlphabet(alphabet)
    ensures r.Ok? ==> again == text
  {
    hide Spells;
    again := "";
    r := Decode(alphabet, text);
    if r.Ok? {
      again := Encode(alphabet, r.value);
      BytesHaveOneSpelling(alphabet, r.value, again, text);
    }
  }
}
