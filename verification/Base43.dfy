/** Base43: a byte string as one large number, its leading zero bytes carried as leading zero characters. */
module Base43 {
  import opened Bytes
  import opened Radix

  ghost predicate IsAlphabet(alphabet: string) {
    |alphabet| == 43 && Distinct(alphabet)
  }

  /** The text and the bytes start with as many zeros and write the same number. */
  ghost predicate Spells(alphabet: string, text: string, bytes: seq<Byte>)
    requires IsAlphabet(alphabet)
  {
    && Spellable(alphabet, text)
    && LeadingZeros(Digits(alphabet, text)) == LeadingZeros(bytes)
    && Value(Digits(alphabet, text), 43) == Value(bytes, 256)
  }

  lemma TextHasOneMeaning(alphabet: string, text: string, a: seq<Byte>, b: seq<Byte>)
    requires IsAlphabet(alphabet) && Spells(alphabet, text, a) && Spells(alphabet, text, b)
    ensures a == b
  {
    hide Value, LeadingZeros, Minimal, Digits;
    ZerosThenMinimal(a, 256);
    ZerosThenMinimal(b, 256);
  }

  lemma BytesHaveOneSpelling(alphabet: string, bytes: seq<Byte>, s: string, t: string)
    requires IsAlphabet(alphabet) && Spells(alphabet, s, bytes) && Spells(alphabet, t, bytes)
    ensures s == t
  {
    hide Value, LeadingZeros, Minimal, Digits;
    ZerosThenMinimal(Digits(alphabet, s), 43);
    ZerosThenMinimal(Digits(alphabet, t), 43);
    DigitsTellApart(alphabet, s, t);
  }

  /** Both loops below start reading after the zeros. */
  lemma ValueOfLeading(digits: seq<nat>, base: nat)
    ensures Value(digits[..LeadingZeros(digits)], base) == 0
  {
    var z := LeadingZeros(digits);
    ZerosAddNothing(z, [], base);
    assert digits[..z] == Zeros(z) + [];
  }

  lemma LeadingIs(digits: seq<nat>, z: nat)
    requires z <= |digits| && (forall k :: 0 <= k < z ==> digits[k] == 0) && (z < |digits| ==> digits[z] != 0)
    ensures LeadingZeros(digits) == z
  {
  }

  lemma ZerosThenMinimalIs(z: nat, n: nat, base: nat)
    requires base > 1
    ensures var digits := Zeros(z) + Minimal(n, base); LeadingZeros(digits) == z && Value(digits, base) == n
  {
    hide Value, LeadingZeros, Quotient, Remainder;
    ValueOfMinimal(n, base);
    ZerosAddNothing(z, Minimal(n, base), base);
    LeadingOf(z, Minimal(n, base));
  }

  /** base43.ts:62-77. */
  method Encode(alphabet: string, bytes: seq<Byte>) returns (text: string)
    requires IsAlphabet(alphabet)
    ensures Spells(alphabet, text, bytes)
  {
    hide Value, LeadingZeros, Minimal, Digits, Quotient, Remainder, Distinct, Spells;
    var leadingZeros := 0;
    while leadingZeros < |bytes| && bytes[leadingZeros] == 0
      invariant leadingZeros <= |bytes| && forall k :: 0 <= k < leadingZeros ==> bytes[k] == 0
    {
      leadingZeros := leadingZeros + 1;
    }
    LeadingIs(bytes, leadingZeros);
    ValueOfLeading(bytes, 256);
    var num: nat := 0;
    var i := leadingZeros;
    while i < |bytes|
      invariant i <= |bytes| && num == Value(bytes[..i], 256)
    {
      ValueOfNext(bytes, 256, i);
      num := num * 256 + bytes[i];
      i := i + 1;
    }
    assert bytes[..i] == bytes;
    ghost var value := num;
    var out := "";
    ghost var digits: seq<nat> := [];
    while num > 0
      invariant InBase(digits, 43) && out == Characters(alphabet, digits)
      invariant Minimal(value, 43) == Minimal(num, 43) + digits
    {
      MinimalNext(num, 43, digits);
      var digit := Remainder(num, 43);
      digits := [digit] + digits;
      out := [alphabet[digit]] + out;
      num := Quotient(num, 43);
    }
    MinimalOfZero(43);
    assert [] + digits == digits;
    text := seq(leadingZeros, k => alphabet[0]) + out;
    Written(alphabet, bytes, leadingZeros, digits);
  }

  lemma Written(alphabet: string, bytes: seq<Byte>, z: nat, digits: seq<nat>)
    requires IsAlphabet(alphabet) && InBase(digits, 43)
    requires z == LeadingZeros(bytes) && digits == Minimal(Value(bytes, 256), 43)
    ensures Spells(alphabet, seq(z, k => alphabet[0]) + Characters(alphabet, digits), bytes)
  {
    hide Value, LeadingZeros, Minimal, Digits, Distinct;
    assert seq(z, k => alphabet[0]) + Characters(alphabet, digits) == Characters(alphabet, Zeros(z) + digits);
    DigitsOfCharacters(alphabet, Zeros(z) + digits);
    ZerosThenMinimalIs(z, Value(bytes, 256), 43);
  }

  lemma DigitsPointwise(alphabet: string, text: string, k: nat)
    requires Spellable(alphabet, text) && k < |text| && Distinct(alphabet) && |alphabet| > 0
    ensures Digits(alphabet, text)[k] == IndexOf(alphabet, text[k])
    ensures Digits(alphabet, text)[k] == 0 <==> text[k] == alphabet[0]
  {
  }

  /** base43.ts:86-106. */
  method Decode(alphabet: string, text: string) returns (r: Option<seq<Byte>>)
    requires IsAlphabet(alphabet)
    ensures r.None? <==> !Spellable(alphabet, text)
    ensures r.Some? ==> Spells(alphabet, text, r.value)
  {
    hide Value, LeadingZeros, Minimal, Quotient, Remainder, Distinct;
    var leadingZeros := 0;
    while leadingZeros < |text| && text[leadingZeros] == alphabet[0]
      invariant leadingZeros <= |text| && forall k :: 0 <= k < leadingZeros ==> text[k] == alphabet[0]
    {
      leadingZeros := leadingZeros + 1;
    }
    DigitsOfLeading(alphabet, text, leadingZeros);
    var num: nat := 0;
    var i := leadingZeros;
    while i < |text|
      invariant leadingZeros <= i <= |text| && Spellable(alphabet, text[..i])
      invariant num == Value(Digits(alphabet, text[..i]), 43)
    {
      var digit := IndexOf(alphabet, text[i]);
      if digit < 0 {
        return None;
      }
      DigitsOfNext(alphabet, text, i);
      num := num * 43 + digit;
      i := i + 1;
    }
    assert text[..i] == text;
    LeadingDigits(alphabet, text, leadingZeros);
    ghost var value := num;
    var body: seq<Byte> := [];
    while num > 0
      invariant Minimal(value, 256) == Minimal(num, 256) + body
    {
      MinimalNext(num, 256, body);
      body := [Remainder(num, 256)] + body;
      num := Quotient(num, 256);
    }
    MinimalOfZero(256);
    assert [] + body == body;
    ZerosThenMinimalIs(leadingZeros, value, 256);
    var out := PutAfterZeros(leadingZeros, body);
    return Some(out);
  }

  /** base43.ts:103-105. */
  method PutAfterZeros(z: nat, body: seq<Byte>) returns (bytes: seq<Byte>)
    ensures bytes == Zeros(z) + body
  {
    var out := new Byte[z + |body|](_ => 0);
    var i := 0;
    while i < |body|
      invariant i <= |body|
      invariant out[..z + i] == Zeros(z) + body[..i]
    {
      out[z + i] := body[i];
      i := i + 1;
    }
    assert out[..] == out[..z + i] && body[..i] == body;
    return out[..];
  }

  lemma DigitsOfLeading(alphabet: string, text: string, z: nat)
    requires IsAlphabet(alphabet) && z <= |text| && forall k :: 0 <= k < z ==> text[k] == alphabet[0]
    ensures Spellable(alphabet, text[..z]) && Value(Digits(alphabet, text[..z]), 43) == 0
  {
    hide Value;
    forall k | 0 <= k < z ensures Digits(alphabet, text[..z])[k] == 0 {
      DigitsPointwise(alphabet, text[..z], k);
    }
    assert Digits(alphabet, text[..z]) == Zeros(z) + [];
    ZerosAddNothing(z, [], 43);
    EmptyValue(43);
  }

  lemma LeadingDigits(alphabet: string, text: string, z: nat)
    requires IsAlphabet(alphabet) && Spellable(alphabet, text)
    requires z <= |text| && (forall k :: 0 <= k < z ==> text[k] == alphabet[0]) && (z < |text| ==> text[z] != alphabet[0])
    ensures LeadingZeros(Digits(alphabet, text)) == z
  {
    hide LeadingZeros;
    forall k | 0 <= k < |text| ensures Digits(alphabet, text)[k] == 0 <==> text[k] == alphabet[0] {
      DigitsPointwise(alphabet, text, k);
    }
    LeadingIs(Digits(alphabet, text), z);
  }

  /** base43.ts:62-106: any bytes come back from their text. */
  method BytesComeBack(alphabet: string, bytes: seq<Byte>) returns (r: Option<seq<Byte>>)
    requires IsAlphabet(alphabet)
    ensures r == Some(bytes)
  {
    var text := Encode(alphabet, bytes);
    r := Decode(alphabet, text);
    TextHasOneMeaning(alphabet, text, r.value, bytes);
  }

  /** base43.ts:62-106: any text that is read is written again. */
  method TextComesBack(alphabet: string, text: string) returns (again: Option<string>)
    requires IsAlphabet(alphabet)
    ensures again == if Spellable(alphabet, text) then Some(text) else None
  {
    var r := Decode(alphabet, text);
    if r.None? {
      return None;
    }
    var t := Encode(alphabet, r.value);
    BytesHaveOneSpelling(alphabet, r.value, t, text);
    return Some(t);
  }
}
