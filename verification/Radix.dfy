/** Numbers written in a base, highest digit first, and the alphabets their digits are spelt with. */
module Radix {
  import opened Primes

  datatype Option<T> = None | Some(value: T)

  predicate InBase(digits: seq<nat>, base: nat) {
    forall k :: 0 <= k < |digits| ==> digits[k] < base
  }

  function Value(digits: seq<nat>, base: nat): (n: nat) {
    if digits == [] then 0 else Value(digits[..|digits| - 1], base) * base + digits[|digits| - 1]
  }

  function Power(base: nat, k: nat): (p: nat) {
    if k == 0 then 1 else Power(base, k - 1) * base
  }

  function Quotient(n: nat, base: nat): (q: nat)
    requires base > 1
    ensures n > 0 ==> q < n
  {
    QuotientIsLess(n, base);
    n / base
  }

  lemma QuotientIsLess(n: nat, base: nat)
    requires base > 1
    ensures 0 <= n / base && (n > 0 ==> n / base < n)
  {
    var q, r := n / base, n % base;
    assert n == q * base + r;
    LessThanWhole(q, r, base);
  }

  lemma LessThanWhole(q: int, r: nat, base: nat)
    requires base > 1 && q * base + r >= 0 && r < base
    ensures 0 <= q && (q * base + r > 0 ==> q < q * base + r)
  {
    Monotone(q, -1, base);
    Monotone(base, 2, q);
  }

  lemma Monotone(a: int, b: int, m: int)
    ensures m >= 0 && a >= b ==> a * m >= b * m
    ensures m >= 0 && a <= b ==> a * m <= b * m
  {
  }

  function Remainder(n: nat, base: nat): (r: nat)
    requires base > 1
    ensures r < base
  {
    n % base
  }

  lemma Euclid(n: nat, base: nat)
    requires base > 1
    ensures n == Quotient(n, base) * base + Remainder(n, base)
  {
  }

  lemma EuclidIsUnique(q: nat, r: nat, base: nat)
    requires base > 1 && r < base
    ensures Quotient(q * base + r, base) == q && Remainder(q * base + r, base) == r
  {
    DivMod(q * base + r, base, q, r);
  }

  lemma QuotientBelow(n: nat, p: nat, base: nat)
    requires base > 1 && n < p * base
    ensures Quotient(n, base) < p
  {
    Euclid(n, base);
    Monotone(Quotient(n, base), p, base);
  }

  /** As many digits as it takes, and none for zero. */
  function Minimal(n: nat, base: nat): (digits: seq<nat>)
    requires base > 1
    ensures InBase(digits, base)
  {
    hide Quotient, Remainder;
    if n == 0 then [] else Minimal(Quotient(n, base), base) + [Remainder(n, base)]
  }

  /** The low k digits. */
  function Fixed(n: nat, base: nat, k: nat): (digits: seq<nat>)
    requires base > 1
    ensures |digits| == k && InBase(digits, base)
    decreases k
  {
    hide Quotient, Remainder;
    if k == 0 then [] else Fixed(Quotient(n, base), base, k - 1) + [Remainder(n, base)]
  }

  lemma Extend(digits: seq<nat>, d: nat, base: nat)
    ensures Value(digits + [d], base) == Value(digits, base) * base + d
  {
    assert (digits + [d])[..|digits|] == digits;
  }

  lemma {:induction false} ValueOfMinimal(n: nat, base: nat)
    requires base > 1
    ensures Value(Minimal(n, base), base) == n
    ensures n > 0 ==> Minimal(n, base) != [] && Minimal(n, base)[0] != 0
  {
    hide Quotient, Remainder;
    if n > 0 {
      var q, r := Quotient(n, base), Remainder(n, base);
      ValueOfMinimal(q, base);
      Extend(Minimal(q, base), r, base);
      Euclid(n, base);
    }
  }

  lemma {:induction false} MinimalIsShort(n: nat, base: nat, k: nat)
    requires base > 1 && n < Power(base, k)
    ensures |Minimal(n, base)| <= k
  {
    hide Quotient, Remainder;
    if n > 0 && k > 0 {
      QuotientBelow(n, Power(base, k - 1), base);
      MinimalIsShort(Quotient(n, base), base, k - 1);
    }
  }

  lemma {:induction false} ValueOfFixed(n: nat, base: nat, k: nat)
    requires base > 1 && n < Power(base, k)
    ensures Value(Fixed(n, base, k), base) == n
    decreases k
  {
    hide Quotient, Remainder;
    if k > 0 {
      var q, r := Quotient(n, base), Remainder(n, base);
      QuotientBelow(n, Power(base, k - 1), base);
      ValueOfFixed(q, base, k - 1);
      Extend(Fixed(q, base, k - 1), r, base);
      Euclid(n, base);
    }
  }

  lemma Room(q: nat, d: nat, p: nat, base: nat)
    requires q < p && d < base
    ensures q * base + d < p * base
  {
    Monotone(q + 1, p, base);
  }

  lemma {:induction false} ValueBound(digits: seq<nat>, base: nat)
    requires InBase(digits, base)
    ensures Value(digits, base) < Power(base, |digits|)
  {
    if digits != [] {
      ValueBound(digits[..|digits| - 1], base);
      Room(Value(digits[..|digits| - 1], base), digits[|digits| - 1], Power(base, |digits| - 1), base);
    }
  }

  lemma SameParts(q: nat, r: nat, q': nat, r': nat, base: nat)
    requires r < base && r' < base && q * base + r == q' * base + r'
    ensures q == q' && r == r'
  {
    DivMod(q * base + r, base, q, r);
    DivMod(q * base + r, base, q', r');
  }

  /** Numerals of one length are told apart by their numbers. */
  lemma {:induction false} SameLength(a: seq<nat>, b: seq<nat>, base: nat)
    requires InBase(a, base) && InBase(b, base) && |a| == |b| && Value(a, base) == Value(b, base)
    ensures a == b
  {
    if a != [] {
      var x, y := a[..|a| - 1], b[..|b| - 1];
      SameParts(Value(x, base), a[|a| - 1], Value(y, base), b[|b| - 1], base);
      SameLength(x, y, base);
      assert a == x + [a[|a| - 1]] && b == y + [b[|b| - 1]];
    }
  }

  lemma ValueOfNext(digits: seq<nat>, base: nat, i: nat)
    requires i < |digits|
    ensures Value(digits[..i + 1], base) == Value(digits[..i], base) * base + digits[i]
  {
    assert digits[..i + 1] == digits[..i] + [digits[i]];
    Extend(digits[..i], digits[i], base);
  }

  lemma MinimalNext(n: nat, base: nat, rest: seq<nat>)
    requires base > 1 && n > 0
    ensures Minimal(n, base) + rest == Minimal(Quotient(n, base), base) + ([Remainder(n, base)] + rest)
  {
  }

  lemma MinimalOfZero(base: nat)
    requires base > 1
    ensures Minimal(0, base) == []
  {
  }

  // ---- Leading zeros ------------------------------------------------------------------

  function LeadingZeros(digits: seq<nat>): (z: nat)
    ensures z <= |digits|
    ensures forall k :: 0 <= k < z ==> digits[k] == 0
    ensures z < |digits| ==> digits[z] != 0
  {
    if digits == [] || digits[0] != 0 then 0 else 1 + LeadingZeros(digits[1..])
  }

  function Zeros(k: nat): (digits: seq<nat>)
    ensures |digits| == k && forall i :: 0 <= i < k ==> digits[i] == 0
  {
    seq(k, i => 0)
  }

  lemma {:induction false} ZerosAddNothing(k: nat, digits: seq<nat>, base: nat)
    ensures Value(Zeros(k) + digits, base) == Value(digits, base)
  {
    if digits != [] {
      ZerosAddNothing(k, digits[..|digits| - 1], base);
      assert (Zeros(k) + digits)[..k + |digits| - 1] == Zeros(k) + digits[..|digits| - 1];
    } else if k > 0 {
      ZerosAddNothing(k - 1, [], base);
      assert Zeros(k)[..k - 1] == Zeros(k - 1) == Zeros(k - 1) + [];
      assert Zeros(k) + [] == Zeros(k - 1) + [0];
    }
  }

  lemma {:induction false} LeadingOf(k: nat, digits: seq<nat>)
    requires digits == [] || digits[0] != 0
    ensures LeadingZeros(Zeros(k) + digits) == k
  {
    if k == 0 {
      assert Zeros(k) + digits == digits;
    } else {
      LeadingOf(k - 1, digits);
      assert (Zeros(k) + digits)[1..] == Zeros(k - 1) + digits;
    }
  }

  lemma {:induction false} StartsAboveZero(digits: seq<nat>, base: nat)
    requires base > 1 && digits != [] && digits[0] != 0
    ensures Value(digits, base) > 0
  {
    if |digits| > 1 {
      StartsAboveZero(digits[..|digits| - 1], base);
      Monotone(Value(digits[..|digits| - 1], base), 1, base);
    }
  }

  /** A numeral that starts with no zero is the shortest for its number. */
  lemma {:induction false} MinimalOfValue(digits: seq<nat>, base: nat)
    requires base > 1 && InBase(digits, base) && (digits == [] || digits[0] != 0)
    ensures Minimal(Value(digits, base), base) == digits
  {
    hide Quotient, Remainder, Value;
    if digits == [] {
      EmptyValue(base);
    } else {
      var init, d := digits[..|digits| - 1], digits[|digits| - 1];
      MinimalOfValue(init, base);
      StartsAboveZero(digits, base);
      assert digits == init + [d];
      Extend(init, d, base);
      EuclidIsUnique(Value(init, base), d, base);
    }
  }

  lemma EmptyValue(base: nat)
    ensures Value([], base) == 0
  {
  }

  /** Any numeral is its leading zeros and then the shortest numeral of its number. */
  lemma ZerosThenMinimal(digits: seq<nat>, base: nat)
    requires base > 1 && InBase(digits, base)
    ensures digits == Zeros(LeadingZeros(digits)) + Minimal(Value(digits, base), base)
  {
    var z := LeadingZeros(digits);
    assert digits == Zeros(z) + digits[z..];
    ZerosAddNothing(z, digits[z..], base);
    MinimalOfValue(digits[z..], base);
  }

  // ---- Alphabets ------------------------------------------------------------------------

  /** indexOf of JavaScript. */
  function IndexOf(text: string, c: char): (i: int)
    ensures i < |text| && (i >= 0 ==> text[i] == c) && (i < 0 <==> c !in text)
  {
    if text == [] then -1
    else if text[0] == c then 0
    else var i := IndexOf(text[1..], c); if i < 0 then -1 else i + 1
  }

  ghost predicate Distinct(alphabet: string) {
    forall i, j :: 0 <= i < j < |alphabet| ==> alphabet[i] != alphabet[j]
  }

  predicate Spellable(alphabet: string, text: string) {
    forall k :: 0 <= k < |text| ==> text[k] in alphabet
  }

  function Digits(alphabet: string, text: string): (digits: seq<nat>)
    requires Spellable(alphabet, text)
    ensures |digits| == |text| && InBase(digits, |alphabet|)
  {
    seq(|text|, k requires 0 <= k < |text| => IndexOf(alphabet, text[k]))
  }

  function Characters(alphabet: string, digits: seq<nat>): (text: string)
    requires InBase(digits, |alphabet|)
    ensures |text| == |digits| && Spellable(alphabet, text)
  {
    seq(|digits|, k requires 0 <= k < |digits| => alphabet[digits[k]])
  }

  lemma DigitsOfCharacters(alphabet: string, digits: seq<nat>)
    requires Distinct(alphabet) && InBase(digits, |alphabet|)
    ensures Digits(alphabet, Characters(alphabet, digits)) == digits
  {
    var text := Characters(alphabet, digits);
    forall k | 0 <= k < |digits| ensures IndexOf(alphabet, text[k]) == digits[k] {
      assert alphabet[IndexOf(alphabet, text[k])] == alphabet[digits[k]];
    }
  }

  lemma DigitsTellApart(alphabet: string, s: string, t: string)
    requires Spellable(alphabet, s) && Spellable(alphabet, t) && Digits(alphabet, s) == Digits(alphabet, t)
    ensures s == t
  {
    forall k | 0 <= k < |s| ensures s[k] == t[k] {
      assert alphabet[Digits(alphabet, s)[k]] == s[k] && alphabet[Digits(alphabet, t)[k]] == t[k];
    }
  }

  lemma DigitsOfNext(alphabet: string, text: string, i: nat)
    requires i < |text| && Spellable(alphabet, text[..i]) && text[i] in alphabet
    ensures Spellable(alphabet, text[..i + 1])
    ensures Value(Digits(alphabet, text[..i + 1]), |alphabet|) == Value(Digits(alphabet, text[..i]), |alphabet|) * |alphabet| + IndexOf(alphabet, text[i])
  {
    hide Value, IndexOf;
    assert text[..i + 1] == text[..i] + [text[i]];
    assert Digits(alphabet, text[..i + 1]) == Digits(alphabet, text[..i]) + [IndexOf(alphabet, text[i])];
    Extend(Digits(alphabet, text[..i]), IndexOf(alphabet, text[i]), |alphabet|);
  }
}
