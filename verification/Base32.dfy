/**
 * Base32 (section 6 of RFC 4648, unpadded) with the bits kept in a 32-bit register that overflows:
 * only the bits not yet written ever matter.
 */
module Base32 {
  import opened Sums
  import opened Primes
  import opened Bytes
  import opened Bits

  type Digit = d: int | 0 <= d < 32

  // ---- Bit strings ---------------------------------------------------------------------

  /** The number these bits write, highest first. */
  function Value(bits: seq<bool>): (n: nat)
    ensures n < Pow2(|bits|)
  {
    if bits == [] then 0 else 2 * Value(bits[..|bits| - 1]) + if bits[|bits| - 1] then 1 else 0
  }

  /** The low k bits of n, highest first. */
  function BitsOf(n: nat, k: nat): (bits: seq<bool>)
    ensures |bits| == k
  {
    if k == 0 then [] else BitsOf(n / 2, k - 1) + [n % 2 == 1]
  }

  lemma {:induction false} ValueOfBits(n: nat, k: nat)
    requires n < Pow2(k)
    ensures Value(BitsOf(n, k)) == n
  {
    if k > 0 {
      ValueOfBits(n / 2, k - 1);
      assert BitsOf(n, k)[..k - 1] == BitsOf(n / 2, k - 1);
    }
  }

  lemma {:induction false} BitsOfValue(bits: seq<bool>)
    ensures BitsOf(Value(bits), |bits|) == bits
  {
    if bits != [] {
      BitsOfValue(bits[..|bits| - 1]);
      assert Value(bits) / 2 == Value(bits[..|bits| - 1]);
    }
  }

  lemma {:induction false} ValueConcat(a: seq<bool>, b: seq<bool>)
    ensures Value(a + b) == Value(a) * Pow2(|b|) + Value(b)
  {
    if b == [] {
      assert a + b == a;
      assert Value(a) * Pow2(0) == Value(a);
    } else {
      var init := b[..|b| - 1];
      assert (a + b)[..|a + b| - 1] == a + init;
      ValueConcat(a, init);
      TwicePower(Value(a), |b|);
    }
  }

  function Zeros(k: nat): (z: seq<bool>)
    ensures |z| == k
  {
    seq(k, i => false)
  }

  // ---- The code as a function of bits -----------------------------------------------------

  function ByteBits(bytes: seq<Byte>): (bits: seq<bool>)
    ensures |bits| == 8 * |bytes|
  {
    if bytes == [] then [] else BitsOf(bytes[0], 8) + ByteBits(bytes[1..])
  }

  function DigitBits(text: seq<Digit>): (bits: seq<bool>)
    ensures |bits| == 5 * |text|
  {
    if text == [] then [] else BitsOf(text[0], 5) + DigitBits(text[1..])
  }

  /** Five bits a digit, the last filled up with zeros. */
  function Quintets(bits: seq<bool>): (text: seq<Digit>)
    decreases |bits|
  {
    SmallPowers();
    if bits == [] then []
    else if |bits| < 5 then [Value(bits + Zeros(5 - |bits|))]
    else [Value(bits[..5])] + Quintets(bits[5..])
  }

  /** Eight bits a byte, what is left over dropped. */
  function Octets(bits: seq<bool>): (bytes: seq<Byte>)
    decreases |bits|
  {
    SmallPowers();
    if |bits| < 8 then [] else [Value(bits[..8])] + Octets(bits[8..])
  }

  function Encoded(bytes: seq<Byte>): seq<Digit> {
    Quintets(ByteBits(bytes))
  }

  function Decoded(text: seq<Digit>): seq<Byte> {
    Octets(DigitBits(text))
  }

  lemma {:induction false} DigitsOfQuintets(bits: seq<bool>)
    ensures exists pad: nat :: pad < 5 && DigitBits(Quintets(bits)) == bits + Zeros(pad)
    decreases |bits|
  {
    hide Value, BitsOf, Quintets, DigitBits, Zeros;
    if |bits| < 5 {
      ShortQuintets(bits);
    } else {
      DigitsOfQuintets(bits[5..]);
      var pad: nat :| pad < 5 && DigitBits(Quintets(bits[5..])) == bits[5..] + Zeros(pad);
      FirstQuintet(bits);
      assert bits[..5] + (bits[5..] + Zeros(pad)) == bits + Zeros(pad);
    }
  }

  lemma ShortQuintets(bits: seq<bool>)
    requires |bits| < 5
    ensures DigitBits(Quintets(bits)) == bits + Zeros(if bits == [] then 0 else 5 - |bits|)
  {
    hide Value, BitsOf;
    SmallPowers();
    if bits != [] {
      var full := bits + Zeros(5 - |bits|);
      BitsOfValue(full);
      OneDigit(Value(full));
    }
  }

  lemma FirstQuintet(bits: seq<bool>)
    requires |bits| >= 5
    ensures DigitBits(Quintets(bits)) == bits[..5] + DigitBits(Quintets(bits[5..]))
  {
    hide Value, BitsOf;
    SmallPowers();
    BitsOfValue(bits[..5]);
    assert Quintets(bits)[1..] == Quintets(bits[5..]);
  }

  lemma OneDigit(d: Digit)
    ensures DigitBits([d]) == BitsOf(d, 5)
  {
    assert [d][1..] == [];
  }

  lemma {:induction false} OctetsOfBytes(bytes: seq<Byte>, rest: seq<bool>)
    requires |rest| < 8
    ensures Octets(ByteBits(bytes) + rest) == bytes
  {
    SmallPowers();
    hide Value, BitsOf;
    if bytes != [] {
      var bits := ByteBits(bytes) + rest;
      ValueOfBits(bytes[0], 8);
      OctetsOfBytes(bytes[1..], rest);
      assert bits[..8] == BitsOf(bytes[0], 8);
      assert bits[8..] == ByteBits(bytes[1..]) + rest;
    }
  }

  /** Whatever the bytes, decoding what was encoded gives them back. */
  lemma RoundTrip(bytes: seq<Byte>)
    ensures Decoded(Encoded(bytes)) == bytes
  {
    DigitsOfQuintets(ByteBits(bytes));
    var pad: nat :| pad < 5 && DigitBits(Encoded(bytes)) == ByteBits(bytes) + Zeros(pad);
    OctetsOfBytes(bytes, Zeros(pad));
  }

  // ---- The register ---------------------------------------------------------------------------

  /** The register holds, in its low bits, exactly the bits still to be written. */
  ghost predicate Holds(buffer: nat, bits: seq<bool>) {
    buffer % Pow2(|bits|) == Value(bits)
  }

  /** (buffer << width) | d, cut to 32 bits, for a register holding few enough bits. */
  lemma Pushed(buffer: nat, held: seq<bool>, d: nat, width: nat)
    requires Holds(buffer, held) && d < Pow2(width) && |held| + width <= 32
    ensures Holds((buffer * Pow2(width) + d) % Pow2(32), held + BitsOf(d, width))
  {
    var k, w := |held|, Pow2(width);
    hide *;
    ValueOfBits(d, width);
    ValueConcat(held, BitsOf(d, width));
    Pow2Add(k, width);
    Pow2Add(k + width, 32 - (k + width));
    HoldsMeans(buffer, held);
    LowBits(buffer, Pow2(k), w, d);
    ModOfMod(buffer * w + d, Pow2(k + width), Pow2(32 - (k + width)));
    HoldsIf((buffer * w + d) % Pow2(32), held + BitsOf(d, width), k + width);
  }

  lemma HoldsMeans(buffer: nat, held: seq<bool>)
    requires Holds(buffer, held)
    ensures buffer % Pow2(|held|) == Value(held)
  {
  }

  lemma HoldsIf(buffer: nat, held: seq<bool>, k: nat)
    requires |held| == k && buffer % Pow2(k) == Value(held)
    ensures Holds(buffer, held)
  {
  }

  lemma LowBits(buffer: nat, p: nat, w: nat, d: nat)
    requires p > 0 && w > 0 && d < w
    ensures (buffer * w + d) % (p * w) == buffer % p * w + d
  {
    var q, r := buffer / p, buffer % p;
    assert buffer == q * p + r && r < p;
    Regroup(q, p, r, w, d);
    BelowProduct(r, p, w, d);
    DivMod(buffer * w + d, p * w, q, r * w + d);
  }

  lemma Regroup(q: nat, p: nat, r: nat, w: nat, d: nat)
    ensures (q * p + r) * w + d == q * (p * w) + (r * w + d)
  {
    assert (q * p) * w == q * (p * w);
  }

  lemma BelowProduct(r: nat, p: nat, w: nat, d: nat)
    requires r < p && d < w
    ensures r * w + d < p * w
  {
    assert (r + 1) * w <= p * w;
  }

  lemma ModOfMod(x: nat, m: nat, n: nat)
    requires m > 0 && n > 0 && m * n > 0
    ensures x % (m * n) % m == x % m
  {
    var q, r := x / (m * n), x % (m * n);
    assert x == q * (m * n) + r;
    var q', r' := r / m, r % m;
    assert r == q' * m + r';
    assert q * (m * n) == (q * n) * m;
    assert x == (q * n + q') * m + r';
    DivMod(x, m, q * n + q', r');
  }

  /** (buffer >>> (bits - width)) & mask: the oldest bits held, and the rest stay. */
  lemma Popped(buffer: nat, held: seq<bool>, width: nat)
    requires Holds(buffer, held) && width <= |held|
    ensures buffer / Pow2(|held| - width) % Pow2(width) == Value(held[..width])
    ensures Holds(buffer, held[width..])
  {
    var rest := |held| - width;
    hide *;
    HoldsMeans(buffer, held);
    assert held == held[..width] + held[width..];
    ValueConcat(held[..width], held[width..]);
    Pow2Add(width, rest);
    ValueBelow(held[width..]);
    ValueBelow(held[..width]);
    TopOf(buffer, Pow2(width), Pow2(rest), Value(held[..width]), Value(held[width..]));
    HoldsIf(buffer, held[width..], rest);
  }

  lemma ValueBelow(bits: seq<bool>)
    ensures Value(bits) < Pow2(|bits|)
  {
  }

  lemma TopOf(x: nat, w: nat, p: nat, hi: nat, lo: nat)
    requires w > 0 && p > 0 && hi < w && lo < p && w * p > 0 && x % (w * p) == hi * p + lo
    ensures x / p % w == hi && x % p == lo
  {
    var q := x / (w * p);
    assert x == q * (w * p) + (hi * p + lo);
    assert q * (w * p) == (q * w) * p;
    assert x == (q * w + hi) * p + lo;
    DivMod(x, p, q * w + hi, lo);
    DivMod(q * w + hi, w, q, hi);
  }

  // ---- The loops -----------------------------------------------------------------------------

  /** envelope.ts:158-172. */
  method Base32Encode(bytes: seq<Byte>) returns (out: seq<Digit>)
    ensures out == Encoded(bytes)
  {
    hide Holds, Value, BitsOf, Pow2, Quintets, Zeros;
    SmallPowers();
    Powers();
    out := [];
    var buffer: nat, bits: nat := 0, 0;
    ghost var held: seq<bool> := [];
    HoldsNothing();
    assert bytes[0..] == bytes && held + ByteBits(bytes) == ByteBits(bytes);
    for i := 0 to |bytes|
      invariant bits == |held| < 5 && Holds(buffer, held)
      invariant out + Quintets(held + ByteBits(bytes[i..])) == Encoded(bytes)
    {
      var byte := bytes[i];
      NextByteBits(bytes, i);
      Pushed(buffer, held, byte, 8);
      buffer := (buffer * 256 + byte) % 0x1_0000_0000;
      bits := bits + 8;
      held := held + BitsOf(byte, 8);
      while bits >= 5
        invariant bits == |held| <= 12 && Holds(buffer, held)
        invariant out + Quintets(held + ByteBits(bytes[i + 1..])) == Encoded(bytes)
      {
        Popped(buffer, held, 5);
        NextQuintet(held, ByteBits(bytes[i + 1..]));
        out := out + [buffer / Pow2(bits - 5) % 32];
        bits := bits - 5;
        held := held[5..];
      }
    }
    NoMoreBytes(bytes, held);
    LastQuintet(held);
    if bits > 0 {
      Pushed(buffer, held, 0, 5 - bits);
      LastDigit(buffer, held);
      out := out + [buffer * Pow2(5 - bits) % 0x1_0000_0000 % 32];
    }
  }

  lemma HoldsNothing()
    ensures Holds(0, [])
  {
  }

  lemma NextByteBits(bytes: seq<Byte>, i: nat)
    requires i < |bytes|
    ensures ByteBits(bytes[i..]) == BitsOf(bytes[i], 8) + ByteBits(bytes[i + 1..])
    ensures forall held: seq<bool> :: held + ByteBits(bytes[i..]) == (held + BitsOf(bytes[i], 8)) + ByteBits(bytes[i + 1..])
  {
    hide BitsOf;
    assert bytes[i..][1..] == bytes[i + 1..];
  }

  lemma NextQuintet(held: seq<bool>, rest: seq<bool>)
    requires |held| >= 5
    ensures Value(held[..5]) < 32 && Quintets(held + rest) == [Value(held[..5])] + Quintets(held[5..] + rest)
  {
    SmallPowers();
    hide Value;
    var bits := held + rest;
    assert bits[..5] == held[..5] && bits[5..] == held[5..] + rest;
  }

  lemma NoMoreBytes(bytes: seq<Byte>, held: seq<bool>)
    ensures held + ByteBits(bytes[|bytes|..]) == held
  {
  }

  lemma LastQuintet(held: seq<bool>)
    requires |held| < 5
    ensures held == [] ==> Quintets(held) == []
    ensures held != [] ==> Value(held + Zeros(5 - |held|)) < 32 && Quintets(held) == [Value(held + Zeros(5 - |held|))]
  {
    SmallPowers();
    hide Value, Zeros;
  }

  /** (buffer << (5 - bits)) & 31. */
  lemma LastDigit(buffer: nat, held: seq<bool>)
    requires 0 < |held| < 5 && Holds((buffer * Pow2(5 - |held|) + 0) % Pow2(32), held + BitsOf(0, 5 - |held|))
    ensures buffer * Pow2(5 - |held|) % 0x1_0000_0000 % 32 == Value(held + Zeros(5 - |held|))
  {
    Powers();
    SmallPowers();
    ZeroBits(5 - |held|);
    HoldsMeans((buffer * Pow2(5 - |held|) + 0) % Pow2(32), held + BitsOf(0, 5 - |held|));
    hide Pow2, Value, BitsOf, Zeros;
  }

  lemma {:induction false} ZeroBits(k: nat)
    ensures BitsOf(0, k) == Zeros(k)
  {
    if k > 0 {
      ZeroBits(k - 1);
    }
  }

  /** envelope.ts:174-190, on digits: what is not in the alphabet never gets this far. */
  method Base32Decode(text: seq<Digit>) returns (out: seq<Byte>)
    ensures out == Decoded(text)
  {
    hide Holds, Value, BitsOf, Pow2, Octets;
    SmallPowers();
    Powers();
    out := [];
    var buffer: nat, bits: nat := 0, 0;
    ghost var held: seq<bool> := [];
    HoldsNothing();
    assert text[0..] == text && held + DigitBits(text) == DigitBits(text);
    for i := 0 to |text|
      invariant bits == |held| < 8 && Holds(buffer, held)
      invariant out + Octets(held + DigitBits(text[i..])) == Decoded(text)
    {
      var value := text[i];
      NextDigitBits(text, i);
      Pushed(buffer, held, value, 5);
      buffer := (buffer * 32 + value) % 0x1_0000_0000;
      bits := bits + 5;
      held := held + BitsOf(value, 5);
      if bits >= 8 {
        Popped(buffer, held, 8);
        NextOctet(held, DigitBits(text[i + 1..]));
        out := out + [buffer / Pow2(bits - 8) % 256];
        bits := bits - 8;
        held := held[8..];
      }
    }
    Dropped(held, text);
  }

  lemma NextDigitBits(text: seq<Digit>, i: nat)
    requires i < |text|
    ensures forall held: seq<bool> :: held + DigitBits(text[i..]) == (held + BitsOf(text[i], 5)) + DigitBits(text[i + 1..])
  {
    hide BitsOf;
    assert text[i..][1..] == text[i + 1..];
  }

  lemma NextOctet(held: seq<bool>, rest: seq<bool>)
    requires |held| >= 8
    ensures Value(held[..8]) < 256 && Octets(held + rest) == [Value(held[..8])] + Octets(held[8..] + rest)
  {
    SmallPowers();
    hide Value;
    var bits := held + rest;
    assert bits[..8] == held[..8] && bits[8..] == held[8..] + rest;
  }

  lemma Dropped(held: seq<bool>, text: seq<Digit>)
    requires |held| < 8
    ensures Octets(held + DigitBits(text[|text|..])) == []
  {
  }

  // ---- The number kept ------------------------------------------------------------------------

  /** The number these digits write in a base, highest first. */
  function Written(digits: seq<nat>, base: nat): nat {
    if digits == [] then 0 else Written(digits[..|digits| - 1], base) * base + digits[|digits| - 1]
  }

  lemma {:induction false} BytesWritten(bytes: seq<Byte>)
    ensures Written(bytes, 256) == Value(ByteBits(bytes))
  {
    SmallPowers();
    if bytes != [] {
      var n := |bytes| - 1;
      BytesWritten(bytes[..n]);
      ByteBitsConcat(bytes[..n], [bytes[n]]);
      assert bytes == bytes[..n] + [bytes[n]];
      ByteBitsOfOne(bytes[n]);
      ValueConcat(ByteBits(bytes[..n]), BitsOf(bytes[n], 8));
      ValueOfBits(bytes[n], 8);
    }
  }

  lemma ByteBitsOfOne(b: Byte)
    ensures ByteBits([b]) == BitsOf(b, 8)
  {
    assert ByteBits([b][1..]) == [];
  }

  lemma {:induction false} ByteBitsConcat(a: seq<Byte>, b: seq<Byte>)
    ensures ByteBits(a + b) == ByteBits(a) + ByteBits(b)
  {
    if a == [] {
      assert a + b == b;
    } else {
      assert (a + b)[1..] == a[1..] + b;
      ByteBitsConcat(a[1..], b);
    }
  }

  lemma {:induction false} DigitsWritten(text: seq<Digit>)
    ensures Written(text, 32) == Value(DigitBits(text))
  {
    SmallPowers();
    if text != [] {
      var n := |text| - 1;
      DigitsWritten(text[..n]);
      DigitBitsConcat(text[..n], [text[n]]);
      assert text == text[..n] + [text[n]];
      DigitBitsOfOne(text[n]);
      ValueConcat(DigitBits(text[..n]), BitsOf(text[n], 5));
      ValueOfBits(text[n], 5);
    }
  }

  lemma DigitBitsOfOne(d: Digit)
    ensures DigitBits([d]) == BitsOf(d, 5)
  {
    assert DigitBits([d][1..]) == [];
  }

  lemma {:induction false} DigitBitsConcat(a: seq<Digit>, b: seq<Digit>)
    ensures DigitBits(a + b) == DigitBits(a) + DigitBits(b)
  {
    if a == [] {
      assert a + b == b;
    } else {
      assert (a + b)[1..] == a[1..] + b;
      DigitBitsConcat(a[1..], b);
    }
  }

  lemma {:induction false} ValueOfZeros(k: nat)
    ensures Value(Zeros(k)) == 0
  {
    if k > 0 {
      ValueOfZeros(k - 1);
      assert Zeros(k)[..k - 1] == Zeros(k - 1);
    }
  }

  /** Highest first on both sides: the digits write the number of the bytes, followed by fewer than five zero bits. */
  lemma NumberIsKept(bytes: seq<Byte>)
    ensures exists pad: nat :: pad < 5 && 5 * |Encoded(bytes)| == 8 * |bytes| + pad
                            && Written(Encoded(bytes), 32) == Written(bytes, 256) * Pow2(pad)
  {
    hide Value, Pow2, ByteBits, DigitBits, Quintets, Written;
    var bits := ByteBits(bytes);
    DigitsOfQuintets(bits);
    var pad: nat :| pad < 5 && DigitBits(Quintets(bits)) == bits + Zeros(pad);
    BytesWritten(bytes);
    DigitsWritten(Encoded(bytes));
    ValueConcat(bits, Zeros(pad));
    ValueOfZeros(pad);
  }
}
