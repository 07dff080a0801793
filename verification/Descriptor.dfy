/** The descriptor checksum (the Checksum section of BIP-380), and what it always catches. */
module Descriptor {
  import opened Sums
  import opened Primes
  import opened Bytes
  import opened Bits

  datatype Option<T> = None | Some(value: T)

  /** The input alphabet in its three rows of 32 (the last one short); a character's value is its place. descriptor.ts:53-54. */
  function InputCharset(row: nat): string {
    if row == 0 then "0123456789()[],'/*abcdefgh@:$%{}"
    else if row == 1 then "IJKLMNOPQRSTUVWXYZ&+-.;<=>?!^_|~"
    else "ijklmnopqrstuvwxyzABCDEFGH`#\"\\ "
  }

  function ChecksumCharset(): string {
    "qpzry9x8gf2tvdw0s3jn54khce6mua7l"
  }

  type Symbol = s: int | 0 <= s < 32
  type Word = w: nat | w < 0x100_0000_0000

  // ---- Forty bits -----------------------------------------------------------------------

  lemma Powers40()
    ensures Pow2(5) == 32 && Pow2(35) == 0x8_0000_0000 && Pow2(40) == 0x100_0000_0000
  {
    hide *;
    Powers();
    SmallPowers();
    assert Pow2(3) == 8 by { PowThree(); }
    Pow2Add(32, 3);
    Pow2Add(32, 8);
  }

  lemma PowThree()
    ensures Pow2(3) == 8
  {
  }

  function Xor40(a: Word, b: Word): (r: Word) {
    Powers40();
    XorRange(a, b, 40);
    XorBits(a, b, 40)
  }

  lemma XorFacts(a: Word, b: Word, c: Word)
    ensures Xor40(a, b) == Xor40(b, a) && Xor40(Xor40(a, b), c) == Xor40(a, Xor40(b, c))
    ensures Xor40(a, 0) == a && Xor40(a, a) == 0
    ensures Xor40(a, b) == 0 ==> a == b
  {
    Powers40();
    XorSymmetric(a, b, 40);
    XorBitsAssociative(a, b, c, 40);
    XorBitsZero(a, 40);
    XorBitsSelf(a, 40);
    if Xor40(a, b) == 0 { XorZeroMeansEqual(a, b, 40); }
  }

  lemma XorPairs(a: Word, b: Word, c: Word, d: Word)
    ensures Xor40(Xor40(a, b), Xor40(c, d)) == Xor40(Xor40(a, c), Xor40(b, d))
  {
    XorFour(a, b, c, d, 40);
  }

  predicate Bit(n: nat, i: nat) {
    n / Pow2(i) % 2 == 1
  }

  lemma BitOfXor(a: Word, b: Word, i: nat)
    requires i < 40
    ensures Bit(Xor40(a, b), i) <==> Bit(a, i) != Bit(b, i)
  {
    XorShiftDown(a, b, i, 40 - i);
    XorStep(a / Pow2(i), b / Pow2(i), 40 - i);
    hide XorBits, Pow2;
    ParityOfSum(a / Pow2(i), b / Pow2(i));
  }

  // ---- The polynomial ------------------------------------------------------------------------

  const GENERATOR: seq<Word> := [0xf5dee51989, 0xa9fdca3312, 0x1bab10e32d, 0x3706b1677a, 0x644d626ffd]

  /** The generators that the top bits below bit k call for. descriptor.ts:73-75. */
  function Feedback(top: nat, k: nat): (r: Word)
    requires k <= 5
  {
    if k == 0 then 0 else Xor40(Feedback(top, k - 1), if Bit(top, k - 1) then GENERATOR[k - 1] else 0)
  }

  /** One symbol shifted in. descriptor.ts:70-75. */
  function Step(chk: Word, v: Symbol): (r: Word) {
    Xor40(Xor40(chk % 0x8_0000_0000 * 32, v), Feedback(chk / 0x8_0000_0000, 5))
  }

  function Run(chk: Word, symbols: seq<Symbol>): (r: Word) {
    if symbols == [] then chk else Step(Run(chk, symbols[..|symbols| - 1]), symbols[|symbols| - 1])
  }

  /** descriptor.ts:68-78. */
  method Polymod(symbols: seq<Symbol>) returns (chk: Word)
    ensures chk == Run(1, symbols)
  {
    hide Xor40, Bit;
    chk := 1;
    for n := 0 to |symbols|
      invariant chk == Run(1, symbols[..n])
    {
      assert symbols[..n + 1][..n] == symbols[..n];
      var top := chk / 0x8_0000_0000;
      var start := Xor40(chk % 0x8_0000_0000 * 32, symbols[n]);
      ghost var c := chk;
      chk := start;
      XorFacts(start, 0, 0);
      for i := 0 to 5
        invariant chk == Xor40(start, Feedback(top, i))
      {
        XorFacts(start, Feedback(top, i), GENERATOR[i]);
        XorFacts(Feedback(top, i), 0, 0);
        if Bit(top, i) { chk := Xor40(chk, GENERATOR[i]); }
      }
      assert chk == Step(c, symbols[n]);
    }
    assert symbols[..|symbols|] == symbols;
  }

  // ---- Linearity --------------------------------------------------------------------------------

  lemma {:induction false} FeedbackLinear(a: nat, b: nat, k: nat)
    requires k <= 5 && a < 32 && b < 32
    ensures Xor40(a, b) < 32 && Feedback(Xor40(a, b), k) == Xor40(Feedback(a, k), Feedback(b, k))
  {
    SmallXor(a, b);
    if k == 0 {
      XorFacts(0, 0, 0);
    } else {
      FeedbackLinear(a, b, k - 1);
      BitOfXor(a, b, k - 1);
      var g := GENERATOR[k - 1];
      var x, y := if Bit(a, k - 1) then g else 0, if Bit(b, k - 1) then g else 0;
      assert (if Bit(Xor40(a, b), k - 1) then g else 0) == Xor40(x, y) by {
        XorFacts(g, 0, 0);
        XorFacts(0, g, 0);
        XorFacts(0, 0, 0);
      }
      hide Xor40, Bit;
      XorPairs(Feedback(a, k - 1), Feedback(b, k - 1), x, y);
    }
  }

  lemma SmallXor(a: nat, b: nat)
    requires a < 32 && b < 32
    ensures Xor40(a, b) < 32 && Xor40(a, b) == XorBits(a, b, 5)
  {
    Powers40();
    hide XorBits, Pow2;
    XorNarrow(a, b, 5, 40);
    XorRange(a, b, 5);
  }

  lemma TopAndRest(a: Word, b: Word)
    ensures Xor40(a, b) / 0x8_0000_0000 == Xor40(a / 0x8_0000_0000, b / 0x8_0000_0000)
    ensures Xor40(a, b) % 0x8_0000_0000 * 32 == Xor40(a % 0x8_0000_0000 * 32, b % 0x8_0000_0000 * 32)
  {
    hide XorBits, Pow2;
    Powers40();
    XorShiftDown(a, b, 35, 5);
    SmallXor(a / 0x8_0000_0000, b / 0x8_0000_0000);
    XorMask(a, b, 35, 40);
    XorShiftUp(a % 0x8_0000_0000, b % 0x8_0000_0000, 5, 35);
  }

  lemma StepLinear(c: Word, v: Symbol, c': Word, v': Symbol)
    ensures Xor40(v, v') < 32 && Xor40(Step(c, v), Step(c', v')) == Step(Xor40(c, c'), Xor40(v, v'))
  {
    hide Xor40, Feedback;
    var r, r', t, t' := c % 0x8_0000_0000 * 32, c' % 0x8_0000_0000 * 32, c / 0x8_0000_0000, c' / 0x8_0000_0000;
    SmallXor(v, v');
    TopAndRest(c, c');
    FeedbackLinear(t, t', 5);
    XorPairs(Xor40(r, v), Feedback(t, 5), Xor40(r', v'), Feedback(t', 5));
    XorPairs(r, v, r', v');
  }

  /** What two symbol sequences differ by. */
  function Difference(a: seq<Symbol>, b: seq<Symbol>): (d: seq<Symbol>)
    requires |a| == |b|
    ensures |d| == |a|
  {
    seq<Symbol>(|a|, i requires 0 <= i < |a| => Differ(a[i], b[i]))
  }

  function Differ(a: Symbol, b: Symbol): (d: Symbol) {
    SmallXor(a, b);
    Xor40(a, b)
  }

  lemma {:induction false} RunsDiffer(c: Word, a: seq<Symbol>, c': Word, b: seq<Symbol>)
    requires |a| == |b|
    ensures Xor40(Run(c, a), Run(c', b)) == Run(Xor40(c, c'), Difference(a, b))
  {
    hide Xor40, Step;
    if a != [] {
      var n := |a| - 1;
      RunsDiffer(c, a[..n], c', b[..n]);
      assert Difference(a, b)[..n] == Difference(a[..n], b[..n]);
      StepLinear(Run(c, a[..n]), a[n], Run(c', b[..n]), b[n]);
    }
  }

  // ---- Injectivity -----------------------------------------------------------------------------------

  /** The low five bits of the generators are independent: no nonzero top leaves them all clear. */
  lemma LowBitsIndependent(top: nat)
    requires top < 32 && forall j :: 0 <= j < 5 ==> !Bit(Feedback(top, 5), j)
    ensures top == 0
  {
    hide Xor40;
    forall j | 0 <= j < 5
      ensures Bit(Feedback(top, 5), j)
         <==> ((((Bit(top, 0) && Bit(GENERATOR[0], j)) != (Bit(top, 1) && Bit(GENERATOR[1], j)))
               != (Bit(top, 2) && Bit(GENERATOR[2], j))) != (Bit(top, 3) && Bit(GENERATOR[3], j)))
              != (Bit(top, 4) && Bit(GENERATOR[4], j))
    {
      FeedbackBit(top, j);
    }
    GeneratorBits();
    hide Feedback;
    assert !Bit(top, 0) && !Bit(top, 1) && !Bit(top, 2) && !Bit(top, 3) && !Bit(top, 4);
    FiveBits(top);
  }

  lemma FeedbackBit(top: nat, j: nat)
    requires j < 5
    ensures Bit(Feedback(top, 5), j)
       <==> ((((Bit(top, 0) && Bit(GENERATOR[0], j)) != (Bit(top, 1) && Bit(GENERATOR[1], j)))
             != (Bit(top, 2) && Bit(GENERATOR[2], j))) != (Bit(top, 3) && Bit(GENERATOR[3], j)))
            != (Bit(top, 4) && Bit(GENERATOR[4], j))
  {
    hide Xor40, Bit;
    ZeroBit(j);
    FeedbackBitNext(top, j, 0);
    FeedbackBitNext(top, j, 1);
    FeedbackBitNext(top, j, 2);
    FeedbackBitNext(top, j, 3);
    FeedbackBitNext(top, j, 4);
    assert Feedback(top, 0) == 0;
    hide Feedback;
  }

  lemma FeedbackBitNext(top: nat, j: nat, k: nat)
    requires j < 5 && k < 5
    ensures Bit(Feedback(top, k + 1), j) <==> Bit(Feedback(top, k), j) != (Bit(top, k) && Bit(GENERATOR[k], j))
  {
    hide Xor40, Bit;
    ZeroBit(j);
    BitOfXor(Feedback(top, k), if Bit(top, k) then GENERATOR[k] else 0, j);
  }

  lemma ZeroBit(j: nat)
    ensures !Bit(0, j)
  {
  }

  lemma GeneratorBits()
    ensures Bit(GENERATOR[0], 0) && !Bit(GENERATOR[0], 1) && !Bit(GENERATOR[0], 2) && Bit(GENERATOR[0], 3) && !Bit(GENERATOR[0], 4)
    ensures !Bit(GENERATOR[1], 0) && Bit(GENERATOR[1], 1) && !Bit(GENERATOR[1], 2) && !Bit(GENERATOR[1], 3) && Bit(GENERATOR[1], 4)
    ensures Bit(GENERATOR[2], 0) && !Bit(GENERATOR[2], 1) && Bit(GENERATOR[2], 2) && Bit(GENERATOR[2], 3) && !Bit(GENERATOR[2], 4)
    ensures !Bit(GENERATOR[3], 0) && Bit(GENERATOR[3], 1) && !Bit(GENERATOR[3], 2) && Bit(GENERATOR[3], 3) && Bit(GENERATOR[3], 4)
    ensures Bit(GENERATOR[4], 0) && !Bit(GENERATOR[4], 1) && Bit(GENERATOR[4], 2) && Bit(GENERATOR[4], 3) && Bit(GENERATOR[4], 4)
  {
    assert Pow2(0) == 1 && Pow2(1) == 2 && Pow2(2) == 4 && Pow2(3) == 8 && Pow2(4) == 16;
  }

  lemma FiveBits(top: nat)
    requires top < 32 && !Bit(top, 0) && !Bit(top, 1) && !Bit(top, 2) && !Bit(top, 3) && !Bit(top, 4)
    ensures top == 0
  {
    assert Pow2(0) == 1 && Pow2(1) == 2 && Pow2(2) == 4 && Pow2(3) == 8 && Pow2(4) == 16;
  }

  lemma LowBitsOfMultiple(x: nat, j: nat)
    requires j < 5
    ensures !Bit(x * 32, j)
  {
    var half := Pow2(4 - j);
    FivePowers(j);
    hide Pow2;
    Associate(x, 2 * half, Pow2(j));
    DivMod(x * 32, Pow2(j), x * (2 * half), 0);
    EvenProduct(x, half);
  }

  lemma FivePowers(j: nat)
    requires j < 5
    ensures (2 * Pow2(4 - j)) * Pow2(j) == 32
  {
    assert Pow2(0) == 1 && Pow2(1) == 2 && Pow2(2) == 4 && Pow2(3) == 8 && Pow2(4) == 16;
  }

  lemma EvenProduct(x: nat, half: nat)
    ensures x * (2 * half) % 2 == 0
  {
    assert x * (2 * half) == 2 * (x * half);
  }

  /** A step undoes: nothing but zero goes to zero. */
  lemma StepKeepsNonzero(d: Word)
    requires d != 0
    ensures Step(d, 0) != 0
  {
    var r, t := d % 0x8_0000_0000, d / 0x8_0000_0000;
    hide Xor40, Feedback, Bit;
    XorFacts(r * 32, 0, 0);
    XorFacts(r * 32, Feedback(t, 5), 0);
    if Step(d, 0) == 0 {
      forall j | 0 <= j < 5 ensures !Bit(Feedback(t, 5), j) {
        LowBitsOfMultiple(r, j);
      }
      LowBitsIndependent(t);
      NoFeedback();
    }
  }

  lemma NoFeedback()
    ensures Feedback(0, 5) == 0
  {
    ZeroBit(0);
    ZeroBit(1);
    ZeroBit(2);
    ZeroBit(3);
    ZeroBit(4);
    XorFacts(0, 0, 0);
    hide Xor40, Bit;
    assert Feedback(0, 1) == 0;
    assert Feedback(0, 3) == 0;
  }

  ghost predicate AllZero(symbols: seq<Symbol>) {
    forall i :: 0 <= i < |symbols| ==> symbols[i] == 0
  }

  lemma {:induction false} RunZeros(d: Word, zeros: seq<Symbol>)
    requires AllZero(zeros)
    ensures Run(d, zeros) == 0 <==> d == 0
  {
    hide Step;
    if zeros != [] {
      var c := Run(d, zeros[..|zeros| - 1]);
      RunZeros(d, zeros[..|zeros| - 1]);
      if c != 0 { StepKeepsNonzero(c); } else { ZeroStep(); }
    }
  }

  lemma ZeroStep()
    ensures Step(0, 0) == 0
  {
    StepWithoutFeedback(0, 0);
  }

  lemma {:induction false} RunConcat(d: Word, a: seq<Symbol>, b: seq<Symbol>)
    ensures Run(d, a + b) == Run(Run(d, a), b)
  {
    hide Step;
    if b == [] {
      assert a + b == a;
    } else {
      assert (a + b)[..|a + b| - 1] == a + b[..|b| - 1];
      RunConcat(d, a, b[..|b| - 1]);
    }
  }

  // ---- A window of eight symbols ----------------------------------------------------------------------

  function Base32Value(w: seq<Symbol>): nat {
    if w == [] then 0 else Base32Value(w[..|w| - 1]) * 32 + w[|w| - 1]
  }

  lemma {:induction false} Base32Below(w: seq<Symbol>)
    ensures Base32Value(w) < Pow2(5 * |w|)
    ensures Base32Value(w) == 0 <==> AllZero(w)
  {
    if w != [] {
      var init := w[..|w| - 1];
      Base32Below(init);
      Pow2Add(5 * |init|, 5);
      assert AllZero(w) <==> AllZero(init) && w[|w| - 1] == 0;
      hide Pow2, AllZero;
      SmallPowers();
    }
  }

  /** Up to eight symbols fit the register before anything feeds back. */
  lemma {:induction false} RunWindow(w: seq<Symbol>)
    requires |w| <= 8
    ensures Run(0, w) == Base32Value(w)
  {
    hide Step;
    if w != [] {
      var init := w[..|w| - 1];
      RunWindow(init);
      Base32Below(init);
      Pow2Bound(5 * |init|);
      StepWithoutFeedback(Base32Value(init), w[|w| - 1]);
    }
  }

  lemma Pow2Bound(k: nat)
    requires k <= 35
    ensures Pow2(k) <= 0x8_0000_0000
  {
    hide *;
    Powers40();
    Pow2Add(k, 35 - k);
    TimesAtLeast(Pow2(k), Pow2(35 - k));
  }

  lemma TimesAtLeast(a: nat, b: nat)
    requires b >= 1
    ensures a * b >= a
  {
  }

  lemma StepWithoutFeedback(d: nat, v: Symbol)
    requires d < 0x8_0000_0000
    ensures Step(d, v) == d * 32 + v
  {
    Powers40();
    NoFeedback();
    hide Pow2, XorBits, Feedback;
    XorDisjoint(d, v, 5, 35);
    XorFacts(d * 32 + v, 0, 0);
  }

  /** Each of the five bits shifted out feeds back this constant (BIP-380). */
  lemma GeneratorsInTheOpen()
    ensures Step(0x8_0000_0000, 0) == 0xf5dee51989 && Step(0x10_0000_0000, 0) == 0xa9fdca3312 && Step(0x20_0000_0000, 0) == 0x1bab10e32d
    ensures Step(0x40_0000_0000, 0) == 0x3706b1677a && Step(0x80_0000_0000, 0) == 0x644d626ffd
  {
    hide Xor40, Step, Feedback;
    FeedsBack(0);
    FeedsBack(1);
    FeedsBack(2);
    FeedsBack(3);
    FeedsBack(4);
    assert Pow2(0) == 1 && Pow2(1) == 2 && Pow2(2) == 4 && Pow2(3) == 8 && Pow2(4) == 16;
  }

  lemma FeedsBack(i: nat)
    requires i < 5
    ensures Pow2(i) <= 16 && Step(0x8_0000_0000 * Pow2(i), 0) == GENERATOR[i]
  {
    assert Pow2(0) == 1 && Pow2(1) == 2 && Pow2(2) == 4 && Pow2(3) == 8 && Pow2(4) == 16;
    var top := Pow2(i);
    DivMod(0x8_0000_0000 * top, 0x8_0000_0000, top, 0);
    FeedbackOfOne(i, 5);
    XorFacts(0, 0, 0);
    XorFacts(0, GENERATOR[i], 0);
    XorFacts(GENERATOR[i], 0, 0);
    hide Xor40, Feedback, Pow2;
  }

  lemma {:induction false} FeedbackOfOne(i: nat, k: nat)
    requires i < 5 && k <= 5
    ensures Feedback(Pow2(i), k) == if k > i then GENERATOR[i] else 0
  {
    hide Pow2, Xor40, Bit;
    if k > 0 {
      FeedbackOfOne(i, k - 1);
      BitOfPower(i, k - 1);
      XorFacts(0, 0, 0);
      XorFacts(0, GENERATOR[i], 0);
      XorFacts(GENERATOR[i], 0, 0);
    }
  }

  lemma BitOfPower(i: nat, j: nat)
    requires i < 5 && j < 5
    ensures Bit(Pow2(i), j) <==> i == j
  {
    assert Pow2(0) == 1 && Pow2(1) == 2 && Pow2(2) == 4 && Pow2(3) == 8 && Pow2(4) == 16;
  }

  /** Two symbol sequences that differ only inside eight consecutive symbols never share a remainder. */
  lemma WindowShows(before: seq<Symbol>, a: seq<Symbol>, b: seq<Symbol>, after: seq<Symbol>)
    requires |a| == |b| <= 8 && a != b
    ensures Run(1, before + a + after) != Run(1, before + b + after)
  {
    hide *;
    var x, y := before + a + after, before + b + after;
    DifferenceOf(before, a, b, after);
    RunsDiffer(1, x, 1, y);
    XorFacts(1, 1, 0);
    var zeros, window, zeros' := Difference(before, before), Difference(a, b), Difference(after, after);
    assert Difference(x, y) == (zeros + window) + zeros';
    RunConcat(0, zeros + window, zeros');
    RunConcat(0, zeros, window);
    RunZeros(0, zeros);
    RunWindow(window);
    Base32Below(window);
    RunZeros(Run(0, window), zeros');
    XorFacts(Run(1, x), Run(1, x), 0);
  }

  lemma DifferenceOf(before: seq<Symbol>, a: seq<Symbol>, b: seq<Symbol>, after: seq<Symbol>)
    requires |a| == |b|
    ensures Difference(before + a + after, before + b + after)
         == (Difference(before, before) + Difference(a, b)) + Difference(after, after)
    ensures AllZero(Difference(before, before)) && AllZero(Difference(after, after))
    ensures a != b ==> !AllZero(Difference(a, b))
  {
    hide Xor40;
    forall s: Symbol ensures Differ(s, s) == 0 {
      XorFacts(s, s, 0);
    }
    if a != b {
      var i :| 0 <= i < |a| && a[i] != b[i];
      XorFacts(a[i], b[i], 0);
      assert Difference(a, b)[i] != 0;
    }
    hide Differ;
  }

  // ---- Characters into symbols -------------------------------------------------------------------------

  /** Where a character first appears, looking from position k on. */
  function IndexFrom(s: string, c: char, k: nat): (i: nat)
    requires k <= |s|
    ensures k <= i <= |s| && (i < |s| ==> s[i] == c)
    decreases |s| - k
  {
    if k == |s| || s[k] == c then k else IndexFrom(s, c, k + 1)
  }

  type Code = v: int | 0 <= v < 96

  lemma CharsetFits(row: nat)
    ensures |InputCharset(row)| == if row < 2 then 32 else 31
  {
  }

  function CodeOf(c: char): (r: Option<Code>) {
    CharsetFits(0);
    CharsetFits(1);
    CharsetFits(2);
    var first, second, third := IndexFrom(InputCharset(0), c, 0), IndexFrom(InputCharset(1), c, 0), IndexFrom(InputCharset(2), c, 0);
    if first < 32 then Some(first)
    else if second < 32 then Some(32 + second)
    else if third < 31 then Some(64 + third)
    else None
  }

  /** The value of each character, or None past the alphabet. */
  function Codes(descriptor: string): (r: Option<seq<Code>>)
    ensures r.Some? ==> |r.value| == |descriptor|
  {
    hide CodeOf;
    if descriptor == "" then Some([])
    else
      var rest := Codes(descriptor[..|descriptor| - 1]);
      var value := CodeOf(descriptor[|descriptor| - 1]);
      if rest.None? || value.None? then None else Some(rest.value + [value.value])
  }

  /** The high bits of three characters, in one symbol. */
  function Group(a: Code, b: Code, c: Code): Symbol {
    a / 32 * 9 + b / 32 * 3 + c / 32
  }

  /** A last group of fewer than three. */
  function Short(vs: seq<Code>): (symbols: seq<Symbol>)
    requires |vs| < 3
  {
    if |vs| == 0 then [] else if |vs| == 1 then [vs[0] % 32, vs[0] / 32] else [vs[0] % 32, vs[1] % 32, vs[0] / 32 * 3 + vs[1] / 32]
  }

  /** Three characters at a time: their low five bits, then their high bits in one symbol. */
  function Expanded(vs: seq<Code>): (symbols: seq<Symbol>)
    decreases |vs|
  {
    if |vs| < 3 then Short(vs) else [vs[0] % 32, vs[1] % 32, vs[2] % 32, Group(vs[0], vs[1], vs[2])] + Expanded(vs[3..])
  }

  lemma {:induction false} ExpandedConcat(a: seq<Code>, b: seq<Code>)
    requires |a| % 3 == 0
    ensures Expanded(a + b) == Expanded(a) + Expanded(b)
    decreases |a|
  {
    hide Expanded, Group, Short;
    if a == [] {
      assert a + b == b;
      FewSymbols([]);
      ShortEmpty();
    } else {
      ExpandedConcat(a[3..], b);
      assert (a + b)[3..] == a[3..] + b;
      NextThree(a);
      NextThree(a + b);
    }
  }

  lemma NextThree(vs: seq<Code>)
    requires |vs| >= 3
    ensures Expanded(vs) == [vs[0] % 32, vs[1] % 32, vs[2] % 32, Group(vs[0], vs[1], vs[2])] + Expanded(vs[3..])
  {
    hide Short, Group;
  }

  lemma FewSymbols(vs: seq<Code>)
    requires |vs| < 3
    ensures Expanded(vs) == Short(vs)
  {
    hide Short, Group;
  }

  lemma ExpandedShort(vs: seq<Code>)
    ensures |vs| == 0 ==> Expanded(vs) == []
    ensures |vs| == 6 ==> |Expanded(vs)| == 8
    ensures |vs| < 6 ==> |Expanded(vs)| <= 7
  {
    hide Expanded, Group;
    if |vs| < 3 {
      FewSymbols(vs);
    } else {
      NextThree(vs);
      if |vs| < 6 {
        FewSymbols(vs[3..]);
      } else if |vs| == 6 {
        NextThree(vs[3..]);
        FewSymbols(vs[3..][3..]);
      }
    }
  }

  /** Equal symbols mean equal characters, and the length alone fixes how many symbols there are. */
  lemma {:induction false} ExpandedInjective(a: seq<Code>, b: seq<Code>)
    requires |a| == |b|
    ensures |Expanded(a)| == |Expanded(b)|
    ensures Expanded(a) == Expanded(b) ==> a == b
    decreases |a|
  {
    hide Expanded;
    if |a| >= 3 {
      ExpandedInjective(a[3..], b[3..]);
      NextThree(a);
      NextThree(b);
      if Expanded(a) == Expanded(b) {
        var x, y := Expanded(a), Expanded(b);
        assert x[4..] == Expanded(a[3..]) && y[4..] == Expanded(b[3..]);
        assert x[0] == y[0] && x[1] == y[1] && x[2] == y[2] && x[3] == y[3];
        SameThree(a[0], a[1], a[2], b[0], b[1], b[2]);
        assert a == [a[0], a[1], a[2]] + a[3..] && b == [b[0], b[1], b[2]] + b[3..];
      }
    } else {
      FewSymbols(a);
      FewSymbols(b);
      if Expanded(a) == Expanded(b) {
        ShortInjective(a, b);
      }
    }
  }

  lemma SameThree(a: Code, b: Code, c: Code, a': Code, b': Code, c': Code)
    requires a % 32 == a' % 32 && b % 32 == b' % 32 && c % 32 == c' % 32 && Group(a, b, c) == Group(a', b', c')
    ensures a == a' && b == b' && c == c'
  {
    BaseThree(a / 32, b / 32, c / 32, a' / 32, b' / 32, c' / 32);
    HighAndLow(a, a');
    HighAndLow(b, b');
    HighAndLow(c, c');
  }

  lemma BaseThree(x: nat, y: nat, z: nat, x': nat, y': nat, z': nat)
    requires x < 3 && y < 3 && z < 3 && x' < 3 && y' < 3 && z' < 3 && x * 9 + y * 3 + z == x' * 9 + y' * 3 + z'
    ensures x == x' && y == y' && z == z'
  {
  }

  lemma HighAndLow(a: Code, b: Code)
    requires a % 32 == b % 32 && a / 32 == b / 32
    ensures a == b
  {
  }

  lemma ShortInjective(a: seq<Code>, b: seq<Code>)
    requires |a| == |b| < 3 && Short(a) == Short(b)
    ensures a == b
  {
    var x, y := Short(a), Short(b);
    if |a| == 2 {
      assert x[0] == y[0] && x[1] == y[1] && x[2] == y[2];
    } else if |a| == 1 {
      assert x[0] == y[0] && x[1] == y[1];
    }
  }

  function Lows(vs: seq<Code>): (r: seq<Symbol>) { seq<Symbol>(|vs|, i requires 0 <= i < |vs| => vs[i] % 32) }
  function Highs(vs: seq<Code>): (r: seq<nat>) { seq(|vs|, i requires 0 <= i < |vs| => vs[i] / 32) }

  /** Whole groups are out; of the group that is open, the low bits are out and the high bits wait. */
  ghost predicate Pending(vs: seq<Code>, symbols: seq<Symbol>, groups: seq<nat>) {
    var m := |vs| - |vs| % 3;
    symbols == Expanded(vs[..m]) + Lows(vs[m..]) && groups == Highs(vs[m..])
  }

  /** `expand`: high bits wait in a group of three. descriptor.ts:92-108. */
  method Expand(descriptor: string) returns (r: Option<seq<Symbol>>)
    ensures r.None? <==> Codes(descriptor).None?
    ensures r.Some? ==> r.value == Expanded(Codes(descriptor).value)
  {
    hide Expanded, CodeOf, Pending;
    var symbols: seq<Symbol>, groups: seq<nat> := [], [];
    ghost var vs: seq<Code> := [];
    PendingStart();
    for i := 0 to |descriptor|
      invariant Codes(descriptor[..i]) == Some(vs) && Pending(vs, symbols, groups)
    {
      var value := CodeOf(descriptor[i]);
      CodesNext(descriptor, i);
      if value.None? { return None; }
      PendingNext(vs, symbols, groups, value.value);
      vs := vs + [value.value];
      symbols := symbols + [value.value % 32];
      groups := groups + [value.value / 32];
      if |groups| == 3 {
        symbols := symbols + [groups[0] * 9 + groups[1] * 3 + groups[2]];
        groups := [];
      }
    }
    assert descriptor[..|descriptor|] == descriptor;
    PendingEnd(vs, symbols, groups);
    if |groups| == 1 {
      symbols := symbols + [groups[0]];
    } else if |groups| == 2 {
      symbols := symbols + [groups[0] * 3 + groups[1]];
    }
    r := Some(symbols);
  }

  lemma CodesNext(descriptor: string, i: nat)
    requires i < |descriptor| && Codes(descriptor[..i]).Some?
    ensures CodeOf(descriptor[i]).Some? ==>
      Codes(descriptor[..i + 1]) == Some(Codes(descriptor[..i]).value + [CodeOf(descriptor[i]).value])
    ensures CodeOf(descriptor[i]).None? ==> Codes(descriptor).None?
  {
    hide CodeOf, Codes;
    assert descriptor[..i + 1][..i] == descriptor[..i];
    CodesLast(descriptor[..i + 1]);
    if CodeOf(descriptor[i]).None? {
      StaysNone(descriptor, i + 1);
    }
  }

  lemma CodesLast(descriptor: string)
    requires descriptor != ""
    ensures var rest, value := Codes(descriptor[..|descriptor| - 1]), CodeOf(descriptor[|descriptor| - 1]);
      Codes(descriptor) == if rest.None? || value.None? then None else Some(rest.value + [value.value])
  {
    hide CodeOf;
  }

  lemma {:induction false} StaysNone(descriptor: string, i: nat)
    requires i <= |descriptor| && Codes(descriptor[..i]).None?
    ensures Codes(descriptor).None?
    decreases |descriptor| - i
  {
    hide CodeOf, Codes;
    if i < |descriptor| {
      assert descriptor[..i + 1][..i] == descriptor[..i];
      CodesLast(descriptor[..i + 1]);
      StaysNone(descriptor, i + 1);
    } else {
      assert descriptor[..i] == descriptor;
    }
  }

  lemma PendingStart()
    ensures Pending([], [], [])
  {
  }

  lemma PushParts(vs: seq<Code>, v: Code, m: nat)
    requires m <= |vs|
    ensures (vs + [v])[..m] == vs[..m]
    ensures Lows((vs + [v])[m..]) == Lows(vs[m..]) + [v % 32] && Highs((vs + [v])[m..]) == Highs(vs[m..]) + [v / 32]
  {
    assert (vs + [v])[m..] == vs[m..] + [v];
  }

  lemma PendingNext(vs: seq<Code>, symbols: seq<Symbol>, groups: seq<nat>, v: Code)
    requires Pending(vs, symbols, groups)
    ensures |groups| == |vs| % 3
    ensures |groups| < 2 ==> Pending(vs + [v], symbols + [v % 32], groups + [v / 32])
    ensures |groups| == 2 ==>
      var g := groups[0] * 9 + groups[1] * 3 + v / 32;
      0 <= g < 32 && Pending(vs + [v], symbols + [v % 32] + [g], [])
  {
    hide Expanded, Lows, Highs, Group;
    var m := |vs| - |vs| % 3;
    HighsAre(vs[m..]);
    PushParts(vs, v, m);
    if |vs| % 3 == 2 {
      GroupDone(vs + [v], m);
    }
  }

  lemma GroupDone(vs: seq<Code>, m: nat)
    requires m % 3 == 0 && |vs| == m + 3
    ensures Group(vs[m], vs[m + 1], vs[m + 2]) == vs[m] / 32 * 9 + vs[m + 1] / 32 * 3 + vs[m + 2] / 32
    ensures Expanded(vs) == Expanded(vs[..m]) + Lows(vs[m..]) + [Group(vs[m], vs[m + 1], vs[m + 2])]
    ensures vs[m + 3..] == [] && Lows([]) == [] && Highs([]) == [] && vs[..m + 3] == vs
  {
    hide Expanded, Short;
    var tail := vs[m..];
    SplitTail(vs, m);
    NextThree(tail);
    FewSymbols(tail[3..]);
    ShortEmpty();
    assert tail[3..] == [];
    LowsAre(tail);
    EndOfGroup(Expanded(vs[..m]), tail[0] % 32, tail[1] % 32, tail[2] % 32, Group(tail[0], tail[1], tail[2]));
  }

  lemma ShortEmpty()
    ensures Short([]) == []
  {
  }

  lemma EndOfGroup(before: seq<Symbol>, a: Symbol, b: Symbol, c: Symbol, g: Symbol)
    ensures before + ([a, b, c, g] + []) == before + [a, b, c] + [g]
  {
  }

  lemma LowsAre(vs: seq<Code>)
    requires |vs| <= 3
    ensures |vs| == 0 ==> Lows(vs) == []
    ensures |vs| == 1 ==> Lows(vs) == [vs[0] % 32]
    ensures |vs| == 2 ==> Lows(vs) == [vs[0] % 32, vs[1] % 32]
    ensures |vs| == 3 ==> Lows(vs) == [vs[0] % 32, vs[1] % 32, vs[2] % 32]
  {
  }

  lemma HighsAre(vs: seq<Code>)
    ensures |Highs(vs)| == |vs| && forall i :: 0 <= i < |vs| ==> Highs(vs)[i] == vs[i] / 32
  {
  }

  lemma PendingEnd(vs: seq<Code>, symbols: seq<Symbol>, groups: seq<nat>)
    requires Pending(vs, symbols, groups)
    ensures |groups| < 3
    ensures |groups| == 0 ==> Expanded(vs) == symbols
    ensures |groups| == 1 ==> groups[0] < 32 && Expanded(vs) == symbols + [groups[0]]
    ensures |groups| == 2 ==> groups[0] * 3 + groups[1] < 32 && Expanded(vs) == symbols + [groups[0] * 3 + groups[1]]
  {
    hide *;
    var m := |vs| - |vs| % 3;
    var tail := vs[m..];
    PendingMeans(vs, symbols, groups);
    HighsAre(tail);
    SplitTail(vs, m);
    FewSymbols(tail);
    EndOf(Expanded(vs[..m]), tail);
  }

  lemma PendingMeans(vs: seq<Code>, symbols: seq<Symbol>, groups: seq<nat>)
    requires Pending(vs, symbols, groups)
    ensures var m := |vs| - |vs| % 3; symbols == Expanded(vs[..m]) + Lows(vs[m..]) && groups == Highs(vs[m..])
  {
    hide Expanded, Lows, Highs;
  }

  lemma SplitTail(vs: seq<Code>, m: nat)
    requires m <= |vs| && m % 3 == 0
    ensures Expanded(vs) == Expanded(vs[..m]) + Expanded(vs[m..])
  {
    hide Expanded;
    assert vs == vs[..m] + vs[m..];
    ExpandedConcat(vs[..m], vs[m..]);
  }

  /** The last group is its low bits, then its high bits in one symbol. */
  lemma EndOf(before: seq<Symbol>, tail: seq<Code>)
    requires |tail| < 3
    ensures |tail| == 0 ==> before + Short(tail) == before + Lows(tail)
    ensures |tail| == 1 ==> before + Short(tail) == before + Lows(tail) + [tail[0] / 32]
    ensures |tail| == 2 ==>
      && tail[0] / 32 * 3 + tail[1] / 32 < 32
      && before + Short(tail) == before + Lows(tail) + [tail[0] / 32 * 3 + tail[1] / 32]
  {
    LowsAre(tail);
    hide Lows;
  }

  // ---- The checksum ---------------------------------------------------------------------------------------

  /** The remainder after eight zero symbols, its last bit flipped. */
  function Remainder(vs: seq<Code>): (r: Word) {
    Xor40(Run(1, Expanded(vs) + [0, 0, 0, 0, 0, 0, 0, 0]), 1)
  }

  function ChecksumChar(d: Symbol): (c: char) {
    ChecksumSize();
    ChecksumCharset()[d]
  }

  lemma ChecksumSize()
    ensures |ChecksumCharset()| == 32
  {
  }

  /** The five-bit digits of a remainder, highest first. */
  function Digits(n: nat, k: nat): (r: seq<Symbol>)
    ensures |r| == k
  {
    if k == 0 then [] else Digits(n / 32, k - 1) + [n % 32]
  }

  lemma {:induction false} DigitsDecide(m: nat, n: nat, k: nat)
    requires m < Pow2(5 * k) && n < Pow2(5 * k) && Digits(m, k) == Digits(n, k)
    ensures m == n
  {
    if k > 0 {
      var p := Pow2(5 * (k - 1));
      SmallPowers();
      Pow2Add(5 * (k - 1), 5);
      var x, y := Digits(m, k), Digits(n, k);
      assert x[..k - 1] == Digits(m / 32, k - 1) && y[..k - 1] == Digits(n / 32, k - 1) && x[k - 1] == m % 32 && y[k - 1] == n % 32;
      DigitsDecide(m / 32, n / 32, k - 1);
    }
  }

  function Text(digits: seq<Symbol>): (text: string)
    ensures |text| == |digits|
  {
    if digits == [] then "" else Text(digits[..|digits| - 1]) + [ChecksumChar(digits[|digits| - 1])]
  }

  /** `descriptorChecksum` as a function. */
  function Checksum(descriptor: string): Option<string> {
    var vs := Codes(descriptor);
    if vs.None? then None else Some(Text(Digits(Remainder(vs.value), 8)))
  }

  lemma EightCharacters(descriptor: string)
    ensures Checksum(descriptor).Some? ==> |Checksum(descriptor).value| == 8
  {
    hide Codes, Remainder, Digits, Text;
  }

  /** descriptor.ts:111-120. */
  method DescriptorChecksum(descriptor: string) returns (r: Option<string>)
    ensures r == Checksum(descriptor)
  {
    hide Xor40, Run, Expanded, Codes, Text, Digits;
    var symbols := Expand(descriptor);
    if symbols.None? { return None; }
    var chk := Polymod(symbols.value + [0, 0, 0, 0, 0, 0, 0, 0]);
    var out := ChecksumText(Xor40(chk, 1), 8);
    r := Some(out);
  }

  method ChecksumText(checksum: nat, count: nat) returns (out: string)
    requires count == 8
    ensures out == Text(Digits(checksum, count))
  {
    hide Text, Digits, Pow2, ChecksumChar;
    out := "";
    DigitsStart(checksum / Pow2(40));
    for i := 0 to count
      invariant out == Text(Digits(checksum / Pow2(5 * (8 - i)), i))
    {
      NextDigit(checksum, i);
      out := out + [ChecksumChar(checksum / Pow2(5 * (7 - i)) % 32)];
    }
    PowZero();
  }

  lemma PowZero()
    ensures Pow2(0) == 1
  {
  }

  lemma DigitsStart(n: nat)
    ensures Text(Digits(n, 0)) == ""
  {
  }

  lemma NextDigit(n: nat, i: nat)
    requires i < 8
    ensures Text(Digits(n / Pow2(5 * (7 - i)), i + 1))
         == Text(Digits(n / Pow2(5 * (8 - i)), i)) + [ChecksumChar(n / Pow2(5 * (7 - i)) % 32)]
  {
    var p := Pow2(5 * (7 - i));
    hide *;
    Pow2Add(5 * (7 - i), 5);
    SmallPowers();
    DivideTwice(n, p);
    TextLast(n / p, i);
  }

  lemma TextLast(n: nat, k: nat)
    ensures Text(Digits(n, k + 1)) == Text(Digits(n / 32, k)) + [ChecksumChar(n % 32)]
  {
    hide ChecksumChar;
    assert Digits(n, k + 1)[..k] == Digits(n / 32, k);
  }

  lemma DivideTwice(n: nat, p: nat)
    requires p > 0
    ensures n / p / 32 == n / (p * 32)
  {
    var q := n / p;
    assert n == q / 32 * (p * 32) + (q % 32 * p + n % p);
    assert q % 32 * p <= 31 * p;
    DivMod(n, p * 32, q / 32, q % 32 * p + n % p);
  }

  // ---- What it catches ----------------------------------------------------------------------------------------

  /**
   * At every length: two descriptors that differ only inside four consecutive characters, by a
   * substitution, a transposition or anything else, never get the same checksum.
   */
  lemma ChecksumCatches(a: string, b: string, i: nat, w: nat)
    requires |a| == |b| && a != b && w <= 4 && i + w <= |a|
    requires a[..i] == b[..i] && a[i + w..] == b[i + w..]
    requires Checksum(a).Some? && Checksum(b).Some?
    ensures Checksum(a) != Checksum(b)
  {
    hide Remainder, Digits, Text, Codes;
    var x, y := Codes(a).value, Codes(b).value;
    CodesDiffer(a, b, i, w);
    RemaindersDiffer(x, y, i, w);
    TextDecides(Remainder(x), Remainder(y));
  }

  lemma CodesDiffer(a: string, b: string, i: nat, w: nat)
    requires |a| == |b| && a != b && i + w <= |a| && a[..i] == b[..i] && a[i + w..] == b[i + w..]
    requires Codes(a).Some? && Codes(b).Some?
    ensures var x, y := Codes(a).value, Codes(b).value;
      |x| == |y| == |a| && x != y && x[..i] == y[..i] && x[i + w..] == y[i + w..]
  {
    hide CodeOf, Codes;
    var x, y := Codes(a).value, Codes(b).value;
    forall k: nat | k < |a|
      ensures CodeOf(a[k]) == Some(x[k]) && CodeOf(b[k]) == Some(y[k])
    {
      CodeAt(a, k);
      CodeAt(b, k);
    }
    SameSlices(a, b, i, w);
    var k: nat :| k < |a| && a[k] != b[k];
    if x[k] == y[k] { SameCode(a[k], b[k]); }
  }

  lemma SameSlices<T>(a: seq<T>, b: seq<T>, i: nat, w: nat)
    requires |a| == |b| && i + w <= |a| && a[..i] == b[..i] && a[i + w..] == b[i + w..]
    ensures forall k :: 0 <= k < |a| && !(i <= k < i + w) ==> a[k] == b[k]
  {
    forall k | 0 <= k < |a| && !(i <= k < i + w) ensures a[k] == b[k] {
      if k < i { assert a[..i][k] == b[..i][k]; } else { assert a[i + w..][k - i - w] == b[i + w..][k - i - w]; }
    }
  }

  /** Different characters have different values, whatever the alphabet: a value says which character it is. */
  lemma SameCode(c: char, d: char)
    requires CodeOf(c).Some? && CodeOf(d).Some? && CodeOf(c) == CodeOf(d)
    ensures c == d
  {
    hide InputCharset, IndexFrom;
    CharsetFits(0);
    CharsetFits(1);
    CharsetFits(2);
  }

  lemma {:induction false} CodeAt(descriptor: string, k: nat)
    requires Codes(descriptor).Some? && k < |descriptor|
    ensures CodeOf(descriptor[k]).Some? && Codes(descriptor).value[k] == CodeOf(descriptor[k]).value
  {
    hide CodeOf;
    if k < |descriptor| - 1 {
      CodeAt(descriptor[..|descriptor| - 1], k);
    }
  }

  /** The groups before, the two groups the window falls in, the groups after. */
  lemma RemaindersDiffer(x: seq<Code>, y: seq<Code>, i: nat, w: nat)
    requires |x| == |y| && x != y && w <= 4 && i + w <= |x| && x[..i] == y[..i] && x[i + w..] == y[i + w..]
    ensures Remainder(x) != Remainder(y)
  {
    var n := |x|;
    var m := i - i % 3;
    var e := if m + 6 <= n then m + 6 else n;
    var zeros: seq<Symbol> := [0, 0, 0, 0, 0, 0, 0, 0];
    hide Expanded, Xor40, Run;
    SameOutside(x, y, i, w, m, e);
    ThreeParts(x, m, e);
    ThreeParts(y, m, e);
    ExpandedShort(x[m..e]);
    ExpandedInjective(x[m..e], y[m..e]);
    var before, after := Expanded(x[..m]), Expanded(x[e..]) + zeros;
    assert Expanded(x) + zeros == before + Expanded(x[m..e]) + after;
    assert Expanded(y) + zeros == before + Expanded(y[m..e]) + after;
    WindowShows(before, Expanded(x[m..e]), Expanded(y[m..e]), after);
    FlipDecides(Run(1, Expanded(x) + zeros), Run(1, Expanded(y) + zeros));
  }

  lemma SameOutside(x: seq<Code>, y: seq<Code>, i: nat, w: nat, m: nat, e: nat)
    requires |x| == |y| && x != y && i + w <= |x| && x[..i] == y[..i] && x[i + w..] == y[i + w..]
    requires m <= i && i + w <= e <= |x|
    ensures x[..m] == y[..m] && x[e..] == y[e..] && x[m..e] != y[m..e]
  {
    assert x[..m] == x[..i][..m] && y[..m] == y[..i][..m];
    assert x[e..] == x[i + w..][e - i - w..] && y[e..] == y[i + w..][e - i - w..];
    assert x == x[..m] + x[m..e] + x[e..] && y == y[..m] + y[m..e] + y[e..];
  }

  lemma ThreeParts(x: seq<Code>, m: nat, e: nat)
    requires m % 3 == 0 && m <= e <= |x| && (e == m + 6 || e == |x|)
    ensures Expanded(x) == Expanded(x[..m]) + Expanded(x[m..e]) + Expanded(x[e..])
  {
    hide Expanded;
    assert x == x[..m] + x[m..] && x[m..] == x[m..e] + x[e..];
    ExpandedConcat(x[..m], x[m..]);
    if e == m + 6 {
      ExpandedConcat(x[m..e], x[e..]);
    } else {
      ExpandedShort(x[e..]);
      assert x[m..] == x[m..e];
    }
  }

  lemma FlipDecides(a: Word, b: Word)
    ensures Xor40(a, 1) == Xor40(b, 1) ==> a == b
  {
    XorFacts(a, 1, 1);
    XorFacts(b, 1, 1);
    XorFacts(1, 1, 0);
    XorFacts(a, 0, 0);
    XorFacts(b, 0, 0);
    hide Xor40;
  }

  /** The place of a checksum character in its alphabet. */
  function Rank(c: char): (d: nat) {
    match c
    case 'q' => 0 case 'p' => 1 case 'z' => 2 case 'r' => 3 case 'y' => 4 case '9' => 5 case 'x' => 6 case '8' => 7
    case 'g' => 8 case 'f' => 9 case '2' => 10 case 't' => 11 case 'v' => 12 case 'd' => 13 case 'w' => 14 case '0' => 15
    case 's' => 16 case '3' => 17 case 'j' => 18 case 'n' => 19 case '5' => 20 case '4' => 21 case 'k' => 22 case 'h' => 23
    case 'c' => 24 case 'e' => 25 case '6' => 26 case 'm' => 27 case 'u' => 28 case 'a' => 29 case '7' => 30 case 'l' => 31
    case _ => 32
  }

  lemma RankOfChar(d: Symbol)
    ensures Rank(ChecksumChar(d)) == d
  {
  }

  lemma {:induction false} TextInjective(a: seq<Symbol>, b: seq<Symbol>)
    requires |a| == |b| && Text(a) == Text(b)
    ensures a == b
  {
    hide ChecksumChar, Rank;
    if a != [] {
      var n := |a| - 1;
      RankOfChar(a[n]);
      RankOfChar(b[n]);
      assert Text(a)[n] == ChecksumChar(a[n]) && Text(b)[n] == ChecksumChar(b[n]);
      assert Text(a)[..n] == Text(a[..n]) && Text(b)[..n] == Text(b[..n]);
      TextInjective(a[..n], b[..n]);
    }
  }

  lemma TextDecides(m: Word, n: Word)
    ensures Text(Digits(m, 8)) == Text(Digits(n, 8)) ==> m == n
  {
    hide Text, Digits;
    Powers40();
    if Text(Digits(m, 8)) == Text(Digits(n, 8)) {
      TextInjective(Digits(m, 8), Digits(n, 8));
      DigitsDecide(m, n, 8);
    }
  }

  // ---- Appending and checking -----------------------------------------------------------------------------

  /** descriptor.ts:123-126. */
  function WithChecksum(descriptor: string): Option<string> {
    var checksum := Checksum(descriptor);
    if checksum.None? then None else Some(descriptor + "#" + checksum.value)
  }

  /** Where a character appears last, or -1. */
  function LastIndexOf(s: string, c: char): (i: int)
    ensures -1 <= i < |s| && (i >= 0 ==> s[i] == c) && forall k :: i < k < |s| ==> s[k] != c
  {
    if s == "" then -1 else if s[|s| - 1] == c then |s| - 1 else LastIndexOf(s[..|s| - 1], c)
  }

  /** `checksumIsValid`: exactly the descriptors that had their checksum appended. descriptor.ts:136-143. */
  method ChecksumIsValid(descriptor: string) returns (ok: bool)
    ensures ok <==> exists body: string :: WithChecksum(body) == Some(descriptor)
  {
    hide Checksum;
    var at := LastIndexOf(descriptor, '#');
    if at < 0 || at != |descriptor| - 9 {
      NotAppended(descriptor);
      return false;
    }
    var body, given := descriptor[..at], descriptor[at + 1..];
    var want := DescriptorChecksum(body);
    ok := want == Some(given);
    assert descriptor == body + "#" + given;
    if ok {
      assert WithChecksum(body) == Some(descriptor);
    } else {
      OneBody(descriptor, body, given);
    }
  }

  /** A checksum holds no '#', so an appended one is found where it was put. */
  lemma Appended(body: string, descriptor: string)
    requires WithChecksum(body) == Some(descriptor)
    ensures |descriptor| >= 9 && LastIndexOf(descriptor, '#') == |descriptor| - 9
    ensures descriptor[..|descriptor| - 9] == body && Checksum(body) == Some(descriptor[|descriptor| - 8..])
  {
    hide Checksum;
    var n, checksum := |body|, Checksum(body).value;
    EightCharacters(body);
    NoHash(body);
    assert descriptor == body + "#" + checksum;
    assert descriptor[n] == '#' && descriptor[n + 1..] == checksum && descriptor[..n] == body;
    forall k | n < k < |descriptor| ensures descriptor[k] != '#' {
      assert descriptor[k] == checksum[k - n - 1];
    }
  }

  lemma NotAppended(descriptor: string)
    ensures (exists body: string :: WithChecksum(body) == Some(descriptor)) ==>
      |descriptor| >= 9 && LastIndexOf(descriptor, '#') == |descriptor| - 9
  {
    hide *;
    if body: string :| WithChecksum(body) == Some(descriptor) {
      Appended(body, descriptor);
    }
  }

  /** There is only one body a descriptor's checksum could have been appended to. */
  lemma OneBody(descriptor: string, body: string, given: string)
    requires descriptor == body + "#" + given && |given| == 8
    ensures (exists other: string :: WithChecksum(other) == Some(descriptor)) ==> Checksum(body) == Some(given)
  {
    hide WithChecksum, Checksum, LastIndexOf;
    if other: string :| WithChecksum(other) == Some(descriptor) {
      Appended(other, descriptor);
      assert descriptor[..|descriptor| - 9] == body && descriptor[|descriptor| - 8..] == given;
    }
  }

  lemma NoHash(body: string)
    requires Checksum(body).Some?
    ensures '#' !in Checksum(body).value
  {
    hide Remainder, Codes, Digits;
    TextHasNoHash(Digits(Remainder(Codes(body).value), 8));
  }

  lemma {:induction false} TextHasNoHash(digits: seq<Symbol>)
    ensures '#' !in Text(digits)
  {
    hide ChecksumChar;
    if digits != [] {
      TextHasNoHash(digits[..|digits| - 1]);
      RankOfChar(digits[|digits| - 1]);
    }
  }

  /** A descriptor that still carries its old checksum is refused after any such change. */
  lemma ChangedIsRefused(a: string, b: string, checksum: string, i: nat, w: nat)
    requires |a| == |b| && a != b && w <= 4 && i + w <= |a|
    requires a[..i] == b[..i] && a[i + w..] == b[i + w..]
    requires Checksum(a) == Some(checksum)
    ensures !exists body: string :: WithChecksum(body) == Some(b + "#" + checksum)
  {
    hide Checksum;
    EightCharacters(a);
    if Checksum(b).Some? {
      ChecksumCatches(a, b, i, w);
    }
    OneBody(b + "#" + checksum, b, checksum);
  }
}
