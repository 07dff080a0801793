/** CRC-32: the table loop is division bit at a time, and no burst inside four bytes slips past it. */
module Crc {
  import opened Sums
  import opened Bytes
  import opened Bits

  const POLY := 0xedb88320
  const ONES := 0xffffffff

  type Word = w: nat | w < 0x1_0000_0000

  function Xor32(a: Word, b: Word): (r: Word) {
    Powers();
    XorRange(a, b, 32);
    XorBits(a, b, 32)
  }

  // ---- One bit at a time ----------------------------------------------------------------

  /** One step of the division, low bit first. envelope.ts:214. */
  function Shift(c: Word): (r: Word) {
    if c % 2 == 1 then Xor32(POLY, c / 2) else c / 2
  }

  function Shifts(c: Word, k: nat): (r: Word)
    decreases k
  {
    if k == 0 then c else Shifts(Shift(c), k - 1)
  }

  /** A byte mixed in, then eight steps: the definition of the code. */
  function ByteStep(crc: Word, b: Byte): (r: Word) {
    Shifts(Xor32(crc, b), 8)
  }

  function Run(crc: Word, bytes: seq<Byte>): (r: Word) {
    if bytes == [] then crc else ByteStep(Run(crc, bytes[..|bytes| - 1]), bytes[|bytes| - 1])
  }

  function Crc32Of(bytes: seq<Byte>): (r: Word) {
    Xor32(Run(ONES, bytes), ONES)
  }

  // ---- Linearity --------------------------------------------------------------------------

  lemma XorFacts(a: Word, b: Word, c: Word)
    ensures Xor32(a, b) == Xor32(b, a) && Xor32(Xor32(a, b), c) == Xor32(a, Xor32(b, c))
    ensures Xor32(a, 0) == a && Xor32(a, a) == 0 && Xor32(Xor32(a, b), b) == a
  {
    Powers();
    XorSymmetric(a, b, 32);
    XorBitsAssociative(a, b, c, 32);
    XorBitsAssociative(a, b, b, 32);
    XorBitsZero(a, 32);
    XorBitsSelf(a, 32);
    XorBitsSelf(b, 32);
  }

  lemma XorPairs(a: Word, b: Word, c: Word, d: Word)
    ensures Xor32(Xor32(a, b), Xor32(c, d)) == Xor32(Xor32(a, c), Xor32(b, d))
  {
    XorFour(a, b, c, d, 32);
  }

  lemma HalvesXor(a: Word, b: Word)
    ensures Xor32(a, b) / 2 == Xor32(a / 2, b / 2) && Xor32(a, b) % 2 == (a + b) % 2
  {
    Powers();
    XorStep(a, b, 32);
    XorNarrow(a / 2, b / 2, 31, 32);
  }

  lemma ShiftLinear(a: Word, b: Word)
    ensures Shift(Xor32(a, b)) == Xor32(Shift(a), Shift(b))
  {
    var x, y := a / 2, b / 2;
    HalvesXor(a, b);
    ParityOfSum(a, b);
    XorFacts(POLY, x, y);
    XorFacts(x, POLY, y);
    XorPairs(POLY, x, POLY, y);
    XorFacts(POLY, POLY, 0);
    XorFacts(Xor32(x, y), 0, 0);
    XorFacts(0, Xor32(x, y), 0);
    hide Xor32;
  }

  lemma {:induction false} ShiftsLinear(a: Word, b: Word, k: nat)
    ensures Shifts(Xor32(a, b), k) == Xor32(Shifts(a, k), Shifts(b, k))
    decreases k
  {
    hide Shift, Xor32;
    if k > 0 {
      ShiftLinear(a, b);
      ShiftsLinear(Shift(a), Shift(b), k - 1);
    }
  }

  /** Zero bits at the bottom are shifted out and nothing else happens. */
  lemma {:induction false} ShiftsZeros(y: nat, k: nat)
    requires y * Pow2(k) < 0x1_0000_0000
    ensures Shifts(y * Pow2(k), k) == y
  {
    if k == 0 {
    } else {
      TwicePower(y, k);
      assert Shift(2 * (y * Pow2(k - 1))) == y * Pow2(k - 1);
      hide Shift, Pow2;
      ShiftsZeros(y, k - 1);
    }
  }

  /** Only the low k bits take part in k steps; the rest come straight down. */
  lemma ShiftsSplit(hi: nat, lo: nat, k: nat)
    requires k <= 32 && lo < Pow2(k) && hi < Pow2(32 - k)
    ensures hi < 0x1_0000_0000 && lo < 0x1_0000_0000 && hi * Pow2(k) + lo < 0x1_0000_0000
    ensures Shifts(hi * Pow2(k) + lo, k) == Xor32(Shifts(lo, k), hi)
  {
    hide *;
    Powers();
    Pow2Add(32 - k, k);
    Pow2Small(k);
    Pow2Small(32 - k);
    var p, q := Pow2(k), Pow2(32 - k);
    assert q * p == 0x1_0000_0000;
    ProductOrder(hi + 1, q, p);
    NextMultiple(hi, p);
    XorDisjoint(hi, lo, k, 32 - k);
    XorIs32(hi * p, lo, k);
    ShiftsLinear(hi * p, lo, k);
    ShiftsZeros(hi, k);
    XorFacts(hi, Shifts(lo, k), 0);
  }

  lemma XorIs32(a: Word, b: Word, k: nat)
    requires k <= 32
    ensures Xor32(a, b) == XorBits(a, b, 32 - k + k)
  {
  }

  lemma ProductOrder(a: int, b: int, n: nat)
    ensures a <= b ==> a * n <= b * n
  {
  }

  lemma NextMultiple(a: nat, n: nat)
    ensures (a + 1) * n == a * n + n
  {
  }

  // ---- The table loop -----------------------------------------------------------------------

  /** Eight steps at once by the table: exactly what eight single steps do. */
  lemma TableIsBitwise(crc: Word, b: Byte)
    ensures Xor32(Shifts(Xor32(crc, b) % 256, 8), crc / 256) == ByteStep(crc, b)
  {
    var x := Xor32(crc, b);
    hide *;
    HighBytes(crc, b);
    DivideAgain(x, 256);
    LowByteSplit(x, x / 256, x % 256);
    ByteStepIs(crc, b);
  }

  lemma LowByteSplit(x: Word, hi: nat, lo: nat)
    requires x == hi * 256 + lo && lo < 256 && hi < Pow2(24)
    ensures hi < 0x1_0000_0000 && Shifts(x, 8) == Xor32(Shifts(lo, 8), hi)
  {
    hide *;
    Powers();
    ShiftsSplit(hi, lo, 8);
  }

  /** A byte mixed in leaves the three bytes above it alone. */
  lemma HighBytes(crc: Word, b: Byte)
    ensures Xor32(crc, b) / 256 == crc / 256 < Pow2(24)
  {
    Powers();
    assert b / 256 == 0 && crc / 256 < Pow2(24);
    XorIs32(crc, b, 8);
    hide *;
    XorShiftDown(crc, b, 8, 24);
    XorBitsZero(crc / 256, 24);
  }

  /** The table, filled the first time it is needed. envelope.ts:207-221. */
  class Crc32 {
    var table: seq<Word>

    constructor ()
      ensures Valid()
    {
      table := [];
    }

    /** Not yet filled, or filled with eight steps of every byte. */
    ghost predicate Valid()
      reads this
    {
      table == [] || Filled(table)
    }

    method Compute(bytes: seq<Byte>) returns (crc: Word)
      requires Valid()
      modifies this
      ensures Valid() && crc == Crc32Of(bytes)
    {
      hide Shift, Shifts, Xor32, Run;
      if table == [] {
        table := FillTable();
      }
      crc := ONES;
      RunNext(ONES, bytes, 0);
      for i := 0 to |bytes|
        invariant Filled(table) && crc == Run(ONES, bytes[..i])
      {
        TableIsBitwise(crc, bytes[i]);
        RunNext(ONES, bytes, i);
        crc := Xor32(table[Xor32(crc, bytes[i]) % 256], crc / 256);
      }
      assert bytes[..|bytes|] == bytes;
      crc := Xor32(crc, ONES);
    }
  }

  ghost predicate Filled(table: seq<Word>) {
    |table| == 256 && forall n: nat :: n < 256 ==> table[n] == Shifts(n, 8)
  }

  method FillTable() returns (table: seq<Word>)
    ensures Filled(table)
  {
    hide Shift, Xor32;
    table := [];
    for n := 0 to 256
      invariant |table| == n && forall m: nat :: m < n ==> table[m] == Shifts(m, 8)
    {
      var c: Word := n;
      for k := 0 to 8
        invariant Shifts(c, 8 - k) == Shifts(n, 8)
      {
        c := Shift(c);
      }
      table := table + [c];
    }
  }

  lemma RunNext(crc: Word, bytes: seq<Byte>, i: nat)
    requires i <= |bytes|
    ensures i == 0 ==> Run(crc, bytes[..i]) == crc
    ensures i < |bytes| ==> Run(crc, bytes[..i + 1]) == ByteStep(Run(crc, bytes[..i]), bytes[i])
  {
    if i < |bytes| {
      assert bytes[..i + 1][..i] == bytes[..i];
    }
    hide ByteStep;
  }

  // ---- Bursts ---------------------------------------------------------------------------------

  /** Two runs differ by the run of what they differ by. */
  lemma {:induction false} RunsDiffer(c: Word, a: seq<Byte>, c': Word, a': seq<Byte>)
    requires |a| == |a'|
    ensures Xor32(Run(c, a), Run(c', a')) == Run(Xor32(c, c'), XorAll(a, a'))
  {
    hide Shifts, Xor32, Xor;
    if a != [] {
      var n := |a| - 1;
      RunsDiffer(c, a[..n], c', a'[..n]);
      assert XorAll(a, a')[..n] == XorAll(a[..n], a'[..n]);
      StepsDiffer(Run(c, a[..n]), a[n], Run(c', a'[..n]), a'[n]);
    }
  }

  lemma StepsDiffer(c: Word, b: Byte, c': Word, b': Byte)
    ensures Xor32(ByteStep(c, b), ByteStep(c', b')) == ByteStep(Xor32(c, c'), Xor(b, b'))
  {
    Powers();
    XorNarrow(b, b', 8, 32);
    XorPairs(c, b, c', b');
    hide Shifts;
    ShiftsLinear(Xor32(c, b), Xor32(c', b'), 8);
  }

  /** A step undoes: nothing but zero goes to zero. */
  lemma ShiftKeepsNonzero(c: Word)
    requires c != 0
    ensures Shift(c) != 0
  {
    Powers();
    if c % 2 == 1 && Shift(c) == 0 {
      XorZeroMeansEqual(POLY, c / 2, 32);
    }
  }

  lemma {:induction false} ShiftsKeepNonzero(c: Word, k: nat)
    requires c != 0
    ensures Shifts(c, k) != 0
    decreases k
  {
    if k > 0 {
      ShiftKeepsNonzero(c);
      ShiftsKeepNonzero(Shift(c), k - 1);
    }
  }

  ghost predicate AllZero(bytes: seq<Byte>) {
    forall i :: 0 <= i < |bytes| ==> bytes[i] == 0
  }

  lemma {:induction false} RunZeros(d: Word, zeros: seq<Byte>)
    requires AllZero(zeros)
    ensures Run(d, zeros) == 0 <==> d == 0
  {
    if zeros != [] {
      var c := Run(d, zeros[..|zeros| - 1]);
      RunZeros(d, zeros[..|zeros| - 1]);
      XorFacts(c, 0, 0);
      if c != 0 {
        ShiftsKeepNonzero(c, 8);
      } else {
        ZeroShifts(8);
      }
    }
  }

  lemma {:induction false} ZeroShifts(k: nat)
    ensures Shifts(0, k) == 0
  {
    if k > 0 {
      ZeroShifts(k - 1);
    }
  }

  lemma {:induction false} RunConcat(d: Word, a: seq<Byte>, b: seq<Byte>)
    ensures Run(d, a + b) == Run(Run(d, a), b)
  {
    hide ByteStep;
    if b == [] {
      assert a + b == a;
    } else {
      assert (a + b)[..|a + b| - 1] == a + b[..|b| - 1];
      RunConcat(d, a, b[..|b| - 1]);
    }
  }

  lemma {:induction false} ShiftsAdd(c: Word, j: nat, k: nat)
    ensures Shifts(c, j + k) == Shifts(Shifts(c, j), k)
    decreases j
  {
    hide Shift;
    if j > 0 {
      ShiftsAdd(Shift(c), j - 1, k);
    }
  }

  /** Up to four bytes from zero: the little-endian number they write, stepped once for every bit of it. */
  lemma {:induction false} RunWindow(w: seq<Byte>)
    requires |w| <= 4
    ensures LittleEndianFrom(w) < Pow2(8 * |w|) <= 0x1_0000_0000
    ensures Run(0, w) == Shifts(LittleEndianFrom(w), 8 * |w|)
  {
    Powers();
    if w == [] {
    } else {
      var k, init, b := |w| - 1, w[..|w| - 1], w[|w| - 1];
      hide Pow2, ByteStep, Shifts;
      RunWindow(init);
      WindowBounds(LittleEndianFrom(init), b, k, Pow2(8 * k));
      WindowStep(LittleEndianFrom(init), b, k, Pow2(8 * k));
    }
  }

  function LittleEndianFrom(w: seq<Byte>): nat {
    if w == [] then 0 else LittleEndianFrom(w[..|w| - 1]) + w[|w| - 1] * Pow2(8 * (|w| - 1))
  }

  lemma Pow2Small(k: nat)
    requires k <= 32
    ensures Pow2(k) <= 0x1_0000_0000
  {
    hide *;
    Powers();
    Pow2Add(k, 32 - k);
    ProductOrder(1, Pow2(32 - k), Pow2(k));
  }

  lemma WindowStep(n: nat, b: Byte, k: nat, p: nat)
    requires k < 4 && p == Pow2(8 * k) && n < p
    ensures n + b * p < 0x1_0000_0000 && n < 0x1_0000_0000
    ensures ByteStep(Shifts(n, 8 * k), b) == Shifts(n + b * p, 8 * k + 8)
  {
    hide *;
    WindowBounds(n, b, k, p);
    ShiftsSplit(b, n, 8 * k);
    ByteStepIs(Shifts(n, 8 * k), b);
    ShiftsAdd(n + b * p, 8 * k, 8);
  }

  lemma WindowBounds(n: nat, b: Byte, k: nat, p: nat)
    requires k < 4 && p == Pow2(8 * k) && n < p
    ensures n + b * p < Pow2(8 * k + 8) <= 0x1_0000_0000 && n < 0x1_0000_0000 && b < Pow2(32 - 8 * k)
  {
    hide *;
    Powers();
    Pow2Add(8 * k, 8);
    Pow2Small(8 * k);
    Pow2Small(8 * k + 8);
    ByteBelow(24 - 8 * k);
    ProductOrder(b + 1, 256, p);
    NextMultiple(b, p);
  }

  lemma ByteBelow(j: nat)
    ensures 256 <= Pow2(j + 8)
  {
    hide *;
    Powers();
    Pow2Add(j, 8);
    ProductOrder(1, Pow2(j), 256);
  }

  lemma ByteStepIs(c: Word, b: Byte)
    ensures ByteStep(c, b) == Shifts(Xor32(c, b), 8)
  {
  }

  lemma {:induction false} WindowNonzero(w: seq<Byte>)
    requires !AllZero(w)
    ensures LittleEndianFrom(w) != 0
  {
    var init, b := w[..|w| - 1], w[|w| - 1];
    if b == 0 {
      if AllZero(init) {
        assert forall i :: 0 <= i < |w| ==> w[i] == (if i < |init| then init[i] else b);
      }
      WindowNonzero(init);
    } else {
      assert b * Pow2(8 * (|w| - 1)) > 0;
    }
  }

  /** An error confined to four consecutive bytes, at any place in a payload of any length, always shows. */
  lemma BurstShows(a: seq<Byte>, b: seq<Byte>, i: nat, w: nat)
    requires |a| == |b| && a != b && w <= 4 && i + w <= |a|
    requires a[..i] == b[..i] && a[i + w..] == b[i + w..]
    ensures Crc32Of(a) != Crc32Of(b)
  {
    var e := XorAll(a, b);
    hide *;
    WindowOf(a, b, i, w);
    BurstFromZero(e, i, w);
    RunsDiffer(ONES, a, ONES, b);
    XorFacts(ONES, ONES, 0);
    XorFacts(Run(ONES, a), ONES, 0);
    XorFacts(Run(ONES, b), ONES, 0);
    XorFacts(Run(ONES, a), Run(ONES, a), 0);
    CrcIs(a);
    CrcIs(b);
  }

  lemma CrcIs(a: seq<Byte>)
    ensures Crc32Of(a) == Xor32(Run(ONES, a), ONES)
  {
  }

  lemma BurstFromZero(e: seq<Byte>, i: nat, w: nat)
    requires w <= 4 && i + w <= |e|
    requires AllZero(e[..i]) && AllZero(e[i + w..]) && !AllZero(e[i..i + w])
    ensures Run(0, e) != 0
  {
    hide *;
    var before, window, after := e[..i], e[i..i + w], e[i + w..];
    assert e == (before + window) + after;
    RunConcat(0, before + window, after);
    RunConcat(0, before, window);
    RunZeros(0, before);
    RunWindow(window);
    WindowNonzero(window);
    ShiftsKeepNonzero(LittleEndianFrom(window), 8 * w);
    RunZeros(Run(0, window), after);
  }

  lemma WindowOf(a: seq<Byte>, b: seq<Byte>, i: nat, w: nat)
    requires |a| == |b| && a != b && i + w <= |a|
    requires a[..i] == b[..i] && a[i + w..] == b[i + w..]
    ensures var e := XorAll(a, b); AllZero(e[..i]) && AllZero(e[i + w..]) && !AllZero(e[i..i + w])
  {
    var e := XorAll(a, b);
    hide Xor;
    forall k | 0 <= k < |a| ensures e[k] == 0 <==> a[k] == b[k] {
      XorZero(a[k]);
      XorOnlyEqual(a[k], b[k]);
    }
    forall k | 0 <= k < |a| && !(i <= k < i + w) ensures a[k] == b[k] {
      if k < i { assert a[..i][k] == b[..i][k]; } else { assert a[i + w..][k - i - w] == b[i + w..][k - i - w]; }
    }
    var k :| 0 <= k < |a| && a[k] != b[k];
    assert e[i..i + w][k - i] != 0;
  }

  lemma XorOnlyEqual(a: Byte, b: Byte)
    ensures Xor(a, b) == 0 <==> a == b
  {
    assert Pow2(4) == 16 && Pow2(8) == 256;
    if Xor(a, b) == 0 {
      XorZeroMeansEqual(a, b, 8);
    }
    XorBitsSelf(a, 8);
  }

  // ---- Which code it is -------------------------------------------------------------------

  /**
   * The register starts at all ones and is inverted at the end: four bytes of ones, which clear it,
   * come to all ones. And a one shifted out puts in this polynomial.
   */
  lemma RegisterStartsAtOnes()
    ensures Crc32Of([0xff, 0xff, 0xff, 0xff]) == 0xffffffff && Crc32Of([]) == 0
    ensures Shift(1) == 0xedb88320
  {
    OneShifted();
    FourCleared();
    XorFacts(0, ONES, 0);
    XorFacts(ONES, ONES, 0);
    AfterByte(ONES, [], 0);
    hide Run, Xor32, Shift;
  }

  lemma OneShifted()
    ensures Shift(1) == 0xedb88320
  {
    XorFacts(0xedb88320, 0, 0);
    hide Xor32;
  }

  lemma FourCleared()
    ensures Run(0xffffffff, [0xff, 0xff, 0xff, 0xff]) == 0
  {
    hide *;
    ClearsAByte(0xffffff);
    ClearsAByte(0xffff);
    ClearsAByte(0xff);
    ClearsAByte(0);
    AfterByte(0xffffffff, [], 0xff);
    AfterByte(0xffffffff, [0xff], 0xff);
    AfterByte(0xffffffff, [0xff, 0xff], 0xff);
    AfterByte(0xffffffff, [0xff, 0xff, 0xff], 0xff);
    assert [0xff] + [0xff] == [0xff, 0xff] && [0xff, 0xff] + [0xff] == [0xff, 0xff, 0xff];
    assert [0xff, 0xff, 0xff] + [0xff] == [0xff, 0xff, 0xff, 0xff] && [] + [0xff] == [0xff];
  }

  lemma AfterByte(crc: Word, bytes: seq<Byte>, b: Byte)
    ensures Run(crc, []) == crc && Run(crc, bytes + [b]) == ByteStep(Run(crc, bytes), b)
  {
    assert (bytes + [b])[..|bytes|] == bytes;
  }

  lemma ClearsAByte(high: nat)
    requires high < 0x100_0000
    ensures ByteStep(high * 0x100 + 0xff, 0xff) == high
  {
    SmallPowers();
    Powers();
    XorBitsSelf(0xff, 8);
    hide XorBits, Pow2, Shifts;
    ClearsLow(high);
    ShiftsZeros(high, 8);
  }

  lemma ClearsLow(high: nat)
    requires high < 0x100_0000
    ensures Xor32(high * 0x100 + 0xff, 0xff) == high * 0x100
  {
    var a := high * 0x100;
    XorFacts(a, 0xff, 0xff);
    AddsLow(high);
    hide Xor32;
  }

  lemma AddsLow(high: nat)
    requires high < 0x100_0000
    ensures Xor32(high * 0x100, 0xff) == high * 0x100 + 0xff
  {
    SmallPowers();
    Powers();
    hide XorBits, Pow2;
    XorDisjoint(high, 0xff, 8, 24);
  }
}
