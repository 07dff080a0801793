/**
 * The two ends of the inner-product argument: the commitment it starts from, built from the bits of
 * the amounts, and the verifier's equation it finishes with.
 */
module BulletproofPlusOpening {
  import opened Sums
  import opened Primes
  import opened Scalars
  import opened Curve
  import opened InnerProduct
  import opened BulletproofPlusSpec
  import opened BulletproofPlusTables
  import opened BulletproofPlusAlgebra

  // ---- Bits of the amounts ---------------------------------------------------

  /** Bit i mod 64 of amount i / 64; the amounts are padded with zeros. */
  ghost function Bit(amounts: seq<int>, i: int): int {
    if 0 <= i && i / 64 < |amounts| then (amounts[i / 64] / Pow2(i % 64)) % 2 else 0
  }

  ghost function Digit(v: int): int -> int { k => if k < 0 then 0 else (v / Pow2(k)) % 2 * Pow2(k) }

  /** The low n binary digits of a number spell it modulo 2^n. */
  lemma {:induction false} BinaryDigits(v: nat, n: nat)
    ensures Sum(n, Digit(v)) == v % Pow2(n)
  {
    if n == 0 {
      assert v % 1 == 0;
    } else {
      var p := Pow2(n - 1);
      BinaryDigits(v, n - 1);
      assert Pow2(n) == 2 * p;
      NextDigit(v, p);
    }
  }

  lemma NextDigit(v: nat, p: nat)
    requires p > 0
    ensures v % (2 * p) == v % p + (v / p) % 2 * p
  {
    var q := v / p;
    assert v == q * p + v % p;
    assert v == (q / 2) * (2 * p) + (v % p + q % 2 * p) by {
      assert q == 2 * (q / 2) + q % 2;
      assert (2 * (q / 2) + q % 2) * p == (q / 2) * (2 * p) + q % 2 * p;
    }
    assert q % 2 * p <= p;
    DivMod(v, 2 * p, q / 2, v % p + q % 2 * p);
  }

  /** Window times bit. */
  ghost function WindowBits(amounts: seq<int>, z: int): int -> int {
    i => if i < 0 then 0 else Window(z, i) * Bit(amounts, i)
  }

  ghost function Value(amounts: seq<int>, j: int): int { if 0 <= j < |amounts| then amounts[j] else 0 }

  ghost function ScaledAmounts(amounts: seq<int>, z: int): int -> int {
    j => if j < 0 then 0 else Pow(z, 2 * (j + 1)) * Value(amounts, j)
  }

  ghost predicate InRange(amounts: seq<int>) {
    forall j :: 0 <= j < |amounts| ==> 0 <= amounts[j] < TWO_64
  }

  ghost function BitRow(amounts: seq<int>, z: int, j: nat): int -> int {
    k => WindowBits(amounts, z)(64 * j + k)
  }

  lemma BitCell(amounts: seq<int>, z: int, j: nat, k: nat)
    requires k < 64
    ensures BitRow(amounts, z, j)(k) == Pow(z, 2 * (j + 1)) * Digit(Value(amounts, j))(k)
  {
    WindowAt(z, j, k);
    assert (64 * j + k) / 64 == j && (64 * j + k) % 64 == k;
    var p := Pow2(k);
    var b := Bit(amounts, 64 * j + k);
    assert b == (Value(amounts, j) / p) % 2 by { if j >= |amounts| { ZeroDigit(k); } }
    BitSwap(Pow(z, 2 * (j + 1)), p, b);
    assert Digit(Value(amounts, j))(k) == b * p;
    assert WindowBits(amounts, z)(64 * j + k) == Window(z, 64 * j + k) * b;
  }

  lemma BitSwap(u: int, p: int, b: int)
    ensures (u * p) * b == u * (b * p)
  {
  }

  lemma ScaledAmountAt(amounts: seq<int>, z: int, j: nat)
    ensures ScaledAmounts(amounts, z)(j) == Pow(z, 2 * (j + 1)) * Value(amounts, j)
  {
  }

  lemma BitRowTotal(amounts: seq<int>, z: int, j: nat)
    requires InRange(amounts)
    ensures Sum(64, BitRow(amounts, z, j)) == ScaledAmounts(amounts, z)(j)
  {
    var u, v := Pow(z, 2 * (j + 1)), Value(amounts, j);
    hide Sum, Pow, BitRow, Digit, ScaledAmounts;
    assert ScaledAmounts(amounts, z)(j) == u * v by { ScaledAmountAt(amounts, z, j); }
    forall k | 0 <= k < 64 ensures BitRow(amounts, z, j)(k) == u * Digit(v)(k) {
      BitCell(amounts, z, j, k);
    }
    SumMultiple(64, BitRow(amounts, z, j), u, Digit(v));
    AmountDigits(v);
  }

  lemma AmountDigits(v: nat)
    requires v < TWO_64
    ensures Sum(64, Digit(v)) == v
  {
    hide Sum, Pow2, Digit;
    BinaryDigits(v, 64);
    TwoTo64();
    assert Pow2(64) == TWO_64;
    DivMod(v, TWO_64, 0, v);
  }

  lemma ZeroDigit(k: nat)
    ensures (0 / Pow2(k)) % 2 == 0
  {
    DivMod(0, Pow2(k), 0, 0);
  }

  /** A sum over rows of 64. */
  lemma {:induction false} SumRows(M: nat, f: int -> int, row: int -> int)
    requires forall j :: 0 <= j < M ==> Sum(64, k => f(64 * j + k)) == row(j)
    ensures Sum(64 * M, f) == Sum(M, row)
  {
    hide Sum;
    if M == 0 {
      SumLast(0, f);
      SumLast(0, row);
    } else {
      SumRows(M - 1, f, row);
      SumLast(M - 1, row);
      SumSplit(64 * (M - 1), 64, f);
      assert 64 * (M - 1) + 64 == 64 * M;
      SumExt(64, k => f(64 * (M - 1) + k), k => f(64 * (M - 1) + k));
    }
  }

  /** The windowed bits add up to the amounts weighted by powers of z². */
  lemma WindowBitsTotal(amounts: seq<int>, z: int, M: nat)
    requires InRange(amounts) && |amounts| <= M
    ensures Sum(64 * M, WindowBits(amounts, z)) == Sum(|amounts|, ScaledAmounts(amounts, z))
  {
    var f, row := WindowBits(amounts, z), ScaledAmounts(amounts, z);
    forall j | 0 <= j < M ensures Sum(64, k => f(64 * j + k)) == row(j) {
      BitRowTotal(amounts, z, j);
      SumExt(64, k => f(64 * j + k), BitRow(amounts, z, j));
    }
    SumRows(M, f, row);
    PaddingVanishes(amounts, z, M);
  }

  lemma {:induction false} PaddingVanishes(amounts: seq<int>, z: int, M: nat)
    requires |amounts| <= M
    ensures Sum(M, ScaledAmounts(amounts, z)) == Sum(|amounts|, ScaledAmounts(amounts, z))
  {
    hide Pow;
    if M > |amounts| {
      PaddingVanishes(amounts, z, M - 1);
      assert Value(amounts, M - 1) == 0;
      TimesZero(Pow(z, 2 * M));
    }
  }

  lemma TimesZero(x: int)
    ensures x * 0 == 0
  {
  }

  // ---- The first commitment -----------------------------------------------------

  ghost function ACell(E: Group, amounts: seq<int>): int -> int {
    i => Bit(amounts, i) * E.gi(i).log + (Bit(amounts, i) - 1) * E.hi(i).log
  }

  /** What z and the window put on the generators. */
  ghost function XCell(E: Group, z: int, y: int, n: nat): int -> int {
    i => if 0 <= i <= n then (z + Window(z, i) * Pow(y, n - i)) * E.hi(i).log - z * E.gi(i).log else 0
  }

  /** What z and the window put on H. */
  ghost function HCell(amounts: seq<int>, z: int, y: int, Y1: int): int -> int {
    i => Scaled(z - z * z, Powers(y))(i) + Scaled(Y1, WindowBits(amounts, z))(i) - Scaled(z * Y1, Windows(z))(i)
  }

  /** The vectors the argument starts from, up to congruence. bulletproofplus.ts:519-520. */
  ghost predicate StartsFrom(E: Group, amounts: seq<int>, z: int, y: int, n: nat, w: Vectors) {
    && w.Sized(n)
    && (forall i :: 0 <= i < n ==> E.F.R(w.a[i]) == E.F.R(Bit(amounts, i) - z))
    && (forall i :: 0 <= i < n ==> E.F.R(w.b[i]) == E.F.R(Bit(amounts, i) - 1 + z + Window(z, i) * Pow(y, n - i)))
    && (forall i :: 0 <= i < n ==> w.g[i] == E.gi(i).log && w.h[i] == E.hi(i).log)
  }

  lemma BitIsBit(amounts: seq<int>, i: int)
    ensures Bit(amounts, i) == 0 || Bit(amounts, i) == 1
  {
  }

  /** aL∘aR = 0 and aR = aL - 1 turn the weighted product into something linear in the bit. */
  lemma BitAlgebra(b: int, z: int, d: int, Y: int, p: int, g: int, h: int, hh: int)
    requires b == 0 || b == 1
    ensures (b - z) * g + (b - 1 + z + d * Y) * h + p * ((b - z) * (b - 1 + z + d * Y)) * hh
         == (b * g + (b - 1) * h) + ((z + d * Y) * h - z * g) + hh * ((z - z * z) * p + (p * Y) * (d * b) - (z * (p * Y)) * d)
  {
    assert (b - z) * (b - 1 + z + d * Y) == z - z * z + b * (d * Y) - z * (d * Y) by {
      if b == 0 { assert (0 - z) * (z - 1 + d * Y) == z - z * z - z * (d * Y); }
      else { assert (1 - z) * (z + d * Y) == z - z * z + d * Y - z * (d * Y); }
    }
    BitProduct(b, z, d, Y, p, hh);
    assert (b - z) * g == b * g - z * g;
    assert (b - 1 + z + d * Y) * h == (b - 1) * h + (z + d * Y) * h;
  }

  lemma BitProduct(b: int, z: int, d: int, Y: int, p: int, hh: int)
    ensures p * (z - z * z + b * (d * Y) - z * (d * Y)) * hh
         == hh * ((z - z * z) * p + (p * Y) * (d * b) - (z * (p * Y)) * d)
  {
    assert p * (b * (d * Y)) == (p * Y) * (d * b);
    assert p * (z * (d * Y)) == (z * (p * Y)) * d;
    assert p * (z - z * z + b * (d * Y) - z * (d * Y)) == p * (z - z * z) + p * (b * (d * Y)) - p * (z * (d * Y));
  }

  lemma StartCell(E: Group, amounts: seq<int>, z: int, y: int, n: nat, w: Vectors, i: nat)
    requires i < n && w.Sized(n)
    requires E.F.R(w.a[i]) == E.F.R(Bit(amounts, i) - z)
    requires E.F.R(w.b[i]) == E.F.R(Bit(amounts, i) - 1 + z + Window(z, i) * Pow(y, n - i))
    requires w.g[i] == E.gi(i).log && w.h[i] == E.hi(i).log
    ensures E.F.R(Cell(w, y, E.H.log, i))
         == E.F.R(ACell(E, amounts)(i) + XCell(E, z, y, n)(i) + E.H.log * HCell(amounts, z, y, Pow(y, n + 1))(i))
  {
    hide Field.R, Pow, Window, Bit, ACell, XCell, HCell;
    var b, d, Y, p := Bit(amounts, i), Window(z, i), Pow(y, n - i), Pow(y, i + 1);
    var g, h, hh := E.gi(i).log, E.hi(i).log, E.H.log;
    BitIsBit(amounts, i);
    PointCellsAt(E, amounts, z, y, n, i);
    HCellAt(amounts, z, y, n, i);
    BitAlgebra(b, z, d, Y, p, g, h, hh);
    CellCongruence(E.F, w.a[i], b - z, w.b[i], b - 1 + z + d * Y, g, h, p, hh);
    SameScale(hh, HCell(amounts, z, y, Pow(y, n + 1))(i), (z - z * z) * p + (p * Y) * (d * b) - (z * (p * Y)) * d);
  }

  lemma PointCellsAt(E: Group, amounts: seq<int>, z: int, y: int, n: nat, i: nat)
    requires i < n
    ensures ACell(E, amounts)(i) == Bit(amounts, i) * E.gi(i).log + (Bit(amounts, i) - 1) * E.hi(i).log
    ensures XCell(E, z, y, n)(i) == (z + Window(z, i) * Pow(y, n - i)) * E.hi(i).log - z * E.gi(i).log
  {
    hide Pow, Window, Bit;
  }

  lemma HCellAt(amounts: seq<int>, z: int, y: int, n: nat, i: nat)
    requires i < n
    ensures HCell(amounts, z, y, Pow(y, n + 1))(i)
         == (z - z * z) * Pow(y, i + 1) + (Pow(y, i + 1) * Pow(y, n - i)) * (Window(z, i) * Bit(amounts, i))
            - (z * (Pow(y, i + 1) * Pow(y, n - i))) * Window(z, i)
  {
    hide Pow, Window, Bit;
    var p, Y, W, b := Pow(y, i + 1), Pow(y, n - i), Window(z, i), Bit(amounts, i);
    PowAdd(y, i + 1, n - i);
    assert i + 1 + (n - i) == n + 1;
    HCellUnfold(amounts, z, y, Pow(y, n + 1), i);
    HCellShape(z, Powers(y)(i), Pow(y, n + 1), WindowBits(amounts, z)(i), Windows(z)(i), p, Y, W, b);
  }

  lemma HCellUnfold(amounts: seq<int>, z: int, y: int, Y1: int, i: nat)
    ensures HCell(amounts, z, y, Y1)(i)
         == (z - z * z) * Powers(y)(i) + Y1 * WindowBits(amounts, z)(i) - (z * Y1) * Windows(z)(i)
  {
    var a, b, c := Scaled(z - z * z, Powers(y)), Scaled(Y1, WindowBits(amounts, z)), Scaled(z * Y1, Windows(z));
    assert HCell(amounts, z, y, Y1)(i) == a(i) + b(i) - c(i);
    hide HCell, Powers, WindowBits, Windows;
  }

  lemma HCellShape(z: int, f: int, Y1: int, wb: int, wd: int, p: int, Y: int, W: int, b: int)
    requires f == p && Y1 == p * Y && wb == W * b && wd == W
    ensures (z - z * z) * f + Y1 * wb - (z * Y1) * wd == (z - z * z) * p + (p * Y) * (W * b) - (z * (p * Y)) * W
  {
  }

  lemma CellCongruence(F: Field, a: int, a': int, b: int, b': int, g: int, h: int, p: int, hh: int)
    requires F.R(a) == F.R(a') && F.R(b) == F.R(b')
    ensures F.R(a * g + b * h + p * (a * b) * hh) == F.R(a' * g + b' * h + p * (a' * b') * hh)
  {
    hide Field.R;
    F.MulC(a, a', g, g);
    F.MulC(b, b', h, h);
    F.AddC(a * g, a' * g, b * h, b' * h);
    F.MulC(a, a', b, b');
    F.ScaleC(p, a * b, a' * b');
    F.MulC(p * (a * b), p * (a' * b'), hh, hh);
    F.AddC(a * g + b * h, a' * g + b' * h, p * (a * b) * hh, p * (a' * b') * hh);
  }

  /** The constant the equation puts on H: (z - z²)·Σy^i - z·y^(n+1)·Σd. */
  ghost function HConstant(z: int, y: int, n: nat, M: nat): int {
    (z - z * z) * PowerSum(y, n) - (z * Pow(y, n + 1)) * ((TWO_64 - 1) * EvenPowerSum(z, M))
  }

  lemma HCellTotal(amounts: seq<int>, z: int, y: int, M: nat)
    requires InRange(amounts) && |amounts| <= M
    ensures Sum(64 * M, HCell(amounts, z, y, Pow(y, 64 * M + 1)))
         == HConstant(z, y, 64 * M, M) + Pow(y, 64 * M + 1) * Sum(|amounts|, ScaledAmounts(amounts, z))
  {
    var n, Y1 := 64 * M, Pow(y, 64 * M + 1);
    WindowBitsTotal(amounts, z, M);
    WindowTotal(z, M);
    hide Sum, Pow, WindowBits, Windows, ScaledAmounts, EvenPowerSum, HCell;
    HCellLinear(amounts, z, y, Y1, n);
    SameScale(Y1, Sum(n, WindowBits(amounts, z)), Sum(|amounts|, ScaledAmounts(amounts, z)));
    SameScale(z * Y1, Sum(n, Windows(z)), (TWO_64 - 1) * EvenPowerSum(z, M));
  }

  lemma HCellLinear(amounts: seq<int>, z: int, y: int, Y1: int, n: nat)
    ensures Sum(n, HCell(amounts, z, y, Y1))
         == (z - z * z) * PowerSum(y, n) + Y1 * Sum(n, WindowBits(amounts, z)) - (z * Y1) * Sum(n, Windows(z))
  {
    hide Sum, Powers, WindowBits, Windows, Scaled;
    LinearSum(n, HCell(amounts, z, y, Y1), z - z * z, Powers(y), Y1, WindowBits(amounts, z), z * Y1, Windows(z));
  }

  lemma LinearSum(n: nat, s: int -> int, a: int, f: int -> int, b: int, g: int -> int, c: int, h: int -> int)
    requires forall i :: 0 <= i < n ==> s(i) == Scaled(a, f)(i) + Scaled(b, g)(i) - Scaled(c, h)(i)
    ensures Sum(n, s) == a * Sum(n, f) + b * Sum(n, g) - c * Sum(n, h)
  {
    SumScaled(n, a, f);
    SumScaled(n, b, g);
    SumScaled(n, c, h);
    hide Scaled;
    SumOfThree(n, s, Scaled(a, f), Scaled(b, g), Scaled(c, h));
  }

  lemma {:induction false} SumOfThree(n: nat, s: int -> int, f: int -> int, g: int -> int, h: int -> int)
    requires forall i :: 0 <= i < n ==> s(i) == f(i) + g(i) - h(i)
    ensures Sum(n, s) == Sum(n, f) + Sum(n, g) - Sum(n, h)
  {
    if n > 0 {
      SumOfThree(n - 1, s, f, g, h);
    }
  }

  // ---- From the prover's data to the commitment ---------------------------------

  ghost function ScaledGammas(gammas: seq<int>, z: int): int -> int {
    j => if 0 <= j < |gammas| then Pow(z, 2 * (j + 1)) * gammas[j] else 0
  }

  ghost function ScaledV(V8: seq<Point>, z: int): int -> int {
    j => if 0 <= j < |V8| then Pow(z, 2 * (j + 1)) * V8[j].log else 0
  }

  /** Each commitment 8·V_j opens to its mask and amount. */
  ghost predicate Opens(E: Group, V8: seq<Point>, gammas: seq<int>, amounts: seq<int>) {
    && |V8| == |gammas| == |amounts|
    && forall j :: 0 <= j < |V8| ==> E.F.R(V8[j].log) == E.F.R(gammas[j] + amounts[j] * E.H.log)
  }

  lemma WeightedCommitments(E: Group, V8: seq<Point>, gammas: seq<int>, amounts: seq<int>, z: int)
    requires |V8| == |gammas| == |amounts| && Opens(E, V8, gammas, amounts)
    ensures E.F.R(Sum(|V8|, ScaledV(V8, z)))
         == E.F.R(Sum(|V8|, ScaledGammas(gammas, z)) + E.H.log * Sum(|V8|, ScaledAmounts(amounts, z)))
  {
    var n, hh := |V8|, E.H.log;
    var f, g, h := ScaledV(V8, z), ScaledGammas(gammas, z), Scaled(hh, ScaledAmounts(amounts, z));
    var s := i => g(i) + h(i);
    hide Field.R, Pow, ScaledAmounts, ScaledV, ScaledGammas, Scaled, Sum;
    forall j | 0 <= j < n ensures E.F.R(f(j)) == E.F.R(s(j)) {
      WeightedCommitmentCell(E, V8, gammas, amounts, z, j);
    }
    E.F.SumC(n, f, s);
    SumAdd(n, g, h);
    SumScaled(n, hh, ScaledAmounts(amounts, z));
  }

  lemma WeightedCommitmentCell(E: Group, V8: seq<Point>, gammas: seq<int>, amounts: seq<int>, z: int, j: nat)
    requires |V8| == |gammas| == |amounts| && j < |V8| && E.F.R(V8[j].log) == E.F.R(gammas[j] + amounts[j] * E.H.log)
    ensures E.F.R(ScaledV(V8, z)(j)) == E.F.R(ScaledGammas(gammas, z)(j) + Scaled(E.H.log, ScaledAmounts(amounts, z))(j))
  {
    hide Field.R, Pow, ScaledAmounts;
    CommitmentCell(E.F, Pow(z, 2 * (j + 1)), V8[j].log, gammas[j], amounts[j], E.H.log);
    ScaledAmountAt(amounts, z, j);
  }

  lemma CommitmentCell(F: Field, p: int, v: int, g: int, a: int, hh: int)
    requires F.R(v) == F.R(g + a * hh)
    ensures F.R(p * v) == F.R(p * g + hh * (p * a))
  {
    hide Field.R;
    F.ScaleC(p, v, g + a * hh);
    Distribute(p, g, a * hh);
    assert p * (a * hh) == hh * (p * a);
  }

  ghost function StartCells(E: Group, amounts: seq<int>, z: int, y: int, n: nat): int -> int {
    i => ACell(E, amounts)(i) + XCell(E, z, y, n)(i) + Scaled(E.H.log, HCell(amounts, z, y, Pow(y, n + 1)))(i)
  }

  lemma StartCellSum(E: Group, amounts: seq<int>, z: int, y: int, n: nat, w: Vectors, i: nat)
    requires i < n && w.Sized(n)
    requires E.F.R(w.a[i]) == E.F.R(Bit(amounts, i) - z)
    requires E.F.R(w.b[i]) == E.F.R(Bit(amounts, i) - 1 + z + Window(z, i) * Pow(y, n - i))
    requires w.g[i] == E.gi(i).log && w.h[i] == E.hi(i).log
    ensures E.F.R(Cell(w, y, E.H.log, i)) == E.F.R(StartCells(E, amounts, z, y, n)(i))
  {
    StartCell(E, amounts, z, y, n, w, i);
    hide Field.R, Pow, Cell, ACell, XCell, HCell, Window, Bit;
  }

  lemma StartSum(E: Group, amounts: seq<int>, z: int, y: int, M: nat, w: Vectors)
    requires InRange(amounts) && |amounts| <= M && w.Sized(64 * M) && StartsFrom(E, amounts, z, y, 64 * M, w)
    ensures E.F.R(Sum(64 * M, Cells(w, y, E.H.log)))
         == E.F.R(Sum(64 * M, ACell(E, amounts)) + Sum(64 * M, XCell(E, z, y, 64 * M))
                  + E.H.log * (HConstant(z, y, 64 * M, M) + Pow(y, 64 * M + 1) * Sum(|amounts|, ScaledAmounts(amounts, z))))
  {
    hide Field.R, Pow, Cell, StartCells, Window, Bit, HConstant, ScaledAmounts, Sum;
    var n, hh := 64 * M, E.H.log;
    var f := StartCells(E, amounts, z, y, n);
    forall i | 0 <= i < n ensures E.F.R(Cells(w, y, hh)(i)) == E.F.R(f(i)) {
      StartCellSum(E, amounts, z, y, n, w, i);
    }
    E.F.SumC(n, Cells(w, y, hh), f);
    StartSplit(E, amounts, z, y, M);
  }

  lemma StartSplit(E: Group, amounts: seq<int>, z: int, y: int, M: nat)
    requires InRange(amounts) && |amounts| <= M
    ensures Sum(64 * M, StartCells(E, amounts, z, y, 64 * M))
         == Sum(64 * M, ACell(E, amounts)) + Sum(64 * M, XCell(E, z, y, 64 * M))
            + E.H.log * (HConstant(z, y, 64 * M, M) + Pow(y, 64 * M + 1) * Sum(|amounts|, ScaledAmounts(amounts, z)))
  {
    hide Sum, Pow, ACell, XCell, HCell, Scaled, HConstant, ScaledAmounts, InRange;
    var n, hh, h := 64 * M, E.H.log, HCell(amounts, z, y, Pow(y, 64 * M + 1));
    HCellTotal(amounts, z, y, M);
    SumScaled(n, hh, h);
    SameScale(hh, Sum(n, h), HConstant(z, y, n, M) + Pow(y, n + 1) * Sum(|amounts|, ScaledAmounts(amounts, z)));
    SumOfThreePlus(n, StartCells(E, amounts, z, y, n), ACell(E, amounts), XCell(E, z, y, n), Scaled(hh, h));
  }

  lemma {:induction false} SumOfThreePlus(n: nat, s: int -> int, f: int -> int, g: int -> int, h: int -> int)
    requires forall i :: 0 <= i < n ==> s(i) == f(i) + g(i) + h(i)
    ensures Sum(n, s) == Sum(n, f) + Sum(n, g) + Sum(n, h)
  {
    if n > 0 {
      SumOfThreePlus(n - 1, s, f, g, h);
    }
  }

  /**
   * The commitment the argument starts from, in the verifier's terms:
   * 8A + y^(n+1)·Σ z^(2(j+1))·8V_j + (what z, y and the window put on the generators and on H).
   */
  lemma OpeningCommitment(E: Group, amounts: seq<int>, gammas: seq<int>, z: int, y: int, M: nat, w: Vectors,
                          alpha: int, alpha1: int, A8: int, V8: seq<Point>)
    requires InRange(amounts) && |amounts| <= M && |V8| == |gammas| == |amounts| && w.Sized(64 * M)
    requires StartsFrom(E, amounts, z, y, 64 * M, w) && Opens(E, V8, gammas, amounts)
    requires E.F.R(A8) == E.F.R(Sum(64 * M, ACell(E, amounts)) + alpha)
    requires E.F.R(alpha1) == E.F.R(alpha + Pow(y, 64 * M + 1) * Sum(|V8|, ScaledGammas(gammas, z)))
    ensures E.F.R(Commitment(w, y, E.H.log, alpha1))
         == E.F.R(A8 + Pow(y, 64 * M + 1) * Sum(|V8|, ScaledV(V8, z)) + Sum(64 * M, XCell(E, z, y, 64 * M))
                  + E.H.log * HConstant(z, y, 64 * M, M))
  {
    hide Field.R, Sum, Pow, StartsFrom, Opens, InRange, HConstant, Cells, ACell, XCell, ScaledV, ScaledGammas, ScaledAmounts;
    StartSum(E, amounts, z, y, M, w);
    WeightedCommitments(E, V8, gammas, amounts, z);
    OpeningCongruence(E.F, Sum(64 * M, Cells(w, y, E.H.log)), Sum(64 * M, ACell(E, amounts)),
                      Sum(64 * M, XCell(E, z, y, 64 * M)), E.H.log, HConstant(z, y, 64 * M, M), Pow(y, 64 * M + 1),
                      Sum(|amounts|, ScaledAmounts(amounts, z)), Sum(|V8|, ScaledV(V8, z)),
                      Sum(|V8|, ScaledGammas(gammas, z)), alpha, alpha1, A8);
  }

  lemma OpeningCongruence(F: Field, s: int, sa: int, sx: int, hh: int, hc: int, Y1: int, am: int, sv: int, sg: int,
                          alpha: int, alpha1: int, A8: int)
    requires F.R(s) == F.R(sa + sx + hh * (hc + Y1 * am)) && F.R(sv) == F.R(sg + hh * am)
    requires F.R(A8) == F.R(sa + alpha) && F.R(alpha1) == F.R(alpha + Y1 * sg)
    ensures F.R(s + alpha1) == F.R(A8 + Y1 * sv + sx + hh * hc)
  {
    hide Field.R;
    F.AddC(s, sa + sx + hh * (hc + Y1 * am), alpha1, alpha + Y1 * sg);
    F.ScaleC(Y1, sv, sg + hh * am);
    F.AddC(A8, sa + alpha, Y1 * sv, Y1 * (sg + hh * am));
    F.AddC(A8 + Y1 * sv, sa + alpha + Y1 * (sg + hh * am), sx + hh * hc, sx + hh * hc);
    OpeningShape(hh, hc, Y1, am, sg);
  }

  lemma OpeningShape(hh: int, hc: int, Y1: int, am: int, sg: int)
    ensures hh * (hc + Y1 * am) + Y1 * sg == Y1 * (sg + hh * am) + hh * hc
  {
    Distribute(hh, hc, Y1 * am);
    Distribute(Y1, sg, hh * am);
    assert hh * (Y1 * am) == Y1 * (hh * am);
  }
}
