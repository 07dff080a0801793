/**
 * The weighted inner-product argument at the heart of Bulletproof+, as algebra.
 *
 * Points enter only through their logs, so every statement is a congruence of integers modulo L
 * that holds for arbitrary generators.
 */
module InnerProduct {
  import opened Sums
  import opened Scalars

  /** The prover's four vectors at one stage of the argument: two of scalars, two of generators. */
  datatype Vectors = Vectors(a: seq<int>, b: seq<int>, g: seq<int>, h: seq<int>) {
    ghost predicate Sized(n: nat) { |a| == n && |b| == n && |g| == n && |h| == n }
  }

  /** What index i contributes: a·G' + b·H' + (its weighted product)·H. */
  ghost function Cell(w: Vectors, y: int, H: int, i: int): int
    requires w.Sized(|w.a|)
  {
    if 0 <= i < |w.a| then w.a[i] * w.g[i] + w.b[i] * w.h[i] + Pow(y, i + 1) * (w.a[i] * w.b[i]) * H else 0
  }

  /** What the cross term L of one round collects at index i, unscaled. */
  ghost function LeftCell(w: Vectors, m: nat, y: int, yinvm: int, H: int, i: int): int
    requires w.Sized(2 * m)
  {
    if 0 <= i < m then yinvm * w.a[i] * w.g[m + i] + w.b[m + i] * w.h[i] + Pow(y, i + 1) * (w.a[i] * w.b[m + i]) * H
    else 0
  }

  /** What the cross term R of one round collects at index i, unscaled. */
  ghost function RightCell(w: Vectors, m: nat, y: int, ym: int, H: int, i: int): int
    requires w.Sized(2 * m)
  {
    if 0 <= i < m then ym * w.a[m + i] * w.g[i] + w.b[i] * w.h[m + i] + Pow(y, i + 1) * (ym * w.a[m + i] * w.b[i]) * H
    else 0
  }

  ghost function Cells(w: Vectors, y: int, H: int): int -> int requires w.Sized(|w.a|)
  { i => Cell(w, y, H, i) }

  ghost function LeftCells(w: Vectors, m: nat, y: int, yinvm: int, H: int): int -> int requires w.Sized(2 * m)
  { i => LeftCell(w, m, y, yinvm, H, i) }

  ghost function RightCells(w: Vectors, m: nat, y: int, ym: int, H: int): int -> int requires w.Sized(2 * m)
  { i => RightCell(w, m, y, ym, H, i) }

  /** P(a, b, alpha): the commitment the argument opens. BASE has log 1, so the blind adds itself. */
  ghost function Commitment(w: Vectors, y: int, H: int, alpha: int): int
    requires w.Sized(|w.a|)
  {
    Sum(|w.a|, Cells(w, y, H)) + alpha
  }

  /** w' is w folded in half by the challenge c, up to congruence. bulletproofplus.ts:586-604. */
  ghost predicate Folds(F: Field, w: Vectors, w': Vectors, m: nat, c: int, ci: int, ym: int, yinvm: int) {
    && w.Sized(2 * m) && w'.Sized(m)
    && (forall i :: 0 <= i < m ==> F.R(w'.a[i]) == F.R(c * w.a[i] + ci * ym * w.a[m + i]))
    && (forall i :: 0 <= i < m ==> F.R(w'.b[i]) == F.R(ci * w.b[i] + c * w.b[m + i]))
    && (forall i :: 0 <= i < m ==> F.R(w'.g[i]) == F.R(ci * w.g[i] + c * yinvm * w.g[m + i]))
    && (forall i :: 0 <= i < m ==> F.R(w'.h[i]) == F.R(c * w.h[i] + ci * w.h[m + i]))
  }

  // ---- One cell --------------------------------------------------------------

  lemma ExpandFold(c: int, ci: int, Y: int, Yi: int, a1: int, a2: int, g1: int, g2: int)
    ensures (c * a1 + ci * Y * a2) * (ci * g1 + c * Yi * g2)
         == (c * ci) * (a1 * g1) + (c * ci) * ((Y * Yi) * (a2 * g2)) + (c * c) * (Yi * a1 * g2) + (ci * ci) * (Y * a2 * g1)
  {
    ExpandProduct(c * a1, ci * Y * a2, ci * g1, c * Yi * g2);
    ProductSwap(c, a1, ci, g1);
    Reorder(c, a1, c, Yi, g2);
    Reorder(ci, g1, ci, Y, a2);
    ProductSwap(ci * Y, a2, c * Yi, g2);
    ProductSwap(ci, Y, c, Yi);
  }

  lemma Reorder(c: int, a: int, d: int, Y: int, g: int)
    ensures (c * a) * (d * Y * g) == (c * d) * (Y * a * g)
  {
    ProductSwap(c, a, d, Y * g);
  }

  lemma ExpandProduct(u: int, v: int, s: int, t: int)
    ensures (u + v) * (s + t) == u * s + u * t + v * s + v * t
  {
  }

  lemma FoldProduct(F: Field, c: int, ci: int, Y: int, Yi: int, a1: int, a2: int, g1: int, g2: int)
    requires F.R(c * ci) == F.R(1) && F.R(Y * Yi) == F.R(1)
    ensures F.R((c * a1 + ci * Y * a2) * (ci * g1 + c * Yi * g2))
         == F.R(a1 * g1 + a2 * g2 + (c * c) * (Yi * a1 * g2) + (ci * ci) * (Y * a2 * g1))
  {
    hide Field.R;
    ExpandFold(c, ci, Y, Yi, a1, a2, g1, g2);
    var s, t := a1 * g1, (Y * Yi) * (a2 * g2);
    var u, v := (c * c) * (Yi * a1 * g2), (ci * ci) * (Y * a2 * g1);
    F.Cancel(c, ci, s);
    F.Cancel(c, ci, t);
    F.Cancel(Y, Yi, a2 * g2);
    F.AddC((c * ci) * s, s, (c * ci) * t, a2 * g2);
    F.AddC((c * ci) * s + (c * ci) * t, s + a2 * g2, u + v, u + v);
  }

  /** A product of congruent pairs, already folded. */
  lemma FoldPair(F: Field, c: int, ci: int, Y: int, Yi: int, a1: int, a2: int, g1: int, g2: int, a': int, g': int)
    requires F.R(c * ci) == F.R(1) && F.R(Y * Yi) == F.R(1)
    requires F.R(a') == F.R(c * a1 + ci * Y * a2)
    requires F.R(g') == F.R(ci * g1 + c * Yi * g2)
    ensures F.R(a' * g') == F.R(a1 * g1 + a2 * g2 + (c * c) * (Yi * a1 * g2) + (ci * ci) * (Y * a2 * g1))
  {
    hide Field.R;
    F.MulC(a', c * a1 + ci * Y * a2, g', ci * g1 + c * Yi * g2);
    FoldProduct(F, c, ci, Y, Yi, a1, a2, g1, g2);
  }

  lemma CombineParts(p: int, H: int, c2: int, ci2: int,
                     ag: int, al: int, ar: int, bh: int, bl: int, br: int, ab: int, wl: int, wr: int)
    ensures (ag + c2 * al + ci2 * ar) + (bh + c2 * bl + ci2 * br) + (p * H) * (ab + c2 * wl + ci2 * wr)
         == ag + bh + (p * H) * ab + c2 * (al + bl + (p * H) * wl) + ci2 * (ar + br + (p * H) * wr)
  {
    assert (p * H) * (c2 * wl) == c2 * ((p * H) * wl);
    assert (p * H) * (ci2 * wr) == ci2 * ((p * H) * wr);
  }

  /** The conservation law at one index of one round. */
  lemma FoldCell(F: Field, w: Vectors, w': Vectors, m: nat, c: int, ci: int, y: int, ym: int, yinvm: int, H: int, i: nat)
    requires i < m && Folds(F, w, w', m, c, ci, ym, yinvm)
    requires F.R(c * ci) == F.R(1) && F.R(ym * yinvm) == F.R(1) && ym == Pow(y, m)
    ensures F.R(Cell(w', y, H, i))
         == F.R(Cell(w, y, H, i) + Cell(w, y, H, m + i)
                + (c * c) * LeftCell(w, m, y, yinvm, H, i) + (ci * ci) * RightCell(w, m, y, ym, H, i))
  {
    hide Pow, Field.R;
    var a1, a2, b1, b2 := w.a[i], w.a[m + i], w.b[i], w.b[m + i];
    var g1, g2, h1, h2 := w.g[i], w.g[m + i], w.h[i], w.h[m + i];
    var p := Pow(y, i + 1);
    PowAdd(y, i + 1, m);
    assert Pow(y, m + i + 1) == p * ym;
    FoldFour(F, c, ci, ym, yinvm, p, H, a1, a2, b1, b2, g1, g2, h1, h2, w'.a[i], w'.b[i], w'.g[i], w'.h[i]);
    Regroup(p, ym, H, a1, a2, b1, b2, g1, g2, h1, h2, yinvm, c * c, ci * ci);
    assert p * (w'.a[i] * w'.b[i]) * H == (p * H) * (w'.a[i] * w'.b[i]);
  }

  lemma Regroup(p: int, ym: int, H: int, a1: int, a2: int, b1: int, b2: int, g1: int, g2: int, h1: int, h2: int,
                yi: int, c2: int, ci2: int)
    ensures a1 * g1 + a2 * g2 + (b1 * h1 + b2 * h2) + (p * H) * (a1 * b1 + (ym * a2) * b2)
            + c2 * (yi * a1 * g2 + b2 * h1 + (p * H) * (a1 * b2))
            + ci2 * (ym * a2 * g1 + b1 * h2 + (p * H) * ((ym * a2) * b1))
         == (a1 * g1 + b1 * h1 + p * (a1 * b1) * H) + (a2 * g2 + b2 * h2 + (p * ym) * (a2 * b2) * H)
            + c2 * (yi * a1 * g2 + b2 * h1 + p * (a1 * b2) * H)
            + ci2 * (ym * a2 * g1 + b1 * h2 + p * (ym * a2 * b1) * H)
  {
    assert (p * H) * (a1 * b1 + (ym * a2) * b2) == p * (a1 * b1) * H + (p * ym) * (a2 * b2) * H;
    assert (p * H) * (a1 * b2) == p * (a1 * b2) * H;
    assert (p * H) * ((ym * a2) * b1) == p * (ym * a2 * b1) * H;
  }

  lemma FoldFour(F: Field, c: int, ci: int, ym: int, yi: int, p: int, H: int,
                 a1: int, a2: int, b1: int, b2: int, g1: int, g2: int, h1: int, h2: int,
                 a': int, b': int, g': int, h': int)
    requires F.R(c * ci) == F.R(1) && F.R(ym * yi) == F.R(1)
    requires F.R(a') == F.R(c * a1 + ci * ym * a2) && F.R(b') == F.R(ci * b1 + c * b2)
    requires F.R(g') == F.R(ci * g1 + c * yi * g2) && F.R(h') == F.R(c * h1 + ci * h2)
    ensures F.R(a' * g' + b' * h' + (p * H) * (a' * b'))
         == F.R(a1 * g1 + a2 * g2 + (b1 * h1 + b2 * h2) + (p * H) * (a1 * b1 + (ym * a2) * b2)
                + (c * c) * (yi * a1 * g2 + b2 * h1 + (p * H) * (a1 * b2))
                + (ci * ci) * (ym * a2 * g1 + b1 * h2 + (p * H) * ((ym * a2) * b1)))
  {
    hide Field.R;
    var c2, ci2 := c * c, ci * ci;
    var ag, al, ar := a1 * g1 + a2 * g2, yi * a1 * g2, ym * a2 * g1;
    var bh, bl, br := b1 * h1 + b2 * h2, b2 * h1, b1 * h2;
    var ab, wl, wr := a1 * b1 + (ym * a2) * b2, a1 * b2, (ym * a2) * b1;
    FoldPair(F, c, ci, ym, yi, a1, a2, g1, g2, a', g');
    assert F.R(b' * h') == F.R(bh + c2 * bl + ci2 * br) by { FoldBH(F, c, ci, b1, b2, h1, h2, b', h'); }
    assert F.R(a' * b') == F.R(ab + c2 * wl + ci2 * wr) by { FoldAB(F, c, ci, ym, a1, a2, b1, b2, a', b'); }
    AddThree(F, p * H, a' * g', ag + c2 * al + ci2 * ar, b' * h', bh + c2 * bl + ci2 * br,
             a' * b', ab + c2 * wl + ci2 * wr);
    CombineParts(p, H, c2, ci2, ag, al, ar, bh, bl, br, ab, wl, wr);
  }

  lemma FoldBH(F: Field, c: int, ci: int, b1: int, b2: int, h1: int, h2: int, b': int, h': int)
    requires F.R(c * ci) == F.R(1)
    requires F.R(b') == F.R(ci * b1 + c * b2) && F.R(h') == F.R(c * h1 + ci * h2)
    ensures F.R(b' * h') == F.R(b1 * h1 + b2 * h2 + (c * c) * (b2 * h1) + (ci * ci) * (b1 * h2))
  {
    hide Field.R;
    assert ci * c == c * ci;
    FoldPair(F, ci, c, 1, 1, b1, b2, h1, h2, b', h');
  }

  lemma FoldAB(F: Field, c: int, ci: int, ym: int, a1: int, a2: int, b1: int, b2: int, a': int, b': int)
    requires F.R(c * ci) == F.R(1)
    requires F.R(a') == F.R(c * a1 + ci * ym * a2) && F.R(b') == F.R(ci * b1 + c * b2)
    ensures F.R(a' * b')
         == F.R(a1 * b1 + (ym * a2) * b2 + (c * c) * (a1 * b2) + (ci * ci) * ((ym * a2) * b1))
  {
    hide Field.R;
    assert ci * ym * a2 == ci * 1 * (ym * a2);
    FoldPair(F, c, ci, 1, 1, a1, ym * a2, b1, b2, a', b');
  }

  lemma AddThree(F: Field, k: int, s: int, s': int, t: int, t': int, u: int, u': int)
    requires F.R(s) == F.R(s') && F.R(t) == F.R(t') && F.R(u) == F.R(u')
    ensures F.R(s + t + k * u) == F.R(s' + t' + k * u')
  {
    hide Field.R;
    F.AddC(s, s', t, t');
    F.ScaleC(k, u, u');
    F.AddC(s + t, s' + t', k * u, k * u');
  }

  // ---- One round -------------------------------------------------------------

  /**
   * Conservation over one round: folding by c changes the commitment by exactly c²·L + c⁻²·R,
   * where L and R are the cross terms with their own blinds.
   */
  lemma FoldRound(F: Field, w: Vectors, w': Vectors, m: nat, c: int, ci: int, y: int, ym: int, yinvm: int, H: int)
    requires Folds(F, w, w', m, c, ci, ym, yinvm)
    requires F.R(c * ci) == F.R(1) && F.R(ym * yinvm) == F.R(1) && ym == Pow(y, m)
    ensures F.R(Sum(m, Cells(w', y, H)))
         == F.R(Sum(2 * m, Cells(w, y, H))
                + (c * c) * Sum(m, LeftCells(w, m, y, yinvm, H)) + (ci * ci) * Sum(m, RightCells(w, m, y, ym, H)))
  {
    hide Field.R, Pow, Cell, LeftCell, RightCell;
    var f, l, r := Cells(w, y, H), LeftCells(w, m, y, yinvm, H), RightCells(w, m, y, ym, H);
    var folded := Folded(m, f, Scaled(c * c, l), Scaled(ci * ci, r));
    forall i | 0 <= i < m ensures F.R(Cells(w', y, H)(i)) == F.R(folded(i)) {
      FoldCell(F, w, w', m, c, ci, y, ym, yinvm, H, i);
    }
    F.SumC(m, Cells(w', y, H), folded);
    SumFolded(m, m, f, Scaled(c * c, l), Scaled(ci * ci, r));
    SumHalves(m, f);
    SumScaled(m, c * c, l);
    SumScaled(m, ci * ci, r);
  }

  ghost function Scaled(c: int, f: int -> int): int -> int { i => c * f(i) }

  ghost function Shifted(m: nat, f: int -> int): int -> int { i => f(m + i) }

  ghost function Folded(m: nat, f: int -> int, l: int -> int, r: int -> int): int -> int {
    i => f(i) + Shifted(m, f)(i) + l(i) + r(i)
  }

  lemma {:induction false} SumFolded(n: nat, m: nat, f: int -> int, l: int -> int, r: int -> int)
    ensures Sum(n, Folded(m, f, l, r)) == Sum(n, f) + Sum(n, Shifted(m, f)) + Sum(n, l) + Sum(n, r)
  {
    if n > 0 {
      SumFolded(n - 1, m, f, l, r);
    }
  }

  lemma SumScaled(n: nat, c: int, f: int -> int)
    ensures Sum(n, Scaled(c, f)) == c * Sum(n, f)
  {
    SumScale(n, c, f);
    SumExt(n, Scaled(c, f), i => c * f(i));
  }

  lemma SumHalves(m: nat, f: int -> int)
    ensures Sum(2 * m, f) == Sum(m, f) + Sum(m, Shifted(m, f))
  {
    SumSplit(m, m, f);
    SumExt(m, Shifted(m, f), i => f(m + i));
  }
}
