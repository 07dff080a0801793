/**
 * The group the proofs live in, and the hash that drives every transcript.
 *
 * The whole curve group is the product of its prime-order part (order L) and a torsion part of
 * order 8; both are cyclic, so a point is a pair of residues. Nothing is assumed about how the
 * generators relate to one another: H, Gi, Hi and the points `hash_to_ec` yields are arbitrary
 * torsion-free points, and the hash is an arbitrary function, so every statement holds for the
 * repository's choices in particular.
 */
module Curve {
  import opened Sums
  import opened Primes
  import opened Scalars
  import opened Bytes

  /** A curve point: its component of order L and its component of order 8. */
  datatype Point = Point(log: int, tor: int)

  /** 32 bytes that ought to be a point: `Point.fromBytes` decodes some and throws on the rest. */
  datatype PointBytes = Encodes(point: Point) | Undecodable(bytes: nat)

  /** What is fed to a hash: encoded points, encoded scalars, varints, raw bytes and other text. */
  datatype Chunk =
    | PointChunk(p: PointBytes) | ScalarChunk(s: nat) | NumberChunk(n: nat) | BytesChunk(bytes: seq<Byte>) | TextChunk(text: string)

  /** A summand of a multiscalar sum. */
  datatype Term = Term(scalar: int, point: Point)

  const ZERO := Point(0, 0)
  const BASE := Point(1, 0)

  datatype Group = Group(F: Field, H: Point, gi: int -> Point, hi: int -> Point, ec: PointBytes -> Point,
                         hash: seq<Chunk> -> nat, keccak: (seq<Chunk>, nat) -> Byte, encode: PointBytes -> seq<Byte>,
                         initialTranscript: Chunk) {

    predicate OnCurve(P: Point) {
      0 <= P.log < F.L && 0 <= P.tor < 8
    }

    predicate TorsionFree(P: Point) {
      OnCurve(P) && P.tor == 0
    }

    ghost predicate Valid() {
      && F.Valid()
      && TorsionFree(H)
      && (forall i: int {:trigger gi(i)} :: TorsionFree(gi(i)))
      && (forall i: int {:trigger hi(i)} :: TorsionFree(hi(i)))
      && (forall b: PointBytes {:trigger ec(b)} :: TorsionFree(ec(b)))
      && (forall b: PointBytes {:trigger encode(b)} :: |encode(b)| == 32)
    }

    function Plus(P: Point, Q: Point): (r: Point)
    {
      Point(F.R(P.log + Q.log), (P.tor + Q.tor) % 8)
    }

    function Minus(P: Point, Q: Point): (r: Point)
    {
      Point(F.R(P.log - Q.log), (P.tor - Q.tor) % 8)
    }

    /** `multiplyUnsafe`: defined for every scalar, zero included. */
    function Times(s: int, P: Point): (r: Point)
    {
      Point(F.R(s * P.log), (s * P.tor) % 8)
    }

    /** `hash_to_scalar`: any hash, reduced into the scalar field. */
    function HashToScalar(chunks: seq<Chunk>): (c: nat)
    {
      F.R(hash(chunks))
    }

    lemma PlusOnCurve(P: Point, Q: Point)
      ensures OnCurve(Plus(P, Q)) && OnCurve(Minus(P, Q))
    {
      F.Range(P.log + Q.log);
      F.Range(P.log - Q.log);
    }

    lemma TimesOnCurve(s: int, P: Point)
      ensures OnCurve(Times(s, P))
      ensures P.tor == 0 ==> TorsionFree(Times(s, P))
      ensures P.tor == 0 || s == 8 ==> Times(s, P).tor == 0
    {
      F.Range(s * P.log);
      if s == 8 { DivMod(8 * P.tor, 8, P.tor, 0); }
    }

    // ---- Multiscalar sums -----------------------------------------------------

    /** The point a list of terms adds up to. */
    ghost function Total(terms: seq<Term>): Point {
      if terms == [] then ZERO
      else Plus(Total(terms[..|terms| - 1]), Times(F.R(terms[|terms| - 1].scalar), terms[|terms| - 1].point))
    }

    /** Two lists with the same points and congruent scalars. */
    ghost predicate SameTerms(s: seq<Term>, t: seq<Term>) {
      && |s| == |t|
      && forall i :: 0 <= i < |s| ==> s[i].point == t[i].point && F.R(s[i].scalar) == F.R(t[i].scalar)
    }

    lemma {:induction false} TotalC(s: seq<Term>, t: seq<Term>)
      requires SameTerms(s, t)
      ensures Total(s) == Total(t)
    {
      hide Field.R;
      if s != [] {
        TotalC(s[..|s| - 1], t[..|t| - 1]);
      }
    }

    ghost predicate AllTorsionFree(terms: seq<Term>) {
      forall t :: t in terms ==> TorsionFree(t.point)
    }

    lemma {:induction false} TotalOnCurve(terms: seq<Term>)
      ensures OnCurve(Total(terms))
    {
      if terms != [] {
        var t := terms[|terms| - 1];
        PlusOnCurve(Total(terms[..|terms| - 1]), Times(F.R(t.scalar), t.point));
      }
    }

    /** Among torsion-free points a multiscalar sum is the plain weighted sum of their logs. */
    lemma {:induction false} TotalLog(terms: seq<Term>)
      requires AllTorsionFree(terms)
      ensures TorsionFree(Total(terms))
      ensures Total(terms).log == F.R(Weighted(terms))
    {
      TotalOnCurve(terms);
      hide Field.R;
      if terms != [] {
        var init, t := terms[..|terms| - 1], terms[|terms| - 1];
        TotalLog(init);
        F.MulR(t.scalar, t.point.log);
        F.AddR(Weighted(init), t.scalar * t.point.log);
        assert F.R(t.scalar) * t.point.tor == 0;
      } else {
        F.Range(0);
      }
    }
  }

  /** A Pedersen commitment: mask·G + amount·H. */
  function CommitTo(E: Group, amount: int, mask: int): Point {
    E.Plus(E.Times(mask, BASE), E.Times(amount, E.H))
  }

  lemma CommitFacts(E: Group, amount: int, mask: int)
    requires E.TorsionFree(E.H)
    ensures E.TorsionFree(CommitTo(E, amount, mask))
    ensures E.F.R(CommitTo(E, amount, mask).log) == E.F.R(mask + amount * E.H.log)
  {
    E.PlusOnCurve(E.Times(mask, BASE), E.Times(amount, E.H));
    E.TimesOnCurve(mask, BASE);
    E.TimesOnCurve(amount, E.H);
    E.F.AddR(mask, amount * E.H.log);
    E.F.Idem(E.F.R(mask) + E.F.R(amount * E.H.log));
  }

  /** Some supplied random scalar reduces to zero. */
  ghost predicate SomeDrawIsZero(F: Field, randomScalars: seq<nat>) {
    exists k :: 0 <= k < |randomScalars| && F.R(randomScalars[k]) == 0
  }

  lemma EightInverts(E: Group)
    requires E.Valid()
    ensures E.F.Valid() && E.F.R(8 * E.F.Inverse(8)) == E.F.R(1)
  {
    E.F.Range(8);
    E.F.InverseWorks(8);
  }

  lemma SameLog(E: Group, P: Point, Q: Point)
    requires E.TorsionFree(P) && E.TorsionFree(Q) && E.F.R(P.log) == E.F.R(Q.log)
    ensures P == Q
  {
    E.F.Range(P.log);
    E.F.Range(Q.log);
  }

  /** Eight times a torsion-free point and then an eighth, or the other way around: nothing changes. */
  lemma EighthUndone(E: Group, V: Point)
    requires E.Valid() && E.TorsionFree(V)
    ensures E.Times(E.F.Inverse(8), E.Times(8, V)) == V
    ensures E.Times(8, E.Times(E.F.Inverse(8), V)) == V
  {
    EightInverts(E);
    var i := E.F.Inverse(8);
    E.TimesOnCurve(8, V);
    E.TimesOnCurve(i, V);
    E.TimesOnCurve(i, E.Times(8, V));
    E.TimesOnCurve(8, E.Times(i, V));
    E.F.Idem(i * E.Times(8, V).log);
    E.F.Idem(8 * E.Times(i, V).log);
    hide Field.R, Field.Inverse;
    E.F.MulR(i, 8 * V.log);
    E.F.MulR(8, i * V.log);
    Associate(i, 8, V.log);
    Associate(8, i, V.log);
    assert i * 8 == 8 * i;
    E.F.Cancel(8, i, V.log);
    SameLog(E, E.Times(i, E.Times(8, V)), V);
    SameLog(E, E.Times(8, E.Times(i, V)), V);
  }

  ghost function Weighted(terms: seq<Term>): int {
    if terms == [] then 0
    else Weighted(terms[..|terms| - 1]) + terms[|terms| - 1].scalar * terms[|terms| - 1].point.log
  }

  lemma {:induction false} WeightedConcat(a: seq<Term>, b: seq<Term>)
    ensures Weighted(a + b) == Weighted(a) + Weighted(b)
  {
    if b == [] {
      assert a + b == a;
    } else {
      assert (a + b)[..|a + b| - 1] == a + b[..|b| - 1];
      WeightedConcat(a, b[..|b| - 1]);
    }
  }

  /** A list of terms given by index adds up to a Sum. */
  lemma {:induction false} WeightedSum(terms: seq<Term>, f: int -> int)
    requires forall i :: 0 <= i < |terms| ==> f(i) == terms[i].scalar * terms[i].point.log
    ensures Weighted(terms) == Sum(|terms|, f)
  {
    if terms != [] {
      WeightedSum(terms[..|terms| - 1], f);
    }
  }

  /** `msum`, and the verifier's closing loop: zero scalars are skipped. bulletproofplus.ts:362-368, 379-387. */
  method MultiscalarSum(E: Group, terms: seq<Term>) returns (acc: Point)
    ensures acc == E.Total(terms)
  {
    acc := ZERO;
    for i := 0 to |terms|
      invariant acc == E.Total(terms[..i])
    {
      var s := E.F.R(terms[i].scalar);
      assert terms[..i + 1][..i] == terms[..i];
      if s == 0 {
        E.TotalOnCurve(terms[..i]);
        E.F.Range(acc.log);
        E.F.Range(0);
        continue;
      }
      acc := E.Plus(acc, E.Times(s, terms[i].point));
    }
    assert terms[..|terms|] == terms;
  }

  // ---- Other hashes -----------------------------------------------------------------------

  /** The group with a hash that answers as before where it was asked, and otherwise as given. */
  ghost function Rehashed(E: Group, asked: set<seq<Chunk>>, other: seq<Chunk> -> nat): (E': Group)
    ensures E' == E.(hash := E'.hash)
    ensures forall x :: E'.hash(x) == if x in asked then E.hash(x) else other(x)
  {
    E.(hash := (x: seq<Chunk>) => if x in asked then E.hash(x) else other(x))
  }

  ghost predicate SameAnswers(E: Group, E': Group, asked: set<seq<Chunk>>) {
    E' == E.(hash := E'.hash) && forall x :: x in asked ==> E'.hash(x) == E.hash(x)
  }

  lemma AnswersElse(E: Group, asked: set<seq<Chunk>>, other: seq<Chunk> -> nat, x: seq<Chunk>)
    requires x !in asked
    ensures Rehashed(E, asked, other).HashToScalar(x) == E.F.R(other(x))
  {
    hide Field.R;
  }

  /** The group whose hash answers u to x, v to y and zero to everything else. */
  ghost function TwoAnswers(E: Group, x: seq<Chunk>, u: nat, y: seq<Chunk>, v: nat): (E': Group)
    requires x != y && u < E.F.L && v < E.F.L
    ensures E' == E.(hash := E'.hash) && E'.HashToScalar(x) == u && E'.HashToScalar(y) == v
  {
    E.F.Range(u);
    E.F.Range(v);
    E.(hash := (z: seq<Chunk>) => if z == x then u else if z == y then v else 0)
  }

  /** What is assumed of the group and its modulus can be met. */
  lemma SomeGroup() returns (E: Group)
    ensures E.Valid()
  {
    hide *;
    var p := PrimeAbove(0x1_0000_0000_0000_0000);
    E := TrivialGroup(p);
  }

  lemma TrivialGroup(p: nat) returns (E: Group)
    requires IsPrime(p) && p > 0x1_0000_0000_0000_0000
    ensures E.Valid()
  {
    hide IsPrime;
    E := Group(Field(p), ZERO, _ => ZERO, _ => ZERO, _ => ZERO, _ => 0, (_, _) => 0, _ => seq<Byte>(32, _ => 0), TextChunk(""));
  }
}
