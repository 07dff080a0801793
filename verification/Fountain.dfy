/**
 * Which fragments go into a frame: the alias table built in place, a degree drawn from it, and a
 * shuffle. Doubles are reals and the generator is any stream of draws in [0, 1).
 */
module Fountain {
  import opened Alias
  import opened Bytes
  import opened Orders

  /** The draws a seed yields, one after another. */
  type Draws = nat -> real

  ghost predicate UnitDraws(u: Draws) {
    forall k: nat :: 0.0 <= u(k) < 1.0
  }

  /** The generator as the sampler sees it: a stream and how much of it is used up. */
  class Rng {
    const stream: Draws
    var at: nat

    constructor (u: Draws)
      ensures stream == u && at == 0
    {
      stream := u;
      at := 0;
    }

    /** fountain.ts:76-78. */
    method NextDouble() returns (r: real)
      modifies this
      ensures r == stream(old(at)) && at == old(at) + 1
    {
      r := stream(at);
      at := at + 1;
    }

    /** A whole number from low to high, both included. fountain.ts:80-82. */
    method NextInt(low: int, high: int) returns (r: int)
      requires UnitDraws(stream) && low <= high
      modifies this
      ensures low <= r <= high && at == old(at) + 1
      ensures r == low + Scale(stream(old(at)), high - low + 1)
    {
      var d := NextDouble();
      ScaleInRange(d, high - low + 1);
      FloorShift(d * ((high - low + 1) as real), low);
      r := (d * ((high - low + 1) as real) + low as real).Floor;
    }
  }

  /** floor(u·n). */
  function Scale(u: real, n: nat): int {
    (u * n as real).Floor
  }

  lemma ScaleInRange(u: real, n: nat)
    requires 0.0 <= u < 1.0 && n > 0
    ensures 0 <= Scale(u, n) < n
  {
    var x := u * n as real;
    assert 0.0 <= x < n as real;
  }

  lemma FloorShift(x: real, low: int)
    ensures (x + low as real).Floor == x.Floor + low
  {
  }

  // ---- The table, in place ------------------------------------------------------------------

  /** `buildAlias`: two stacks and three arrays, drained to the tables of Vose's law. fountain.ts:98-122. */
  method BuildAlias(probabilities: seq<real>) returns (prob: array<real>, alias: array<nat>)
    requires Positive(probabilities) && probabilities != []
    ensures prob[..] == Finish(Built(probabilities)) && alias[..] == Built(probabilities).alias
    ensures fresh(prob) && fresh(alias)
  {
    hide Drain, Shaped, RealSum, Built, Step, Sound, Unfilled;
    var n := |probabilities|;
    ScaledFacts(probabilities);
    ghost var goal := Built(probabilities);
    var sum := Total(probabilities);
    var scaled := new real[n](i requires 0 <= i < n => probabilities[i] * (n as real) / sum);
    assert scaled[..] == Scaled(probabilities);
    prob, alias := new real[n](_ => 0.0), new nat[n](_ => 0);
    var small: seq<nat>, large: seq<nat>;
    small, large := FillStacks(scaled[..]);
    StartIs(scaled[..], prob[..], alias[..]);
    BuiltIs(probabilities);
    while small != [] && large != []
      invariant scaled.Length == prob.Length == alias.Length == n
      invariant Shaped(Tables(small, large, scaled[..], prob[..], alias[..]), n)
      invariant Drain(Tables(small, large, scaled[..], prob[..], alias[..]), n) == goal
      decreases |small| + |large|
    {
      ghost var t := Tables(small, large, scaled[..], prob[..], alias[..]);
      StepIs(t, n);
      small, large := PairUp(small, large, scaled, prob, alias);
    }
    DrainStops(Tables(small, large, scaled[..], prob[..], alias[..]), n);
    FillRest(prob, goal, n, large, small);
  }

  /** One of each stack popped; the small bucket filled, the large one pushed where it now belongs. fountain.ts:110-117. */
  method PairUp(small: seq<nat>, large: seq<nat>, scaled: array<real>, prob: array<real>, alias: array<nat>)
    returns (small': seq<nat>, large': seq<nat>)
    requires scaled.Length == prob.Length == alias.Length && scaled != prob
    requires Shaped(Tables(small, large, scaled[..], prob[..], alias[..]), scaled.Length) && small != [] && large != []
    modifies scaled, prob, alias
    ensures Tables(small', large', scaled[..], prob[..], alias[..])
         == Step(old(Tables(small, large, scaled[..], prob[..], alias[..])), scaled.Length)
  {
    StepIs(Tables(small, large, scaled[..], prob[..], alias[..]), scaled.Length);
    hide Drain, Shaped, Unfilled, Step;
    var less, more := small[|small| - 1], large[|large| - 1];
    small', large' := small[..|small| - 1], large[..|large| - 1];
    prob[less] := scaled[less];
    alias[less] := more;
    scaled[more] := scaled[more] + scaled[less] - 1.0;
    if scaled[more] < 1.0 {
      small' := small' + [more];
    } else {
      large' := large' + [more];
    }
  }

  method Total(s: seq<real>) returns (sum: real)
    ensures sum == RealSum(s)
  {
    sum := 0.0;
    for i := 0 to |s|
      invariant sum == RealSum(s[..i])
    {
      assert s[..i + 1][..i] == s[..i];
      sum := sum + s[i];
    }
    assert s[..|s|] == s;
  }

  method FillStacks(scaled: seq<real>) returns (small: seq<nat>, large: seq<nat>)
    ensures (small, large) == Stacks(scaled, 0)
  {
    small, large := [], [];
    var i := |scaled| - 1;
    while i >= 0
      invariant -1 <= i < |scaled| && (small, large) == Stacks(scaled, i + 1)
    {
      if scaled[i] < 1.0 { small := small + [i]; } else { large := large + [i]; }
      i := i - 1;
    }
  }

  lemma StartIs(scaled: seq<real>, prob: seq<real>, alias: seq<nat>)
    requires |prob| == |alias| == |scaled|
    requires forall i :: 0 <= i < |scaled| ==> prob[i] == 0.0 && alias[i] == 0
    ensures Start(scaled) == Tables(Stacks(scaled, 0).0, Stacks(scaled, 0).1, scaled, prob, alias)
  {
  }

  lemma BuiltIs(weights: seq<real>)
    requires Positive(weights) && weights != []
    ensures RealSum(weights) > 0.0
    ensures Shaped(Start(Scaled(weights)), |weights|) && Built(weights) == Drain(Start(Scaled(weights)), |weights|)
    ensures Shaped(Built(weights), |weights|)
  {
    ScaledFacts(weights);
    StartSound(Scaled(weights));
    hide Drain, Shaped, RealSum, Start;
  }

  lemma StepIs(t: Tables, n: nat)
    requires Shaped(t, n) && t.small != [] && t.large != []
    ensures var less, more := t.small[|t.small| - 1], t.large[|t.large| - 1];
      && less < n && more < n && less != more
      && Step(t, n) == (var scaled := t.scaled[more := t.scaled[more] + t.scaled[less] - 1.0];
                        var small, large := t.small[..|t.small| - 1], t.large[..|t.large| - 1];
                        Tables(if scaled[more] < 1.0 then small + [more] else small,
                               if scaled[more] < 1.0 then large else large + [more],
                               scaled, t.prob[less := t.scaled[less]], t.alias[less := more]))
    ensures Shaped(Step(t, n), n) && Drain(Step(t, n), n) == Drain(t, n)
  {
    Tops(t, n);
    StepUnfilled(t, n);
  }

  lemma DrainStops(t: Tables, n: nat)
    requires Shaped(t, n) && (t.small == [] || t.large == [])
    ensures Drain(t, n) == t
  {
  }

  /** Both stacks popped empty, each entry given probability one. fountain.ts:118-119. */
  method FillRest(prob: array<real>, ghost t: Tables, n: nat, large: seq<nat>, small: seq<nat>)
    requires Shaped(t, n) && t.large == large && t.small == small && prob.Length == n && prob[..] == t.prob
    modifies prob
    ensures prob[..] == Finish(t)
  {
    var l, s := large, small;
    while l != []
      invariant |l| <= |large| && l == large[..|l|]
      invariant forall i :: 0 <= i < n ==> prob[i] == if i in large[|l|..] then 1.0 else t.prob[i]
    {
      var top := |l| - 1;
      assert large[top] in large && large[top..] == [large[top]] + large[|l|..];
      prob[l[top]] := 1.0;
      l := l[..top];
    }
    while s != []
      invariant |s| <= |small| && s == small[..|s|]
      invariant forall i :: 0 <= i < n ==> prob[i] == if i in large || i in small[|s|..] then 1.0 else t.prob[i]
    {
      var top := |s| - 1;
      assert small[top] in small && small[top..] == [small[top]] + small[|s|..];
      prob[s[top]] := 1.0;
      s := s[..top];
    }
  }

  // ---- The degree ------------------------------------------------------------------------------

  /** 1, 1/2, ..., 1/n. */
  function Weights(n: nat): (w: seq<real>)
    ensures |w| == n && Positive(w)
  {
    seq(n, i requires 0 <= i < n => 1.0 / (i + 1) as real)
  }

  function Degree(n: nat, u: real, v: real): (d: nat)
    requires n >= 1 && 0.0 <= u < 1.0 && 0.0 <= v < 1.0
    ensures 1 <= d <= n
  {
    AliasConserves(Weights(n));
    ScaleInRange(u, n);
    var t := Built(Weights(n));
    var bucket := Scale(u, n);
    (if v < Finish(t)[bucket] then bucket else t.alias[bucket]) + 1
  }

  /** Two draws, in this order. fountain.ts:131-139. */
  method ChooseDegree(seqLength: nat, rng: Rng) returns (degree: nat)
    requires seqLength >= 1 && UnitDraws(rng.stream)
    modifies rng
    ensures rng.at == old(rng.at) + 2
    ensures degree == Degree(seqLength, rng.stream(old(rng.at)), rng.stream(old(rng.at) + 1))
  {
    hide Built, Finish, Positive, Scale;
    var probabilities: seq<real> := [];
    for i := 0 to seqLength
      invariant |probabilities| == i && forall k :: 0 <= k < i ==> probabilities[k] == 1.0 / (k + 1) as real
    {
      probabilities := probabilities + [1.0 / (i + 1) as real];
    }
    assert probabilities == Weights(seqLength);
    var prob, alias := BuildAlias(probabilities);
    AliasConserves(Weights(seqLength));
    var u := rng.NextDouble();
    ScaleInRange(u, prob.Length);
    var bucket := Scale(u, prob.Length);
    var v := rng.NextDouble();
    degree := (if v < prob[..][bucket] then bucket else alias[..][bucket]) + 1;
  }

  /** The chance that one bucket, picked uniformly, and one draw against it give degree d, times n. */
  ghost function Mass(n: nat, d: nat): real
    requires 1 <= d <= n
  {
    AliasConserves(Weights(n));
    var t := Built(Weights(n));
    Finish(t)[d - 1] + Handed(Finish(t), t.alias, d - 1, n)
  }

  /** Degree d comes of its own bucket under its own probability, or of a bucket that hands it the rest: that is Mass. */
  lemma DegreeComesOf(n: nat, u: real, v: real, d: nat)
    requires n >= 1 && 0.0 <= u < 1.0 && 0.0 <= v < 1.0 && 1 <= d <= n
    ensures var t, bucket := Built(Weights(n)), Scale(u, n);
      && |Finish(t)| == |t.alias| == n && 0 <= bucket < n
      && (Degree(n, u, v) == d <==>
            (bucket == d - 1 && v < Finish(t)[bucket]) || (t.alias[bucket] == d - 1 && v >= Finish(t)[bucket]))
  {
    hide Built, Finish;
    AliasConserves(Weights(n));
    ScaleInRange(u, n);
  }

  /** Degree d has mass proportional to 1/d. */
  lemma DegreeMass(n: nat, d: nat)
    requires 1 <= d <= n
    ensures RealSum(Weights(n)) > 0.0
    ensures Mass(n, d) == (1.0 / d as real) * (n as real) / RealSum(Weights(n))
  {
    hide Built, Finish, RealSum, Handed;
    AliasConserves(Weights(n));
    assert Weights(n)[d - 1] == 1.0 / d as real;
  }

  lemma {:induction false} HarmonicGrows(m: nat, n: nat)
    requires m <= n
    ensures RealSum(Weights(m)) <= RealSum(Weights(n))
    ensures m < n ==> RealSum(Weights(m)) < RealSum(Weights(n))
  {
    if m < n {
      HarmonicGrows(m, n - 1);
      HarmonicNext(n - 1);
    }
  }

  lemma HarmonicNearTwo()
    ensures RealSum(Weights(3)) < 2.0 < RealSum(Weights(4))
  {
    HarmonicNext(0);
    HarmonicNext(1);
    HarmonicNext(2);
    HarmonicNext(3);
    assert RealSum(Weights(0)) == 0.0;
    hide *;
    assert 1.0 / 1 as real == 1.0 && 1.0 / 2 as real == 0.5 && 1.0 / 4 as real == 0.25;
  }

  lemma HarmonicNext(n: nat)
    ensures RealSum(Weights(n + 1)) == RealSum(Weights(n)) + 1.0 / (n + 1) as real
  {
    assert Weights(n + 1)[..n] == Weights(n);
  }

  /** Degree 1 takes half the mass for no number of fragments at all: more for up to three, less from four on. */
  lemma DegreeOneIsNeverHalf(n: nat)
    requires n >= 1
    ensures RealSum(Weights(n)) > 0.0
    ensures n <= 3 ==> Mass(n, 1) > n as real / 2.0
    ensures n >= 4 ==> Mass(n, 1) < n as real / 2.0
  {
    hide *;
    DegreeMass(n, 1);
    HarmonicNearTwo();
    if n <= 3 { HarmonicGrows(n, 3); } else { HarmonicGrows(4, n); }
    HalfIs(n as real, RealSum(Weights(n)));
  }

  lemma HalfIs(n: real, h: real)
    requires n > 0.0 && h > 0.0
    ensures h < 2.0 ==> (1.0 / 1 as real) * n / h > n / 2.0
    ensures h > 2.0 ==> (1.0 / 1 as real) * n / h < n / 2.0
  {
    var q := n / h;
    assert (1.0 / 1 as real) * n / h == q;
    assert q * h == n && q > 0.0;
    HalfOf(q, h, n);
  }

  lemma HalfOf(q: real, h: real, n: real)
    requires q > 0.0 && n == q * h
    ensures h < 2.0 ==> q > n / 2.0
    ensures h > 2.0 ==> q < n / 2.0
  {
    var d := h - 2.0;
    assert n == q * d + q * 2.0;
    if d > 0.0 { assert q * d > 0.0; }
    if d < 0.0 { assert q * d < 0.0; }
  }

  // ---- Five fragments, worked out -------------------------------------------------------------------

  lemma FiveHarmonic()
    ensures RealSum(Weights(5)) == 137.0 / 60.0
  {
    HarmonicNext(0);
    HarmonicNext(1);
    HarmonicNext(2);
    HarmonicNext(3);
    HarmonicNext(4);
    assert RealSum(Weights(0)) == 0.0;
    hide *;
    assert 1.0 / 1 as real == 1.0 && 1.0 / 2 as real == 0.5 && 1.0 / 4 as real == 0.25 && 1.0 / 5 as real == 0.2;
  }

  lemma FiveWeights()
    ensures RealSum(Weights(5)) == 137.0 / 60.0 && Scaled(Weights(5)) == FIVE
  {
    FiveHarmonic();
    hide RealSum;
    forall i | 0 <= i < 5 ensures Scaled(Weights(5))[i] == FIVE[i] {
      FiveShares();
      assert i == 0 || i == 1 || i == 2 || i == 3 || i == 4;
    }
  }

  lemma FiveShares()
    ensures 1.0 / 1 as real * 5 as real / (137.0 / 60.0) == 300.0 / 137.0 && 1.0 / 2 as real * 5 as real / (137.0 / 60.0) == 150.0 / 137.0
    ensures 1.0 / 3 as real * 5 as real / (137.0 / 60.0) == 100.0 / 137.0 && 1.0 / 4 as real * 5 as real / (137.0 / 60.0) == 75.0 / 137.0
    ensures 1.0 / 5 as real * 5 as real / (137.0 / 60.0) == 60.0 / 137.0
  {
  }

  const FIVE: seq<real> := [300.0 / 137.0, 150.0 / 137.0, 100.0 / 137.0, 75.0 / 137.0, 60.0 / 137.0]

  /** The five steps: small and large taken from the top of their stacks, and the lender put back on top of its own. */
  function FiveAt(k: nat): Tables {
    var none := [0.0, 0.0, 0.0, 0.0, 0.0];
    if k == 0 then Tables([4, 3, 2], [1, 0], FIVE, none, [0, 0, 0, 0, 0])
    else if k == 1 then Tables([4, 3], [1, 0], FIVE[0 := 263.0 / 137.0], none[2 := FIVE[2]], [0, 0, 0, 0, 0])
    else if k == 2 then Tables([4], [1, 0], FIVE[0 := 201.0 / 137.0], none[2 := FIVE[2]][3 := FIVE[3]], [0, 0, 0, 0, 0])
    else if k == 3 then Tables([0], [1], FIVE[0 := 124.0 / 137.0], none[2 := FIVE[2]][3 := FIVE[3]][4 := FIVE[4]], [0, 0, 0, 0, 0])
    else Tables([], [1], FIVE[0 := 124.0 / 137.0][1 := 1.0], none[2 := FIVE[2]][3 := FIVE[3]][4 := FIVE[4]][0 := 124.0 / 137.0], [1, 0, 0, 0, 0])
  }

  lemma FiveStep(k: nat)
    requires k < 4 && Shaped(FiveAt(k), 5)
    ensures FiveAt(k).small != [] && FiveAt(k).large != [] && Step(FiveAt(k), 5) == FiveAt(k + 1)
  {
    hide Shaped;
    if k == 0 {
      assert [4, 3, 2][..2] == [4, 3] && [1, 0][..1] + [0] == [1, 0];
    } else if k == 1 {
      assert [4, 3][..1] == [4] && [1, 0][..1] + [0] == [1, 0];
      assert FIVE[0 := 263.0 / 137.0][0 := 201.0 / 137.0] == FIVE[0 := 201.0 / 137.0];
    } else if k == 2 {
      assert [4][..0] + [0] == [0] && [1, 0][..1] == [1];
      assert FIVE[0 := 201.0 / 137.0][0 := 124.0 / 137.0] == FIVE[0 := 124.0 / 137.0];
    } else {
      assert [0][..0] == [] && [1][..0] + [1] == [1];
      assert [0, 0, 0, 0, 0][0 := 1] == [1, 0, 0, 0, 0];
    }
  }

  lemma FiveStart()
    ensures Start(FIVE) == FiveAt(0)
  {
    StackNext(FIVE, 4);
    StackNext(FIVE, 3);
    StackNext(FIVE, 2);
    StackNext(FIVE, 1);
    StackNext(FIVE, 0);
    assert Stacks(FIVE, 5) == ([], []);
    hide Stacks;
    assert [] + [4] == [4] && [4] + [3] == [4, 3] && [4, 3] + [2] == [4, 3, 2];
    assert [] + [1] == [1] && [1] + [0] == [1, 0];
    assert seq(5, i => 0.0) == [0.0, 0.0, 0.0, 0.0, 0.0] && seq(5, i => 0) == [0, 0, 0, 0, 0];
  }

  lemma StackNext(scaled: seq<real>, k: nat)
    requires k < |scaled|
    ensures var rest := Stacks(scaled, k + 1);
      Stacks(scaled, k) == if scaled[k] < 1.0 then (rest.0 + [k], rest.1) else (rest.0, rest.1 + [k])
  {
  }

  /** Which bucket lends to which, and what each keeps. */
  lemma FiveTables()
    ensures Built(Weights(5)).alias == [1, 0, 0, 0, 0]
    ensures Finish(Built(Weights(5))) == [124.0 / 137.0, 1.0, 100.0 / 137.0, 75.0 / 137.0, 60.0 / 137.0]
  {
    hide FiveAt, Shaped, Scaled, Start, Stacks, Step, RealSum, Positive, Sound, FilledBelowOne, Finish, Drain;
    FiveWeights();
    FiveStart();
    ScaledFacts(Weights(5));
    StartSound(Scaled(Weights(5)));
    SoundShape(Start(Scaled(Weights(5))), Scaled(Weights(5)), 5);
    FiveDrained(0);
    FiveDrained(1);
    FiveDrained(2);
    FiveDrained(3);
    assert Built(Weights(5)) == Drain(FiveAt(4), 5);
    FiveFinished();
  }

  lemma FiveDrained(k: nat)
    requires k < 4 && Shaped(FiveAt(k), 5)
    ensures Shaped(FiveAt(k + 1), 5) && Drain(FiveAt(k), 5) == Drain(FiveAt(k + 1), 5)
  {
    hide *;
    FiveStep(k);
    Drained(FiveAt(k), FiveAt(k + 1));
  }

  lemma FiveFinished()
    requires Shaped(FiveAt(4), 5)
    ensures Drain(FiveAt(4), 5) == FiveAt(4) && FiveAt(4).alias == [1, 0, 0, 0, 0]
    ensures Finish(FiveAt(4)) == [124.0 / 137.0, 1.0, 100.0 / 137.0, 75.0 / 137.0, 60.0 / 137.0]
  {
    hide Shaped;
  }

  lemma Drained(t: Tables, t': Tables)
    requires Shaped(t, 5) && t.small != [] && t.large != [] && Step(t, 5) == t'
    ensures Shaped(t', 5) && Drain(t, 5) == Drain(t', 5)
  {
    StepUnfilled(t, 5);
    hide Step, Shaped, Unfilled;
  }

  /** So the degree of a frame of five fragments, for every pair of draws. */
  lemma FiveDegrees(u: real, v: real)
    requires 0.0 <= u < 1.0 && 0.0 <= v < 1.0
    ensures Degree(5, u, v) ==
      if u < 0.2 then (if v < 124.0 / 137.0 then 1 else 2)
      else if u < 0.4 then 2
      else if u < 0.6 then (if v < 100.0 / 137.0 then 3 else 1)
      else if u < 0.8 then (if v < 75.0 / 137.0 then 4 else 1)
      else (if v < 60.0 / 137.0 then 5 else 1)
  {
    FiveTables();
    hide Built, Finish, Weights;
  }

  // ---- The shuffle --------------------------------------------------------------------------------

  /** Draw k takes one of the items that remain. */
  function Shuffled(items: seq<nat>, u: Draws, k: nat): (r: seq<nat>)
    requires UnitDraws(u)
    ensures |r| == |items|
    decreases |items|
  {
    if items == [] then []
    else
      ScaleInRange(u(k), |items|);
      var index := Scale(u(k), |items|);
      [items[index]] + Shuffled(items[..index] + items[index + 1..], u, k + 1)
  }

  lemma {:induction false} ShuffledPermutes(items: seq<nat>, u: Draws, k: nat)
    requires UnitDraws(u)
    ensures multiset(Shuffled(items, u, k)) == multiset(items)
    decreases |items|
  {
    hide UnitDraws, Scale;
    if items != [] {
      ScaleInRange(u(k), |items|) by { DrawInUnit(u, k); }
      var index := Scale(u(k), |items|);
      ShuffledPermutes(Without(items, index), u, k + 1);
      RemoveOne(items, index);
    }
  }

  ghost predicate Ascending(items: seq<nat>) {
    forall i, j :: 0 <= i < j < |items| ==> items[i] < items[j]
  }

  /** The items below x that are not among those taken. */
  ghost function StillBelow(items: seq<nat>, taken: seq<nat>, x: nat): set<nat> {
    set i: nat | i in items && i < x && i !in taken
  }

  /** In an ascending list an item stands behind as many as there are below it. */
  lemma {:induction false} PlaceIsRank(items: seq<nat>, p: nat)
    requires Ascending(items) && p < |items|
    ensures |StillBelow(items, [], items[p])| == p
  {
    if p == 0 {
      assert StillBelow(items, [], items[0]) == {};
    } else {
      PlaceIsRank(items, p - 1);
      assert StillBelow(items, [], items[p]) == StillBelow(items, [], items[p - 1]) + {items[p - 1]};
    }
  }

  /** Draw k + j takes, of the items not yet taken, the one its scaled value counts to. */
  lemma {:induction false} ShuffledInTurn(items: seq<nat>, u: Draws, k: nat, j: nat)
    requires UnitDraws(u) && Ascending(items) && j < |items|
    ensures var r := Shuffled(items, u, k);
      r[j] in items && r[j] !in r[..j] && |StillBelow(items, r[..j], r[j])| == Scale(u(k + j), |items| - j)
    decreases |items|
  {
    hide UnitDraws, Scale, StillBelow;
    ScaleInRange(u(k), |items|) by { DrawInUnit(u, k); }
    var r, index := Shuffled(items, u, k), Scale(u(k), |items|);
    if j == 0 {
      PlaceIsRank(items, index);
      assert r[..0] == [];
    } else {
      var left := Without(items, index);
      var rest := Shuffled(left, u, k + 1);
      ShuffledInTurn(left, u, k + 1, j - 1);
      WithoutSplits(items, index);
      assert r[..j] == [items[index]] + rest[..j - 1];
      SameBelow(items, index, rest[..j - 1], rest[j - 1]);
    }
  }

  lemma SameBelow(items: seq<nat>, index: nat, taken: seq<nat>, x: nat)
    requires Ascending(items) && index < |items|
    ensures StillBelow(items, [items[index]] + taken, x) == StillBelow(Without(items, index), taken, x)
  {
    WithoutSplits(items, index);
    hide Without, Ascending;
    assert forall i: nat :: i in [items[index]] + taken <==> i == items[index] || i in taken;
  }

  lemma WithoutSplits(items: seq<nat>, index: nat)
    requires Ascending(items) && index < |items|
    ensures Ascending(Without(items, index)) && items[index] !in Without(items, index)
    ensures forall x :: x in items <==> x == items[index] || x in Without(items, index)
  {
    forall x | x in items ensures x == items[index] || x in Without(items, index) {
      var i :| 0 <= i < |items| && items[i] == x;
      if i < index {
        assert Without(items, index)[i] == x;
      } else if i > index {
        assert Without(items, index)[i - 1] == x;
      }
    }
  }

  lemma DrawInUnit(u: Draws, k: nat)
    requires UnitDraws(u)
    ensures 0.0 <= u(k) < 1.0
  {
  }

  /** fountain.ts:141-150. */
  method Shuffle(items: seq<nat>, rng: Rng) returns (result: seq<nat>)
    requires UnitDraws(rng.stream)
    modifies rng
    ensures result == Shuffled(items, rng.stream, old(rng.at)) && rng.at == old(rng.at) + |items|
  {
    hide UnitDraws, Scale;
    var remaining := items;
    result := [];
    while remaining != []
      invariant rng.at + |remaining| == old(rng.at) + |items|
      invariant result + Shuffled(remaining, rng.stream, rng.at) == Shuffled(items, rng.stream, old(rng.at))
      decreases |remaining|
    {
      DrawInUnit(rng.stream, rng.at);
      ScaleInRange(rng.stream(rng.at), |remaining|);
      var index := rng.NextInt(0, |remaining| - 1);
      result := result + [remaining[index]];
      remaining := remaining[..index] + remaining[index + 1..];
    }
  }

  // ---- The frame -------------------------------------------------------------------------------------

  ghost predicate DistinctBelow(s: seq<nat>, n: nat) {
    (forall i :: 0 <= i < |s| ==> s[i] < n) && forall i, j :: 0 <= i < j < |s| ==> s[i] != s[j]
  }

  /** The fragments of a frame. The first seqLength frames are single fragments, in order. */
  function Chosen(u: Draws, seqNum: nat, seqLength: nat): (r: seq<nat>)
    requires UnitDraws(u) && seqNum >= 1 && seqLength >= 1
  {
    if seqNum <= seqLength then [seqNum - 1]
    else Shuffled(Identity(seqLength), u, 2)[..Degree(seqLength, u(0), u(1))]
  }

  /** Whatever the draws, a frame names between one and seqLength fragments, all different. */
  lemma ChosenIsSound(u: Draws, seqNum: nat, seqLength: nat)
    requires UnitDraws(u) && seqNum >= 1 && seqLength >= 1
    ensures 1 <= |Chosen(u, seqNum, seqLength)| <= seqLength && DistinctBelow(Chosen(u, seqNum, seqLength), seqLength)
  {
    hide Degree, Shuffled;
    if seqNum > seqLength {
      var s := Shuffled(Identity(seqLength), u, 2);
      ShuffledPermutes(Identity(seqLength), u, 2);
      PermutationShape(s, seqLength);
      PermutationDistinct(s, seqLength);
    }
  }

  /**
   * Which fragments a mixed frame names: as many as its degree, and of the indexes not named yet, in
   * ascending order, number k is at the place the scaled draw k + 2 says.
   */
  lemma ChosenInTurn(u: Draws, seqNum: nat, seqLength: nat, k: nat)
    requires UnitDraws(u) && seqNum > seqLength >= 1 && k < Degree(seqLength, u(0), u(1))
    ensures var r := Chosen(u, seqNum, seqLength);
      && |r| == Degree(seqLength, u(0), u(1)) && r[k] < seqLength && r[k] !in r[..k]
      && |set i: nat | i < r[k] && i !in r[..k]| == Scale(u(k + 2), seqLength - k)
  {
    hide Degree, Shuffled, Scale, UnitDraws;
    var items, s, r := Identity(seqLength), Shuffled(Identity(seqLength), u, 2), Chosen(u, seqNum, seqLength);
    ShuffledInTurn(items, u, 2, k);
    assert r[..k] == s[..k];
    InIdentity(seqLength);
    assert StillBelow(items, s[..k], s[k]) == set i: nat | i < r[k] && i !in r[..k];
  }

  lemma InIdentity(n: nat)
    ensures forall x: nat :: x in Identity(n) <==> x < n
  {
    forall x: nat | x < n ensures x in Identity(n) {
      assert Identity(n)[x] == x;
    }
  }

  /** The first one named is where the third draw falls. */
  lemma FirstChosen(u: Draws, seqNum: nat, seqLength: nat)
    requires UnitDraws(u) && seqNum > seqLength >= 1 && Degree(seqLength, u(0), u(1)) > 0
    ensures Chosen(u, seqNum, seqLength)[0] == Scale(u(2), seqLength)
  {
    hide Degree, Scale, UnitDraws;
    ScaleInRange(u(2), seqLength) by { DrawInUnit(u, 2); }
  }

  lemma PermutationDistinct(s: seq<nat>, n: nat)
    requires IsPermutation(s, n) && |s| == n
    ensures forall i, j :: 0 <= i < j < |s| ==> s[i] != s[j]
  {
    forall i, j | 0 <= i < j < |s| ensures s[i] != s[j] {
      if s[i] == s[j] {
        assert s == s[..i] + [s[i]] + s[i + 1..j] + [s[j]] + s[j + 1..];
        assert multiset(s)[s[i]] >= 2;
        IdentityOnce(n, s[i]);
      }
    }
  }

  lemma {:induction false} IdentityOnce(n: nat, x: nat)
    ensures multiset(Identity(n))[x] <= 1
    ensures x >= n ==> multiset(Identity(n))[x] == 0
  {
    if n > 0 {
      IdentityOnce(n - 1, x);
      assert Identity(n) == Identity(n - 1) + [n - 1];
    }
  }

  /** `chooseFragments`, given the generator its seed starts. fountain.ts:165-177. */
  method ChooseFragments(u: Draws, seqNum: nat, seqLength: nat) returns (r: seq<nat>)
    requires UnitDraws(u) && seqNum >= 1 && seqLength >= 1
    ensures r == Chosen(u, seqNum, seqLength)
    ensures 1 <= |r| <= seqLength && DistinctBelow(r, seqLength)
  {
    hide Degree, Shuffled;
    ChosenIsSound(u, seqNum, seqLength);
    if seqNum <= seqLength { return [seqNum - 1]; }
    var rng := new Rng(u);
    var degree := ChooseDegree(seqLength, rng);
    var indexes := Identity(seqLength);
    var shuffled := Shuffle(indexes, rng);
    r := shuffled[..degree];
  }
}
