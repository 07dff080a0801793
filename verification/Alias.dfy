/**
 * Vose's alias method over the reals, in the order the sampler fills and drains its buckets, and the
 * law that makes it a sampler: no weight is lost.
 */
module Alias {

  /** The tables under construction: two stacks of unfilled buckets, top last. */
  datatype Tables = Tables(small: seq<nat>, large: seq<nat>, scaled: seq<real>, prob: seq<real>, alias: seq<nat>)

  predicate Unfilled(t: Tables, i: nat) {
    i in t.small || i in t.large
  }

  function RealSum(s: seq<real>): real {
    if s == [] then 0.0 else RealSum(s[..|s| - 1]) + s[|s| - 1]
  }

  /** What the filled buckets below k have handed over to bucket i. */
  ghost function Given(t: Tables, i: nat, k: nat): real
    requires k <= |t.prob| == |t.alias|
  {
    if k == 0 then 0.0
    else Given(t, i, k - 1) + if !Unfilled(t, k - 1) && t.alias[k - 1] == i then 1.0 - t.prob[k - 1] else 0.0
  }

  /** What the unfilled buckets below k still hold, over one each. */
  ghost function Surplus(t: Tables, k: nat): real
    requires k <= |t.scaled|
  {
    if k == 0 then 0.0
    else Surplus(t, k - 1) + if Unfilled(t, k - 1) then t.scaled[k - 1] - 1.0 else 0.0
  }

  predicate Distinct(s: seq<nat>) {
    forall i, j :: 0 <= i < j < |s| ==> s[i] != s[j]
  }

  predicate Shaped(t: Tables, n: nat) {
    && |t.scaled| == |t.prob| == |t.alias| == n
    && Distinct(t.small) && Distinct(t.large)
    && (forall i :: i in t.small ==> i < n && 0.0 < t.scaled[i] < 1.0 && i !in t.large)
    && (forall i :: i in t.large ==> i < n && t.scaled[i] >= 1.0 && i !in t.small)
    && (forall i :: 0 <= i < n ==> t.alias[i] < n || Unfilled(t, i))
  }

  /** Every bucket's weight is where it started: still unfilled, or split between prob and what others gave it. */
  ghost predicate Conserves(t: Tables, weights: seq<real>, n: nat)
    requires |t.scaled| == |t.prob| == |t.alias| == n == |weights|
  {
    forall i :: 0 <= i < n ==>
      weights[i] == (if Unfilled(t, i) then t.scaled[i] else t.prob[i]) + Given(t, i, n)
  }

  // ---- One step -----------------------------------------------------------------------

  /** Pop one of each; the small one is filled, the large one pays for it. fountain.ts:110-117. */
  function Step(t: Tables, n: nat): (r: Tables)
    requires Shaped(t, n) && t.small != [] && t.large != []
    ensures |r.scaled| == |r.prob| == |r.alias| == n
  {
    var less, more := t.small[|t.small| - 1], t.large[|t.large| - 1];
    assert less in t.small && more in t.large;
    var small, large := t.small[..|t.small| - 1], t.large[..|t.large| - 1];
    var scaled := t.scaled[more := t.scaled[more] + t.scaled[less] - 1.0];
    var prob, alias := t.prob[less := t.scaled[less]], t.alias[less := more];
    if scaled[more] < 1.0 then Tables(small + [more], large, scaled, prob, alias)
    else Tables(small, large + [more], scaled, prob, alias)
  }

  lemma DistinctFront(s: seq<nat>)
    requires Distinct(s) && s != []
    ensures Distinct(s[..|s| - 1]) && s[|s| - 1] !in s[..|s| - 1]
    ensures forall i :: i in s <==> i in s[..|s| - 1] || i == s[|s| - 1]
  {
    assert s == s[..|s| - 1] + [s[|s| - 1]];
  }

  lemma DistinctPush(s: seq<nat>, x: nat)
    requires Distinct(s) && x !in s
    ensures Distinct(s + [x])
  {
  }

  lemma Tops(t: Tables, n: nat)
    requires Shaped(t, n) && t.small != [] && t.large != []
    ensures var less, more := t.small[|t.small| - 1], t.large[|t.large| - 1];
      && less < n && more < n && less != more && 0.0 < t.scaled[less] < 1.0 <= t.scaled[more]
      && Unfilled(t, less) && Unfilled(t, more) && more !in t.small && less !in t.large
  {
    assert t.small[|t.small| - 1] in t.small && t.large[|t.large| - 1] in t.large;
  }

  /** Exactly the popped small bucket becomes filled. */
  lemma StepUnfilled(t: Tables, n: nat)
    requires Shaped(t, n) && t.small != [] && t.large != []
    ensures t.small[|t.small| - 1] < n && t.large[|t.large| - 1] < n
    ensures Shaped(Step(t, n), n)
    ensures forall i :: 0 <= i < n ==> (Unfilled(Step(t, n), i) <==> Unfilled(t, i) && i != t.small[|t.small| - 1])
  {
    var less, more := t.small[|t.small| - 1], t.large[|t.large| - 1];
    var small, large := t.small[..|t.small| - 1], t.large[..|t.large| - 1];
    Tops(t, n);
    DistinctFront(t.small);
    DistinctFront(t.large);
    DistinctPush(small, more);
    DistinctPush(large, more);
    var r := Step(t, n);
    forall i | i in r.small ensures i < n && 0.0 < r.scaled[i] < 1.0 && i !in r.large {
      if i != more { assert i in small; assert i in t.small; }
    }
    forall i | i in r.large ensures i < n && r.scaled[i] >= 1.0 && i !in r.small {
      if i != more { assert i in large; assert i in t.large; }
    }
  }

  lemma {:induction false} StepGiven(t: Tables, n: nat, i: nat, k: nat)
    requires Shaped(t, n) && t.small != [] && t.large != [] && k <= n
    requires t.small[|t.small| - 1] < n && t.large[|t.large| - 1] < n
    requires forall i :: 0 <= i < n ==> (Unfilled(Step(t, n), i) <==> Unfilled(t, i) && i != t.small[|t.small| - 1])
    ensures var less, more := t.small[|t.small| - 1], t.large[|t.large| - 1];
      Given(Step(t, n), i, k) == Given(t, i, k) + if less < k && more == i then 1.0 - t.scaled[less] else 0.0
  {
    Tops(t, n);
    hide Unfilled, Shaped;
    if k > 0 {
      StepGiven(t, n, i, k - 1);
    }
  }

  lemma StepConserves(t: Tables, weights: seq<real>, n: nat)
    requires Shaped(t, n) && |weights| == n && Conserves(t, weights, n) && t.small != [] && t.large != []
    ensures Shaped(Step(t, n), n) && Conserves(Step(t, n), weights, n)
  {
    StepUnfilled(t, n);
    Tops(t, n);
    forall i | 0 <= i < n
      ensures weights[i] == (if Unfilled(Step(t, n), i) then Step(t, n).scaled[i] else Step(t, n).prob[i]) + Given(Step(t, n), i, n)
    {
      StepGiven(t, n, i, n);
    }
  }

  lemma {:induction false} StepSurplus(t: Tables, n: nat, k: nat)
    requires Shaped(t, n) && t.small != [] && t.large != [] && k <= n
    requires t.small[|t.small| - 1] < n && t.large[|t.large| - 1] < n
    requires forall i :: 0 <= i < n ==> (Unfilled(Step(t, n), i) <==> Unfilled(t, i) && i != t.small[|t.small| - 1])
    ensures var less, more := t.small[|t.small| - 1], t.large[|t.large| - 1];
      Surplus(Step(t, n), k) == Surplus(t, k) - (if less < k then t.scaled[less] - 1.0 else 0.0)
                                           + (if more < k then t.scaled[less] - 1.0 else 0.0)
  {
    Tops(t, n);
    hide Unfilled, Shaped;
    if k > 0 {
      StepSurplus(t, n, k - 1);
    }
  }

  // ---- Draining ------------------------------------------------------------------------

  /** Shape, conservation and nothing over or under one bucket each. */
  ghost predicate Sound(t: Tables, weights: seq<real>, n: nat) {
    Shaped(t, n) && |weights| == n && Conserves(t, weights, n) && Surplus(t, n) == 0.0
  }

  lemma StepSound(t: Tables, weights: seq<real>, n: nat)
    requires Sound(t, weights, n) && t.small != [] && t.large != []
    ensures t.small[|t.small| - 1] < n && t.large[|t.large| - 1] < n
    ensures Sound(Step(t, n), weights, n)
  {
    hide Shaped, Conserves, Surplus, Step, Unfilled;
    StepUnfilled(t, n);
    StepConserves(t, weights, n);
    StepSurplus(t, n, n);
  }

  function Drain(t: Tables, n: nat): (r: Tables)
    requires Shaped(t, n)
    ensures Shaped(r, n) && (r.small == [] || r.large == [])
    decreases |t.small| + |t.large|
  {
    if t.small == [] || t.large == [] then t
    else
      StepUnfilled(t, n);
      Drain(Step(t, n), n)
  }

  lemma {:induction false} DrainSound(t: Tables, weights: seq<real>, n: nat)
    requires Sound(t, weights, n)
    ensures Sound(Drain(t, n), weights, n)
    decreases |t.small| + |t.large|
  {
    hide Shaped, Conserves, Surplus, Unfilled;
    if t.small != [] && t.large != [] {
      StepSound(t, weights, n);
      StepUnfilled(t, n);
      DrainSound(Step(t, n), weights, n);
    }
  }

  /** A sum of terms that are all on one side of zero is zero only when every term is. */
  lemma {:induction false} OneSided(t: Tables, n: nat, k: nat)
    requires Shaped(t, n) && k <= n
    ensures t.small == [] ==> Surplus(t, k) >= 0.0 && (Surplus(t, k) == 0.0 ==> forall i :: 0 <= i < k && i in t.large ==> t.scaled[i] == 1.0)
    ensures t.large == [] ==> Surplus(t, k) <= 0.0 && (Surplus(t, k) == 0.0 ==> forall i :: 0 <= i < k ==> i !in t.small)
  {
    if k > 0 {
      OneSided(t, n, k - 1);
    }
  }

  /** When the draining stops no small bucket is left over, and every large one holds exactly one. */
  lemma NoneLeftOver(t: Tables, weights: seq<real>, n: nat)
    requires Sound(t, weights, n) && (t.small == [] || t.large == [])
    ensures t.small == [] && forall i :: i in t.large ==> t.scaled[i] == 1.0
  {
    assert t.small != [] ==> t.small[0] in t.small;
    OneSided(t, n, n);
  }

  // ---- The finished tables -----------------------------------------------------------------

  /** Whatever is still unfilled gets probability one. fountain.ts:118-119. */
  function Finish(t: Tables): (prob: seq<real>)
    ensures |prob| == |t.prob|
  {
    seq(|t.prob|, i requires 0 <= i < |t.prob| => if Unfilled(t, i) then 1.0 else t.prob[i])
  }

  /** What buckets below k send to bucket i when their own draw fails. */
  ghost function Handed(prob: seq<real>, alias: seq<nat>, i: nat, k: nat): real
    requires k <= |prob| == |alias|
  {
    if k == 0 then 0.0
    else Handed(prob, alias, i, k - 1) + if alias[k - 1] == i && prob[k - 1] < 1.0 then 1.0 - prob[k - 1] else 0.0
  }

  lemma {:induction false} HandedIsGiven(t: Tables, i: nat, k: nat)
    requires k <= |t.prob| == |t.alias|
    requires forall j :: 0 <= j < |t.prob| && !Unfilled(t, j) ==> t.prob[j] < 1.0
    ensures Handed(Finish(t), t.alias, i, k) == Given(t, i, k)
  {
    hide Unfilled;
    if k > 0 {
      HandedIsGiven(t, i, k - 1);
    }
  }

  /** Filled buckets took a weight below one. */
  ghost predicate FilledBelowOne(t: Tables) {
    forall j :: 0 <= j < |t.prob| && !Unfilled(t, j) ==> 0.0 < t.prob[j] < 1.0
  }

  lemma StepFills(t: Tables, n: nat)
    requires Shaped(t, n) && FilledBelowOne(t) && t.small != [] && t.large != []
    ensures t.small[|t.small| - 1] < n && t.large[|t.large| - 1] < n
    ensures FilledBelowOne(Step(t, n))
  {
    StepUnfilled(t, n);
    Tops(t, n);
    hide Shaped, Unfilled;
  }

  lemma {:induction false} DrainFills(t: Tables, n: nat)
    requires Shaped(t, n) && FilledBelowOne(t)
    ensures FilledBelowOne(Drain(t, n))
    decreases |t.small| + |t.large|
  {
    hide Shaped, FilledBelowOne;
    if t.small != [] && t.large != [] {
      StepUnfilled(t, n);
      StepFills(t, n);
      DrainFills(Step(t, n), n);
    }
  }

  // ---- The start --------------------------------------------------------------------------

  /** The stacks, pushed in descending order so that low indexes end on top. fountain.ts:108. */
  function Stacks(scaled: seq<real>, k: nat): (r: (seq<nat>, seq<nat>))
    requires k <= |scaled|
    ensures Distinct(r.0) && Distinct(r.1)
    ensures forall i :: i in r.0 <==> k <= i < |scaled| && scaled[i] < 1.0
    ensures forall i :: i in r.1 <==> k <= i < |scaled| && scaled[i] >= 1.0
    decreases |scaled| - k
  {
    if k == |scaled| then ([], [])
    else
      var rest := Stacks(scaled, k + 1);
      if scaled[k] < 1.0 then (rest.0 + [k], rest.1) else (rest.0, rest.1 + [k])
  }

  function Scaled(weights: seq<real>): (scaled: seq<real>)
    requires RealSum(weights) != 0.0
    ensures |scaled| == |weights|
  {
    seq(|weights|, i requires 0 <= i < |weights| => weights[i] * (|weights| as real) / RealSum(weights))
  }

  function Start(scaled: seq<real>): (t: Tables) {
    var stacks := Stacks(scaled, 0);
    Tables(stacks.0, stacks.1, scaled, seq(|scaled|, i => 0.0), seq(|scaled|, i => 0))
  }

  ghost predicate Positive(s: seq<real>) {
    forall i :: 0 <= i < |s| ==> s[i] > 0.0
  }

  lemma {:induction false} PositiveSum(s: seq<real>)
    requires Positive(s) && s != []
    ensures RealSum(s) > 0.0
  {
    if |s| > 1 {
      PositiveSum(s[..|s| - 1]);
    } else {
      assert s[..0] == [];
    }
  }

  lemma {:induction false} SumScaled(s: seq<real>, r: seq<real>, c: real)
    requires |s| == |r| && forall i :: 0 <= i < |s| ==> r[i] == s[i] * c
    ensures RealSum(r) == RealSum(s) * c
  {
    if s != [] {
      SumScaled(s[..|s| - 1], r[..|r| - 1], c);
    }
  }

  lemma ScaledFacts(weights: seq<real>)
    requires Positive(weights) && weights != []
    ensures RealSum(weights) > 0.0
    ensures Positive(Scaled(weights)) && RealSum(Scaled(weights)) == |weights| as real
  {
    hide *;
    PositiveSum(weights);
    var c := ScaledByQuotient(weights);
    SumScaled(weights, Scaled(weights), c);
  }

  lemma ScaledByQuotient(weights: seq<real>) returns (c: real)
    requires Positive(weights) && weights != [] && RealSum(weights) > 0.0
    ensures Positive(Scaled(weights)) && RealSum(weights) * c == |weights| as real
    ensures forall i :: 0 <= i < |weights| ==> Scaled(weights)[i] == weights[i] * c
  {
    hide RealSum;
    c := |weights| as real / RealSum(weights);
    Quotient(RealSum(weights), |weights| as real, RealSum(weights));
    forall i | 0 <= i < |weights| ensures Scaled(weights)[i] == weights[i] * c && Scaled(weights)[i] > 0.0 {
      Quotient(weights[i], |weights| as real, RealSum(weights));
    }
  }

  lemma Quotient(p: real, n: real, sum: real)
    requires sum > 0.0 && n > 0.0 && p > 0.0
    ensures p * n / sum == p * (n / sum) > 0.0
    ensures sum * (n / sum) == n
  {
  }

  lemma {:induction false} StartGiven(scaled: seq<real>, i: nat, k: nat)
    requires k <= |scaled|
    ensures Given(Start(scaled), i, k) == 0.0
  {
    if k > 0 {
      StartGiven(scaled, i, k - 1);
    }
  }

  lemma {:induction false} StartSurplus(scaled: seq<real>, k: nat)
    requires k <= |scaled|
    ensures Surplus(Start(scaled), k) == RealSum(scaled[..k]) - k as real
  {
    if k > 0 {
      StartSurplus(scaled, k - 1);
      assert scaled[..k][..k - 1] == scaled[..k - 1];
    }
  }

  lemma StartSound(scaled: seq<real>)
    requires Positive(scaled) && RealSum(scaled) == |scaled| as real
    ensures Sound(Start(scaled), scaled, |scaled|) && FilledBelowOne(Start(scaled))
  {
    StartSurplus(scaled, |scaled|);
    assert scaled[..|scaled|] == scaled;
    forall i | 0 <= i < |scaled| ensures Given(Start(scaled), i, |scaled|) == 0.0 {
      StartGiven(scaled, i, |scaled|);
    }
  }

  // ---- The law -----------------------------------------------------------------------------

  /** `buildAlias` as a function of its weights. */
  function Built(weights: seq<real>): (t: Tables)
    requires Positive(weights) && weights != []
    ensures Shaped(t, |weights|)
  {
    ScaledFacts(weights);
    StartSound(Scaled(weights));
    Drain(Start(Scaled(weights)), |weights|)
  }

  /**
   * Vose's law. For every bucket, its own probability and what the others hand it add up to its share
   * of the weights; every probability is in (0, 1], and whenever a draw can fail there is somewhere to go.
   */
  lemma AliasConserves(weights: seq<real>)
    requires Positive(weights) && weights != []
    ensures RealSum(weights) > 0.0
    ensures var t := Built(weights);
      var prob := Finish(t);
      && t.small == [] && |prob| == |t.alias| == |weights|
      && (forall i :: 0 <= i < |weights| ==> 0.0 < prob[i] <= 1.0 && (prob[i] < 1.0 ==> t.alias[i] < |weights|))
      && (forall i :: 0 <= i < |weights| ==>
            prob[i] + Handed(prob, t.alias, i, |weights|) == weights[i] * (|weights| as real) / RealSum(weights))
  {
    hide Drain, Shaped, RealSum, Conserves, Surplus, Built, Start, Sound, FilledBelowOne, Finish, Handed, Positive;
    ScaledFacts(weights);
    BuiltSound(weights);
    var t, scaled, n := Built(weights), Scaled(weights), |weights|;
    NoneLeftOver(t, scaled, n);
    FinishConserves(t, scaled, n);
  }

  lemma BuiltSound(weights: seq<real>)
    requires Positive(weights) && weights != []
    ensures RealSum(weights) > 0.0
    ensures var t := Built(weights);
      Sound(t, Scaled(weights), |weights|) && FilledBelowOne(t) && (t.small == [] || t.large == [])
  {
    hide Drain, Shaped, RealSum, Sound, FilledBelowOne, Positive, Start;
    ScaledFacts(weights);
    var scaled, n := Scaled(weights), |weights|;
    StartSound(scaled);
    SoundShape(Start(scaled), scaled, n);
    DrainSound(Start(scaled), scaled, n);
    DrainFills(Start(scaled), n);
  }

  lemma SoundShape(t: Tables, weights: seq<real>, n: nat)
    requires Sound(t, weights, n)
    ensures Shaped(t, n)
  {
  }

  lemma FinishConserves(t: Tables, scaled: seq<real>, n: nat)
    requires Sound(t, scaled, n) && FilledBelowOne(t)
    requires t.small == [] && forall i :: i in t.large ==> t.scaled[i] == 1.0
    ensures |Finish(t)| == |t.alias| == n
    ensures forall i :: 0 <= i < n ==> 0.0 < Finish(t)[i] <= 1.0 && (Finish(t)[i] < 1.0 ==> t.alias[i] < n)
    ensures forall i :: 0 <= i < n ==> Finish(t)[i] + Handed(Finish(t), t.alias, i, n) == scaled[i]
  {
    forall i | 0 <= i < n ensures Handed(Finish(t), t.alias, i, n) == Given(t, i, n) {
      HandedIsGiven(t, i, n);
    }
  }
}
