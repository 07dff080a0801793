/** The money equation: pseudo-output masks that close, on the curve, what closes in integers. */
module MoneroBalance {
  import opened Sums
  import opened Scalars
  import opened Orders
  import opened Curve

  /** Points added on, one after another. */
  function SumFrom(E: Group, start: Point, points: seq<Point>): Point {
    if points == [] then start else E.Plus(SumFrom(E, start, points[..|points| - 1]), points[|points| - 1])
  }

  method AddPoints(E: Group, start: Point, points: seq<Point>) returns (sum: Point)
    ensures sum == SumFrom(E, start, points)
  {
    hide Group.Plus;
    sum := start;
    for i := 0 to |points|
      invariant sum == SumFrom(E, start, points[..i])
    {
      assert points[..i + 1][..i] == points[..i];
      sum := E.Plus(sum, points[i]);
    }
    assert points[..|points|] == points;
  }

  /** Commitments add by adding amounts and masks. */
  lemma CommitPlus(E: Group, a: int, m: int, a': int, m': int)
    requires E.TorsionFree(E.H)
    ensures E.Plus(CommitTo(E, a, m), CommitTo(E, a', m')) == CommitTo(E, a + a', m + m')
  {
    CommitFacts(E, a, m);
    CommitFacts(E, a', m');
    CommitFacts(E, a + a', m + m');
    var P, Q := CommitTo(E, a, m), CommitTo(E, a', m');
    E.PlusOnCurve(P, Q);
    E.F.Idem(P.log + Q.log);
    hide Field.R, CommitTo;
    var h := E.H.log;
    E.F.AddC(P.log, m + a * h, Q.log, m' + a' * h);
    Distribute(h, a, a');
    assert (m + a * h) + (m' + a' * h) == (m + m') + (a + a') * h;
    SameLog(E, E.Plus(P, Q), CommitTo(E, a + a', m + m'));
  }

  /** Congruent masks make the same commitment. */
  lemma CommitC(E: Group, a: int, m: int, m': int)
    requires E.F.R(m) == E.F.R(m')
    ensures CommitTo(E, a, m) == CommitTo(E, a, m')
  {
    assert m * 1 == m && m' * 1 == m';
  }

  ghost predicate Commits(E: Group, points: seq<Point>, amounts: seq<int>, masks: seq<int>) {
    |points| == |amounts| == |masks| && forall i :: 0 <= i < |points| ==> points[i] == CommitTo(E, amounts[i], masks[i])
  }

  lemma {:induction false} CommitSum(E: Group, a: int, m: int, points: seq<Point>, amounts: seq<int>, masks: seq<int>)
    requires E.TorsionFree(E.H) && Commits(E, points, amounts, masks)
    ensures SumFrom(E, CommitTo(E, a, m), points) == CommitTo(E, a + SumOf(amounts), m + SumOf(masks))
  {
    hide CommitTo, Group.Plus;
    if points != [] {
      var n := |points| - 1;
      CommitSum(E, a, m, points[..n], amounts[..n], masks[..n]);
      CommitPlus(E, a + SumOf(amounts[..n]), m + SumOf(masks[..n]), amounts[n], masks[n]);
    }
  }

  /** Nothing committed to nothing, and the fee with no mask. */
  lemma CommitStart(E: Group, fee: int)
    requires E.Valid()
    ensures CommitTo(E, 0, 0) == ZERO
    ensures CommitTo(E, fee, 0) == E.Times(fee, E.H)
  {
    E.F.Range(0);
    E.F.Idem(fee * E.H.log);
    assert 0 * E.H.log == 0 && 0 * E.H.tor == 0 && fee * E.H.tor == 0;
  }

  /** The masks the draws lead to. */
  ghost function MasksFrom(F: Field, outputMasks: seq<int>, draws: seq<nat>): (masks: seq<nat>)
    ensures |masks| == |draws| + 1
  {
    var first := seq<nat>(|draws|, i requires 0 <= i < |draws| => F.R(draws[i]));
    first + [F.R(SumOf(outputMasks) - SumOf(first))]
  }

  /** Every pseudo-output mask random but the last, which takes up the difference. monerobuild.ts:500-508. */
  method PseudoMasks(E: Group, outputMasks: seq<int>, n: nat, draws: seq<nat>) returns (masks: seq<nat>)
    requires n >= 1 && |draws| == n - 1
    ensures |masks| == n && (forall i :: 0 <= i < n - 1 ==> masks[i] == E.F.R(draws[i]))
    ensures E.F.R(SumOf(masks)) == E.F.R(SumOf(outputMasks))
    ensures forall i :: 0 <= i < n ==> E.F.R(masks[i]) == masks[i]
    ensures masks == MasksFrom(E.F, outputMasks, draws)
  {
    hide Field.R;
    var F := E.F;
    var outputMaskSum := SumMasks(F, outputMasks);
    masks := [];
    var partialSum := 0;
    for i := 0 to n - 1
      invariant |masks| == i && (forall k :: 0 <= k < i ==> masks[k] == F.R(draws[k]))
      invariant F.R(partialSum) == F.R(SumOf(masks))
      invariant forall k :: 0 <= k < i ==> F.R(masks[k]) == masks[k]
    {
      var mask := F.R(draws[i]);
      F.Idem(draws[i]);
      SumOfNext(masks, mask);
      F.AddV(partialSum, SumOf(masks), mask, mask);
      masks := masks + [mask];
      partialSum := F.Add(partialSum, mask);
    }
    var last := F.R(outputMaskSum - partialSum);
    F.Idem(outputMaskSum - partialSum);
    SumOfNext(masks, last);
    F.SubC(outputMaskSum, SumOf(outputMasks), partialSum, SumOf(masks));
    assert masks == seq<nat>(|draws|, i requires 0 <= i < |draws| => F.R(draws[i]));
    LastCloses(F, SumOf(masks), partialSum, outputMaskSum, SumOf(outputMasks));
    masks := masks + [last];
  }

  lemma SumOfNext(masks: seq<int>, mask: int)
    ensures SumOf(masks + [mask]) == SumOf(masks) + mask
  {
    assert (masks + [mask])[..|masks|] == masks;
  }

  lemma LastCloses(F: Field, sum: int, partialSum: int, total: int, outputs: int)
    requires F.R(partialSum) == F.R(sum) && F.R(total) == F.R(outputs)
    ensures F.R(sum + F.R(total - partialSum)) == F.R(outputs)
  {
    hide Field.R;
    F.SubC(total, outputs, partialSum, sum);
    F.AddR(sum, total - partialSum);
    F.AddC(sum, sum, total - partialSum, outputs - sum);
  }

  method SumMasks(F: Field, masks: seq<int>) returns (sum: int)
    ensures F.R(sum) == F.R(SumOf(masks))
  {
    hide Field.R;
    sum := 0;
    for i := 0 to |masks|
      invariant F.R(sum) == F.R(SumOf(masks[..i]))
    {
      assert masks[..i + 1] == masks[..i] + [masks[i]];
      SumOfNext(masks[..i], masks[i]);
      F.AddV(sum, SumOf(masks[..i]), masks[i], masks[i]);
      sum := F.Add(sum, masks[i]);
    }
    assert masks[..|masks|] == masks;
  }

  lemma HFree(E: Group)
    requires E.Valid()
    ensures E.TorsionFree(E.H)
  {
  }

  /** Both sides of the money equation, as one commitment each. */
  lemma BothSides(E: Group, pseudoOuts: seq<Point>, inAmounts: seq<int>, pseudoMasks: seq<int>,
                  commitments: seq<Point>, outAmounts: seq<int>, outMasks: seq<int>, fee: int)
    requires E.Valid() && Commits(E, pseudoOuts, inAmounts, pseudoMasks) && Commits(E, commitments, outAmounts, outMasks)
    ensures SumFrom(E, ZERO, pseudoOuts) == CommitTo(E, SumOf(inAmounts), SumOf(pseudoMasks))
    ensures SumFrom(E, E.Times(fee, E.H), commitments) == CommitTo(E, fee + SumOf(outAmounts), SumOf(outMasks))
  {
    hide *;
    CommitStart(E, fee);
    HFree(E);
    CommitSum(E, 0, 0, pseudoOuts, inAmounts, pseudoMasks);
    CommitSum(E, fee, 0, commitments, outAmounts, outMasks);
  }

  /** When the integers balance and the masks do, the commitments do. */
  lemma BalanceOnCurve(E: Group, pseudoOuts: seq<Point>, inAmounts: seq<int>, pseudoMasks: seq<int>,
                       commitments: seq<Point>, outAmounts: seq<int>, outMasks: seq<int>, fee: int)
    requires E.Valid() && Commits(E, pseudoOuts, inAmounts, pseudoMasks) && Commits(E, commitments, outAmounts, outMasks)
    requires SumOf(inAmounts) == SumOf(outAmounts) + fee && E.F.R(SumOf(pseudoMasks)) == E.F.R(SumOf(outMasks))
    ensures SumFrom(E, ZERO, pseudoOuts) == SumFrom(E, E.Times(fee, E.H), commitments)
  {
    hide Field.R, Commits, CommitTo, Group.Times, SumFrom, SumOf, Group.Valid;
    BothSides(E, pseudoOuts, inAmounts, pseudoMasks, commitments, outAmounts, outMasks, fee);
    CommitC(E, SumOf(inAmounts), SumOf(pseudoMasks), SumOf(outMasks));
  }

  /**
   * What the check on the curve can see: with the masks closed, it passes exactly when the integers
   * balance modulo L. H need only not be the identity.
   */
  lemma CurveSeesTheIntegers(E: Group, pseudoOuts: seq<Point>, inAmounts: seq<int>, pseudoMasks: seq<int>,
                             commitments: seq<Point>, outAmounts: seq<int>, outMasks: seq<int>, fee: int)
    requires E.Valid() && Commits(E, pseudoOuts, inAmounts, pseudoMasks) && Commits(E, commitments, outAmounts, outMasks)
    requires E.F.R(SumOf(pseudoMasks)) == E.F.R(SumOf(outMasks)) && E.F.R(E.H.log) != 0
    ensures SumFrom(E, ZERO, pseudoOuts) == SumFrom(E, E.Times(fee, E.H), commitments)
       <==> E.F.R(SumOf(inAmounts)) == E.F.R(fee + SumOf(outAmounts))
  {
    hide *;
    HFree(E);
    BothSides(E, pseudoOuts, inAmounts, pseudoMasks, commitments, outAmounts, outMasks, fee);
    CommitC(E, SumOf(inAmounts), SumOf(pseudoMasks), SumOf(outMasks));
    SameCommitment(E, SumOf(inAmounts), fee + SumOf(outAmounts), SumOf(outMasks));
  }

  /** Commitments under one mask are equal exactly when their amounts are congruent. */
  lemma SameCommitment(E: Group, a: int, b: int, m: int)
    requires E.Valid() && E.F.R(E.H.log) != 0
    ensures CommitTo(E, a, m) == CommitTo(E, b, m) <==> E.F.R(a) == E.F.R(b)
  {
    var F, h := E.F, E.H.log;
    F.Range(0);
    CommitFacts(E, a, m);
    CommitFacts(E, b, m);
    assert F.Valid();
    hide Field.R, CommitTo, Group.Valid;
    if F.R(a) == F.R(b) {
      F.MulC(a, b, h, h);
      F.AddC(m, m, a * h, b * h);
      SameLog(E, CommitTo(E, a, m), CommitTo(E, b, m));
    }
    if CommitTo(E, a, m) == CommitTo(E, b, m) {
      F.SubC(m + a * h, m + b * h, m + b * h, m + b * h);
      Distribute(h, a, -b);
      assert (a - b) * h == (m + a * h) - (m + b * h);
      if F.R(a - b) != 0 {
        F.NonzeroProduct(a - b, h);
      }
      F.AddC(a - b, 0, b, b);
    }
  }
}
