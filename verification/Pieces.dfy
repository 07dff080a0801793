/** The pieces a collector juggles: index sets with the exclusive-or of the fragments they name, and subtraction. */
module Pieces {
  import opened Bytes
  import opened Fountain

  datatype Piece = Piece(indexes: seq<nat>, fragment: seq<Byte>)

  function SetOf(indexes: seq<nat>): set<nat> {
    set i | i in indexes
  }

  // ---- Mixtures of a message's fragments ----------------------------------------------

  ghost predicate Uniform(F: seq<seq<Byte>>, fl: nat) {
    forall i :: 0 <= i < |F| ==> |F[i]| == fl
  }

  /** Byte k of the exclusive-or of those of the first n fragments that S names. */
  ghost function MixByte(F: seq<seq<Byte>>, fl: nat, S: set<nat>, n: nat, k: nat): Byte
    requires Uniform(F, fl) && n <= |F| && k < fl
  {
    if n == 0 then 0
    else if n - 1 in S then Xor(MixByte(F, fl, S, n - 1, k), F[n - 1][k])
    else MixByte(F, fl, S, n - 1, k)
  }

  ghost function Mix(F: seq<seq<Byte>>, fl: nat, S: set<nat>): (m: seq<Byte>)
    requires Uniform(F, fl)
    ensures |m| == fl
  {
    seq<Byte>(fl, k requires 0 <= k < fl => MixByte(F, fl, S, |F|, k))
  }

  /** Two mixtures, one of whose sets contains the other: their exclusive-or is the mixture of the difference. */
  lemma {:induction false} MixByteMinus(F: seq<seq<Byte>>, fl: nat, S: set<nat>, T: set<nat>, n: nat, k: nat)
    requires Uniform(F, fl) && n <= |F| && k < fl && T <= S
    ensures MixByte(F, fl, S - T, n, k) == Xor(MixByte(F, fl, S, n, k), MixByte(F, fl, T, n, k))
  {
    hide Xor;
    if n == 0 {
      XorZero(0);
    } else {
      MixByteMinus(F, fl, S, T, n - 1, k);
      var s, t, f := MixByte(F, fl, S, n - 1, k), MixByte(F, fl, T, n - 1, k), F[n - 1][k];
      XorBoth(s, t, f);
      XorOne(s, t, f);
    }
  }

  lemma XorBoth(s: Byte, t: Byte, f: Byte)
    ensures Xor(Xor(s, f), Xor(t, f)) == Xor(s, t)
  {
    hide Xor;
    XorAssociative(s, f, Xor(t, f));
    XorCommutes(t, f);
    XorAssociative(f, f, t);
    XorZero(f);
    XorZero(t);
    XorCommutes(0, t);
  }

  lemma XorOne(s: Byte, t: Byte, f: Byte)
    ensures Xor(Xor(s, f), t) == Xor(Xor(s, t), f)
  {
    hide Xor;
    XorAssociative(s, f, t);
    XorAssociative(s, t, f);
    XorCommutes(f, t);
  }

  lemma {:induction false} MixByteNone(F: seq<seq<Byte>>, fl: nat, S: set<nat>, n: nat, k: nat)
    requires Uniform(F, fl) && n <= |F| && k < fl && forall i :: i in S ==> i >= n
    ensures MixByte(F, fl, S, n, k) == 0
  {
    if n > 0 {
      MixByteNone(F, fl, S, n - 1, k);
    }
  }

  lemma {:induction false} MixByteSingle(F: seq<seq<Byte>>, fl: nat, i: nat, n: nat, k: nat)
    requires Uniform(F, fl) && i < n <= |F| && k < fl
    ensures MixByte(F, fl, {i}, n, k) == F[i][k]
  {
    hide Xor;
    if i == n - 1 {
      MixByteNone(F, fl, {i}, n - 1, k);
      XorZero(F[i][k]);
      XorCommutes(0, F[i][k]);
    } else {
      MixByteSingle(F, fl, i, n - 1, k);
    }
  }

  lemma MixSingle(F: seq<seq<Byte>>, fl: nat, i: nat)
    requires Uniform(F, fl) && i < |F|
    ensures Mix(F, fl, {i}) == F[i]
  {
    hide MixByte;
    forall k | 0 <= k < fl ensures MixByte(F, fl, {i}, |F|, k) == F[i][k] {
      MixByteSingle(F, fl, i, |F|, k);
    }
  }

  /** Missing bytes count as zero. fountain.ts:180-184. */
  function XorInto(target: seq<Byte>, other: seq<Byte>): (out: seq<Byte>)
    ensures |out| == if |target| >= |other| then |target| else |other|
  {
    var n := if |target| >= |other| then |target| else |other|;
    seq<Byte>(n, i requires 0 <= i < n => Xor(if i < |target| then target[i] else 0, if i < |other| then other[i] else 0))
  }

  lemma MixMinus(F: seq<seq<Byte>>, fl: nat, S: set<nat>, T: set<nat>)
    requires Uniform(F, fl) && T <= S
    ensures XorInto(Mix(F, fl, S), Mix(F, fl, T)) == Mix(F, fl, S - T)
  {
    hide MixByte, Xor;
    forall k | 0 <= k < fl
      ensures MixByte(F, fl, S - T, |F|, k) == Xor(MixByte(F, fl, S, |F|, k), MixByte(F, fl, T, |F|, k))
    {
      MixByteMinus(F, fl, S, T, |F|, k);
    }
  }

  /** Mixing one more fragment in. */
  lemma MixPlus(F: seq<seq<Byte>>, fl: nat, S: set<nat>, i: nat)
    requires Uniform(F, fl) && i < |F| && i !in S
    ensures XorInto(Mix(F, fl, S), F[i]) == Mix(F, fl, S + {i})
  {
    hide MixByte, Xor;
    forall k | 0 <= k < fl
      ensures MixByte(F, fl, S + {i}, |F|, k) == Xor(MixByte(F, fl, S, |F|, k), F[i][k])
    {
      MixByteMinus(F, fl, S + {i}, {i}, |F|, k);
      assert (S + {i}) - {i} == S;
      MixByteSingle(F, fl, i, |F|, k);
      XorUndone(MixByte(F, fl, S + {i}, |F|, k), F[i][k]);
    }
  }

  // ---- Pieces and their subtraction ------------------------------------------------------

  ghost predicate PieceOk(p: Piece, n: nat, fl: nat) {
    DistinctBelow(p.indexes, n) && |p.fragment| == fl
  }

  /** The piece holds exactly the exclusive-or of the fragments it names. */
  ghost predicate Carries(p: Piece, F: seq<seq<Byte>>, fl: nat) {
    Uniform(F, fl) && p.fragment == Mix(F, fl, SetOf(p.indexes))
  }

  predicate IsSubset(outer: seq<nat>, inner: seq<nat>) {
    forall i :: i in inner ==> i in outer
  }

  function Filter(a: seq<nat>, b: seq<nat>): (r: seq<nat>) {
    if a == [] then []
    else Filter(a[..|a| - 1], b) + if a[|a| - 1] in b then [] else [a[|a| - 1]]
  }

  /** Subtract b from a when everything in b is also in a. ur.ts:422-429. */
  function Reduce(a: Piece, b: Piece): (r: Piece) {
    if |b.indexes| == 0 || !IsSubset(a.indexes, b.indexes) then a
    else if |a.indexes| == |b.indexes| then Piece([], [])
    else Piece(Filter(a.indexes, b.indexes), XorInto(a.fragment, b.fragment))
  }

  lemma SubsetIs(outer: seq<nat>, inner: seq<nat>)
    ensures IsSubset(outer, inner) <==> SetOf(inner) <= SetOf(outer)
  {
    if SetOf(inner) <= SetOf(outer) {
      forall i | i in inner ensures i in outer {
        assert i in SetOf(inner);
      }
    }
  }

  lemma LastOut(a: seq<nat>, n: nat)
    requires DistinctBelow(a, n) && a != []
    ensures DistinctBelow(a[..|a| - 1], n) && a[|a| - 1] < n && a[|a| - 1] !in SetOf(a[..|a| - 1])
    ensures SetOf(a) == SetOf(a[..|a| - 1]) + {a[|a| - 1]}
    ensures forall i :: i in a <==> i in a[..|a| - 1] || i == a[|a| - 1]
  {
    assert a == a[..|a| - 1] + [a[|a| - 1]];
  }

  lemma PushDistinct(a: seq<nat>, x: nat, n: nat)
    requires DistinctBelow(a, n) && x < n && x !in SetOf(a)
    ensures DistinctBelow(a + [x], n) && SetOf(a + [x]) == SetOf(a) + {x}
  {
    forall i | 0 <= i < |a| ensures a[i] != x {
      assert a[i] in SetOf(a);
    }
  }

  lemma {:induction false} FilterFacts(a: seq<nat>, b: seq<nat>, n: nat)
    requires DistinctBelow(a, n)
    ensures DistinctBelow(Filter(a, b), n) && SetOf(Filter(a, b)) == SetOf(a) - SetOf(b) && |Filter(a, b)| <= |a|
    ensures (exists i :: i in a && i in b) ==> |Filter(a, b)| < |a|
  {
    hide DistinctBelow;
    if a == [] {
      EmptyDistinct(n);
    } else {
      var init, last := a[..|a| - 1], a[|a| - 1];
      LastOut(a, n);
      FilterFacts(init, b, n);
      assert last in SetOf(b) <==> last in b;
      if last in b {
        assert Filter(a, b) == Filter(init, b);
      } else {
        assert Filter(a, b) == Filter(init, b) + [last];
        PushDistinct(Filter(init, b), last, n);
        if i :| i in a && i in b {
          assert i in init;
        }
      }
    }
  }

  lemma EmptyDistinct(n: nat)
    ensures DistinctBelow([], n)
  {
  }

  lemma {:induction false} SizeOfSet(s: seq<nat>, n: nat)
    requires DistinctBelow(s, n)
    ensures |SetOf(s)| == |s|
  {
    hide DistinctBelow;
    if s != [] {
      LastOut(s, n);
      SizeOfSet(s[..|s| - 1], n);
    }
  }

  /** As many distinct indexes, and all of them among the others: the same set. */
  lemma SameSize(a: seq<nat>, b: seq<nat>, n: nat)
    requires DistinctBelow(a, n) && DistinctBelow(b, n) && IsSubset(a, b) && |a| == |b|
    ensures SetOf(a) == SetOf(b)
  {
    SizeOfSet(a, n);
    SizeOfSet(b, n);
    SubsetIs(a, b);
    SubsetOfSameSize(SetOf(b), SetOf(a));
  }

  lemma SubsetOfSameSize(x: set<nat>, y: set<nat>)
    requires x <= y && |x| == |y|
    ensures x == y
  {
    assert |y - x| == |y| - |x|;
  }

  /** Everything about one subtraction. */
  lemma ReduceFacts(a: Piece, b: Piece, n: nat, fl: nat)
    requires PieceOk(a, n, fl) && PieceOk(b, n, fl) && |b.indexes| > 0
    ensures var r := Reduce(a, b);
      && (r.indexes != [] ==> PieceOk(r, n, fl))
      && |r.indexes| <= |a.indexes|
      && (if SetOf(b.indexes) <= SetOf(a.indexes) then SetOf(r.indexes) == SetOf(a.indexes) - SetOf(b.indexes) && |r.indexes| < |a.indexes|
          else r == a)
  {
    SubsetIs(a.indexes, b.indexes);
    if IsSubset(a.indexes, b.indexes) {
      assert b.indexes[0] in b.indexes;
      if |a.indexes| == |b.indexes| {
        SameSize(a.indexes, b.indexes, n);
      } else {
        FilterFacts(a.indexes, b.indexes, n);
      }
    }
  }

  /** Subtraction is sound: what is left still carries exactly what it names. */
  lemma ReduceCarries(a: Piece, b: Piece, n: nat, fl: nat, F: seq<seq<Byte>>)
    requires PieceOk(a, n, fl) && PieceOk(b, n, fl) && |b.indexes| > 0
    requires Carries(a, F, fl) && Carries(b, F, fl)
    ensures Reduce(a, b).indexes != [] ==> Carries(Reduce(a, b), F, fl)
  {
    ReduceFacts(a, b, n, fl);
    if SetOf(b.indexes) <= SetOf(a.indexes) {
      MixMinus(F, fl, SetOf(a.indexes), SetOf(b.indexes));
    }
    hide Mix, MixByte, XorInto, Filter, Uniform;
    SubsetIs(a.indexes, b.indexes);
  }
}
