/**
 * What one round of peeling does to the pieces a collector holds: it keeps them well-formed and
 * genuine, shrinks them, and forgets nothing that a later fragment could unlock.
 */
module Peeling {
  import opened Bytes
  import opened Fountain
  import opened Pieces

  /** Everything a collector holds of one message. */
  datatype Held = Held(simple: map<nat, seq<Byte>>, mixed: seq<Piece>, queue: seq<Piece>) {
    function Pieces(): seq<Piece> { mixed + queue }
  }

  ghost predicate AllOk(ps: seq<Piece>, least: nat, n: nat, fl: nat) {
    forall p :: p in ps ==> PieceOk(p, n, fl) && |p.indexes| >= least
  }

  ghost predicate SimpleOk(simple: map<nat, seq<Byte>>, n: nat, fl: nat) {
    forall i :: i in simple ==> i < n && |simple[i]| == fl
  }

  /** Distinct indexes in range, whole fragments, nothing trivial among the mixtures. */
  ghost predicate Fits(h: Held, n: nat, fl: nat) {
    SimpleOk(h.simple, n, fl) && AllOk(h.mixed, 2, n, fl) && AllOk(h.queue, 1, n, fl)
  }

  ghost predicate AllCarry(ps: seq<Piece>, F: seq<seq<Byte>>, fl: nat) {
    forall p :: p in ps ==> Carries(p, F, fl)
  }

  ghost predicate SimpleGenuine(simple: map<nat, seq<Byte>>, F: seq<seq<Byte>>) {
    forall i :: i in simple ==> i < |F| && simple[i] == F[i]
  }

  /** Every fragment held is the message's, and every mixture the exclusive-or of those it names. */
  ghost predicate Genuine(h: Held, F: seq<seq<Byte>>, fl: nat) {
    Uniform(F, fl) && SimpleGenuine(h.simple, F) && AllCarry(h.mixed, F, fl) && AllCarry(h.queue, F, fl)
  }

  /** No mixture still contains a fragment that is already known. */
  ghost predicate Clear(mixed: seq<Piece>, keys: set<nat>) {
    forall p, i :: p in mixed && i in keys ==> i !in p.indexes
  }

  // ---- Nothing forgotten ------------------------------------------------------------------

  ghost predicate Inside(p: Piece, x: nat, S: set<nat>) {
    x in p.indexes && SetOf(p.indexes) <= S
  }

  /** Every index of S is known or sits in a piece made only of indexes of S. */
  ghost predicate Covers(S: set<nat>, keys: set<nat>, ps: seq<Piece>) {
    forall x :: x in S ==> x in keys || exists p :: p in ps && Inside(p, x, S)
  }

  ghost predicate AllCovered(before: seq<Piece>, keys: set<nat>, ps: seq<Piece>) {
    forall p :: p in before ==> Covers(SetOf(p.indexes), keys, ps)
  }

  lemma CoverStep(S: set<nat>, keys: set<nat>, ps: seq<Piece>, keys': set<nat>, ps': seq<Piece>)
    requires Covers(S, keys, ps) && keys <= keys' && AllCovered(ps, keys', ps')
    ensures Covers(S, keys', ps')
  {
    hide SetOf;
    forall x | x in S ensures x in keys' || exists p :: p in ps' && Inside(p, x, S) {
      if x !in keys {
        var p :| p in ps && Inside(p, x, S);
        assert Covers(SetOf(p.indexes), keys', ps');
        InSet(p.indexes, x);
        if x !in keys' {
          var q :| q in ps' && Inside(q, x, SetOf(p.indexes));
          assert Inside(q, x, S);
        }
      }
    }
  }

  lemma InSet(s: seq<nat>, x: nat)
    ensures x in SetOf(s) <==> x in s
  {
  }

  /** A piece covers itself. */
  lemma SelfCovers(p: Piece, keys: set<nat>, ps: seq<Piece>)
    requires p in ps
    ensures Covers(SetOf(p.indexes), keys, ps)
  {
    forall x | x in SetOf(p.indexes) ensures Inside(p, x, SetOf(p.indexes)) {
    }
  }

  // ---- Feeding one piece back through the mixtures --------------------------------------------

  /** What stays mixed. ur.ts:410-418. */
  function Remaining(mixed: seq<Piece>, piece: Piece): (r: seq<Piece>) {
    if mixed == [] then []
    else
      var reduced := Reduce(mixed[|mixed| - 1], piece);
      Remaining(mixed[..|mixed| - 1], piece) + if |reduced.indexes| > 1 then [reduced] else []
  }

  /** What came down to a single fragment. */
  function Singles(mixed: seq<Piece>, piece: Piece): (r: seq<Piece>) {
    if mixed == [] then []
    else
      var reduced := Reduce(mixed[|mixed| - 1], piece);
      Singles(mixed[..|mixed| - 1], piece) + if |reduced.indexes| == 1 then [reduced] else []
  }

  function IndexTotal(ps: seq<Piece>): nat {
    if ps == [] then 0 else IndexTotal(ps[..|ps| - 1]) + |ps[|ps| - 1].indexes|
  }

  lemma {:induction false} IndexTotalConcat(a: seq<Piece>, b: seq<Piece>)
    ensures IndexTotal(a + b) == IndexTotal(a) + IndexTotal(b)
  {
    if b == [] {
      assert a + b == a;
    } else {
      assert (a + b)[..|a + b| - 1] == a + b[..|b| - 1];
      IndexTotalConcat(a, b[..|b| - 1]);
    }
  }

  lemma IndexTotalOne(p: Piece)
    ensures IndexTotal([p]) == |p.indexes|
  {
    assert [p][..0] == [];
  }

  lemma LastPiece(ps: seq<Piece>)
    requires ps != []
    ensures forall p :: p in ps <==> p in ps[..|ps| - 1] || p == ps[|ps| - 1]
  {
    assert ps == ps[..|ps| - 1] + [ps[|ps| - 1]];
  }

  /** What is left is well-formed. */
  lemma {:induction false} ReducedFits(mixed: seq<Piece>, piece: Piece, n: nat, fl: nat)
    requires AllOk(mixed, 2, n, fl) && PieceOk(piece, n, fl) && |piece.indexes| >= 1
    ensures AllOk(Remaining(mixed, piece), 2, n, fl) && AllOk(Singles(mixed, piece), 1, n, fl)
  {
    hide PieceOk, Reduce;
    if mixed != [] {
      LastPiece(mixed);
      ReducedFits(mixed[..|mixed| - 1], piece, n, fl);
      ReduceFacts(mixed[|mixed| - 1], piece, n, fl);
    }
  }

  /** And no larger than what there was; every single that came out took an index off the total. */
  lemma {:induction false} ReducedCounts(mixed: seq<Piece>, piece: Piece, n: nat, fl: nat)
    requires AllOk(mixed, 2, n, fl) && PieceOk(piece, n, fl) && |piece.indexes| >= 1
    ensures |Remaining(mixed, piece)| + |Singles(mixed, piece)| <= |mixed|
    ensures IndexTotal(Remaining(mixed, piece)) + IndexTotal(Singles(mixed, piece)) + |Singles(mixed, piece)| <= IndexTotal(mixed)
  {
    hide PieceOk, Reduce;
    if mixed != [] {
      var init, last := mixed[..|mixed| - 1], mixed[|mixed| - 1];
      LastPiece(mixed);
      ReducedCounts(init, piece, n, fl);
      ReduceFacts(last, piece, n, fl);
      var reduced := Reduce(last, piece);
      IndexTotalConcat(Remaining(init, piece), [reduced]);
      IndexTotalConcat(Singles(init, piece), [reduced]);
      IndexTotalOne(reduced);
      assert last in mixed && |last.indexes| >= 2;
      assert IndexTotal(mixed) == IndexTotal(init) + |last.indexes|;
      assert Remaining(mixed, piece) == Remaining(init, piece) + if |reduced.indexes| > 1 then [reduced] else [];
      assert Singles(mixed, piece) == Singles(init, piece) + if |reduced.indexes| == 1 then [reduced] else [];
      assert Remaining(init, piece) + [] == Remaining(init, piece) && Singles(init, piece) + [] == Singles(init, piece);
      hide IndexTotal, Remaining, Singles;
    }
  }

  lemma {:induction false} ReducedCarry(mixed: seq<Piece>, piece: Piece, n: nat, fl: nat, F: seq<seq<Byte>>)
    requires AllOk(mixed, 2, n, fl) && PieceOk(piece, n, fl) && |piece.indexes| >= 1
    requires AllCarry(mixed, F, fl) && Carries(piece, F, fl)
    ensures AllCarry(Remaining(mixed, piece), F, fl) && AllCarry(Singles(mixed, piece), F, fl)
  {
    hide PieceOk, Reduce, Carries;
    if mixed != [] {
      LastPiece(mixed);
      ReducedCarry(mixed[..|mixed| - 1], piece, n, fl, F);
      ReduceCarries(mixed[|mixed| - 1], piece, n, fl, F);
    }
  }

  /** Nothing new appears, and what stays mixed no longer contains the piece. */
  lemma {:induction false} ReducedShrinks(mixed: seq<Piece>, piece: Piece, n: nat, fl: nat)
    requires AllOk(mixed, 2, n, fl) && PieceOk(piece, n, fl) && |piece.indexes| >= 1
    ensures forall p :: p in Remaining(mixed, piece) ==>
      !(SetOf(piece.indexes) <= SetOf(p.indexes)) && exists q :: q in mixed && SetOf(p.indexes) <= SetOf(q.indexes)
  {
    hide PieceOk, Reduce, SetOf;
    if mixed != [] {
      var last := mixed[|mixed| - 1];
      LastPiece(mixed);
      ReducedShrinks(mixed[..|mixed| - 1], piece, n, fl);
      ReduceFacts(last, piece, n, fl);
      InSet(piece.indexes, piece.indexes[0]);
    }
  }

  /** Every index of a mixture is either in the piece, itself inside the mixture, or still in what is left of it. */
  lemma {:induction false} ReducedCovers(mixed: seq<Piece>, piece: Piece, n: nat, fl: nat, p: Piece)
    requires AllOk(mixed, 2, n, fl) && PieceOk(piece, n, fl) && |piece.indexes| >= 1 && p in mixed
    ensures Covers(SetOf(p.indexes), {}, Remaining(mixed, piece) + Singles(mixed, piece) + [piece])
  {
    hide PieceOk, Reduce, Covers;
    LastPiece(mixed);
    var init, last := mixed[..|mixed| - 1], mixed[|mixed| - 1];
    if p in init {
      ReducedCovers(init, piece, n, fl, p);
      MoreCovers(SetOf(p.indexes), Remaining(init, piece) + Singles(init, piece) + [piece],
                 Remaining(mixed, piece) + Singles(mixed, piece) + [piece]);
    } else {
      ReduceFacts(last, piece, n, fl);
      var r := Reduce(last, piece);
      assert |r.indexes| >= 1 ==> r in Remaining(mixed, piece) + Singles(mixed, piece);
      SplitCovers(last, piece, r, Remaining(mixed, piece) + Singles(mixed, piece) + [piece]);
    }
  }

  lemma MoreCovers(S: set<nat>, ps: seq<Piece>, ps': seq<Piece>)
    requires Covers(S, {}, ps) && forall p :: p in ps ==> p in ps'
    ensures Covers(S, {}, ps')
  {
    hide Inside;
  }

  lemma SplitCovers(whole: Piece, piece: Piece, rest: Piece, ps: seq<Piece>)
    requires if SetOf(piece.indexes) <= SetOf(whole.indexes) then SetOf(rest.indexes) == SetOf(whole.indexes) - SetOf(piece.indexes)
             else rest == whole
    requires piece in ps && (|rest.indexes| >= 1 ==> rest in ps)
    ensures Covers(SetOf(whole.indexes), {}, ps)
  {
    forall x | x in SetOf(whole.indexes) ensures exists p :: p in ps && Inside(p, x, SetOf(whole.indexes)) {
      InSet(rest.indexes, x);
      InSet(piece.indexes, x);
      if x in rest.indexes {
        assert Inside(rest, x, SetOf(whole.indexes));
      } else {
        assert Inside(piece, x, SetOf(whole.indexes));
      }
    }
  }

  // ---- Reducing one piece by everything known --------------------------------------------------

  /** Subtract each mixture in turn. ur.ts:398. */
  function ReducedBy(p: Piece, mixed: seq<Piece>): (r: Piece) {
    if mixed == [] then p else Reduce(ReducedBy(p, mixed[..|mixed| - 1]), mixed[|mixed| - 1])
  }

  /** The state of a piece on its way through: empty, or well-formed and inside what it started as. */
  ghost predicate Partway(r: Piece, S: set<nat>, n: nat, fl: nat) {
    r.indexes != [] ==> PieceOk(r, n, fl) && SetOf(r.indexes) <= S
  }

  lemma ReducePartway(r: Piece, b: Piece, S: set<nat>, n: nat, fl: nat)
    requires Partway(r, S, n, fl) && PieceOk(b, n, fl) && |b.indexes| > 0
    ensures Partway(Reduce(r, b), S, n, fl) && |Reduce(r, b).indexes| <= |r.indexes|
    ensures SetOf(Reduce(r, b).indexes) <= SetOf(r.indexes)
    ensures forall x :: x in SetOf(r.indexes) && x !in SetOf(Reduce(r, b).indexes) ==> Inside(b, x, SetOf(r.indexes))
  {
    hide PieceOk, SetOf;
    if r.indexes == [] {
      EmptyStays(r, b);
    } else {
      ReduceFacts(r, b, n, fl);
      forall x | x in SetOf(r.indexes) && x !in SetOf(Reduce(r, b).indexes) ensures Inside(b, x, SetOf(r.indexes)) {
        InSet(b.indexes, x);
      }
    }
  }

  lemma EmptyStays(r: Piece, b: Piece)
    requires r.indexes == [] && |b.indexes| > 0
    ensures Reduce(r, b) == r
  {
    assert b.indexes[0] in b.indexes;
  }

  lemma {:induction false} ReducedByFacts(p: Piece, mixed: seq<Piece>, S: set<nat>, n: nat, fl: nat)
    requires Partway(p, S, n, fl) && AllOk(mixed, 2, n, fl)
    ensures var r := ReducedBy(p, mixed);
      && Partway(r, S, n, fl) && |r.indexes| <= |p.indexes| && SetOf(r.indexes) <= SetOf(p.indexes)
      && (forall x :: x in SetOf(p.indexes) && x !in SetOf(r.indexes) ==> exists q :: q in mixed && Inside(q, x, SetOf(p.indexes)))
  {
    hide PieceOk, SetOf, Reduce, Partway, Inside;
    if mixed != [] {
      var init, last := mixed[..|mixed| - 1], mixed[|mixed| - 1];
      LastPiece(mixed);
      ReducedByFacts(p, init, S, n, fl);
      var r0 := ReducedBy(p, init);
      ReducePartway(r0, last, S, n, fl);
      forall x | x in SetOf(p.indexes) && x !in SetOf(Reduce(r0, last).indexes)
        ensures exists q :: q in mixed && Inside(q, x, SetOf(p.indexes))
      {
        if x in SetOf(r0.indexes) {
          InsideWider(last, x, SetOf(r0.indexes), SetOf(p.indexes));
        }
      }
    }
  }

  lemma InsideWider(p: Piece, x: nat, S: set<nat>, T: set<nat>)
    requires Inside(p, x, S) && S <= T
    ensures Inside(p, x, T)
  {
  }

  lemma {:induction false} ReducedByCarries(p: Piece, mixed: seq<Piece>, S: set<nat>, n: nat, fl: nat, F: seq<seq<Byte>>)
    requires Partway(p, S, n, fl) && AllOk(mixed, 2, n, fl) && AllCarry(mixed, F, fl)
    requires p.indexes != [] ==> Carries(p, F, fl)
    ensures ReducedBy(p, mixed).indexes != [] ==> Carries(ReducedBy(p, mixed), F, fl)
  {
    hide SetOf, Reduce, Carries, PieceOk;
    if mixed != [] {
      var init, last := mixed[..|mixed| - 1], mixed[|mixed| - 1];
      LastPiece(mixed);
      ReducedByCarries(p, init, S, n, fl, F);
      ReducedByFacts(p, init, S, n, fl);
      var r0 := ReducedBy(p, init);
      if r0.indexes == [] {
        EmptyStays(r0, last);
      } else {
        ReduceCarries(r0, last, n, fl, F);
      }
    }
  }

  // ---- One turn of the queue -------------------------------------------------------------------

  /**
   * What taking one piece off the queue achieves, whatever the piece: known fragments stay known,
   * nothing held or taken is forgotten, and pieces, then indexes, then queue go down, in that order.
   */
  ghost predicate Advances(h: Held, piece: Piece, h': Held) {
    && h.simple.Keys <= h'.simple.Keys
    && Covers(SetOf(piece.indexes), h'.simple.Keys, h'.Pieces())
    && AllCovered(h.Pieces(), h'.simple.Keys, h'.Pieces())
    && Shrinks(h, piece, h')
  }

  ghost predicate Shrinks(h: Held, piece: Piece, h': Held) {
    var before, after := |h.mixed| + |h.queue| + 1, |h'.mixed| + |h'.queue|;
    var total, total' := IndexTotal(h.mixed) + IndexTotal(h.queue) + |piece.indexes|, IndexTotal(h'.mixed) + IndexTotal(h'.queue);
    after < before || (after == before && (total' < total || (total' == total && |h'.queue| <= |h.queue|)))
  }

  lemma AllSelfCovered(ps: seq<Piece>, keys: set<nat>, ps': seq<Piece>)
    requires forall p :: p in ps ==> p in ps'
    ensures AllCovered(ps, keys, ps')
  {
    hide Covers;
    forall p | p in ps ensures Covers(SetOf(p.indexes), keys, ps') {
      SelfCovers(p, keys, ps');
    }
  }

  /** A piece that tells nothing new leaves everything as it was. */
  lemma NothingNew(h: Held, piece: Piece)
    requires Covers(SetOf(piece.indexes), h.simple.Keys, h.Pieces())
    ensures Advances(h, piece, h)
  {
    hide Covers;
    AllSelfCovered(h.Pieces(), h.simple.Keys, h.Pieces());
  }

  lemma KnownCovers(i: nat, piece: Piece, keys: set<nat>, ps: seq<Piece>)
    requires piece.indexes == [i] && i in keys
    ensures Covers(SetOf(piece.indexes), keys, ps)
  {
    hide Inside;
  }

  /** With every fragment known, everything is covered. */
  lemma FullCovers(ps: seq<Piece>, least: nat, n: nat, fl: nat, keys: set<nat>, ps': seq<Piece>)
    requires AllOk(ps, least, n, fl) && forall i :: 0 <= i < n ==> i in keys
    ensures AllCovered(ps, keys, ps')
  {
    hide Inside;
    forall p | p in ps ensures Covers(SetOf(p.indexes), keys, ps') {
      forall x | x in SetOf(p.indexes) ensures x in keys {
        assert PieceOk(p, n, fl);
      }
    }
  }

  /** n distinct keys below n are all of them. */
  lemma FullKeys(keys: set<nat>, n: nat)
    requires |keys| == n && forall i :: i in keys ==> i < n
    ensures forall i :: 0 <= i < n ==> i in keys
  {
    SubsetOfSameSize(keys, Below(n));
  }

  function Below(n: nat): (r: set<nat>)
    ensures |r| == n && forall i :: i in r <==> 0 <= i < n
  {
    if n == 0 then {} else Below(n - 1) + {n - 1}
  }

  lemma AllCoveredConcat(a: seq<Piece>, b: seq<Piece>, keys: set<nat>, ps: seq<Piece>)
    requires AllCovered(a, keys, ps) && AllCovered(b, keys, ps)
    ensures AllCovered(a + b, keys, ps)
  {
    hide Covers;
  }

  /** Feeding a piece back through the mixtures covers all of them again, if the piece itself is kept or known. */
  lemma MixturesCovered(mixed: seq<Piece>, piece: Piece, n: nat, fl: nat, keys: set<nat>, ps: seq<Piece>)
    requires AllOk(mixed, 2, n, fl) && PieceOk(piece, n, fl) && |piece.indexes| >= 1
    requires forall p :: p in Remaining(mixed, piece) + Singles(mixed, piece) ==> p in ps
    requires Covers(SetOf(piece.indexes), keys, ps)
    ensures AllCovered(mixed, keys, ps)
  {
    hide PieceOk, Covers, Remaining, Singles, SetOf;
    var rest := Remaining(mixed, piece) + Singles(mixed, piece);
    forall p | p in mixed ensures Covers(SetOf(p.indexes), keys, ps) {
      ReducedCovers(mixed, piece, n, fl, p);
      AllSelfCovered(rest, keys, ps);
      OneCovered(piece, keys, ps);
      AllCoveredConcat(rest, [piece], keys, ps);
      CoverStep(SetOf(p.indexes), {}, rest + [piece], keys, ps);
    }
  }

  lemma OneCovered(piece: Piece, keys: set<nat>, ps: seq<Piece>)
    requires Covers(SetOf(piece.indexes), keys, ps)
    ensures AllCovered([piece], keys, ps)
  {
    hide Covers;
  }

  /** A new fragment: known from now on, and fed back through the mixtures. */
  lemma NewFragment(h: Held, piece: Piece, i: nat, n: nat, fl: nat)
    requires Fits(h, n, fl) && PieceOk(piece, n, fl) && piece.indexes == [i] && i !in h.simple
    ensures var h' := Held(h.simple[i := piece.fragment], Remaining(h.mixed, piece), h.queue + Singles(h.mixed, piece));
      && Fits(h', n, fl) && Advances(h, piece, h')
      && (Clear(h.mixed, h.simple.Keys) ==> Clear(h'.mixed, h'.simple.Keys))
  {
    hide PieceOk, Covers, Remaining, Singles, IndexTotal, Clear, Inside, SetOf, AllCovered, AllOk, SimpleOk, Shrinks;
    NewFragmentFits(h, piece, i, n, fl);
    NewFragmentCovered(h, piece, i, n, fl);
    NewFragmentShrinks(h, piece, i, n, fl);
    ReducedShrinks(h.mixed, piece, n, fl);
    assert h.simple[i := piece.fragment].Keys == h.simple.Keys + {i};
    ClearAgain(h.mixed, Remaining(h.mixed, piece), h.simple.Keys, i, piece);
  }

  lemma NewFragmentFits(h: Held, piece: Piece, i: nat, n: nat, fl: nat)
    requires Fits(h, n, fl) && PieceOk(piece, n, fl) && piece.indexes == [i]
    ensures Fits(Held(h.simple[i := piece.fragment], Remaining(h.mixed, piece), h.queue + Singles(h.mixed, piece)), n, fl)
  {
    assert piece.indexes[0] == i;
    ReducedFits(h.mixed, piece, n, fl);
    hide Remaining, Singles, DistinctBelow;
  }

  lemma NewFragmentShrinks(h: Held, piece: Piece, i: nat, n: nat, fl: nat)
    requires Fits(h, n, fl) && PieceOk(piece, n, fl) && piece.indexes == [i]
    ensures Shrinks(h, piece, Held(h.simple[i := piece.fragment], Remaining(h.mixed, piece), h.queue + Singles(h.mixed, piece)))
  {
    hide Remaining, Singles, PieceOk, IndexTotal;
    ReducedCounts(h.mixed, piece, n, fl);
    IndexTotalConcat(h.queue, Singles(h.mixed, piece));
  }

  lemma NewFragmentCovered(h: Held, piece: Piece, i: nat, n: nat, fl: nat)
    requires Fits(h, n, fl) && PieceOk(piece, n, fl) && piece.indexes == [i]
    ensures var keys, ps := h.simple[i := piece.fragment].Keys, Remaining(h.mixed, piece) + (h.queue + Singles(h.mixed, piece));
      Covers(SetOf(piece.indexes), keys, ps) && AllCovered(h.Pieces(), keys, ps)
  {
    var keys, ps := h.simple[i := piece.fragment].Keys, Remaining(h.mixed, piece) + (h.queue + Singles(h.mixed, piece));
    hide PieceOk, Covers, Remaining, Singles, Inside, SetOf, AllCovered;
    KnownCovers(i, piece, keys, ps);
    MixturesCovered(h.mixed, piece, n, fl, keys, ps);
    AllSelfCovered(h.queue, keys, ps);
    AllCoveredConcat(h.mixed, h.queue, keys, ps);
  }

  lemma ClearAgain(mixed: seq<Piece>, mixed': seq<Piece>, keys: set<nat>, i: nat, piece: Piece)
    requires piece.indexes == [i]
    requires forall p :: p in mixed' ==>
      !(SetOf(piece.indexes) <= SetOf(p.indexes)) && exists q :: q in mixed && SetOf(p.indexes) <= SetOf(q.indexes)
    ensures Clear(mixed, keys) ==> Clear(mixed', keys + {i})
  {
    if Clear(mixed, keys) {
      forall p, x | p in mixed' && x in keys + {i} ensures x !in p.indexes {
        InSet(p.indexes, x);
        if x == i {
          assert SetOf(piece.indexes) == {i};
        } else {
          var q :| q in mixed && SetOf(p.indexes) <= SetOf(q.indexes);
          InSet(q.indexes, x);
        }
      }
    }
  }

  /** The last fragment: everything is known. */
  lemma LastFragment(h: Held, piece: Piece, i: nat, n: nat, fl: nat)
    requires Fits(h, n, fl) && PieceOk(piece, n, fl) && piece.indexes == [i] && i !in h.simple && |h.simple| + 1 == n
    ensures var h' := Held(h.simple[i := piece.fragment], h.mixed, h.queue);
      && |h'.simple| == n && (forall k :: 0 <= k < n ==> k in h'.simple)
      && Fits(h', n, fl) && Advances(h, piece, h')
  {
    var h' := Held(h.simple[i := piece.fragment], h.mixed, h.queue);
    assert piece.indexes[0] == i;
    assert h'.simple.Keys == h.simple.Keys + {i};
    FullKeys(h'.simple.Keys, n);
    hide PieceOk, Covers, IndexTotal;
    FullCovers(h.mixed, 2, n, fl, h'.simple.Keys, h'.Pieces());
    FullCovers(h.queue, 1, n, fl, h'.simple.Keys, h'.Pieces());
    AllCoveredConcat(h.mixed, h.queue, h'.simple.Keys, h'.Pieces());
    KnownCovers(i, piece, h'.simple.Keys, h'.Pieces());
  }

  // ---- A mixture ----------------------------------------------------------------------------------

  /** A mixture after subtraction: what it lost is known, or sits in a mixture inside it. */
  ghost predicate Peeled(piece: Piece, reduced: Piece, h: Held, n: nat, fl: nat) {
    && Partway(reduced, SetOf(piece.indexes), n, fl) && |reduced.indexes| <= |piece.indexes|
    && (forall x :: x in SetOf(piece.indexes) && x !in SetOf(reduced.indexes) ==>
          x in h.simple.Keys || exists q :: q in h.mixed && Inside(q, x, SetOf(piece.indexes)))
    && (forall i :: i in h.simple.Keys ==> i !in SetOf(reduced.indexes))
  }

  /** What a peeled mixture lost is covered, so it is covered as soon as what is left of it is. */
  lemma PeeledCovers(piece: Piece, reduced: Piece, h: Held, n: nat, fl: nat, ps: seq<Piece>)
    requires Peeled(piece, reduced, h, n, fl) && (reduced.indexes != [] ==> reduced in ps)
    requires forall q :: q in h.mixed ==> q in ps
    ensures Covers(SetOf(piece.indexes), h.simple.Keys, ps)
  {
    hide PieceOk, SetOf;
    forall x | x in SetOf(piece.indexes) ensures x in h.simple.Keys || exists p :: p in ps && Inside(p, x, SetOf(piece.indexes)) {
      InSet(reduced.indexes, x);
      if x in SetOf(reduced.indexes) {
        assert Inside(reduced, x, SetOf(piece.indexes));
      }
    }
  }

  /** Taking one known fragment out of a piece on its way through. */
  lemma SubtractKnown(reduced: Piece, i: nat, fragment: seq<Byte>, S: set<nat>, n: nat, fl: nat)
    requires Partway(reduced, S, n, fl) && i < n && |fragment| == fl
    ensures var r := Reduce(reduced, Piece([i], fragment));
      && Partway(r, S, n, fl) && |r.indexes| <= |reduced.indexes| && SetOf(r.indexes) == SetOf(reduced.indexes) - {i}
  {
    var b := Piece([i], fragment);
    assert PieceOk(b, n, fl) && SetOf(b.indexes) == {i};
    if reduced.indexes == [] {
      EmptyStays(reduced, b);
    } else {
      ReduceFacts(reduced, b, n, fl);
    }
    hide PieceOk, Reduce;
    ReducePartway(reduced, b, S, n, fl);
  }

  lemma SubtractKnownCarries(reduced: Piece, i: nat, fragment: seq<Byte>, S: set<nat>, n: nat, fl: nat, F: seq<seq<Byte>>)
    requires Partway(reduced, S, n, fl) && i < n && |F| == n && Uniform(F, fl) && fragment == F[i]
    requires reduced.indexes != [] ==> Carries(reduced, F, fl)
    ensures Reduce(reduced, Piece([i], fragment)).indexes != [] ==> Carries(Reduce(reduced, Piece([i], fragment)), F, fl)
  {
    var b := Piece([i], fragment);
    assert PieceOk(b, n, fl) && SetOf(b.indexes) == {i};
    MixSingle(F, fl, i);
    hide PieceOk, Reduce, Mix;
    if reduced.indexes == [] {
      EmptyStays(reduced, b);
    } else {
      ReduceCarries(reduced, b, n, fl, F);
    }
  }

  /** All known fragments out, then every mixture that fits: that is what peeling a mixture means. */
  lemma PeeledBy(piece: Piece, known: Piece, h: Held, n: nat, fl: nat)
    requires Fits(h, n, fl) && Partway(known, SetOf(piece.indexes), n, fl) && |known.indexes| <= |piece.indexes|
    requires SetOf(known.indexes) == SetOf(piece.indexes) - h.simple.Keys
    ensures Peeled(piece, ReducedBy(known, h.mixed), h, n, fl)
  {
    hide Partway, AllOk, SimpleOk, SetOf, ReducedBy, Inside;
    ReducedByFacts(known, h.mixed, SetOf(piece.indexes), n, fl);
    var r := ReducedBy(known, h.mixed);
    forall x | x in SetOf(piece.indexes) && x !in SetOf(r.indexes)
      ensures x in h.simple.Keys || exists q :: q in h.mixed && Inside(q, x, SetOf(piece.indexes))
    {
      if x in SetOf(known.indexes) {
        var q :| q in h.mixed && Inside(q, x, SetOf(known.indexes));
        InsideWider(q, x, SetOf(known.indexes), SetOf(piece.indexes));
      }
    }
  }

  lemma PeeledAway(piece: Piece, reduced: Piece, h: Held, n: nat, fl: nat)
    requires Peeled(piece, reduced, h, n, fl) && reduced.indexes == []
    ensures Advances(h, piece, h)
  {
    hide Peeled, Covers;
    PeeledCovers(piece, reduced, h, n, fl, h.Pieces());
    NothingNew(h, piece);
  }

  lemma PeeledToOne(piece: Piece, reduced: Piece, h: Held, n: nat, fl: nat)
    requires Fits(h, n, fl) && |piece.indexes| >= 2 && Peeled(piece, reduced, h, n, fl) && |reduced.indexes| == 1
    ensures var h' := Held(h.simple, h.mixed, h.queue + [reduced]);
      Fits(h', n, fl) && Advances(h, piece, h')
  {
    var h' := Held(h.simple, h.mixed, h.queue + [reduced]);
    IndexTotalConcat(h.queue, [reduced]);
    IndexTotalOne(reduced);
    hide PieceOk, Covers, IndexTotal;
    PeeledCovers(piece, reduced, h, n, fl, h'.Pieces());
    AllSelfCovered(h.Pieces(), h'.simple.Keys, h'.Pieces());
  }

  lemma PeeledToMixture(piece: Piece, reduced: Piece, h: Held, n: nat, fl: nat)
    requires Fits(h, n, fl) && Peeled(piece, reduced, h, n, fl) && |reduced.indexes| >= 2
    ensures var h' := Held(h.simple, Remaining(h.mixed, reduced) + [reduced], h.queue + Singles(h.mixed, reduced));
      && Fits(h', n, fl) && Advances(h, piece, h')
      && (Clear(h.mixed, h.simple.Keys) ==> Clear(h'.mixed, h'.simple.Keys))
  {
    hide PieceOk, Covers, Remaining, Singles, IndexTotal, Clear, Inside, SetOf;
    ReducedFits(h.mixed, reduced, n, fl);
    MixtureShrinks(piece, reduced, h, n, fl);
    MixtureCovered(piece, reduced, h, n, fl);
    ReducedShrinks(h.mixed, reduced, n, fl);
    ClearStill(h.mixed, Remaining(h.mixed, reduced), h.simple.Keys, reduced, piece, h, n, fl);
  }

  lemma MixtureShrinks(piece: Piece, reduced: Piece, h: Held, n: nat, fl: nat)
    requires Fits(h, n, fl) && Peeled(piece, reduced, h, n, fl) && |reduced.indexes| >= 2
    ensures Shrinks(h, piece, Held(h.simple, Remaining(h.mixed, reduced) + [reduced], h.queue + Singles(h.mixed, reduced)))
  {
    ReducedCounts(h.mixed, reduced, n, fl);
    IndexTotalConcat(h.queue, Singles(h.mixed, reduced));
    IndexTotalConcat(Remaining(h.mixed, reduced), [reduced]);
    IndexTotalOne(reduced);
    hide PieceOk, Remaining, Singles, IndexTotal, Inside, SetOf, Partway;
  }

  lemma MixtureCovered(piece: Piece, reduced: Piece, h: Held, n: nat, fl: nat)
    requires Fits(h, n, fl) && Peeled(piece, reduced, h, n, fl) && |reduced.indexes| >= 2
    ensures var ps := Remaining(h.mixed, reduced) + [reduced] + (h.queue + Singles(h.mixed, reduced));
      Covers(SetOf(piece.indexes), h.simple.Keys, ps) && AllCovered(h.Pieces(), h.simple.Keys, ps)
  {
    var keys, ps := h.simple.Keys, Remaining(h.mixed, reduced) + [reduced] + (h.queue + Singles(h.mixed, reduced));
    PeeledOk(piece, reduced, h, n, fl);
    hide PieceOk, Covers, Remaining, Singles, Peeled, Inside, SetOf, AllCovered;
    SelfCovers(reduced, keys, ps);
    MixturesCovered(h.mixed, reduced, n, fl, keys, ps);
    AllSelfCovered(h.queue, keys, ps);
    AllCoveredConcat(h.mixed, h.queue, keys, ps);
    PeeledCovers(piece, reduced, h, n, fl, h.Pieces() + [reduced]);
    OneCovered(reduced, keys, ps);
    AllCoveredConcat(h.Pieces(), [reduced], keys, ps);
    CoverStep(SetOf(piece.indexes), keys, h.Pieces() + [reduced], keys, ps);
  }

  lemma PeeledOk(piece: Piece, reduced: Piece, h: Held, n: nat, fl: nat)
    requires Peeled(piece, reduced, h, n, fl) && reduced.indexes != []
    ensures PieceOk(reduced, n, fl) && |reduced.indexes| <= |piece.indexes|
  {
  }

  lemma ClearStill(mixed: seq<Piece>, mixed': seq<Piece>, keys: set<nat>, reduced: Piece, piece: Piece, h: Held, n: nat, fl: nat)
    requires Peeled(piece, reduced, h, n, fl) && keys == h.simple.Keys
    requires forall p :: p in mixed' ==> exists q :: q in mixed && SetOf(p.indexes) <= SetOf(q.indexes)
    ensures Clear(mixed, keys) ==> Clear(mixed' + [reduced], keys)
  {
    hide SetOf, Partway;
    if Clear(mixed, keys) {
      forall p, x | p in mixed' + [reduced] && x in keys ensures x !in p.indexes {
        InSet(p.indexes, x);
        if p in mixed' {
          var q :| q in mixed && SetOf(p.indexes) <= SetOf(q.indexes);
          InSet(q.indexes, x);
        }
      }
    }
  }

  // ---- The point of it all --------------------------------------------------------------------------

  /**
   * With the queue empty and no mixture containing a known fragment, a set that is still covered
   * cannot be down to a single unknown: its last one has been worked out.
   */
  lemma NoLoneUnknown(S: set<nat>, x: nat, h: Held, n: nat, fl: nat)
    requires Fits(h, n, fl) && h.queue == [] && Clear(h.mixed, h.simple.Keys)
    requires Covers(S, h.simple.Keys, h.Pieces()) && x in S && forall i :: i in S && i != x ==> i in h.simple
    ensures x in h.simple
  {
    if x !in h.simple {
      var p :| p in h.Pieces() && Inside(p, x, S);
      assert p in h.mixed;
      forall i | i in p.indexes ensures i == x {
        InSet(p.indexes, i);
      }
      TwoDiffer(p, n, fl);
    }
  }

  lemma TwoDiffer(p: Piece, n: nat, fl: nat)
    requires PieceOk(p, n, fl) && |p.indexes| >= 2
    ensures p.indexes[0] in p.indexes && p.indexes[1] in p.indexes && p.indexes[0] != p.indexes[1]
  {
  }

  // ---- All from one message -----------------------------------------------------------------------

  lemma GenuineNewFragment(h: Held, piece: Piece, i: nat, n: nat, fl: nat, F: seq<seq<Byte>>)
    requires Fits(h, n, fl) && PieceOk(piece, n, fl) && piece.indexes == [i] && |F| == n
    requires Genuine(h, F, fl) && Carries(piece, F, fl)
    ensures Genuine(Held(h.simple[i := piece.fragment], Remaining(h.mixed, piece), h.queue + Singles(h.mixed, piece)), F, fl)
    ensures Genuine(Held(h.simple[i := piece.fragment], h.mixed, h.queue), F, fl)
  {
    assert piece.indexes[0] == i && SetOf(piece.indexes) == {i};
    MixSingle(F, fl, i);
    ReducedCarry(h.mixed, piece, n, fl, F);
    hide Remaining, Singles, Mix, SetOf;
  }

  lemma GenuineMixture(h: Held, reduced: Piece, n: nat, fl: nat, F: seq<seq<Byte>>)
    requires Fits(h, n, fl) && PieceOk(reduced, n, fl) && |reduced.indexes| >= 1
    requires Genuine(h, F, fl) && Carries(reduced, F, fl)
    ensures Genuine(Held(h.simple, Remaining(h.mixed, reduced) + [reduced], h.queue + Singles(h.mixed, reduced)), F, fl)
    ensures Genuine(Held(h.simple, h.mixed, h.queue + [reduced]), F, fl)
  {
    ReducedCarry(h.mixed, reduced, n, fl, F);
    hide Remaining, Singles, Carries;
  }
}
