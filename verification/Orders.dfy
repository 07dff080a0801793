/** Rearrangements: what a shuffle and a sort keep. */
module Orders {

  function Map<A, B>(f: A -> B, s: seq<A>): (r: seq<B>)
    ensures |r| == |s| && forall i :: 0 <= i < |s| ==> r[i] == f(s[i])
  {
    seq(|s|, i requires 0 <= i < |s| => f(s[i]))
  }

  /** The entries of s in the given order. */
  function Pick<T>(s: seq<T>, order: seq<nat>): (r: seq<T>)
    requires forall k :: 0 <= k < |order| ==> order[k] < |s|
    ensures |r| == |order| && forall k :: 0 <= k < |order| ==> r[k] == s[order[k]]
  {
    seq(|order|, k requires 0 <= k < |order| => s[order[k]])
  }

  function Identity(n: nat): (s: seq<nat>)
    ensures |s| == n && forall i :: 0 <= i < n ==> s[i] == i
  {
    seq(n, i => i)
  }

  ghost predicate IsPermutation(order: seq<nat>, n: nat) {
    multiset(order) == multiset(Identity(n))
  }

  lemma PermutationShape(order: seq<nat>, n: nat)
    requires IsPermutation(order, n)
    ensures |order| == n && forall k :: 0 <= k < |order| ==> order[k] < n
  {
    assert |multiset(order)| == |order| && |multiset(Identity(n))| == n;
    forall k | 0 <= k < |order| ensures order[k] < n {
      assert order[k] in multiset(order);
      assert order[k] in multiset(Identity(n));
    }
  }

  /** Taking one entry out of a sequence. */
  lemma RemoveOne<T>(s: seq<T>, j: nat)
    requires j < |s|
    ensures multiset(s[..j] + s[j + 1..]) == multiset(s) - multiset{s[j]}
    ensures multiset(s) == multiset(s[..j] + s[j + 1..]) + multiset{s[j]}
  {
    assert s == s[..j] + [s[j]] + s[j + 1..];
  }

  function Without<T>(s: seq<T>, j: nat): (r: seq<T>)
    requires j < |s|
  {
    s[..j] + s[j + 1..]
  }

  /** Two rearrangements of one another: the last entry of the first, found in the second and removed from both. */
  lemma Matching<T>(a: seq<T>, b: seq<T>) returns (j: nat)
    requires multiset(a) == multiset(b) && a != []
    ensures |a| == |b| && j < |b| && b[j] == a[|a| - 1]
    ensures multiset(a[..|a| - 1]) == multiset(Without(b, j))
  {
    assert |multiset(a)| == |a| && |multiset(b)| == |b|;
    var n := |a| - 1;
    assert a[n] in multiset(b);
    j :| 0 <= j < |b| && b[j] == a[n];
    RemoveOne(a, n);
    RemoveOne(b, j);
    assert a[..n] + a[n + 1..] == a[..n];
  }

  lemma {:induction false} MapPermutes<A, B>(f: A -> B, a: seq<A>, b: seq<A>)
    requires multiset(a) == multiset(b)
    ensures multiset(Map(f, a)) == multiset(Map(f, b))
  {
    if a == [] {
      assert |multiset(b)| == |b|;
    } else {
      var j := Matching(a, b);
      MapPermutes(f, a[..|a| - 1], Without(b, j));
      MapWithout(f, a, |a| - 1);
      MapWithout(f, b, j);
      assert Without(a, |a| - 1) == a[..|a| - 1];
    }
  }

  lemma MapWithout<A, B>(f: A -> B, s: seq<A>, j: nat)
    requires j < |s|
    ensures multiset(Map(f, s)) == multiset(Map(f, Without(s, j))) + multiset{f(s[j])}
  {
    RemoveOne(Map(f, s), j);
    assert Map(f, s)[..j] + Map(f, s)[j + 1..] == Map(f, Without(s, j));
  }

  /** Following a permutation of the positions rearranges the entries and loses none. */
  lemma PickPermutes<T>(s: seq<T>, order: seq<nat>)
    requires IsPermutation(order, |s|)
    ensures |order| == |s| && (forall k :: 0 <= k < |order| ==> order[k] < |s|)
    ensures multiset(Pick(s, order)) == multiset(s)
  {
    PermutationShape(order, |s|);
    if s == [] {
      assert Pick(s, order) == s;
    } else {
      var at := (i: nat) => if i < |s| then s[i] else s[0];
      MapPermutes(at, order, Identity(|s|));
      assert Map(at, order) == Pick(s, order);
      assert Map(at, Identity(|s|)) == s;
    }
  }

  /** Two rearrangements of one another, and the permutation that leads from one to the other. */
  lemma {:induction false} OrderBetween<T>(a: seq<T>, b: seq<T>) returns (order: seq<nat>)
    requires multiset(a) == multiset(b)
    ensures |a| == |b| && IsPermutation(order, |b|)
    ensures |order| == |a| && forall k :: 0 <= k < |a| ==> order[k] < |b| && a[k] == b[order[k]]
  {
    if a == [] {
      assert |multiset(b)| == |b|;
      order := [];
      assert Identity(0) == [];
    } else {
      var j := Matching(a, b);
      var n := |a| - 1;
      var rest := OrderBetween(a[..n], Without(b, j));
      var skip := (i: nat) => if i < j then i else i + 1;
      order := Map(skip, rest) + [j];
      MapPermutes(skip, rest, Identity(n));
      SkipsOne(n, j);
      assert multiset(order) == multiset(Map(skip, rest)) + multiset{j};
    }
  }

  lemma SkipsOne(n: nat, j: nat)
    requires j <= n
    ensures multiset(Map((i: nat) => if i < j then i else i + 1, Identity(n))) + multiset{j} == multiset(Identity(n + 1))
  {
    RemoveOne(Identity(n + 1), j);
    assert Map((i: nat) => if i < j then i else i + 1, Identity(n)) == Identity(n + 1)[..j] + Identity(n + 1)[j + 1..];
  }

  // ---- Totals ------------------------------------------------------------------

  function SumOf(xs: seq<int>): int {
    if xs == [] then 0 else SumOf(xs[..|xs| - 1]) + xs[|xs| - 1]
  }

  lemma {:induction false} SumOfConcat(a: seq<int>, b: seq<int>)
    ensures SumOf(a + b) == SumOf(a) + SumOf(b)
  {
    if b == [] {
      assert a + b == a;
    } else {
      assert (a + b)[..|a + b| - 1] == a + b[..|b| - 1];
      SumOfConcat(a, b[..|b| - 1]);
    }
  }

  lemma SumOfOne(x: int)
    ensures SumOf([x]) == x
  {
    assert [x][..0] == [];
  }

  lemma SumWithout(s: seq<int>, j: nat)
    requires j < |s|
    ensures SumOf(s) == SumOf(Without(s, j)) + s[j]
  {
    hide SumOf;
    assert s == (s[..j] + [s[j]]) + s[j + 1..];
    SumOfConcat(s[..j] + [s[j]], s[j + 1..]);
    SumOfConcat(s[..j], [s[j]]);
    SumOfConcat(s[..j], s[j + 1..]);
    SumOfOne(s[j]);
  }

  lemma {:induction false} SumPermutes(a: seq<int>, b: seq<int>)
    requires multiset(a) == multiset(b)
    ensures SumOf(a) == SumOf(b)
  {
    if a == [] {
      assert |multiset(b)| == |b|;
    } else {
      var j := Matching(a, b);
      SumPermutes(a[..|a| - 1], Without(b, j));
      SumWithout(b, j);
    }
  }
}
