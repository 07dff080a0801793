/**
 * The unsigned set a vault is handed, the transaction it makes of it, and the two rearrangements on
 * the way: outputs shuffled from a seed, inputs sorted by key image.
 */
module MoneroSet {
  import opened Sums
  import opened Primes
  import opened Scalars
  import opened Bytes
  import opened Orders
  import opened Curve
  import opened BulletproofPlusSpec
  import opened MoneroCrypto
  import C = Clsag

  datatype Network = Mainnet | Stagenet | Testnet
  datatype AddressKind = Standard | Integrated | Subaddress
  datatype Option<T> = None | Some(value: T)

  /** What reading an address string yields. */
  datatype ParsedAddress =
    | Unreadable
    | Address(network: Network, kind: AddressKind, spendPublic: PointBytes, viewPublic: PointBytes, paymentId: seq<Byte>)

  datatype Wallet = Wallet(network: Network, spendSecret: nat, viewSecret: nat, spendPublic: PointBytes)

  datatype UnsignedRingMember = UnsignedRingMember(globalIndex: nat, member: C.RingMember)

  datatype UnsignedInput = UnsignedInput(
    txPublicKey: PointBytes, indexInTx: nat, amount: int, ring: seq<UnsignedRingMember>, realPosition: nat)

  datatype UnsignedOutput = UnsignedOutput(address: string, amount: int, change: bool, dummy: bool)

  datatype UnsignedSet = UnsignedSet(
    network: Network, inputs: seq<UnsignedInput>, outputs: seq<UnsignedOutput>, fee: int, ringSize: nat)

  /** What `parseUnsignedSet` guarantees of a set it lets through, and less. monerobuild.ts:141-224. */
  ghost predicate Parsed(spend: UnsignedSet) {
    && |spend.inputs| >= 1 && 1 <= |spend.outputs| <= 16 && spend.ringSize >= 1 && 0 <= spend.fee < TWO_64
    && (forall i :: 0 <= i < |spend.inputs| ==>
          && 0 <= spend.inputs[i].amount < TWO_64
          && |spend.inputs[i].ring| == spend.ringSize && spend.inputs[i].realPosition < spend.ringSize)
    && (forall i :: 0 <= i < |spend.outputs| ==> 0 <= spend.outputs[i].amount < TWO_64)
  }

  /** A destination, as the address string gives it. */
  datatype Dest = Dest(spendPublic: PointBytes, viewPublic: PointBytes, isSubaddress: bool, isSelf: bool, paymentId: Option<seq<Byte>>)

  datatype BuiltOutput = BuiltOutput(
    source: UnsignedOutput, oneTimeKey: Point, viewTag: Byte, ecdhAmount: seq<Byte>, commitment: Point, mask: nat)

  datatype BuiltInput = BuiltInput(source: UnsignedInput, oneTimeSecret: nat, keyImage: Point, inputMask: nat)

  datatype Extra = Extra(txPublicKey: Point, additionalPublicKeys: seq<Point>, encryptedPaymentId: Option<seq<Byte>>)

  datatype WireInput = WireInput(keyOffsets: seq<nat>, keyImage: Point)
  datatype WireOutput = WireOutput(key: Point, viewTag: Byte)
  datatype Prefix = Prefix(inputs: seq<WireInput>, outputs: seq<WireOutput>, extra: Extra)
  datatype RctBase = RctBase(fee: int, ecdhAmounts: seq<seq<Byte>>, outPk: seq<PointBytes>)

  /** The parts of a signed transaction, before they are laid out as bytes. */
  datatype SignedTx = SignedTx(
    prefix: Prefix, base: RctBase, proof: BulletproofPlus, pseudoOuts: seq<Point>, clsags: seq<C.Clsag>,
    outputs: seq<BuiltOutput>, inputs: seq<BuiltInput>)

  datatype Problem =
    | WrongNetwork | WrongRandomCount | Unbalanced | InvalidAddress | WrongAddressNetwork | ZeroTransactionKey
    | IntegratedNotAlone | NotOurs | SecretMismatch | AmountMismatch | CommitmentsDoNotBalance | RangeProofRejected
    | KeyImageDisagrees | SignatureRejected(signature: C.Clsag) | RingNotSorted | SigningFailed(failure: Failure)

  datatype Outcome<T> = Done(value: T) | Refused(problem: Problem)

  // ---- The shuffle ---------------------------------------------------------------------

  /** The pools of bytes the shuffle draws from: Keccak of the seed, then Keccak of the pool before. */
  function Pool(E: Group, seed: nat, k: nat): (pool: seq<Byte>)
    ensures |pool| == 32
  {
    if k == 0 then Digest(E, [ScalarChunk(seed)]) else Digest(E, [BytesChunk(Pool(E, seed, k - 1))])
  }

  function Stream(E: Group, seed: nat, t: nat): Byte {
    Pool(E, seed, t / 32)[t % 32]
  }

  /** The largest multiple of n that a byte can be below. */
  function Bound(n: nat): (b: nat)
    requires 1 <= n <= 256
    ensures 1 <= b <= 256
  {
    assert (256 / n) * n + 256 % n == 256;
    (256 / n) * n
  }

  /** From position t on, some byte of the stream is below the bound. */
  ghost predicate Supplies(E: Group, seed: nat, t: nat, n: nat)
    requires 1 <= n <= 256
  {
    exists u :: u >= t && Stream(E, seed, u) < Bound(n)
  }

  /** Rejection sampling never waits for ever. */
  ghost predicate NeverStarves(E: Group, seed: nat) {
    forall t: nat, n: nat :: 1 <= n <= 256 ==> Supplies(E, seed, t, n)
  }

  /**
   * The draw is unbiased: the bytes below the bound that leave remainder j are q·n + j for q below
   * 256 / n, as many for one j as for another.
   */
  lemma DrawIsUniform(n: nat, j: nat, q: nat, d: nat)
    requires 1 <= n <= 256 && j < n
    ensures q < 256 / n ==> q * n + j < Bound(n) && (q * n + j) % n == j && (q * n + j) / n == q
    ensures d < Bound(n) && d % n == j ==> d / n < 256 / n && d == (d / n) * n + j
  {
    if q < 256 / n {
      Monotone(q + 1, 256 / n, n);
      DivMod(q * n + j, n, q, j);
    }
    if d < Bound(n) && d / n >= 256 / n {
      Monotone(256 / n, d / n, n);
    }
  }

  lemma Monotone(a: int, b: int, n: nat)
    requires a <= b
    ensures a * n <= b * n
  {
  }

  /** Byte t of the stream is what is about to be read. */
  ghost predicate Reading(E: Group, seed: nat, pool: seq<Byte>, at: nat, t: nat) {
    && at <= 32 && (at == 32 ==> t >= 32 && t % 32 == 0) && (at < 32 ==> at == t % 32)
    && pool == Pool(E, seed, if at == 32 then t / 32 - 1 else t / 32)
  }

  /** `nextByte`. monerobuild.ts:282-285. */
  method NextByte(E: Group, ghost seed: nat, pool: seq<Byte>, at: nat, ghost t: nat)
    returns (byte: Byte, pool': seq<Byte>, at': nat)
    requires Reading(E, seed, pool, at, t)
    ensures byte == Stream(E, seed, t) && Reading(E, seed, pool', at', t + 1)
  {
    hide Digest, Pool;
    pool', at' := pool, at;
    if at' >= |pool'| {
      PoolNext(E, seed, t / 32);
      pool' := Digest(E, [BytesChunk(pool')]);
      at' := 0;
    }
    byte := pool'[at'];
    at' := at' + 1;
    Advanced(t);
  }

  lemma PoolNext(E: Group, seed: nat, k: nat)
    requires k > 0
    ensures Pool(E, seed, k) == Digest(E, [BytesChunk(Pool(E, seed, k - 1))])
  {
    hide Digest;
  }

  /** One draw, by rejection. monerobuild.ts:288-291. */
  method Draw(E: Group, seed: nat, n: nat, pool: seq<Byte>, at: nat, ghost t: nat)
    returns (j: nat, pool': seq<Byte>, at': nat, ghost t': nat)
    requires 1 <= n <= 256 && Reading(E, seed, pool, at, t) && NeverStarves(E, seed)
    ensures j < n && Reading(E, seed, pool', at', t') && t' > t
    ensures FirstBelow(E, seed, t, n, t' - 1) && j == PickOf(E, seed, t' - 1, n)
  {
    hide Stream, Digest, Pool, NeverStarves, Reading;
    assert Supplies(E, seed, t, n) by { Fed(E, seed, t, n); }
    ghost var goal :| goal >= t && Stream(E, seed, goal) < Bound(n);
    var bound := Bound(n);
    var byte;
    byte, pool', at' := NextByte(E, seed, pool, at, t);
    t' := t + 1;
    while byte >= bound
      invariant t < t' <= goal + 1 && byte == Stream(E, seed, t' - 1) && Reading(E, seed, pool', at', t')
      invariant forall u :: t <= u < t' - 1 ==> Stream(E, seed, u) >= bound
      decreases goal + 1 - t'
    {
      byte, pool', at' := NextByte(E, seed, pool', at', t');
      t' := t' + 1;
    }
    j := byte % n;
  }

  lemma Fed(E: Group, seed: nat, t: nat, n: nat)
    requires 1 <= n <= 256 && NeverStarves(E, seed)
    ensures Supplies(E, seed, t, n)
  {
    hide Supplies;
  }

  lemma Advanced(t: nat)
    ensures if t % 32 == 31 then (t + 1) % 32 == 0 && (t + 1) / 32 == t / 32 + 1 else (t + 1) % 32 == t % 32 + 1 && (t + 1) / 32 == t / 32
  {
  }

  /** The first position from t on whose byte is let through. */
  ghost predicate FirstBelow(E: Group, seed: nat, t: nat, n: nat, u: nat)
    requires 1 <= n <= 256
  {
    u >= t && Stream(E, seed, u) < Bound(n) && forall v :: t <= v < u ==> Stream(E, seed, v) >= Bound(n)
  }

  lemma {:induction false} FirstExists(E: Group, seed: nat, t: nat, n: nat, u: nat) returns (first: nat)
    requires 1 <= n <= 256 && u >= t && Stream(E, seed, u) < Bound(n)
    ensures FirstBelow(E, seed, t, n, first)
    decreases u - t
  {
    hide Stream;
    if Stream(E, seed, t) < Bound(n) {
      first := t;
    } else {
      first := FirstExists(E, seed, t + 1, n, u);
    }
  }

  lemma SomeFirst(E: Group, seed: nat, t: nat, n: nat)
    requires 1 <= n <= 256 && NeverStarves(E, seed)
    ensures exists u :: FirstBelow(E, seed, t, n, u)
  {
    hide Stream, Bound, FirstBelow;
    assert Supplies(E, seed, t, n);
    var u :| u >= t && Stream(E, seed, u) < Bound(n);
    var first := FirstExists(E, seed, t, n, u);
  }

  lemma OneFirst(E: Group, seed: nat, t: nat, n: nat, u: nat, v: nat)
    requires 1 <= n <= 256 && FirstBelow(E, seed, t, n, u) && FirstBelow(E, seed, t, n, v)
    ensures u == v
  {
    hide Stream;
  }

  /** And there always is one. */
  ghost function First(E: Group, seed: nat, t: nat, n: nat): (u: nat)
    requires 1 <= n <= 256 && NeverStarves(E, seed)
    ensures FirstBelow(E, seed, t, n, u)
  {
    hide FirstBelow, NeverStarves;
    SomeFirst(E, seed, t, n);
    var u: nat :| FirstBelow(E, seed, t, n, u);
    u
  }

  function Swapped(order: seq<nat>, i: nat, j: nat): (r: seq<nat>)
    requires i < |order| && j < |order|
    ensures |r| == |order| && multiset(r) == multiset(order)
  {
    order[i := order[j]][j := order[i]]
  }

  /** The position a byte of the stream picks among the first n. */
  ghost function PickOf(E: Group, seed: nat, u: nat, n: nat): (j: nat)
    requires n > 0
    ensures j < n
  {
    Stream(E, seed, u) % n
  }

  /** Fisher-Yates from position i down, reading the stream from t. */
  ghost function ShuffleFrom(E: Group, seed: nat, order: seq<nat>, i: nat, t: nat): (r: seq<nat>)
    requires i < |order| <= 256 && NeverStarves(E, seed)
    ensures multiset(r) == multiset(order)
    decreases i
  {
    hide PickOf, NeverStarves, FirstBelow, First, Swapped;
    if i == 0 then order
    else
      var u := First(E, seed, t, i + 1);
      ShuffleFrom(E, seed, Swapped(order, i, PickOf(E, seed, u, i + 1)), i - 1, u + 1)
  }

  lemma ShuffleStep(E: Group, seed: nat, order: seq<nat>, i: nat, t: nat, u: nat)
    requires 0 < i < |order| <= 256 && NeverStarves(E, seed) && FirstBelow(E, seed, t, i + 1, u)
    ensures ShuffleFrom(E, seed, order, i, t) == ShuffleFrom(E, seed, Swapped(order, i, PickOf(E, seed, u, i + 1)), i - 1, u + 1)
  {
    hide PickOf, NeverStarves, FirstBelow, First, Swapped;
    OneFirst(E, seed, t, i + 1, u, First(E, seed, t, i + 1));
  }

  /** The order the outputs of a spend are put in. */
  ghost function ShuffledOrder(E: Group, count: nat, seed: nat): (order: seq<nat>)
    requires count <= 256 && NeverStarves(E, seed)
    ensures IsPermutation(order, count) && |order| == count && forall k :: 0 <= k < count ==> order[k] < count
  {
    hide NeverStarves;
    var order := if count == 0 then [] else ShuffleFrom(E, seed, Identity(count), count - 1, 0);
    PermutationShape(order, count);
    order
  }

  method Swap(a: array<nat>, i: nat, j: nat)
    requires i < a.Length && j < a.Length
    modifies a
    ensures a[..] == Swapped(old(a[..]), i, j)
  {
    a[i], a[j] := a[j], a[i];
  }

  /** Fisher-Yates from the Keccak stream: always a permutation of the positions. monerobuild.ts:278-295. */
  method ShuffledIndices(E: Group, count: nat, seed: nat) returns (order: seq<nat>)
    requires count <= 256 && NeverStarves(E, seed)
    ensures IsPermutation(order, count)
    ensures order == ShuffledOrder(E, count, seed)
  {
    hide Reading, NeverStarves, Stream, Digest, Pool, ShuffleFrom, FirstBelow, Bound, PickOf, IsPermutation, ShuffledOrder, Identity,
         Swapped;
    var a := new nat[count](i => i);
    assert a[..] == Identity(count);
    OrderStart(E, count, seed);
    var pool := Digest(E, [ScalarChunk(seed)]);
    var at := 0;
    ghost var t := 0;
    ReadingStart(E, seed);
    var i := count - 1;
    while i > 0
      invariant -1 <= i < count && (count > 0 ==> i >= 0) && Reading(E, seed, pool, at, t)
      invariant i >= 0 ==> ShuffledOrder(E, count, seed) == ShuffleFrom(E, seed, a[..], i, t)
    {
      ghost var was, from := a[..], t;
      var j;
      j, pool, at, t := Draw(E, seed, i + 1, pool, at, t);
      ShuffleStep(E, seed, was, i, from, t - 1);
      Swap(a, i, j);
      i := i - 1;
    }
    if count > 0 {
      ShuffleDone(E, seed, a[..], t);
    } else {
      assert a[..] == [];
    }
    order := a[..];
  }

  lemma OrderStart(E: Group, count: nat, seed: nat)
    requires count <= 256 && NeverStarves(E, seed)
    ensures count == 0 ==> ShuffledOrder(E, count, seed) == []
    ensures count > 0 ==> ShuffledOrder(E, count, seed) == ShuffleFrom(E, seed, Identity(count), count - 1, 0)
  {
    hide NeverStarves, ShuffleFrom, Identity, IsPermutation;
  }

  lemma ShuffleDone(E: Group, seed: nat, order: seq<nat>, t: nat)
    requires 0 < |order| <= 256 && NeverStarves(E, seed)
    ensures ShuffleFrom(E, seed, order, 0, t) == order
  {
    hide NeverStarves;
  }

  lemma ReadingStart(E: Group, seed: nat)
    ensures Reading(E, seed, Digest(E, [ScalarChunk(seed)]), 0, 0)
  {
    hide Digest;
  }

  // ---- Every order comes up -----------------------------------------------------------------

  /** Up to position i the two are rearrangements of each other, and past it they agree. */
  ghost predicate Alike(order: seq<nat>, target: seq<nat>, i: nat) {
    |order| == |target| && i < |order| && multiset(order[..i + 1]) == multiset(target[..i + 1]) && order[i + 1..] == target[i + 1..]
  }

  /** Where the entry that has to go to position i is. */
  ghost function PlaceOf(order: seq<nat>, target: seq<nat>, i: nat): (j: nat)
    requires Alike(order, target, i)
    ensures j <= i && order[j] == target[i]
  {
    var head := order[..i + 1];
    assert target[..i + 1][i] in multiset(target[..i + 1]);
    assert target[i] in multiset(head);
    var j: nat :| j < |head| && head[j] == target[i];
    j
  }

  lemma DropLast<T>(s: seq<T>)
    requires s != []
    ensures multiset(s[..|s| - 1]) == multiset(s) - multiset{s[|s| - 1]}
  {
    assert s == s[..|s| - 1] + [s[|s| - 1]];
  }

  /** A swap below i + 1, seen on the entries below i + 1. */
  lemma SwappedHead(order: seq<nat>, i: nat, j: nat)
    requires i < |order| && j <= i
    ensures Swapped(order, i, j)[..i + 1] == Swapped(order[..i + 1], i, j)
    ensures Swapped(order, i, j)[i] == order[j] && Swapped(order, i, j)[i + 1..] == order[i + 1..]
  {
  }

  lemma SwapStep(head: seq<nat>, goal: seq<nat>, i: nat, j: nat)
    requires |head| == |goal| == i + 1 && multiset(head) == multiset(goal) && j <= i && head[j] == goal[i]
    ensures multiset(Swapped(head, i, j)[..i]) == multiset(goal[..i])
  {
    DropLast(Swapped(head, i, j));
    DropLast(goal);
  }

  lemma SwappedAlike(order: seq<nat>, target: seq<nat>, i: nat)
    requires Alike(order, target, i) && i > 0
    ensures Alike(Swapped(order, i, PlaceOf(order, target, i)), target, i - 1)
  {
    hide PlaceOf, Swapped;
    var j := PlaceOf(order, target, i);
    var next := Swapped(order, i, j);
    SwappedHead(order, i, j);
    SwapStep(order[..i + 1], target[..i + 1], i, j);
    PrefixOfPrefix(next, i);
    PrefixOfPrefix(target, i);
    TailsAgree(next, target, i);
  }

  lemma PrefixOfPrefix<T>(s: seq<T>, i: nat)
    requires i < |s|
    ensures s[..i + 1][..i] == s[..i]
  {
  }

  lemma TailsAgree(s: seq<nat>, t: seq<nat>, i: nat)
    requires i < |s| == |t| && s[i] == t[i] && s[i + 1..] == t[i + 1..]
    ensures s[i..] == t[i..]
  {
    assert s[i..] == [s[i]] + s[i + 1..] && t[i..] == [t[i]] + t[i + 1..];
  }

  lemma AlikeShape(order: seq<nat>, target: seq<nat>, i: nat)
    requires Alike(order, target, i)
    ensures i < |order| == |target|
  {
  }

  /** The picks that take one order to another. */
  ghost function PicksTo(order: seq<nat>, target: seq<nat>, i: nat): (picks: seq<Byte>)
    requires Alike(order, target, i) && i < 256
    ensures |picks| == i
    decreases i
  {
    hide *;
    AlikeShape(order, target, i);
    if i == 0 then []
    else
      SwappedAlike(order, target, i);
      [PlaceOf(order, target, i)] + PicksTo(Swapped(order, i, PlaceOf(order, target, i)), target, i - 1)
  }

  /** The stream from t on starts with these bytes. */
  ghost predicate Feeds(E: Group, seed: nat, t: nat, picks: seq<Byte>) {
    forall k :: 0 <= k < |picks| ==> Stream(E, seed, t + k) == picks[k]
  }

  lemma FeedsNext(E: Group, seed: nat, t: nat, picks: seq<Byte>)
    requires Feeds(E, seed, t, picks) && picks != []
    ensures Stream(E, seed, t) == picks[0] && Feeds(E, seed, t + 1, picks[1..])
  {
    hide Stream;
    assert Stream(E, seed, t + 0) == picks[0];
    forall k | 0 <= k < |picks| - 1 ensures Stream(E, seed, t + 1 + k) == picks[1..][k] {
      assert Stream(E, seed, t + (k + 1)) == picks[k + 1];
    }
  }

  lemma FirstAtOnce(E: Group, seed: nat, t: nat, n: nat)
    requires 1 <= n <= 256 && Stream(E, seed, t) < n
    ensures FirstBelow(E, seed, t, n, t) && PickOf(E, seed, t, n) == Stream(E, seed, t)
  {
    hide Stream, Bound;
    BelowBound(n);
    ModOfSmall(Stream(E, seed, t), n);
  }

  lemma ModOfSmall(x: nat, n: nat)
    requires x < n
    ensures x % n == x
  {
  }

  lemma {:induction false} PicksReach(E: Group, seed: nat, order: seq<nat>, target: seq<nat>, i: nat, t: nat)
    requires Alike(order, target, i) && |order| <= 256 && NeverStarves(E, seed)
    requires Feeds(E, seed, t, PicksTo(order, target, i))
    ensures ShuffleFrom(E, seed, order, i, t) == target
    decreases i
  {
    hide NeverStarves, Stream, Swapped, Bound, Feeds, FirstBelow, PickOf, ShuffleFrom, PlaceOf;
    if i == 0 {
      AlikeAtTheEnd(order, target);
      ShuffleDone(E, seed, order, t);
    } else {
      var j := PlaceOf(order, target, i);
      SwappedAlike(order, target, i);
      hide Alike;
      FeedsNext(E, seed, t, PicksTo(order, target, i));
      FirstAtOnce(E, seed, t, i + 1);
      ShuffleStep(E, seed, order, i, t, t);
      assert PicksTo(order, target, i)[1..] == PicksTo(Swapped(order, i, j), target, i - 1);
      PicksReach(E, seed, Swapped(order, i, j), target, i - 1, t + 1);
    }
  }

  lemma AlikeAtTheEnd(order: seq<nat>, target: seq<nat>)
    requires Alike(order, target, 0)
    ensures order == target
  {
    assert order[..1] == [order[0]] && target[..1] == [target[0]];
    assert order[0] in multiset(order[..1]);
    assert order[0] in multiset(target[..1]);
    assert order == [order[0]] + order[1..] && target == [target[0]] + target[1..];
  }

  lemma BelowBound(n: nat)
    requires 1 <= n <= 256
    ensures n <= Bound(n)
  {
    Monotone(1, 256 / n, n);
  }

  function Padded(picks: seq<Byte>): (bytes: seq<Byte>)
    requires |picks| <= 32
    ensures |bytes| == 32 && bytes[..|picks|] == picks
  {
    picks + seq(32 - |picks|, i => 0)
  }

  /** Keccak made to answer two seeds as wanted, and with zeros past the first pool. */
  function Rigged(E: Group, seed: nat, a: seq<Byte>, seed': nat, b: seq<Byte>): (E': Group)
    requires |a| == |b| == 32
    ensures E' == E.(keccak := E'.keccak)
  {
    E.(keccak := (z: seq<Chunk>, i: nat) =>
      if i >= 32 then 0 else if z == [ScalarChunk(seed)] then a[i] else if z == [ScalarChunk(seed')] then b[i] else 0)
  }

  lemma RiggedStream(E: Group, seed: nat, a: seq<Byte>, seed': nat, b: seq<Byte>, t: nat)
    requires |a| == |b| == 32 && seed != seed'
    ensures Stream(Rigged(E, seed, a, seed', b), seed, t) == if t < 32 then a[t] else 0
    ensures Stream(Rigged(E, seed, a, seed', b), seed', t) == if t < 32 then b[t] else 0
  {
    var E' := Rigged(E, seed, a, seed', b);
    assert [ScalarChunk(seed)][0] != [ScalarChunk(seed')][0];
    if t >= 32 {
      hide Digest;
      PoolNext(E', seed, t / 32);
      PoolNext(E', seed', t / 32);
      RiggedLater(E, seed, a, seed', b, Pool(E', seed, t / 32 - 1), t % 32);
      RiggedLater(E, seed, a, seed', b, Pool(E', seed', t / 32 - 1), t % 32);
    }
  }

  lemma RiggedLater(E: Group, seed: nat, a: seq<Byte>, seed': nat, b: seq<Byte>, pool: seq<Byte>, i: nat)
    requires |a| == |b| == 32 && i < 32
    ensures Digest(Rigged(E, seed, a, seed', b), [BytesChunk(pool)])[i] == 0
  {
    assert [BytesChunk(pool)][0] != [ScalarChunk(seed)][0] && [BytesChunk(pool)][0] != [ScalarChunk(seed')][0];
  }

  lemma RiggedFeeds(E: Group, seed: nat)
    requires forall t: nat :: t >= 32 ==> Stream(E, seed, t) == 0
    ensures NeverStarves(E, seed)
  {
    hide Stream, Bound;
    forall t: nat, n: nat | 1 <= n <= 256 ensures Supplies(E, seed, t, n) {
      var u := if t >= 32 then t else 32;
      assert Stream(E, seed, u) == 0 < Bound(n);
    }
  }

  /**
   * Nothing about the order is fixed but by the seed: whatever orders are wanted of two seeds, some
   * Keccak gives both. Stated for as many outputs as one pool of bytes serves.
   */
  lemma EveryOrderComesUp(E: Group, count: nat, seed: nat, order: seq<nat>, seed': nat, order': seq<nat>) returns (E': Group)
    requires count <= 33 && seed != seed' && IsPermutation(order, count) && IsPermutation(order', count)
    ensures E' == E.(keccak := E'.keccak) && NeverStarves(E', seed) && NeverStarves(E', seed')
    ensures ShuffledOrder(E', count, seed) == order && ShuffledOrder(E', count, seed') == order'
  {
    hide Stream, NeverStarves, PicksTo, ShuffleFrom, Padded, Rigged;
    PermutationShape(order, count);
    PermutationShape(order', count);
    var a, b := Leading(order, count), Leading(order', count);
    E' := Rigged(E, seed, a, seed', b);
    forall t: nat
      ensures Stream(E', seed, t) == (if t < 32 then a[t] else 0) && Stream(E', seed', t) == (if t < 32 then b[t] else 0)
    {
      RiggedStream(E, seed, a, seed', b, t);
    }
    RiggedFeeds(E', seed);
    RiggedFeeds(E', seed');
    LeadingReaches(E', seed, order, count);
    LeadingReaches(E', seed', order', count);
  }

  /** The bytes that lead to an order. */
  ghost function Leading(order: seq<nat>, count: nat): (bytes: seq<Byte>)
    requires count <= 33 && IsPermutation(order, count)
    ensures |bytes| == 32
  {
    PermutationShape(order, count);
    if count == 0 then Padded([])
    else
      AlikeFromStart(order, count);
      Padded(PicksTo(Identity(count), order, count - 1))
  }

  lemma AlikeFromStart(order: seq<nat>, count: nat)
    requires count > 0 && IsPermutation(order, count)
    ensures Alike(Identity(count), order, count - 1)
  {
    PermutationShape(order, count);
    assert Identity(count)[..count] == Identity(count) && order[..count] == order;
  }

  lemma LeadingReaches(E: Group, seed: nat, order: seq<nat>, count: nat)
    requires count <= 33 && IsPermutation(order, count) && NeverStarves(E, seed)
    requires forall t: nat :: t < 32 ==> Stream(E, seed, t) == Leading(order, count)[t]
    ensures ShuffledOrder(E, count, seed) == order
  {
    hide Stream, NeverStarves, PicksTo, ShuffleFrom, ShuffledOrder, Alike, IsPermutation;
    PermutationShape(order, count);
    OrderStart(E, count, seed);
    if count > 0 {
      AlikeFromStart(order, count);
      var picks := PicksTo(Identity(count), order, count - 1);
      forall k | 0 <= k < |picks| ensures Stream(E, seed, 0 + k) == picks[k] {
        assert Leading(order, count)[..|picks|][k] == picks[k];
      }
      assert Feeds(E, seed, 0, picks);
      PicksReach(E, seed, Identity(count), order, count - 1, 0);
    }
  }

  // ---- The order of inputs ----------------------------------------------------------------

  /** The number these bytes write, highest first. */
  function BigEndian(bytes: seq<Byte>): (n: nat) {
    if bytes == [] then 0 else BigEndian(bytes[..|bytes| - 1]) * 256 + bytes[|bytes| - 1]
  }

  lemma {:induction false} PrefixDecides(a: seq<Byte>, b: seq<Byte>, k: nat)
    requires |a| == |b| && k < |a| && a[..k] == b[..k] && a[k] < b[k]
    ensures BigEndian(a) < BigEndian(b)
  {
    if k + 1 == |a| {
    } else {
      var n := |a| - 1;
      assert a[..n][..k] == a[..k] && b[..n][..k] == b[..k];
      PrefixDecides(a[..n], b[..n], k);
    }
  }

  /** `compareBytes`: memcmp order is the order of the numbers. monerobuild.ts:270-275. */
  method CompareBytes(a: seq<Byte>, b: seq<Byte>) returns (r: int)
    requires |a| == |b|
    ensures r < 0 <==> BigEndian(a) < BigEndian(b)
    ensures r > 0 <==> BigEndian(a) > BigEndian(b)
    ensures r == 0 ==> a == b
  {
    for i := 0 to |a|
      invariant a[..i] == b[..i]
    {
      if a[i] != b[i] {
        if a[i] < b[i] { PrefixDecides(a, b, i); return -1; }
        PrefixDecides(b, a, i);
        return 1;
      }
    }
    assert a[..|a|] == a && b[..|b|] == b;
    return 0;
  }

  function SortKey(E: Group, input: BuiltInput): nat {
    BigEndian(E.encode(Encodes(input.keyImage)))
  }

  /** Key images descending. */
  ghost predicate Descending(E: Group, inputs: seq<BuiltInput>) {
    forall i, j :: 0 <= i < j < |inputs| ==> SortKey(E, inputs[i]) >= SortKey(E, inputs[j])
  }

  /** An input put behind every one whose key image is not smaller. */
  ghost function Inserted(E: Group, sorted: seq<BuiltInput>, x: BuiltInput): (r: seq<BuiltInput>)
    ensures multiset(r) == multiset(sorted) + multiset{x} && |r| == |sorted| + 1
  {
    hide SortKey;
    var n := |sorted| - 1;
    if n < 0 || SortKey(E, sorted[n]) >= SortKey(E, x) then sorted + [x]
    else
      assert sorted == sorted[..n] + [sorted[n]];
      Inserted(E, sorted[..n], x) + [sorted[n]]
  }

  /** Key images descending, inputs with one key image in the order they came in. */
  ghost function Sorted(E: Group, inputs: seq<BuiltInput>): (r: seq<BuiltInput>)
    ensures multiset(r) == multiset(inputs) && |r| == |inputs|
  {
    if inputs == [] then []
    else
      var n := |inputs| - 1;
      assert inputs == inputs[..n] + [inputs[n]];
      Inserted(E, Sorted(E, inputs[..n]), inputs[n])
  }

  lemma {:induction false} InsertedAt(E: Group, sorted: seq<BuiltInput>, x: BuiltInput, at: nat)
    requires at <= |sorted| && (at == 0 || SortKey(E, sorted[at - 1]) >= SortKey(E, x))
    requires forall i :: at <= i < |sorted| ==> SortKey(E, sorted[i]) < SortKey(E, x)
    ensures Inserted(E, sorted, x) == sorted[..at] + [x] + sorted[at..]
    decreases |sorted|
  {
    hide SortKey;
    var n := |sorted| - 1;
    if at > n {
      assert sorted[..at] + [x] + sorted[at..] == sorted + [x];
    } else {
      InsertedAt(E, sorted[..n], x, at);
      Regroup(sorted, x, at, n);
    }
  }

  lemma Regroup<T>(s: seq<T>, x: T, at: nat, n: nat)
    requires at <= n && n + 1 == |s|
    ensures s[..n][..at] + [x] + s[..n][at..] + [s[n]] == s[..at] + [x] + s[at..]
  {
  }

  lemma SortedStart(E: Group)
    ensures Sorted(E, []) == [] && Descending(E, [])
  {
  }

  lemma SortedNext(E: Group, inputs: seq<BuiltInput>, i: nat)
    requires i < |inputs|
    ensures Sorted(E, inputs[..i + 1]) == Inserted(E, Sorted(E, inputs[..i]), inputs[i])
  {
    hide Inserted;
    assert inputs[..i + 1][..i] == inputs[..i];
  }

  /** The consensus order of inputs: the same inputs, key images descending. monerobuild.ts:497. */
  method SortInputs(E: Group, inputs: seq<BuiltInput>) returns (sorted: seq<BuiltInput>)
    requires E.Valid()
    ensures multiset(sorted) == multiset(inputs) && Descending(E, sorted) && sorted == Sorted(E, inputs)
  {
    hide Group.Valid, SortKey, Inserted, Sorted, Descending;
    sorted := [];
    SortedStart(E);
    for i := 0 to |inputs|
      invariant Descending(E, sorted) && sorted == Sorted(E, inputs[..i])
    {
      var at := Place(E, sorted, inputs[i]);
      InsertKeeps(E, sorted, inputs[i], at);
      InsertedAt(E, sorted, inputs[i], at);
      SortedNext(E, inputs, i);
      sorted := sorted[..at] + [inputs[i]] + sorted[at..];
    }
    assert inputs[..|inputs|] == inputs;
  }

  method Place(E: Group, sorted: seq<BuiltInput>, x: BuiltInput) returns (at: nat)
    requires E.Valid() && Descending(E, sorted)
    ensures at <= |sorted|
    ensures forall i :: 0 <= i < at ==> SortKey(E, sorted[i]) >= SortKey(E, x)
    ensures forall i :: at <= i < |sorted| ==> SortKey(E, sorted[i]) < SortKey(E, x)
  {
    hide Descending;
    at := |sorted|;
    while at > 0
      invariant at <= |sorted|
      invariant forall i :: at <= i < |sorted| ==> SortKey(E, sorted[i]) < SortKey(E, x)
    {
      var r := CompareBytes(E.encode(Encodes(sorted[at - 1].keyImage)), E.encode(Encodes(x.keyImage)));
      if r >= 0 {
        DescendingBefore(E, sorted, at - 1);
        return;
      }
      at := at - 1;
    }
  }

  lemma DescendingBefore(E: Group, sorted: seq<BuiltInput>, k: nat)
    requires Descending(E, sorted) && k < |sorted|
    ensures forall i :: 0 <= i <= k ==> SortKey(E, sorted[i]) >= SortKey(E, sorted[k])
  {
    hide SortKey;
  }

  lemma InsertKeeps(E: Group, sorted: seq<BuiltInput>, x: BuiltInput, at: nat)
    requires Descending(E, sorted) && at <= |sorted|
    requires forall i :: 0 <= i < at ==> SortKey(E, sorted[i]) >= SortKey(E, x)
    requires forall i :: at <= i < |sorted| ==> SortKey(E, sorted[i]) < SortKey(E, x)
    ensures Descending(E, sorted[..at] + [x] + sorted[at..])
  {
    hide SortKey;
    var s := sorted[..at] + [x] + sorted[at..];
    forall i | 0 <= i < |s| ensures s[i] == if i < at then sorted[i] else if i == at then x else sorted[i - 1] {
    }
  }
}
