/** The 25-word seed: three words for four bytes, each a difference from the last, and one word repeated as a check. */
module SeedPhrase {
  import opened Primes
  import opened Bytes

  type Index = w: int | 0 <= w < 1626

  datatype Problem = WrongCount(count: nat) | NotInList(word: string) | WrongChecksum(expected: string) | DoesNotEncode

  datatype PhraseResult = Seed(bytes: seq<Byte>) | Refused(problem: Problem)

  /** The list of words, and the checksum taken over the beginnings of the words of a phrase. */
  datatype WordList = WordList(words: seq<string>, crc: seq<string> -> nat) {
    ghost predicate Valid() {
      |words| == 1626 && forall i, j :: 0 <= i < j < |words| ==> words[i] != words[j]
    }

    /** monero.ts:398-401. */
    function ChecksumIndex(body: seq<string>): (i: nat)
      requires body != []
      ensures i < |body|
    {
      crc(body) % |body|
    }
  }

  // ---- Three words for 32 bits -------------------------------------------------------

  datatype Triple = Triple(w1: Index, w2: Index, w3: Index)

  function Forward(q: nat, w: Index): (r: Index) {
    (q + w) % 1626
  }

  /** JavaScript's remainder, which keeps the sign of its left side. */
  function Remainder(a: int, n: nat): int
    requires n > 0
  {
    if a >= 0 then a % n else -(-a % n)
  }

  function Backward(a: Index, b: Index): (d: Index) {
    (Remainder(b - a, 1626) + 1626) % 1626
  }

  /** monero.ts:415-417. */
  function Split(x: nat): Triple {
    var w1 := x % 1626;
    var w2 := Forward(x / 1626, w1);
    Triple(w1, w2, Forward(x / 1626 / 1626, w2))
  }

  /** monero.ts:460. */
  function Join(t: Triple): (x: nat) {
    t.w1 + 1626 * Backward(t.w1, t.w2) + 1626 * 1626 * Backward(t.w2, t.w3)
  }

  lemma BackwardIs(a: Index, b: Index)
    ensures Backward(a, b) == if b >= a then b - a else b - a + 1626
  {
  }

  lemma ForwardIs(k: nat, d: Index, a: Index)
    ensures Forward(k * 1626 + d, a) == if d + a < 1626 then d + a else d + a - 1626
  {
    if d + a < 1626 {
      DivMod(k * 1626 + d + a, 1626, k, d + a);
    } else {
      DivMod(k * 1626 + d + a, 1626, k + 1, d + a - 1626);
    }
  }

  lemma BackOfForward(q: nat, w: Index)
    ensures Backward(w, Forward(q, w)) == q % 1626
  {
    ForwardIs(q / 1626, q % 1626, w);
    BackwardIs(w, Forward(q, w));
    hide *;
    assert q == q / 1626 * 1626 + q % 1626;
  }

  lemma ForwardOfBack(k: nat, a: Index, b: Index)
    ensures Forward(1626 * k + Backward(a, b), a) == b
  {
    hide *;
    BackwardIs(a, b);
    ForwardIs(k, Backward(a, b), a);
  }

  lemma Digits(x: nat)
    requires x < 0x1_0000_0000
    ensures x == x % 1626 + 1626 * (x / 1626 % 1626) + 1626 * 1626 * (x / 1626 / 1626)
    ensures x / 1626 / 1626 < 1626
  {
  }

  lemma DigitsBack(a: Index, b: Index, c: Index)
    ensures var x := a + 1626 * b + 1626 * 1626 * c;
      x % 1626 == a && x / 1626 == 1626 * c + b && x / 1626 / 1626 == c
  {
    DivMod(a + 1626 * b + 1626 * 1626 * c, 1626, 1626 * c + b, a);
    DivMod(1626 * c + b, 1626, c, b);
  }

  /** Every 32-bit number survives, 1626 cubed being larger than 2^32. */
  lemma JoinOfSplit(x: nat)
    requires x < 0x1_0000_0000
    ensures Join(Split(x)) == x
  {
    hide Forward, Backward;
    var t := Split(x);
    Digits(x);
    BackOfForward(x / 1626, t.w1);
    BackOfForward(x / 1626 / 1626, t.w2);
  }

  /** Any three words are the words of the number they make. */
  lemma SplitOfJoin(t: Triple)
    ensures Split(Join(t)) == t
  {
    hide Forward, Backward;
    var b, c := Backward(t.w1, t.w2), Backward(t.w2, t.w3);
    DigitsBack(t.w1, b, c);
    ForwardOfBack(c, t.w1, t.w2);
    ForwardOfBack(0, t.w2, t.w3);
  }

  /** More numbers can be spelt than 32 bits hold, which is why the reader has a refusal for it. */
  lemma SomeTriplesOverflow()
    ensures Join(Triple(1625, 1624, 1623)) == 1626 * 1626 * 1626 - 1 >= 0x1_0000_0000
  {
  }

  // ---- Four bytes -----------------------------------------------------------------------

  /** monero.ts:414. */
  function Number(b0: Byte, b1: Byte, b2: Byte, b3: Byte): (x: nat) {
    b0 + b1 * 0x100 + b2 * 0x10000 + b3 * 0x1000000
  }

  lemma BytesOfNumber(b0: Byte, b1: Byte, b2: Byte, b3: Byte)
    ensures var x := Number(b0, b1, b2, b3);
      x < 0x1_0000_0000 && x % 256 == b0 && x / 0x100 % 256 == b1 && x / 0x10000 % 256 == b2 && x / 0x1000000 % 256 == b3
  {
    var x := Number(b0, b1, b2, b3);
    DivMod(x, 0x100, b1 + b2 * 0x100 + b3 * 0x10000, b0);
    DivMod(x, 0x10000, b2 + b3 * 0x100, b0 + b1 * 0x100);
    DivMod(x, 0x1000000, b3, b0 + b1 * 0x100 + b2 * 0x10000);
    DivMod(b1 + b2 * 0x100 + b3 * 0x10000, 0x100, b2 + b3 * 0x100, b1);
    DivMod(b2 + b3 * 0x100, 0x100, b3, b2);
    hide *;
  }

  lemma NumberOfBytes(x: nat)
    requires x < 0x1_0000_0000
    ensures Number(x % 256, x / 0x100 % 256, x / 0x10000 % 256, x / 0x1000000 % 256) == x
  {
    var q := x / 256;
    var p := q / 256;
    var h := p / 256;
    BytesOfNumber(x % 256, q % 256, p % 256, h);
  }

  // ---- A phrase and its seed ---------------------------------------------------------------

  function Group(seed: seq<Byte>, g: nat): (x: nat)
    requires 4 * g + 4 <= |seed|
  {
    Number(seed[4 * g], seed[4 * g + 1], seed[4 * g + 2], seed[4 * g + 3])
  }

  ghost predicate SpeltAt(list: WordList, seed: seq<Byte>, words: seq<string>, g: nat)
    requires list.Valid() && 4 * g + 4 <= |seed| && 3 * g + 3 <= |words|
  {
    var t := Split(Group(seed, g));
    words[3 * g] == list.words[t.w1] && words[3 * g + 1] == list.words[t.w2] && words[3 * g + 2] == list.words[t.w3]
  }

  /** These 25 words are the phrase of this seed. */
  ghost predicate IsPhrase(list: WordList, seed: seq<Byte>, words: seq<string>)
    requires list.Valid()
  {
    && |seed| == 32 && |words| == 25
    && (forall g :: 0 <= g < 8 ==> SpeltAt(list, seed, words, g))
    && words[24] == words[list.ChecksumIndex(words[..24])]
  }

  lemma SpeltTheSame(list: WordList, a: seq<Byte>, b: seq<Byte>, words: seq<string>, g: nat)
    requires list.Valid() && 4 * g + 4 <= |a| && 4 * g + 4 <= |b| && 3 * g + 3 <= |words|
    requires SpeltAt(list, a, words, g) && SpeltAt(list, b, words, g)
    ensures Group(a, g) == Group(b, g) < 0x1_0000_0000
    ensures forall k :: 4 * g <= k < 4 * g + 4 ==> a[k] == b[k]
  {
    hide Split, Join, Number;
    var x, y := Group(a, g), Group(b, g);
    BytesOfNumber(a[4 * g], a[4 * g + 1], a[4 * g + 2], a[4 * g + 3]);
    BytesOfNumber(b[4 * g], b[4 * g + 1], b[4 * g + 2], b[4 * g + 3]);
    assert Split(x) == Split(y);
    JoinOfSplit(x);
    JoinOfSplit(y);
    forall k | 4 * g <= k < 4 * g + 4 ensures a[k] == b[k] {
      assert k == 4 * g || k == 4 * g + 1 || k == 4 * g + 2 || k == 4 * g + 3;
    }
  }

  lemma ByteInGroup(i: nat)
    requires i < 32
    ensures i / 4 < 8 && 4 * (i / 4) <= i < 4 * (i / 4) + 4
  {
  }

  lemma WordInGroup(i: nat)
    requires i < 24
    ensures i / 3 < 8 && (i == 3 * (i / 3) || i == 3 * (i / 3) + 1 || i == 3 * (i / 3) + 2)
  {
  }

  /** No two seeds share a phrase. */
  lemma PhraseHasOneSeed(list: WordList, a: seq<Byte>, b: seq<Byte>, words: seq<string>)
    requires list.Valid() && IsPhrase(list, a, words) && IsPhrase(list, b, words)
    ensures a == b
  {
    hide SpeltAt;
    forall i | 0 <= i < 32 ensures a[i] == b[i] {
      ByteInGroup(i);
      var g := i / 4;
      assert SpeltAt(list, a, words, g) && SpeltAt(list, b, words, g);
      SpeltTheSame(list, a, b, words, g);
    }
  }

  /** What a phrase says, word by word: each group of three words is 32 bits, lowest byte first, in differences. */
  lemma PhraseInTheOpen(list: WordList, seed: seq<Byte>, words: seq<string>, g: nat, w1: Index, w2: Index, w3: Index)
    requires list.Valid() && IsPhrase(list, seed, words) && g < 8
    requires words[3 * g] == list.words[w1] && words[3 * g + 1] == list.words[w2] && words[3 * g + 2] == list.words[w3]
    ensures 0x1000000 * (seed[4 * g + 3] as int) + 0x10000 * (seed[4 * g + 2] as int) + 0x100 * (seed[4 * g + 1] as int) + seed[4 * g]
         == w1 + 1626 * ((w2 - w1) % 1626) + 1626 * 1626 * ((w3 - w2) % 1626)
    ensures words[24] == words[list.crc(words[..24]) % 24]
  {
    hide Split, Join, Backward;
    assert SpeltAt(list, seed, words, g);
    var x := Group(seed, g);
    BytesOfNumber(seed[4 * g], seed[4 * g + 1], seed[4 * g + 2], seed[4 * g + 3]);
    assert Split(x) == Triple(w1, w2, w3);
    JoinInTheOpen(Triple(w1, w2, w3));
    JoinOfSplit(x);
  }

  lemma JoinInTheOpen(t: Triple)
    ensures Join(t) == t.w1 + 1626 * ((t.w2 - t.w1) % 1626) + 1626 * 1626 * ((t.w3 - t.w2) % 1626)
  {
    BackwardIs(t.w1, t.w2);
    BackwardIs(t.w2, t.w3);
    hide Backward;
  }

  /** No seed has two phrases. */
  lemma SeedHasOnePhrase(list: WordList, seed: seq<Byte>, u: seq<string>, v: seq<string>)
    requires list.Valid() && IsPhrase(list, seed, u) && IsPhrase(list, seed, v)
    ensures u == v
  {
    hide Split, Group;
    forall i | 0 <= i < 24 ensures u[i] == v[i] {
      WordInGroup(i);
      var g := i / 3;
      assert SpeltAt(list, seed, u, g) && SpeltAt(list, seed, v, g);
    }
    assert u[..24] == v[..24];
  }

  // ---- Writing and reading -------------------------------------------------------------------

  lemma SpeltGrows(list: WordList, seed: seq<Byte>, words: seq<string>, more: seq<string>, g: nat)
    requires list.Valid() && 4 * g + 4 <= |seed| && 3 * g + 3 <= |words|
    requires SpeltAt(list, seed, words, g)
    ensures SpeltAt(list, seed, words + more, g)
  {
    hide Split, Group;
  }

  lemma SpeltNext(list: WordList, seed: seq<Byte>, words: seq<string>, g: nat)
    requires list.Valid() && 4 * g + 4 <= |seed| && |words| == 3 * g
    ensures var t := Split(Group(seed, g));
      SpeltAt(list, seed, words + [list.words[t.w1], list.words[t.w2], list.words[t.w3]], g)
  {
    hide Split, Group;
  }

  /** monero.ts:410-422. */
  method MnemonicFromSeed(list: WordList, seed: seq<Byte>) returns (words: seq<string>)
    requires list.Valid()
    ensures |seed| != 32 ==> words == []
    ensures |seed| == 32 ==> IsPhrase(list, seed, words)
  {
    words := [];
    if |seed| != 32 {
      return;
    }
    hide Group, Split, SpeltAt;
    var i := 0;
    while i < 8
      invariant i <= 8 && |words| == 3 * i
      invariant forall g :: 0 <= g < i ==> SpeltAt(list, seed, words, g)
    {
      var t := Split(Group(seed, i));
      var three := [list.words[t.w1], list.words[t.w2], list.words[t.w3]];
      forall g | 0 <= g < i ensures SpeltAt(list, seed, words + three, g) {
        SpeltGrows(list, seed, words, three, g);
      }
      SpeltNext(list, seed, words, i);
      words := words + three;
      i := i + 1;
    }
    var last := [words[list.ChecksumIndex(words)]];
    forall g | 0 <= g < 8 ensures SpeltAt(list, seed, words + last, g) {
      SpeltGrows(list, seed, words, last, g);
    }
    assert (words + last)[..24] == words;
    words := words + last;
  }

  method IndexOf(list: WordList, word: string) returns (index: int)
    requires list.Valid()
    ensures index < 0 <==> word !in list.words
    ensures index >= 0 ==> index < 1626 && list.words[index] == word
  {
    index := 0;
    while index < |list.words|
      invariant 0 <= index <= |list.words| && word !in list.words[..index]
    {
      if list.words[index] == word {
        return;
      }
      index := index + 1;
    }
    index := -1;
  }

  /** The words stand for these places in the list. */
  ghost predicate Indexed(list: WordList, words: seq<string>, indexes: seq<Index>)
    requires list.Valid()
  {
    |indexes| <= |words| && forall k :: 0 <= k < |indexes| ==> list.words[indexes[k]] == words[k]
  }

  function TripleAt(indexes: seq<Index>, g: nat): Triple
    requires 3 * g + 3 <= |indexes|
  {
    Triple(indexes[3 * g], indexes[3 * g + 1], indexes[3 * g + 2])
  }

  lemma SpeltIsSplit(list: WordList, seed: seq<Byte>, words: seq<string>, indexes: seq<Index>, g: nat)
    requires list.Valid() && 4 * g + 4 <= |seed| && 3 * g + 3 <= |indexes| && Indexed(list, words, indexes)
    ensures SpeltAt(list, seed, words, g) <==> Split(Group(seed, g)) == TripleAt(indexes, g)
  {
    hide Split, Group;
  }

  /** A triple that makes a number over 32 bits is in no phrase. */
  lemma TooLargeIsNoPhrase(list: WordList, seed: seq<Byte>, words: seq<string>, indexes: seq<Index>, g: nat)
    requires list.Valid() && g < 8 && |indexes| == 24 && Indexed(list, words, indexes)
    requires Join(TripleAt(indexes, g)) >= 0x1_0000_0000
    ensures !IsPhrase(list, seed, words)
  {
    hide Join, Split, Number;
    if |seed| == 32 && |words| == 25 && SpeltAt(list, seed, words, g) {
      SpeltIsSplit(list, seed, words, indexes, g);
      BytesOfNumber(seed[4 * g], seed[4 * g + 1], seed[4 * g + 2], seed[4 * g + 3]);
      JoinOfSplit(Group(seed, g));
      assert false;
    }
  }

  /** Every word of a phrase is in the list. */
  lemma PhraseIsInList(list: WordList, seed: seq<Byte>, words: seq<string>, i: nat)
    requires list.Valid() && IsPhrase(list, seed, words) && i < 24
    ensures words[i] in list.words
  {
    hide Split, Group;
    WordInGroup(i);
    assert SpeltAt(list, seed, words, i / 3);
  }

  /** The four bytes written for one group spell its three words. */
  lemma WrittenGroup(list: WordList, seed: seq<Byte>, words: seq<string>, indexes: seq<Index>, g: nat, x: nat)
    requires list.Valid() && 4 * g + 4 <= |seed| && 3 * g + 3 <= |indexes| && Indexed(list, words, indexes)
    requires x == Join(TripleAt(indexes, g)) < 0x1_0000_0000
    requires seed[4 * g] == x % 256 && seed[4 * g + 1] == x / 0x100 % 256
    requires seed[4 * g + 2] == x / 0x10000 % 256 && seed[4 * g + 3] == x / 0x1000000 % 256
    ensures SpeltAt(list, seed, words, g)
  {
    hide Join, Split, Number;
    NumberOfBytes(x);
    SplitOfJoin(TripleAt(indexes, g));
    SpeltIsSplit(list, seed, words, indexes, g);
  }

  lemma SpeltKept(list: WordList, a: seq<Byte>, b: seq<Byte>, words: seq<string>, g: nat)
    requires list.Valid() && 4 * g + 4 <= |a| && 4 * g + 4 <= |b| && 3 * g + 3 <= |words|
    requires a[4 * g] == b[4 * g] && a[4 * g + 1] == b[4 * g + 1] && a[4 * g + 2] == b[4 * g + 2] && a[4 * g + 3] == b[4 * g + 3]
    requires SpeltAt(list, a, words, g)
    ensures SpeltAt(list, b, words, g)
  {
    hide Split, Number;
  }

  /** monero.ts:455-467: the indexes made into 32 bytes. */
  method Decode(list: WordList, words: seq<string>, indexes: seq<Index>) returns (r: PhraseResult)
    requires list.Valid() && |words| == 25 && |indexes| == 24 && Indexed(list, words, indexes)
    ensures r.Refused? ==> r.problem.DoesNotEncode? && forall s :: !IsPhrase(list, s, words)
    ensures r.Seed? ==> |r.bytes| == 32 && forall g :: 0 <= g < 8 ==> SpeltAt(list, r.bytes, words, g)
  {
    hide Split, Group, SpeltAt, Join, IsPhrase, Indexed, TripleAt, WordList.Valid;
    var seed := new Byte[32];
    var g := 0;
    while g < 8
      invariant g <= 8
      invariant forall h :: 0 <= h < g ==> SpeltAt(list, seed[..], words, h)
    {
      var x := Join(TripleAt(indexes, g));
      if x >= 0x1_0000_0000 {
        forall s ensures !IsPhrase(list, s, words) {
          TooLargeIsNoPhrase(list, s, words, indexes, g);
        }
        return Refused(DoesNotEncode);
      }
      ghost var before := seed[..];
      seed[g * 4] := x % 256;
      seed[g * 4 + 1] := x / 0x100 % 256;
      seed[g * 4 + 2] := x / 0x10000 % 256;
      seed[g * 4 + 3] := x / 0x1000000 % 256;
      WrittenGroup(list, seed[..], words, indexes, g, x);
      forall h | 0 <= h < g ensures SpeltAt(list, seed[..], words, h) {
        SpeltKept(list, before, seed[..], words, h);
      }
      g := g + 1;
    }
    return Seed(seed[..]);
  }

  ghost predicate FirstUnknown(list: WordList, words: seq<string>, word: string) {
    exists k :: 0 <= k < 24 <= |words| && words[k] == word && word !in list.words && forall j :: 0 <= j < k ==> words[j] in list.words
  }

  /**
   * monero.ts:430-468, over the trimmed and lower-cased words: a phrase is read exactly when it is some seed's, and
   * then as that seed.
   */
  method SeedFromMnemonic(list: WordList, words: seq<string>) returns (r: PhraseResult)
    requires list.Valid()
    ensures r.Seed? <==> exists s :: IsPhrase(list, s, words)
    ensures r.Seed? ==> IsPhrase(list, r.bytes, words)
    ensures r.Refused? && r.problem.WrongCount? <==> |words| != 25
    ensures r.Refused? && r.problem.NotInList? ==> FirstUnknown(list, words, r.problem.word)
    ensures r.Refused? && r.problem.WrongChecksum? ==>
      && |words| == 25 && (forall k :: 0 <= k < 24 ==> words[k] in list.words)
      && words[24] != r.problem.expected == words[list.ChecksumIndex(words[..24])]
    ensures r.Refused? && r.problem.DoesNotEncode? ==>
      && |words| == 25 && (forall k :: 0 <= k < 24 ==> words[k] in list.words)
      && words[24] == words[list.ChecksumIndex(words[..24])]
  {
    if |words| != 25 {
      return Refused(WrongCount(|words|));
    }
    hide Split, Group, SpeltAt, Join;
    var body := words[..24];
    var indexes: seq<Index> := [];
    var i := 0;
    while i < 24
      invariant i == |indexes| <= 24 && Indexed(list, words, indexes)
      invariant forall k :: 0 <= k < i ==> words[k] in list.words
    {
      var index := IndexOf(list, body[i]);
      if index < 0 {
        forall s | IsPhrase(list, s, words) ensures words[i] in list.words {
          PhraseIsInList(list, s, words, i);
        }
        return Refused(NotInList(body[i]));
      }
      indexes := indexes + [index];
      i := i + 1;
    }
    var expected := body[list.ChecksumIndex(body)];
    if words[24] != expected {
      return Refused(WrongChecksum(expected));
    }
    r := Decode(list, words, indexes);
    assert r.Seed? ==> IsPhrase(list, r.bytes, words);
  }

  // ---- Both ways round -------------------------------------------------------------------------

  /** monero.ts:410-468: every 32-byte seed comes back from its phrase. */
  method SeedComesBack(list: WordList, seed: seq<Byte>) returns (r: PhraseResult)
    requires list.Valid() && |seed| == 32
    ensures r == Seed(seed)
  {
    var words := MnemonicFromSeed(list, seed);
    r := SeedFromMnemonic(list, words);
    PhraseHasOneSeed(list, r.bytes, seed, words);
  }

  /** monero.ts:410-468: any words that are read are written again. */
  method WordsComeBack(list: WordList, words: seq<string>) returns (r: PhraseResult, again: seq<string>)
    requires list.Valid()
    ensures r.Seed? ==> again == words
  {
    again := [];
    r := SeedFromMnemonic(list, words);
    if r.Seed? {
      again := MnemonicFromSeed(list, r.bytes);
      SeedHasOnePhrase(list, r.bytes, again, words);
    }
  }
}
