/** The subset of CBOR (RFC 8949) that frames are wrapped in: numbers, byte strings and arrays, in shortest form only. */
module Cbor {
  import opened Primes
  import opened Bytes

  datatype Option<T> = None | Some(value: T)

  datatype Value = Number(n: nat) | String(bytes: seq<Byte>) | Items(items: seq<Value>)

  type Major = m: int | 0 <= m < 8

  datatype Header = Header(major: Major, length: nat)

  /** cbor.ts:46-63. */
  function Head(major: Major, length: nat): (bytes: seq<Byte>)
    ensures |bytes| > 0
  {
    if length < 24 then [major * 32 + length]
    else if length < 0x100 then [major * 32 + 24, length]
    else if length < 0x10000 then [major * 32 + 25, length / 0x100 % 256, length % 256]
    else [major * 32 + 26, length / 0x1000000 % 256, length / 0x10000 % 256, length / 0x100 % 256, length % 256]
  }

  function Encoding(value: Value): (bytes: seq<Byte>)
    decreases value, if value.Items? then |value.items| + 1 else 0
  {
    match value
    case Number(n) => Head(0, n)
    case String(b) => Head(2, |b|) + b
    case Items(items) => Head(4, |items|) + EncodingOf(value, |items|)
  }

  /** The first k items of an array. */
  function EncodingOf(value: Value, k: nat): (bytes: seq<Byte>)
    requires value.Items? && k <= |value.items|
    decreases value, k
  {
    if k == 0 then [] else EncodingOf(value, k - 1) + Encoding(value.items[k - 1])
  }

  /** What the writer does not throw at. */
  predicate Writable(value: Value) {
    match value
    case Number(n) => n <= 0xffff_ffff
    case String(_) => true
    case Items(items) => forall i :: 0 <= i < |items| ==> Writable(items[i])
  }

  /** No number and no length over 32 bits, and nothing nested more than so deep. */
  predicate Readable(value: Value, levels: nat)
    decreases value
  {
    levels > 0 &&
    match value
    case Number(n) => n <= 0xffff_ffff
    case String(b) => |b| <= 0xffff_ffff
    case Items(items) => |items| <= 0xffff_ffff && forall i :: 0 <= i < |items| ==> Readable(items[i], levels - 1)
  }

  // ---- Heads ---------------------------------------------------------------------------

  /** How many bytes of length follow the first byte, and the number they write. */
  function Width(info: nat): (w: nat) {
    if info < 24 then 0 else if info == 24 then 1 else if info == 25 then 2 else 4
  }

  function BigEndian(bytes: seq<Byte>): (n: nat) {
    if bytes == [] then 0 else BigEndian(bytes[..|bytes| - 1]) * 256 + bytes[|bytes| - 1]
  }

  lemma OneByte(a: Byte)
    ensures BigEndian([a]) == a
  {
  }

  lemma TwoBytes(a: Byte, b: Byte)
    ensures BigEndian([a, b]) == a * 0x100 + b
  {
    assert [a, b][..1] == [a];
    OneByte(a);
  }

  lemma FourBytes(a: Byte, b: Byte, c: Byte, d: Byte)
    ensures BigEndian([a, b, c, d]) == a * 0x1000000 + b * 0x10000 + c * 0x100 + d
  {
    assert [a, b, c, d][..3] == [a, b, c] && [a, b, c][..2] == [a, b];
    TwoBytes(a, b);
  }

  lemma SplitTwo(n: nat)
    requires n < 0x10000
    ensures n == n / 0x100 % 256 * 0x100 + n % 256
  {
  }

  lemma SplitFour(n: nat)
    requires n < 0x1_0000_0000
    ensures n == n / 0x1000000 % 256 * 0x1000000 + n / 0x10000 % 256 * 0x10000 + n / 0x100 % 256 * 0x100 + n % 256
  {
    var p, q := n / 0x100, n / 0x10000;
    assert p == p / 0x100 * 0x100 + p % 256;
    assert q == q / 0x100 * 0x100 + q % 256;
    assert p / 0x100 == q && q / 0x100 == n / 0x1000000;
  }

  lemma JoinTwo(a: Byte, b: Byte)
    ensures var n := a * 0x100 + b; n / 0x100 % 256 == a && n % 256 == b
  {
  }

  lemma JoinFour(a: Byte, b: Byte, c: Byte, d: Byte)
    ensures var n := a * 0x1000000 + b * 0x10000 + c * 0x100 + d;
      n / 0x1000000 % 256 == a && n / 0x10000 % 256 == b && n / 0x100 % 256 == c && n % 256 == d
  {
    var n := a * 0x1000000 + b * 0x10000 + c * 0x100 + d;
    DivMod(n, 0x1000000, a, b * 0x10000 + c * 0x100 + d);
    DivMod(n, 0x10000, a * 0x100 + b, c * 0x100 + d);
    DivMod(n, 0x100, a * 0x10000 + b * 0x100 + c, d);
    DivMod(a * 0x100 + b, 0x100, a, b);
    DivMod(a * 0x10000 + b * 0x100 + c, 0x100, a * 0x100 + b, c);
    hide *;
  }

  /** The low five bits of the first byte of a head. */
  function Info(length: nat): (info: nat)
    ensures info < 27
  {
    if length < 24 then length else if length < 0x100 then 24 else if length < 0x10000 then 25 else 26
  }

  lemma FirstByte(major: Major, info: nat)
    requires info < 32
    ensures (major * 32 + info) / 32 == major && (major * 32 + info) % 32 == info
  {
  }

  lemma HeadParts(major: Major, length: nat)
    requires length <= 0xffff_ffff
    ensures var h := Head(major, length);
      && h[0] == major * 32 + Info(length) && |h| == 1 + Width(Info(length))
      && (length >= 24 ==> BigEndian(h[1..]) == length)
  {
    hide BigEndian;
    var h := Head(major, length);
    if length < 24 {
    } else if length < 0x100 {
      assert h[1..] == [length];
      OneByte(length);
    } else if length < 0x10000 {
      assert h[1..] == [length / 0x100 % 256, length % 256];
      TwoBytes(length / 0x100 % 256, length % 256);
      SplitTwo(length);
    } else {
      assert h[1..] == [length / 0x1000000 % 256, length / 0x10000 % 256, length / 0x100 % 256, length % 256];
      FourBytes(length / 0x1000000 % 256, length / 0x10000 % 256, length / 0x100 % 256, length % 256);
      SplitFour(length);
    }
  }

  /** Bytes that read as a head in its shortest form are that head. */
  lemma HeadFromParts(h: seq<Byte>, major: Major, info: nat)
    requires info < 27 && |h| == 1 + Width(info) && h[0] == major * 32 + info
    requires info >= 24 ==> Info(BigEndian(h[1..])) == info
    ensures h == Head(major, if info < 24 then info else BigEndian(h[1..]))
  {
    hide BigEndian;
    if info < 24 {
    } else if info == 24 {
      assert h[1..] == [h[1]];
      OneByte(h[1]);
    } else if info == 25 {
      assert h[1..] == [h[1], h[2]];
      TwoBytes(h[1], h[2]);
      JoinTwo(h[1], h[2]);
    } else {
      assert h[1..] == [h[1], h[2], h[3], h[4]];
      FourBytes(h[1], h[2], h[3], h[4]);
      JoinFour(h[1], h[2], h[3], h[4]);
    }
  }

  /** The bytes from here on start with these. */
  predicate At(bytes: seq<Byte>, at: nat, part: seq<Byte>) {
    at + |part| <= |bytes| && bytes[at..at + |part|] == part
  }

  /** At most one head can stand at a place. */
  lemma OneHead(bytes: seq<Byte>, at: nat, m: Major, l: nat, m': Major, l': nat)
    requires l <= 0xffff_ffff && l' <= 0xffff_ffff && At(bytes, at, Head(m, l)) && At(bytes, at, Head(m', l'))
    ensures m == m' && l == l'
  {
    hide BigEndian, Head;
    HeadParts(m, l);
    HeadParts(m', l');
    var h, h' := Head(m, l), Head(m', l');
    assert h[0] == bytes[at] == h'[0];
    FirstByte(m, Info(l));
    FirstByte(m', Info(l'));
    assert h == h';
  }

  class Cursor {
    var at: nat

    constructor ()
      ensures at == 0
    {
      at := 0;
    }
  }

  /** cbor.ts:147-170: the head that stands here, unless none does. */
  method ReadHead(bytes: seq<Byte>, cursor: Cursor) returns (r: Option<Header>)
    modifies cursor
    ensures r.Some? ==> r.value.length <= 0xffff_ffff && At(bytes, old(cursor.at), Head(r.value.major, r.value.length))
    ensures r.Some? ==> cursor.at == old(cursor.at) + |Head(r.value.major, r.value.length)|
    ensures r.None? ==> forall m: Major, l: nat :: l <= 0xffff_ffff ==> !At(bytes, old(cursor.at), Head(m, l))
  {
    hide Head, BigEndian;
    if cursor.at >= |bytes| {
      return None;
    }
    ghost var start := cursor.at;
    var initial := bytes[cursor.at];
    cursor.at := cursor.at + 1;
    var major: Major := initial / 32;
    var info := initial % 32;
    if info < 24 {
      HeadFromParts([initial], major, info);
      return Some(Header(major, info));
    }
    forall m: Major, l: nat | l <= 0xffff_ffff && At(bytes, start, Head(m, l))
      ensures info == Info(l) && start + 1 + Width(info) <= |bytes| && l == BigEndian(bytes[start + 1..start + 1 + Width(info)])
    {
      StandingHead(bytes, start, m, l);
    }
    var width := if info == 24 then 1 else if info == 25 then 2 else if info == 26 then 4 else 0;
    if width == 0 {
      return None;
    }
    if cursor.at + width > |bytes| {
      return None;
    }
    var length: nat := 0;
    var i := 0;
    EmptyNumber();
    assert bytes[start + 1..start + 1] == [];
    while i < width
      invariant i <= width && cursor.at == start + 1 + i
      invariant length == BigEndian(bytes[start + 1..start + 1 + i])
    {
      NextByte(bytes[start + 1..start + 2 + i]);
      assert bytes[start + 1..start + 2 + i][..i] == bytes[start + 1..start + 1 + i];
      length := length * 256 + bytes[cursor.at];
      cursor.at := cursor.at + 1;
      i := i + 1;
    }
    var minimal := if length < 24 then 0 else if length < 0x100 then 1 else if length < 0x10000 then 2 else 4;
    if width != minimal {
      return None;
    }
    var h := bytes[start..start + 1 + width];
    assert h[1..] == bytes[start + 1..start + 1 + width];
    HeadFromParts(h, major, info);
    FitsIn32(bytes[start + 1..start + 1 + width]);
    return Some(Header(major, length));
  }

  lemma StandingHead(bytes: seq<Byte>, at: nat, m: Major, l: nat)
    requires l <= 0xffff_ffff && At(bytes, at, Head(m, l))
    ensures at < |bytes| && bytes[at] / 32 == m && bytes[at] % 32 == Info(l) && at + 1 + Width(Info(l)) <= |bytes|
    ensures l >= 24 ==> l == BigEndian(bytes[at + 1..at + 1 + Width(Info(l))])
  {
    hide BigEndian, Head;
    HeadParts(m, l);
    FirstByte(m, Info(l));
    var h := Head(m, l);
    assert h[0] == bytes[at];
    assert h[1..] == bytes[at + 1..at + |h|];
  }

  lemma EmptyNumber()
    ensures BigEndian([]) == 0
  {
  }

  lemma NextByte(bytes: seq<Byte>)
    requires bytes != []
    ensures BigEndian(bytes) == BigEndian(bytes[..|bytes| - 1]) * 256 + bytes[|bytes| - 1]
  {
  }

  lemma FitsIn32(bytes: seq<Byte>)
    requires |bytes| == 1 || |bytes| == 2 || |bytes| == 4
    ensures BigEndian(bytes) <= 0xffff_ffff
  {
    hide BigEndian;
    if |bytes| == 1 {
      assert bytes == [bytes[0]];
      OneByte(bytes[0]);
    } else if |bytes| == 2 {
      assert bytes == [bytes[0], bytes[1]];
      TwoBytes(bytes[0], bytes[1]);
    } else {
      assert bytes == [bytes[0], bytes[1], bytes[2], bytes[3]];
      FourBytes(bytes[0], bytes[1], bytes[2], bytes[3]);
    }
  }

  // ---- Values ----------------------------------------------------------------------------

  lemma AtConcat(bytes: seq<Byte>, at: nat, a: seq<Byte>, b: seq<Byte>)
    ensures At(bytes, at, a + b) <==> At(bytes, at, a) && At(bytes, at + |a|, b)
  {
    if At(bytes, at, a + b) {
      assert bytes[at..at + |a|] == bytes[at..at + |a + b|][..|a|];
      assert bytes[at + |a|..at + |a| + |b|] == bytes[at..at + |a + b|][|a|..];
    }
    if At(bytes, at, a) && At(bytes, at + |a|, b) {
      assert bytes[at..at + |a + b|] == bytes[at..at + |a|] + bytes[at + |a|..at + |a| + |b|];
    }
  }

  lemma SameAt(bytes: seq<Byte>, at: nat, a: seq<Byte>, b: seq<Byte>)
    requires |a| == |b| && At(bytes, at, a) && At(bytes, at, b)
    ensures a == b
  {
  }

  function HeadOf(value: Value): (h: Header) {
    match value
    case Number(n) => Header(0, n)
    case String(b) => Header(2, |b|)
    case Items(items) => Header(4, |items|)
  }

  function Body(value: Value): (bytes: seq<Byte>) {
    match value
    case Number(_) => []
    case String(b) => b
    case Items(items) => EncodingOf(value, |items|)
  }

  lemma HeadThenBody(value: Value, bytes: seq<Byte>, at: nat)
    ensures At(bytes, at, Encoding(value)) <==>
      && At(bytes, at, Head(HeadOf(value).major, HeadOf(value).length))
      && At(bytes, at + |Head(HeadOf(value).major, HeadOf(value).length)|, Body(value))
    ensures |Encoding(value)| == |Head(HeadOf(value).major, HeadOf(value).length)| + |Body(value)|
  {
    hide Head, At;
    var h := Head(HeadOf(value).major, HeadOf(value).length);
    assert Encoding(value) == h + Body(value);
    AtConcat(bytes, at, h, Body(value));
  }

  lemma {:induction false} ItemWithin(value: Value, bytes: seq<Byte>, at: nat, n: nat, k: nat)
    requires value.Items? && k < n <= |value.items| && At(bytes, at, EncodingOf(value, n))
    ensures At(bytes, at, EncodingOf(value, k)) && At(bytes, at + |EncodingOf(value, k)|, Encoding(value.items[k]))
    decreases n
  {
    hide Encoding, At;
    AtConcat(bytes, at, EncodingOf(value, n - 1), Encoding(value.items[n - 1]));
    if k < n - 1 {
      ItemWithin(value, bytes, at, n - 1, k);
    }
  }

  lemma {:induction false} SamePrefix(u: Value, v: Value, k: nat)
    requires u.Items? && v.Items? && k <= |u.items| && k <= |v.items| && u.items[..k] == v.items[..k]
    ensures EncodingOf(u, k) == EncodingOf(v, k)
  {
    hide Encoding;
    if k > 0 {
      assert u.items[..k - 1] == u.items[..k][..k - 1] && v.items[..k - 1] == v.items[..k][..k - 1];
      assert u.items[k - 1] == u.items[..k][k - 1] == v.items[..k][k - 1];
      SamePrefix(u, v, k - 1);
    }
  }

  lemma ReadableHead(value: Value, levels: nat)
    requires Readable(value, levels)
    ensures HeadOf(value).length <= 0xffff_ffff && levels > 0
    ensures value.Items? ==> forall i :: 0 <= i < |value.items| ==> Readable(value.items[i], levels - 1)
  {
  }

  /** No encoding is the beginning of another: at most one value can stand at a place. */
  lemma {:induction false} OneValue(bytes: seq<Byte>, at: nat, u: Value, v: Value, levels: nat)
    requires Readable(u, levels) && Readable(v, levels) && At(bytes, at, Encoding(u)) && At(bytes, at, Encoding(v))
    ensures u == v
    decreases u, if u.Items? then |u.items| + 1 else 0
  {
    hide Encoding, At, Head, Readable;
    ReadableHead(u, levels);
    ReadableHead(v, levels);
    HeadThenBody(u, bytes, at);
    HeadThenBody(v, bytes, at);
    OneHead(bytes, at, HeadOf(u).major, HeadOf(u).length, HeadOf(v).major, HeadOf(v).length);
    var from := at + |Head(HeadOf(u).major, HeadOf(u).length)|;
    if u.String? {
      SameAt(bytes, from, u.bytes, v.bytes);
    } else if u.Items? {
      SameItems(bytes, from, u, v, levels, |u.items|);
      assert u.items[..|u.items|] == u.items && v.items[..|v.items|] == v.items;
    }
  }

  lemma {:induction false} SameItems(bytes: seq<Byte>, at: nat, u: Value, v: Value, levels: nat, k: nat)
    requires u.Items? && v.Items? && k <= |u.items| && k <= |v.items| && levels > 0
    requires forall i :: 0 <= i < k ==> Readable(u.items[i], levels - 1) && Readable(v.items[i], levels - 1)
    requires At(bytes, at, EncodingOf(u, k)) && At(bytes, at, EncodingOf(v, k))
    ensures u.items[..k] == v.items[..k]
    decreases u, k
  {
    hide Encoding, At, Head, Readable, EncodingOf;
    if k > 0 {
      ItemWithin(u, bytes, at, k, k - 1);
      ItemWithin(v, bytes, at, k, k - 1);
      SameItems(bytes, at, u, v, levels, k - 1);
      SamePrefix(u, v, k - 1);
      OneValue(bytes, at + |EncodingOf(u, k - 1)|, u.items[k - 1], v.items[k - 1], levels - 1);
      assert u.items[..k] == u.items[..k - 1] + [u.items[k - 1]] && v.items[..k] == v.items[..k - 1] + [v.items[k - 1]];
    }
  }

  // ---- The reader ------------------------------------------------------------------------------

  /** How many levels may still be entered. */
  function Levels(depth: nat): (levels: nat) {
    if depth > 4 then 0 else 5 - depth
  }

  /** cbor.ts:172-197: the value that stands here, unless none does. */
  method Read(bytes: seq<Byte>, cursor: Cursor, depth: nat) returns (r: Option<Value>)
    modifies cursor
    ensures r.Some? ==> Readable(r.value, Levels(depth)) && At(bytes, old(cursor.at), Encoding(r.value))
    ensures r.Some? ==> cursor.at == old(cursor.at) + |Encoding(r.value)|
    ensures r.None? ==> forall v :: Readable(v, Levels(depth)) ==> !At(bytes, old(cursor.at), Encoding(v))
    decreases Levels(depth)
  {
    hide Encoding, Head, EncodingOf, At, Readable, Body;
    if depth > 4 {
      NothingAtDepth(depth);
      return None;
    }
    ghost var start := cursor.at;
    var header := ReadHead(bytes, cursor);
    forall v | Readable(v, Levels(depth)) && At(bytes, start, Encoding(v))
      ensures header == Some(HeadOf(v)) && At(bytes, cursor.at, Body(v))
    {
      HeadStands(bytes, start, v, Levels(depth), header);
    }
    if header.None? {
      return None;
    }
    var length := header.value.length;
    if header.value.major == 0 {
      r := Some(Number(length));
      NumberStands(bytes, start, length, Levels(depth));
    } else if header.value.major == 2 {
      forall v | Readable(v, Levels(depth)) && At(bytes, start, Encoding(v)) ensures cursor.at + length <= |bytes| {
        StringFits(bytes, cursor.at, v);
      }
      if cursor.at + length > |bytes| {
        return None;
      }
      r := Some(String(bytes[cursor.at..cursor.at + length]));
      StringStands(bytes, start, length, Levels(depth));
      cursor.at := cursor.at + length;
    } else if header.value.major == 4 {
      forall v | HeadOf(v) == header.value ensures v.Items? && |v.items| == length && Body(v) == EncodingOf(v, length) {
        BodyOfItems(v);
      }
      StartsWithin(bytes, start, header.value);
      r := ReadItems(bytes, cursor, depth, length);
      if r.Some? {
        ItemsStand(bytes, start, r.value);
      }
    } else {
      return None;
    }
  }

  lemma NothingAtDepth(depth: nat)
    requires depth > 4
    ensures forall v :: !Readable(v, Levels(depth))
  {
  }

  lemma NumberStands(bytes: seq<Byte>, at: nat, n: nat, levels: nat)
    requires n <= 0xffff_ffff && levels > 0 && At(bytes, at, Head(0, n))
    ensures Readable(Number(n), levels) && At(bytes, at, Encoding(Number(n))) && Encoding(Number(n)) == Head(0, n)
  {
    hide Head;
  }

  lemma StringFits(bytes: seq<Byte>, at: nat, v: Value)
    requires At(bytes, at, Body(v)) && HeadOf(v).major == 2
    ensures at + HeadOf(v).length <= |bytes|
  {
  }

  lemma StringStands(bytes: seq<Byte>, at: nat, n: nat, levels: nat)
    requires n <= 0xffff_ffff && levels > 0 && At(bytes, at, Head(2, n)) && at + |Head(2, n)| + n <= |bytes|
    ensures var from := at + |Head(2, n)|; var v := String(bytes[from..from + n]);
      Readable(v, levels) && At(bytes, at, Encoding(v)) && |Encoding(v)| == |Head(2, n)| + n
  {
    hide Head;
    var from := at + |Head(2, n)|;
    HeadThenBody(String(bytes[from..from + n]), bytes, at);
  }

  lemma BodyOfItems(v: Value)
    requires HeadOf(v).major == 4
    ensures v.Items? && Body(v) == EncodingOf(v, |v.items|)
  {
  }

  lemma StartsWithin(bytes: seq<Byte>, at: nat, header: Header)
    requires At(bytes, at, Head(header.major, header.length))
    ensures at + |Head(header.major, header.length)| <= |bytes|
  {
    hide Head;
  }

  lemma ItemsStand(bytes: seq<Byte>, at: nat, v: Value)
    requires v.Items? && At(bytes, at, Head(4, |v.items|))
    requires At(bytes, at + |Head(4, |v.items|)|, EncodingOf(v, |v.items|))
    ensures At(bytes, at, Encoding(v)) && |Encoding(v)| == |Head(4, |v.items|)| + |EncodingOf(v, |v.items|)|
  {
    hide Head, Encoding, At;
    HeadThenBody(v, bytes, at);
  }

  lemma HeadStands(bytes: seq<Byte>, at: nat, v: Value, levels: nat, header: Option<Header>)
    requires Readable(v, levels) && At(bytes, at, Encoding(v))
    requires header.Some? ==> header.value.length <= 0xffff_ffff && At(bytes, at, Head(header.value.major, header.value.length))
    requires header.None? ==> forall m: Major, l: nat :: l <= 0xffff_ffff ==> !At(bytes, at, Head(m, l))
    ensures header == Some(HeadOf(v)) && At(bytes, at + |Head(header.value.major, header.value.length)|, Body(v))
  {
    hide Encoding, At, Head, Readable, Body;
    ReadableHead(v, levels);
    HeadThenBody(v, bytes, at);
    if header.Some? {
      OneHead(bytes, at, HeadOf(v).major, HeadOf(v).length, header.value.major, header.value.length);
    }
  }

  /** cbor.ts:186-194: the items of an array, one after another. */
  method ReadItems(bytes: seq<Byte>, cursor: Cursor, depth: nat, length: nat) returns (r: Option<Value>)
    requires depth <= 4 && length <= 0xffff_ffff && cursor.at <= |bytes|
    modifies cursor
    ensures r.Some? ==>
      && r.value.Items? && |r.value.items| == length && Readable(r.value, Levels(depth))
      && At(bytes, old(cursor.at), EncodingOf(r.value, length)) && cursor.at == old(cursor.at) + |EncodingOf(r.value, length)|
    ensures r.None? ==> forall v :: Readable(v, Levels(depth)) && v.Items? && |v.items| == length ==>
      !At(bytes, old(cursor.at), EncodingOf(v, length))
    decreases Levels(depth), 0
  {
    hide Encoding, Head, At, EncodingOf;
    ghost var start := cursor.at;
    var items: seq<Value> := [];
    NoItems(bytes, start);
    var i := 0;
    while i < length
      invariant |items| == i <= length
      invariant forall j :: 0 <= j < i ==> Readable(items[j], Levels(depth) - 1)
      invariant At(bytes, start, EncodingOf(Items(items), i)) && cursor.at == start + |EncodingOf(Items(items), i)|
    {
      forall v | Readable(v, Levels(depth)) && v.Items? && |v.items| == length && At(bytes, start, EncodingOf(v, length))
        ensures At(bytes, start + |EncodingOf(Items(items), i)|, Encoding(v.items[i])) && Readable(v.items[i], Levels(depth) - 1)
      {
        ItemStands(bytes, start, v, items, Levels(depth));
      }
      var item := Read(bytes, cursor, depth + 1);
      if item.None? {
        return None;
      }
      PushItem(bytes, start, items, item.value);
      items := items + [item.value];
      i := i + 1;
    }
    return Some(Items(items));
  }

  lemma NoItems(bytes: seq<Byte>, at: nat)
    ensures EncodingOf(Items([]), 0) == []
    ensures at <= |bytes| ==> At(bytes, at, [])
  {
  }

  lemma PushItem(bytes: seq<Byte>, at: nat, items: seq<Value>, item: Value)
    requires At(bytes, at, EncodingOf(Items(items), |items|))
    requires At(bytes, at + |EncodingOf(Items(items), |items|)|, Encoding(item))
    ensures var more := Items(items + [item]);
      && EncodingOf(more, |items| + 1) == EncodingOf(Items(items), |items|) + Encoding(item)
      && At(bytes, at, EncodingOf(more, |items| + 1))
  {
    hide Encoding, At;
    SamePrefix(Items(items), Items(items + [item]), |items|);
    AtConcat(bytes, at, EncodingOf(Items(items), |items|), Encoding(item));
  }

  lemma ItemStands(bytes: seq<Byte>, at: nat, v: Value, items: seq<Value>, levels: nat)
    requires Readable(v, levels) && v.Items? && |items| < |v.items| && At(bytes, at, EncodingOf(v, |v.items|))
    requires forall j :: 0 <= j < |items| ==> Readable(items[j], levels - 1)
    requires At(bytes, at, EncodingOf(Items(items), |items|))
    ensures At(bytes, at + |EncodingOf(Items(items), |items|)|, Encoding(v.items[|items|]))
    ensures Readable(v.items[|items|], levels - 1)
  {
    hide Encoding, At, EncodingOf, Readable;
    var k := |items|;
    ReadableHead(v, levels);
    ItemWithin(v, bytes, at, |v.items|, k);
    SameItems(bytes, at, Items(items), v, levels, k);
    SamePrefix(Items(items), v, k);
  }

  /** cbor.ts:199-207: bytes are read exactly when they are the encoding of something readable, and then as that. */
  method Decode(bytes: seq<Byte>) returns (r: Option<Value>)
    ensures r.Some? ==> Readable(r.value, 5) && Encoding(r.value) == bytes
    ensures r.None? ==> forall v :: Readable(v, 5) ==> Encoding(v) != bytes
  {
    hide Encoding, Readable;
    var cursor := new Cursor();
    r := Read(bytes, cursor, 0);
    forall v | Readable(v, 5) && Encoding(v) == bytes ensures At(bytes, 0, Encoding(v)) && (r.Some? ==> r.value == v) {
      assert bytes[0..|bytes|] == bytes;
      if r.Some? {
        OneValue(bytes, 0, r.value, v, 5);
      }
    }
    if r.None? {
      return;
    }
    if cursor.at != |bytes| {
      return None;
    }
    assert bytes[0..|bytes|] == bytes;
  }

  // ---- The writer ------------------------------------------------------------------------------

  class Output {
    var bytes: seq<Byte>

    constructor ()
      ensures bytes == []
    {
      bytes := [];
    }

    method Push(more: seq<Byte>)
      modifies this
      ensures bytes == old(bytes) + more
    {
      bytes := bytes + more;
    }
  }

  /** cbor.ts:65-84: false where the source throws. */
  method Write(value: Value, out: Output) returns (ok: bool)
    modifies out
    ensures ok <==> Writable(value)
    ensures ok ==> out.bytes == old(out.bytes) + Encoding(value)
    decreases value
  {
    hide Head;
    match value {
      case Number(n) =>
        if n > 0xffff_ffff {
          return false;
        }
        out.Push(Head(0, n));
      case String(b) =>
        out.Push(Head(2, |b|));
        out.Push(b);
      case Items(items) =>
        ghost var was := out.bytes;
        out.Push(Head(4, |items|));
        var i := 0;
        while i < |items|
          invariant i <= |items| && forall j :: 0 <= j < i ==> Writable(items[j])
          invariant out.bytes == was + Head(4, |items|) + EncodingOf(value, i)
        {
          var done := Write(items[i], out);
          if !done {
            return false;
          }
          i := i + 1;
        }
    }
    return true;
  }

  /** cbor.ts:86-90. */
  method Encode(value: Value) returns (r: Option<seq<Byte>>)
    ensures r == if Writable(value) then Some(Encoding(value)) else None
  {
    var out := new Output();
    var ok := Write(value, out);
    assert ok ==> out.bytes == Encoding(value);
    return if ok then Some(out.bytes) else None;
  }

  // ---- Both ways round ---------------------------------------------------------------------------

  lemma {:induction false} ReadableIsWritable(value: Value, levels: nat)
    requires Readable(value, levels)
    ensures Writable(value)
    decreases value
  {
    if value.Items? {
      forall i | 0 <= i < |value.items| ensures Writable(value.items[i]) {
        ReadableIsWritable(value.items[i], levels - 1);
      }
    }
  }

  /** cbor.ts:65-90, 147-207: a value comes back exactly when it is readable; five levels are the deepest read. */
  method ValueComesBack(value: Value) returns (r: Option<Value>)
    ensures r == Some(value) <==> Readable(value, 5)
  {
    hide Encoding, Readable, Writable;
    var bytes := Encode(value);
    if bytes.None? {
      if Readable(value, 5) {
        ReadableIsWritable(value, 5);
      }
      return None;
    }
    r := Decode(bytes.value);
    if Readable(value, 5) {
      assert At(bytes.value, 0, bytes.value);
      OneValue(bytes.value, 0, r.value, value, 5);
    }
  }

  /** cbor.ts:65-90, 147-207: bytes that are read are written again. */
  method BytesComeBack(bytes: seq<Byte>) returns (r: Option<Value>, again: Option<seq<Byte>>)
    ensures r.Some? ==> again == Some(bytes)
  {
    hide Encoding, Readable, Writable;
    again := None;
    r := Decode(bytes);
    if r.Some? {
      ReadableIsWritable(r.value, 5);
      again := Encode(r.value);
    }
  }

  /** Appendix A of RFC 8949, as far as this subset goes. */
  lemma PublishedExamples()
    ensures Head(0, 0) == [0x00] && Head(0, 23) == [0x17] && Head(0, 24) == [0x18, 0x18]
    ensures Head(0, 1000) == [0x19, 0x03, 0xe8] && Head(0, 1000000) == [0x1a, 0x00, 0x0f, 0x42, 0x40]
    ensures Encoding(String([1, 2, 3, 4])) == [0x44, 0x01, 0x02, 0x03, 0x04]
    ensures Encoding(Items([Number(1), Number(2), Number(3)])) == [0x83, 0x01, 0x02, 0x03]
  {
    assert 1000 / 0x100 % 256 == 3 && 1000 % 256 == 0xe8;
    assert 1000000 / 0x10000 % 256 == 0x0f && 1000000 / 0x100 % 256 == 0x42 && 1000000 % 256 == 0x40 && 1000000 / 0x1000000 % 256 == 0;
    ThreeNumbers();
  }

  lemma ThreeNumbers()
    ensures Encoding(Items([Number(1), Number(2), Number(3)])) == [0x83, 0x01, 0x02, 0x03]
  {
    hide *;
    var v := Items([Number(1), Number(2), Number(3)]);
    SmallNumber(1);
    SmallNumber(2);
    SmallNumber(3);
    NextOf(v, 0);
    NextOf(v, 1);
    NextOf(v, 2);
    NoneOf(v);
    assert EncodingOf(v, 1) == [0x01] && EncodingOf(v, 2) == [0x01, 0x02] && EncodingOf(v, 3) == [0x01, 0x02, 0x03];
    WholeOf(v);
  }

  lemma SmallNumber(n: nat)
    requires n < 24
    ensures Encoding(Number(n)) == [n]
  {
  }

  lemma NoneOf(v: Value)
    requires v.Items?
    ensures EncodingOf(v, 0) == [] && Head(4, 3) == [0x83]
  {
  }

  lemma NextOf(v: Value, k: nat)
    requires v.Items? && k < |v.items|
    ensures EncodingOf(v, k + 1) == EncodingOf(v, k) + Encoding(v.items[k])
  {
  }

  lemma WholeOf(v: Value)
    requires v.Items?
    ensures Encoding(v) == Head(4, |v.items|) + EncodingOf(v, |v.items|)
  {
  }
}
