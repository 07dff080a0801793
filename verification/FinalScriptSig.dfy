/**
 * The empty final scriptSig: a PSBT's key-value maps (BIP-174) walked in place, and one record spliced
 * in at the end of every map that has a final witness and no final scriptSig.
 */
module FinalScriptSig {
  import opened Bytes

  datatype Option<T> = None | Some(value: T)

  const MAGIC: seq<Byte> := [0x70, 0x73, 0x62, 0x74, 0xff]
  const RECORD: seq<Byte> := [0x01, 0x07, 0x00]

  // ---- What the bytes say -------------------------------------------------------------

  datatype Record = Record(key: seq<Byte>, value: seq<Byte>) {
    /** Lengths above 0xfc are refused, not parsed. */
    predicate Fits() {
      1 <= |key| < 0xfd && |value| < 0xfd
    }

    function Bytes(): seq<Byte>
      requires Fits()
    {
      [|key|] + key + [|value|] + value
    }
  }

  type KeyMap = seq<Record>

  ghost predicate MapFits(m: KeyMap) {
    forall r :: r in m ==> r.Fits()
  }

  ghost function MapBytes(m: KeyMap): seq<Byte>
    requires MapFits(m)
  {
    if m == [] then [0x00] else m[0].Bytes() + MapBytes(m[1..])
  }

  ghost predicate AllFit(ms: seq<KeyMap>) {
    forall m :: m in ms ==> MapFits(m)
  }

  ghost function MapsBytes(ms: seq<KeyMap>): seq<Byte>
    requires AllFit(ms)
  {
    if ms == [] then [] else MapsBytes(ms[..|ms| - 1]) + MapBytes(ms[|ms| - 1])
  }

  /** One record off the front. */
  ghost function ParseRecord(b: seq<Byte>): (r: Option<(Record, seq<Byte>)>)
    ensures r.Some? ==> r.value.0.Fits() && |r.value.1| < |b|
  {
    if b == [] || b[0] >= 0xfd || b[0] == 0 || |b| < 1 + b[0] then None
    else
      var rest := b[1 + b[0]..];
      if rest == [] || rest[0] >= 0xfd || |rest| < 1 + rest[0] then None
      else Some((Record(b[1..1 + b[0]], rest[1..1 + rest[0]]), rest[1 + rest[0]..]))
  }

  /** One map off the front, to its zero byte. */
  ghost function ParseMap(b: seq<Byte>): (r: Option<(KeyMap, seq<Byte>)>)
    ensures r.Some? ==> MapFits(r.value.0) && |r.value.1| < |b|
    decreases |b|
  {
    if b == [] then None
    else if b[0] == 0 then Some(([], b[1..]))
    else
      match ParseRecord(b)
      case None => None
      case Some(one) =>
        match ParseMap(one.1)
        case None => None
        case Some(more) => Some(([one.0] + more.0, more.1))
  }

  /** Maps to the end of the bytes. */
  ghost function ParseMaps(b: seq<Byte>): (r: Option<seq<KeyMap>>)
    ensures r.Some? ==> AllFit(r.value)
    decreases |b|
  {
    if b == [] then Some([])
    else
      match ParseMap(b)
      case None => None
      case Some(one) =>
        match ParseMaps(one.1)
        case None => None
        case Some(more) => Some([one.0] + more)
  }

  /** A PSBT: the magic, the global map, and the input and output maps. */
  datatype Psbt = Psbt(global: KeyMap, maps: seq<KeyMap>)

  ghost function Parse(b: seq<Byte>): (r: Option<Psbt>)
    ensures r.Some? ==> MapFits(r.value.global) && AllFit(r.value.maps)
  {
    if !(MAGIC <= b) then None
    else
      match ParseMap(b[5..])
      case None => None
      case Some(one) =>
        match ParseMaps(one.1)
        case None => None
        case Some(maps) => Some(Psbt(one.0, maps))
  }

  ghost function Serialized(p: Psbt): seq<Byte>
    requires MapFits(p.global) && AllFit(p.maps)
  {
    MAGIC + MapBytes(p.global) + MapsBytes(p.maps)
  }

  // ---- Reading and writing are inverse -----------------------------------------------------

  lemma RecordBothWays(b: seq<Byte>)
    ensures ParseRecord(b).Some? ==> b == ParseRecord(b).value.0.Bytes() + ParseRecord(b).value.1
  {
    if ParseRecord(b).Some? {
      var k := b[0];
      var rest := b[1 + k..];
      assert b == [k] + b[1..1 + k] + rest;
      assert rest == [rest[0]] + rest[1..1 + rest[0]] + rest[1 + rest[0]..];
    }
  }

  lemma RecordParses(r: Record, rest: seq<Byte>)
    requires r.Fits()
    ensures r.Bytes() != [] && r.Bytes()[0] != 0 && ParseRecord(r.Bytes() + rest) == Some((r, rest))
  {
    var b := r.Bytes() + rest;
    assert b[0] == |r.key| && b[1..1 + |r.key|] == r.key;
    var tail := b[1 + |r.key|..];
    assert tail == [|r.value|] + r.value + rest;
    assert tail[1..1 + |r.value|] == r.value && tail[1 + |r.value|..] == rest;
  }

  lemma {:induction false} MapBothWays(b: seq<Byte>)
    ensures ParseMap(b).Some? ==> b == MapBytes(ParseMap(b).value.0) + ParseMap(b).value.1
    decreases |b|
  {
    hide ParseRecord, Record.Bytes;
    if ParseMap(b).Some? {
      if b[0] == 0 {
        assert b == [b[0]] + b[1..];
      } else {
        var one := ParseRecord(b).value;
        RecordBothWays(b);
        MapBothWays(one.1);
        var m := ParseMap(b).value.0;
        assert m[1..] == ParseMap(one.1).value.0;
      }
    }
  }

  lemma {:induction false} MapParses(m: KeyMap, rest: seq<Byte>)
    requires MapFits(m)
    ensures ParseMap(MapBytes(m) + rest) == Some((m, rest))
  {
    hide ParseRecord, Record.Bytes;
    if m == [] {
      assert ([0x00] + rest)[1..] == rest;
    } else {
      RecordParses(m[0], MapBytes(m[1..]) + rest);
      MapParses(m[1..], rest);
      assert MapBytes(m) + rest == m[0].Bytes() + (MapBytes(m[1..]) + rest);
      assert [m[0]] + m[1..] == m;
    }
  }

  lemma {:induction false} MapsFront(m: KeyMap, ms: seq<KeyMap>)
    requires MapFits(m) && AllFit(ms)
    ensures AllFit([m] + ms) && MapsBytes([m] + ms) == MapBytes(m) + MapsBytes(ms)
  {
    hide MapBytes, MapFits;
    if ms == [] {
      assert [m] + ms == [m] && [m][..0] == [];
    } else {
      var init := ms[..|ms| - 1];
      assert ([m] + ms)[..|ms|] == [m] + init;
      MapsFront(m, init);
    }
  }

  lemma {:induction false} MapsBothWays(b: seq<Byte>)
    ensures ParseMaps(b).Some? ==> b == MapsBytes(ParseMaps(b).value)
    decreases |b|
  {
    hide ParseMap, MapBytes, MapsBytes;
    if b == [] {
      NoMaps();
    } else if ParseMaps(b).Some? {
      var one := ParseMap(b).value;
      MapBothWays(b);
      MapsBothWays(one.1);
      MapsFront(one.0, ParseMaps(one.1).value);
    }
  }

  lemma NoMaps()
    ensures MapsBytes([]) == []
  {
  }

  lemma {:induction false} MapsParse(ms: seq<KeyMap>)
    requires AllFit(ms)
    ensures ParseMaps(MapsBytes(ms)) == Some(ms)
  {
    hide ParseMap, MapBytes, MapsBytes;
    if ms == [] {
      NoMaps();
    } else {
      assert [ms[0]] + ms[1..] == ms;
      MapsFront(ms[0], ms[1..]);
      MapParses(ms[0], MapsBytes(ms[1..]));
      MapsParse(ms[1..]);
      MapNonempty(ms[0]);
    }
  }

  lemma MapNonempty(m: KeyMap)
    requires MapFits(m)
    ensures MapBytes(m) != []
  {
  }

  lemma ParseSerialized(p: Psbt)
    requires MapFits(p.global) && AllFit(p.maps)
    ensures Parse(Serialized(p)) == Some(p)
  {
    hide ParseMap, ParseMaps, MapBytes, MapsBytes;
    var b := Serialized(p);
    assert b[5..] == MapBytes(p.global) + MapsBytes(p.maps);
    MapParses(p.global, MapsBytes(p.maps));
    MapsParse(p.maps);
  }

  lemma SerializedParse(b: seq<Byte>)
    ensures Parse(b).Some? ==> b == Serialized(Parse(b).value)
  {
    hide ParseMap, ParseMaps, MapBytes, MapsBytes;
    if Parse(b).Some? {
      assert b == MAGIC + b[5..];
      MapBothWays(b[5..]);
      MapsBothWays(ParseMap(b[5..]).value.1);
    }
  }

  // ---- The rewrite ----------------------------------------------------------------------------

  predicate HasKey(m: KeyMap, keyType: Byte) {
    exists i :: 0 <= i < |m| && m[i].key != [] && m[i].key[0] == keyType
  }

  /** A final witness and no final scriptSig. */
  predicate Wants(m: KeyMap) {
    HasKey(m, 0x08) && !HasKey(m, 0x07)
  }

  function Patched(m: KeyMap): KeyMap {
    if Wants(m) then m + [Record([0x07], [])] else m
  }

  function PatchedAll(ms: seq<KeyMap>): (r: seq<KeyMap>)
    ensures |r| == |ms| && forall i :: 0 <= i < |ms| ==> r[i] == Patched(ms[i])
  {
    seq(|ms|, i requires 0 <= i < |ms| => Patched(ms[i]))
  }

  lemma PatchedFits(ms: seq<KeyMap>)
    requires AllFit(ms)
    ensures AllFit(PatchedAll(ms))
  {
    hide Wants;
    forall m | m in PatchedAll(ms) ensures MapFits(m) {
      var i :| 0 <= i < |ms| && PatchedAll(ms)[i] == m;
      assert ms[i] in ms;
    }
  }

  /** What `withEmptyFinalScriptSig` turns a PSBT into: the bytes as they were, or every map but the global one patched. */
  ghost function Rewritten(b: seq<Byte>): seq<Byte> {
    match Parse(b)
    case None => b
    case Some(p) => PatchedFits(p.maps); Serialized(Psbt(p.global, PatchedAll(p.maps)))
  }

  lemma RecordBytes()
    ensures Record([0x07], []).Fits() && Record([0x07], []).Bytes() == RECORD
  {
  }

  /** A record appended to a map sits just before its zero byte. */
  lemma {:induction false} MapAppended(m: KeyMap, r: Record)
    requires MapFits(m) && r.Fits()
    ensures |MapBytes(m)| >= 1
    ensures MapFits(m + [r]) && MapBytes(m + [r]) == MapBytes(m)[..|MapBytes(m)| - 1] + r.Bytes() + [0x00]
    ensures MapBytes(m)[|MapBytes(m)| - 1..] == [0x00]
  {
    hide Record.Bytes, Record.Fits;
    if m == [] {
      assert [r][1..] == [];
      assert ([] + [r]) == [r];
      assert MapBytes([r]) == r.Bytes() + [0x00];
    } else {
      MapAppended(m[1..], r);
      assert (m + [r])[1..] == m[1..] + [r] && (m + [r])[0] == m[0];
      LastOfConcat(m[0].Bytes(), MapBytes(m[1..]), r.Bytes());
    }
  }

  /** The last byte of a concatenation is the last of its second part. */
  lemma LastOfConcat(x: seq<Byte>, y: seq<Byte>, z: seq<Byte>)
    requires |y| >= 1
    ensures (x + y)[|x + y| - 1..] == y[|y| - 1..]
    ensures x + (y[..|y| - 1] + z + [0x00]) == (x + y)[..|x + y| - 1] + z + [0x00]
  {
    assert (x + y)[..|x + y| - 1] == x + y[..|y| - 1];
  }

  /** Patched once, a map wants nothing more. */
  lemma PatchedTwice(m: KeyMap)
    ensures Patched(Patched(m)) == Patched(m)
  {
    if Wants(m) {
      var p := Patched(m);
      assert p[|m|].key == [0x07];
      assert HasKey(p, 0x07);
    }
  }

  /** The maps of what comes out are the maps of what went in, patched; nothing else about them changes. */
  lemma RewrittenMaps(b: seq<Byte>)
    requires Parse(b).Some?
    ensures Parse(Rewritten(b)) == Some(Psbt(Parse(b).value.global, PatchedAll(Parse(b).value.maps)))
  {
    hide Parse, Serialized;
    var p := Parse(b).value;
    PatchedFits(p.maps);
    ParseSerialized(Psbt(p.global, PatchedAll(p.maps)));
  }

  /** A second rewrite changes nothing. */
  lemma RewrittenTwice(b: seq<Byte>)
    ensures Rewritten(Rewritten(b)) == Rewritten(b)
  {
    hide Parse, Serialized, Patched;
    if Parse(b).Some? {
      var p := Parse(b).value;
      RewrittenMaps(b);
      forall i | 0 <= i < |p.maps| ensures Patched(Patched(p.maps[i])) == Patched(p.maps[i]) {
        PatchedTwice(p.maps[i]);
      }
      assert PatchedAll(PatchedAll(p.maps)) == PatchedAll(p.maps);
    }
  }

  // ---- Walking a map in place --------------------------------------------------------------------

  datatype Scan = Scan(end: nat, hasFinalScriptSig: bool, hasFinalWitness: bool)

  /** A cursor that several readers advance. */
  class Cursor {
    var at: nat
    constructor (start: nat)
      ensures at == start
    {
      at := start;
    }
  }

  /** finalscriptsig.ts:68-79. */
  method ReadCompactSize(bytes: seq<Byte>, cursor: Cursor) returns (r: Option<nat>)
    modifies cursor
    ensures r.Some? <==> old(cursor.at) < |bytes| && bytes[old(cursor.at)] < 0xfd
    ensures r.Some? ==> cursor.at == old(cursor.at) + 1 && r.value == bytes[old(cursor.at)]
  {
    if cursor.at >= |bytes| { return None; }
    var first := bytes[cursor.at];
    cursor.at := cursor.at + 1;
    if first < 0xfd { return Some(first); }
    return None;
  }

  /** The map still being read is the records read so far and whatever the rest parses to. */
  ghost predicate Underway(whole: seq<Byte>, pre: KeyMap, rest: seq<Byte>) {
    ParseMap(whole) ==
      match ParseMap(rest)
      case None => None
      case Some(more) => Some((pre + more.0, more.1))
  }

  lemma UnderwayNext(whole: seq<Byte>, pre: KeyMap, rest: seq<Byte>)
    requires Underway(whole, pre, rest) && rest != [] && rest[0] != 0
    ensures ParseRecord(rest).None? ==> ParseMap(whole).None?
    ensures ParseRecord(rest).Some? ==> Underway(whole, pre + [ParseRecord(rest).value.0], ParseRecord(rest).value.1)
  {
    hide ParseRecord;
    if ParseRecord(rest).Some? {
      var one := ParseRecord(rest).value;
      if ParseMap(one.1).Some? {
        var more := ParseMap(one.1).value;
        assert pre + ([one.0] + more.0) == (pre + [one.0]) + more.0;
      }
    }
  }

  lemma HasKeyNext(pre: KeyMap, r: Record, keyType: Byte)
    requires r.Fits()
    ensures HasKey(pre + [r], keyType) <==> HasKey(pre, keyType) || r.key[0] == keyType
  {
    if HasKey(pre, keyType) {
      var i :| 0 <= i < |pre| && pre[i].key != [] && pre[i].key[0] == keyType;
      assert (pre + [r])[i] == pre[i];
    }
    assert (pre + [r])[|pre|] == r;
  }

  /** finalscriptsig.ts:87-116. */
  method ScanMap(bytes: seq<Byte>, cursor: Cursor) returns (r: Option<Scan>)
    requires cursor.at <= |bytes|
    modifies cursor
    ensures r.None? <==> ParseMap(bytes[old(cursor.at)..]).None?
    ensures r.Some? ==>
      && cursor.at == r.value.end + 1 <= |bytes|
      && ParseMap(bytes[old(cursor.at)..]).value.1 == bytes[cursor.at..]
      && r.value.hasFinalScriptSig == HasKey(ParseMap(bytes[old(cursor.at)..]).value.0, 0x07)
      && r.value.hasFinalWitness == HasKey(ParseMap(bytes[old(cursor.at)..]).value.0, 0x08)
  {
    hide ParseMap, ParseRecord, Underway, HasKey;
    ghost var whole := bytes[cursor.at..];
    ghost var pre: KeyMap := [];
    var hasFinalScriptSig, hasFinalWitness := false, false;
    UnderwayStart(whole);
    while true
      invariant cursor.at <= |bytes| && Underway(whole, pre, bytes[cursor.at..])
      invariant hasFinalScriptSig == HasKey(pre, 0x07) && hasFinalWitness == HasKey(pre, 0x08)
      decreases |bytes| - cursor.at
    {
      ghost var rest := bytes[cursor.at..];
      if cursor.at >= |bytes| {
        assert rest == [];
        NothingLeft(whole, pre);
        return None;
      }
      if bytes[cursor.at] == 0x00 {
        MapEnds(whole, pre, rest);
        var end := cursor.at;
        cursor.at := cursor.at + 1;
        return Some(Scan(end, hasFinalScriptSig, hasFinalWitness));
      }
      UnderwayNext(whole, pre, rest);
      RecordIs(bytes, cursor.at);
      var keyLength := ReadCompactSize(bytes, cursor);
      if keyLength.None? || keyLength.value < 1 { return None; }
      if cursor.at + keyLength.value > |bytes| { return None; }
      var keyType := bytes[cursor.at];
      if keyType == 0x07 { hasFinalScriptSig := true; }
      if keyType == 0x08 { hasFinalWitness := true; }
      cursor.at := cursor.at + keyLength.value;
      var valueLength := ReadCompactSize(bytes, cursor);
      if valueLength.None? { return None; }
      if cursor.at + valueLength.value > |bytes| { return None; }
      cursor.at := cursor.at + valueLength.value;
      HasKeyNext(pre, ParseRecord(rest).value.0, 0x07);
      HasKeyNext(pre, ParseRecord(rest).value.0, 0x08);
      pre := pre + [ParseRecord(rest).value.0];
    }
  }

  lemma UnderwayStart(whole: seq<Byte>)
    ensures Underway(whole, [], whole) && !HasKey([], 0x07) && !HasKey([], 0x08)
  {
    if ParseMap(whole).Some? {
      assert [] + ParseMap(whole).value.0 == ParseMap(whole).value.0;
    }
  }

  lemma NothingLeft(whole: seq<Byte>, pre: KeyMap)
    requires Underway(whole, pre, [])
    ensures ParseMap(whole).None?
  {
  }

  lemma MapEnds(whole: seq<Byte>, pre: KeyMap, rest: seq<Byte>)
    requires Underway(whole, pre, rest) && rest != [] && rest[0] == 0
    ensures ParseMap(whole) == Some((pre, rest[1..]))
  {
    assert pre + [] == pre;
  }

  /** Reading a record by offsets. */
  lemma RecordIs(bytes: seq<Byte>, at: nat)
    requires at < |bytes| && bytes[at] != 0
    ensures bytes[at] >= 0xfd ==> ParseRecord(bytes[at..]).None?
    ensures bytes[at] < 0xfd ==>
      var v := at + 1 + bytes[at];
      && (v > |bytes| ==> ParseRecord(bytes[at..]).None?)
      && (v <= |bytes| ==>
            && (v == |bytes| || bytes[v] >= 0xfd ==> ParseRecord(bytes[at..]).None?)
            && (v < |bytes| && bytes[v] < 0xfd ==>
                  && (v + 1 + bytes[v] > |bytes| ==> ParseRecord(bytes[at..]).None?)
                  && (v + 1 + bytes[v] <= |bytes| ==>
                        && ParseRecord(bytes[at..]).Some?
                        && ParseRecord(bytes[at..]).value.0.key[0] == bytes[at + 1]
                        && ParseRecord(bytes[at..]).value.1 == bytes[v + 1 + bytes[v]..])))
  {
    var b := bytes[at..];
    if b[0] < 0xfd && 1 + b[0] <= |b| {
      var rest := b[1 + b[0]..];
      assert rest == bytes[at + 1 + bytes[at]..];
      if rest != [] && rest[0] < 0xfd && 1 + rest[0] <= |rest| {
        assert rest[1 + rest[0]..] == bytes[at + 1 + bytes[at] + 1 + rest[0]..];
        assert b[1..1 + b[0]][0] == bytes[at + 1];
      }
    }
  }

  // ---- Splicing -----------------------------------------------------------------------------------

  ghost predicate Ordered(offsets: seq<nat>, limit: nat) {
    (forall i :: 0 <= i < |offsets| ==> offsets[i] <= limit) && forall i, j :: 0 <= i < j < |offsets| ==> offsets[i] <= offsets[j]
  }

  /** The bytes with the record put in at each offset. */
  ghost function Spliced(b: seq<Byte>, offsets: seq<nat>): seq<Byte>
    requires Ordered(offsets, |b|)
    decreases |offsets|
  {
    if offsets == [] then b
    else
      var last := offsets[|offsets| - 1];
      Spliced(b[..last], offsets[..|offsets| - 1]) + RECORD + b[last..]
  }

  lemma SplicedTail(a: seq<Byte>, offsets: seq<nat>, tail: seq<Byte>)
    requires Ordered(offsets, |a|)
    ensures Spliced(a + tail, offsets) == Spliced(a, offsets) + tail
  {
    if offsets != [] {
      var last := offsets[|offsets| - 1];
      assert (a + tail)[..last] == a[..last] && (a + tail)[last..] == a[last..] + tail;
    }
  }

  lemma SplicedAt(a: seq<Byte>, offsets: seq<nat>, tail: seq<Byte>)
    requires Ordered(offsets, |a|)
    ensures Ordered(offsets + [|a|], |a + tail|)
    ensures Spliced(a + tail, offsets + [|a|]) == Spliced(a, offsets) + RECORD + tail
  {
    var all := offsets + [|a|];
    assert all[..|all| - 1] == offsets && all[|all| - 1] == |a|;
    assert (a + tail)[..|a|] == a && (a + tail)[|a|..] == tail;
  }

  lemma SpliceStep(psbt: seq<Byte>, insertAt: seq<nat>, k: nat, read: nat)
    requires Ordered(insertAt, |psbt|) && k < |insertAt| && read <= insertAt[k]
    requires Ordered(insertAt[..k], read)
    ensures insertAt[k] <= |psbt| && Ordered(insertAt[..k + 1], insertAt[k])
    ensures Spliced(psbt[..insertAt[k]], insertAt[..k + 1]) == Spliced(psbt[..read], insertAt[..k]) + psbt[read..insertAt[k]] + RECORD
    ensures k + 1 < |insertAt| ==> insertAt[k] <= insertAt[k + 1]
  {
    hide Spliced;
    var at := insertAt[k];
    assert psbt[..at] == psbt[..read] + psbt[read..at];
    SplicedTail(psbt[..read], insertAt[..k], psbt[read..at]);
    SplicedAt(psbt[..at], insertAt[..k], []);
    assert psbt[..at] + [] == psbt[..at] && insertAt[..k + 1] == insertAt[..k] + [at];
  }

  lemma SpliceRest(psbt: seq<Byte>, insertAt: seq<nat>, read: nat)
    requires read <= |psbt| && Ordered(insertAt, read)
    ensures Ordered(insertAt, |psbt|) && Spliced(psbt, insertAt) == Spliced(psbt[..read], insertAt) + psbt[read..]
  {
    assert psbt == psbt[..read] + psbt[read..];
    SplicedTail(psbt[..read], insertAt, psbt[read..]);
  }

  /** One output buffer, filled between the offsets. finalscriptsig.ts:152-166. */
  method Splice(psbt: seq<Byte>, insertAt: seq<nat>) returns (bytes: seq<Byte>)
    requires Ordered(insertAt, |psbt|)
    ensures bytes == Spliced(psbt, insertAt)
  {
    hide Spliced, Ordered;
    var out := new Byte[|psbt| + |insertAt| * 3](_ => 0);
    var read, write := 0, 0;
    SpliceStart(psbt);
    for k := 0 to |insertAt|
      invariant read <= |psbt| && write == read + 3 * k && Ordered(insertAt[..k], read)
      invariant k < |insertAt| ==> read <= insertAt[k]
      invariant out[..write] == Spliced(psbt[..read], insertAt[..k])
    {
      var at := insertAt[k];
      SpliceStep(psbt, insertAt, k, read);
      SetBytes(out, psbt[read..at], write);
      write := write + (at - read);
      SetBytes(out, RECORD, write);
      write := write + 3;
      read := at;
    }
    assert insertAt[..|insertAt|] == insertAt;
    SpliceRest(psbt, insertAt, read);
    SetBytes(out, psbt[read..], write);
    bytes := out[..];
  }

  lemma SpliceStart(psbt: seq<Byte>)
    ensures Ordered([], 0) && Spliced(psbt[..0], []) == []
  {
  }

  method SetBytes(out: array<Byte>, piece: seq<Byte>, at: nat)
    requires at + |piece| <= out.Length
    modifies out
    ensures out[..at + |piece|] == old(out[..at]) + piece
  {
    forall k | 0 <= k < |piece| {
      out[at + k] := piece[k];
    }
  }

  // ---- The whole rewrite -----------------------------------------------------------------------------

  /** Up to `at` the PSBT is the maps read so far, and splicing it there patches them. */
  ghost predicate Walked(psbt: seq<Byte>, at: nat, global: KeyMap, done: seq<KeyMap>, insertAt: seq<nat>) {
    && 5 <= at <= |psbt| && MapFits(global) && AllFit(done) && AllFit(PatchedAll(done)) && Ordered(insertAt, at)
    && psbt[..at] == Serialized(Psbt(global, done))
    && Spliced(psbt[..at], insertAt) == Serialized(Psbt(global, PatchedAll(done)))
    && (insertAt == [] ==> PatchedAll(done) == done)
    && Parse(psbt) ==
         (match ParseMaps(psbt[at..])
          case None => None
          case Some(more) => Some(Psbt(global, done + more)))
  }

  lemma WalkedStart(psbt: seq<Byte>, at: nat)
    requires MAGIC <= psbt && 5 < at <= |psbt|
    requires ParseMap(psbt[5..]).Some? && ParseMap(psbt[5..]).value.1 == psbt[at..]
    ensures Walked(psbt, at, ParseMap(psbt[5..]).value.0, [], [])
  {
    hide ParseMap, ParseMaps, MapBytes;
    var global := ParseMap(psbt[5..]).value.0;
    MapBothWays(psbt[5..]);
    NoMaps();
    assert psbt == MAGIC + psbt[5..];
    assert psbt[..at] + psbt[at..] == (MAGIC + MapBytes(global)) + psbt[at..];
    assert psbt[..at] == MAGIC + MapBytes(global) + MapsBytes([]);
    assert PatchedAll([]) == [];
    if ParseMaps(psbt[at..]).Some? {
      assert [] + ParseMaps(psbt[at..]).value == ParseMaps(psbt[at..]).value;
    }
  }

  lemma SerializedNext(global: KeyMap, ms: seq<KeyMap>, m: KeyMap)
    requires MapFits(global) && AllFit(ms) && MapFits(m)
    ensures AllFit(ms + [m]) && Serialized(Psbt(global, ms + [m])) == Serialized(Psbt(global, ms)) + MapBytes(m)
  {
    hide MapBytes;
    assert (ms + [m])[..|ms|] == ms;
  }

  lemma PatchedAllNext(ms: seq<KeyMap>, m: KeyMap)
    ensures PatchedAll(ms + [m]) == PatchedAll(ms) + [Patched(m)]
  {
    hide Patched;
  }

  lemma OneFits(m: KeyMap)
    requires MapFits(m)
    ensures MapFits(Patched(m))
  {
    hide Wants;
  }

  /** One more map read. */
  lemma WalkedNext(psbt: seq<Byte>, at: nat, global: KeyMap, done: seq<KeyMap>, insertAt: seq<nat>, next: nat, m: KeyMap)
    requires Walked(psbt, at, global, done, insertAt) && at < next <= |psbt|
    requires ParseMap(psbt[at..]) == Some((m, psbt[next..])) && MapFits(m)
    ensures Wants(m) ==> Walked(psbt, next, global, done + [m], insertAt + [next - 1])
    ensures !Wants(m) ==> Walked(psbt, next, global, done + [m], insertAt)
  {
    hide ParseMap, MapBytes, Wants, Serialized, Spliced, Parse;
    var piece := psbt[at..next];
    MapBothWays(psbt[at..]);
    assert psbt[at..] == piece + psbt[next..];
    assert piece == MapBytes(m);
    assert psbt[..next] == psbt[..at] + piece;
    SerializedNext(global, done, m);
    PatchedAllNext(done, m);
    OneFits(m);
    SerializedNext(global, PatchedAll(done), Patched(m));
    ParseNext(psbt, at, global, done, next, m);
    if Wants(m) {
      RecordBytes();
      MapAppended(m, Record([0x07], []));
      var cut := psbt[at..next - 1];
      assert cut == piece[..|piece| - 1] && psbt[..next - 1] == psbt[..at] + cut && psbt[..next] == psbt[..next - 1] + [0x00];
      SplicedTail(psbt[..at], insertAt, cut);
      SplicedAt(psbt[..next - 1], insertAt, [0x00]);
      InRow(Spliced(psbt[..at], insertAt), cut);
    } else {
      SplicedTail(psbt[..at], insertAt, piece);
    }
  }

  lemma InRow(a: seq<Byte>, b: seq<Byte>)
    ensures (a + b) + RECORD + [0x00] == a + (b + RECORD + [0x00])
  {
  }

  lemma ParseNext(psbt: seq<Byte>, at: nat, global: KeyMap, done: seq<KeyMap>, next: nat, m: KeyMap)
    requires at < next <= |psbt| && ParseMap(psbt[at..]) == Some((m, psbt[next..]))
    requires Parse(psbt) ==
      (match ParseMaps(psbt[at..])
       case None => None
       case Some(more) => Some(Psbt(global, done + more)))
    ensures Parse(psbt) ==
      (match ParseMaps(psbt[next..])
       case None => None
       case Some(more) => Some(Psbt(global, (done + [m]) + more)))
  {
    hide ParseMap, Parse;
    if ParseMaps(psbt[next..]).Some? {
      var more := ParseMaps(psbt[next..]).value;
      assert done + ([m] + more) == (done + [m]) + more;
    }
  }

  lemma WalkedEnd(psbt: seq<Byte>, global: KeyMap, done: seq<KeyMap>, insertAt: seq<nat>)
    requires Walked(psbt, |psbt|, global, done, insertAt)
    ensures Rewritten(psbt) == Spliced(psbt, insertAt) && (insertAt == [] ==> Rewritten(psbt) == psbt)
  {
    hide ParseMap, MapBytes, Parse, PatchedAll, Serialized;
    assert psbt[|psbt|..] == [] && psbt[..|psbt|] == psbt && done + [] == done;
  }

  lemma Unparsed(psbt: seq<Byte>, at: nat, global: KeyMap, done: seq<KeyMap>, insertAt: seq<nat>)
    requires Walked(psbt, at, global, done, insertAt) && at < |psbt| && ParseMap(psbt[at..]).None?
    ensures Rewritten(psbt) == psbt
  {
    hide ParseMap, Serialized, Spliced, Parse;
  }

  /** `withEmptyFinalScriptSig`. finalscriptsig.ts:127-167. */
  method WithEmptyFinalScriptSig(psbt: seq<Byte>) returns (out: seq<Byte>)
    ensures out == Rewritten(psbt)
  {
    hide ParseMap, ParseMaps, Walked, Wants, Parse, Spliced, HasKey;
    for i := 0 to |MAGIC|
      invariant i <= |psbt| && psbt[..i] == MAGIC[..i]
    {
      if i >= |psbt| || psbt[i] != MAGIC[i] {
        NotMagic(psbt, i);
        return psbt;
      }
    }
    assert MAGIC <= psbt;
    var cursor := new Cursor(5);
    var first := ScanMap(psbt, cursor);
    if first.None? {
      NoGlobal(psbt);
      return psbt;
    }
    ghost var global := ParseMap(psbt[5..]).value.0;
    ghost var done: seq<KeyMap> := [];
    WalkedStart(psbt, cursor.at);
    var insertAt: seq<nat> := [];
    while cursor.at < |psbt|
      invariant cursor.at <= |psbt| && Walked(psbt, cursor.at, global, done, insertAt)
      decreases |psbt| - cursor.at
    {
      ghost var at := cursor.at;
      var scan := ScanMap(psbt, cursor);
      if scan.None? {
        Unparsed(psbt, at, global, done, insertAt);
        return psbt;
      }
      ghost var m := ParseMap(psbt[at..]).value.0;
      ParsedShorter(psbt, at, cursor.at);
      WantsMeans(m);
      WalkedNext(psbt, at, global, done, insertAt, cursor.at, m);
      done := done + [m];
      if scan.value.hasFinalWitness && !scan.value.hasFinalScriptSig { insertAt := insertAt + [scan.value.end]; }
    }
    WalkedEnd(psbt, global, done, insertAt);
    if |insertAt| == 0 { return psbt; }
    WalkedOrdered(psbt, global, done, insertAt);
    out := Splice(psbt, insertAt);
  }

  lemma NotMagic(psbt: seq<Byte>, i: nat)
    requires i < 5 && (i >= |psbt| || psbt[i] != MAGIC[i])
    ensures Rewritten(psbt) == psbt
  {
    assert !(MAGIC <= psbt);
  }

  lemma NoGlobal(psbt: seq<Byte>)
    requires MAGIC <= psbt && ParseMap(psbt[5..]).None?
    ensures Rewritten(psbt) == psbt
  {
    hide ParseMap;
  }

  lemma ParsedShorter(psbt: seq<Byte>, at: nat, next: nat)
    requires at < |psbt| && next <= |psbt| && ParseMap(psbt[at..]).Some? && ParseMap(psbt[at..]).value.1 == psbt[next..]
    ensures at < next && MapFits(ParseMap(psbt[at..]).value.0)
  {
    hide ParseMap;
    assert |psbt[next..]| < |psbt[at..]|;
  }

  lemma WantsMeans(m: KeyMap)
    ensures Wants(m) <==> HasKey(m, 0x08) && !HasKey(m, 0x07)
  {
  }

  lemma WalkedOrdered(psbt: seq<Byte>, global: KeyMap, done: seq<KeyMap>, insertAt: seq<nat>)
    requires Walked(psbt, |psbt|, global, done, insertAt)
    ensures Ordered(insertAt, |psbt|)
  {
    hide ParseMap, Serialized, Spliced, Parse;
  }
}
