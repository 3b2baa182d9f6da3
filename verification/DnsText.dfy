/**
 DNS names and TXT values (packages/dns/src/wire.ts, sections 3.1 and 3.3.14 of RFC 1035): labels and
 character-strings with a length byte each, written into a buffer and read back from an offset in it.
 */
module DnsText {
  import opened Bytes
  import opened Text
  import opened Buffers

  // ---------------------------------------------------------------- characters

  /** The platform's `TextDecoder` and `TextEncoder`. */
  datatype Utf8 = Utf8(decode: Data -> string, encode: string -> Data)

  /** `charCodeAt`, cut to a byte. */
  function Codes(s: string): (b: Data)
    ensures |b| == |s|
  {
    if s == "" then [] else [Low8(s[0] as int)] + Codes(s[1..])
  }

  predicate Ascii(s: string) {
    forall i :: 0 <= i < |s| ==> s[i] as int < 128
  }

  /** All that is used of UTF-8: that it extends ASCII. */
  ghost predicate ExtendsAscii(utf8: Utf8) {
    && (forall s {:trigger utf8.encode(s)} :: Ascii(s) ==> utf8.encode(s) == Codes(s))
    && (forall s {:trigger utf8.decode(Codes(s))} :: Ascii(s) ==> utf8.decode(Codes(s)) == s)
  }

  lemma {:induction false} CodesSplit(s: string, n: nat)
    requires n <= |s|
    ensures Codes(s)[..n] == Codes(s[..n]) && Codes(s)[n..] == Codes(s[n..])
  {
    if n > 0 {
      CodesSplit(s[1..], n - 1);
      assert s[..n][1..] == s[1..][..n - 1];
      assert s[1..][n - 1..] == s[n..];
    }
  }

  // ---------------------------------------------------------------- bytes inside a buffer

  /** `bytes` stand in `data` at `offset`. */
  ghost predicate Holds(data: Data, offset: nat, bytes: Data) {
    offset + |bytes| <= |data| && data[offset..offset + |bytes|] == bytes
  }

  lemma HoldsParts(data: Data, offset: nat, a: Data, b: Data)
    ensures Holds(data, offset, a + b) <==> Holds(data, offset, a) && Holds(data, offset + |a|, b)
  {
    if Holds(data, offset, a + b) {
      assert data[offset..offset + |a|] == (a + b)[..|a|];
      assert data[offset + |a|..offset + |a| + |b|] == (a + b)[|a|..];
    }
    if Holds(data, offset, a) && Holds(data, offset + |a|, b) {
      assert data[offset..offset + |a + b|] == data[offset..offset + |a|] + data[offset + |a|..offset + |a| + |b|];
    }
  }

  lemma HoldsByte(data: Data, offset: nat, b: Byte)
    ensures Holds(data, offset, [b]) <==> offset < |data| && data[offset] == b
  {
  }

  lemma HoldsBetween(data: Data, offset: nat, bytes: Data)
    requires Holds(data, offset, bytes)
    ensures Between(data, offset, offset + |bytes|) == bytes
  {
  }

  lemma HoldsNumbers(data: Data, offset: nat, n: nat)
    ensures n < 0x1_0000 && Holds(data, offset, Be16(n)) ==> Get16(data, offset) == n
  {
    if n < 0x1_0000 && Holds(data, offset, Be16(n)) {
      assert data[offset] == data[offset..offset + 2][0] && data[offset + 1] == data[offset..offset + 2][1];
    }
  }

  lemma HoldsNumber32(data: Data, offset: nat, n: nat)
    requires n < 0x1_0000_0000 && Holds(data, offset, Be32(n))
    ensures Get32(data, offset) == n
  {
    var four := data[offset..offset + 4];
    Be32Reads(n, [], []);
    assert [] + Be32(n) + [] == four;
    assert Get32(four, 0) == n;
    assert four[0] == data[offset] && four[1] == data[offset + 1] && four[2] == data[offset + 2] &&
      four[3] == data[offset + 3];
  }

  /** A length byte, the bytes behind it, and what follows. */
  lemma Stands(data: Data, offset: nat, length: Byte, bytes: Data, rest: Data)
    requires Holds(data, offset, [length] + bytes + rest)
    ensures offset < |data| && data[offset] == length
    ensures Holds(data, offset + 1, bytes) && Holds(data, offset + 1 + |bytes|, rest)
    ensures Between(data, offset + 1, offset + 1 + |bytes|) == bytes
  {
    HoldsParts(data, offset, [length] + bytes, rest);
    HoldsParts(data, offset, [length], bytes);
  }

  // ---------------------------------------------------------------- names

  function SerializeLabels(parts: seq<string>): Data {
    if parts == [] then [] else [Low8(|parts[0]|)] + Codes(parts[0]) + SerializeLabels(parts[1..])
  }

  /** `serializeName` */
  function SerializeName(name: string): Data {
    (if name == "" then [] else SerializeLabels(Split(name, '.'))) + [0]
  }

  function ParseLabels(utf8: Utf8, data: Data, offset: nat): (r: (seq<string>, nat))
    decreases |data| - offset
  {
    if offset >= |data| || data[offset] == 0 then ([], offset + 1)
    else
      var length: nat := data[offset];
      var (rest, end) := ParseLabels(utf8, data, offset + 1 + length);
      ([utf8.decode(Between(data, offset + 1, offset + 1 + length))] + rest, end)
  }

  /** `parseName` */
  function ParseName(utf8: Utf8, data: Data, offset: nat): (string, nat) {
    var (parts, end) := ParseLabels(utf8, data, offset);
    (Join(parts, '.'), end)
  }

  predicate GoodLabel(part: string) {
    0 < |part| < 256
  }

  predicate GoodName(name: string) {
    name == "" || forall i :: 0 <= i < |Split(name, '.')| ==> GoodLabel(Split(name, '.')[i])
  }

  ghost predicate AllAscii(parts: seq<string>) {
    forall i :: 0 <= i < |parts| ==> Ascii(parts[i])
  }

  lemma {:induction false} SplitAscii(s: string)
    requires Ascii(s)
    ensures AllAscii(Split(s, '.'))
  {
    if s != "" {
      SplitAscii(s[1..]);
      var rest, parts := Split(s[1..], '.'), Split(s, '.');
      forall i | 0 <= i < |parts| ensures Ascii(parts[i]) {
        assert s[0] == '.' && i > 0 ==> parts[i] == rest[i - 1];
        assert s[0] != '.' && i > 0 ==> parts[i] == rest[i];
        assert s[0] != '.' ==> parts[0] == [s[0]] + rest[0];
      }
    }
  }

  /** One label that can be read back. */
  lemma GoodLabelParses(utf8: Utf8, data: Data, offset: nat, part: string, rest: Data)
    requires ExtendsAscii(utf8) && Ascii(part) && GoodLabel(part)
    requires Holds(data, offset, [Low8(|part|)] + Codes(part) + rest)
    ensures var next := offset + 1 + |part|;
      && Holds(data, next, rest)
      && ParseLabels(utf8, data, offset).0 == [part] + ParseLabels(utf8, data, next).0
      && ParseLabels(utf8, data, offset).1 == ParseLabels(utf8, data, next).1
  {
    Stands(data, offset, Low8(|part|), Codes(part), rest);
    assert utf8.decode(Codes(part)) == part;
  }

  lemma HeadTail<T>(x: T, rest: seq<T>)
    ensures ([x] + rest)[1..] == rest
  {
  }

  lemma HeadAndTail<T>(s: seq<T>)
    requires s != []
    ensures [s[0]] + s[1..] == s
  {
  }

  lemma LabelsCons(parts: seq<string>)
    requires parts != []
    ensures SerializeLabels(parts) + [0] == [Low8(|parts[0]|)] + Codes(parts[0]) + (SerializeLabels(parts[1..]) + [0])
    ensures |SerializeLabels(parts)| == 1 + |parts[0]| + |SerializeLabels(parts[1..])|
  {
  }

  lemma {:induction false} LabelsParse(utf8: Utf8, data: Data, offset: nat, parts: seq<string>, end: nat)
    requires ExtendsAscii(utf8) && AllAscii(parts) && Holds(data, offset, SerializeLabels(parts) + [0])
    requires forall i :: 0 <= i < |parts| ==> GoodLabel(parts[i])
    requires end == offset + |SerializeLabels(parts)| + 1
    ensures ParseLabels(utf8, data, offset).0 == parts && ParseLabels(utf8, data, offset).1 == end
    decreases parts
  {
    if parts == [] {
      assert SerializeLabels(parts) + [0] == [0];
      HoldsByte(data, offset, 0);
    } else {
      LabelsCons(parts);
      var part, tail, next := parts[0], parts[1..], offset + 1 + |parts[0]|;
      assert Ascii(part) && GoodLabel(part);
      GoodLabelParses(utf8, data, offset, part, SerializeLabels(tail) + [0]);
      LabelsParse(utf8, data, next, tail, end);
      HeadAndTail(parts);
    }
  }

  /** A label whose length byte is too small is cut. */
  lemma CutLabelParses(utf8: Utf8, data: Data, offset: nat, part: string, n: nat)
    requires ExtendsAscii(utf8) && Ascii(part) && 0 < n < |part|
    requires offset < |data| && data[offset] == n && Holds(data, offset + 1, Codes(part))
    ensures var labels := ParseLabels(utf8, data, offset).0; labels != [] && labels[0] == part[..n]
  {
    HoldsPrefix(data, offset + 1, part, n);
    PrefixDecodes(utf8, part, n);
    FirstLabel(utf8, data, offset, n);
  }

  lemma FirstLabel(utf8: Utf8, data: Data, offset: nat, n: nat)
    requires offset < |data| && data[offset] == n > 0
    ensures var labels := ParseLabels(utf8, data, offset).0;
      labels != [] && labels[0] == utf8.decode(Between(data, offset + 1, offset + 1 + n))
  {
  }

  lemma PrefixDecodes(utf8: Utf8, part: string, n: nat)
    requires ExtendsAscii(utf8) && Ascii(part) && n <= |part|
    ensures utf8.decode(Codes(part[..n])) == part[..n]
  {
    assert Ascii(part[..n]);
  }

  lemma HoldsPrefix(data: Data, offset: nat, part: string, length: nat)
    requires length <= |part| && Holds(data, offset, Codes(part))
    ensures Between(data, offset, offset + length) == Codes(part[..length])
  {
    CodesSplit(part, length);
    SliceOfSlice(data, offset, Codes(part), length);
  }

  lemma SliceOfSlice(data: Data, offset: nat, bytes: Data, n: nat)
    requires Holds(data, offset, bytes) && n <= |bytes|
    ensures Between(data, offset, offset + n) == bytes[..n]
  {
  }

  /** What follows the first label in a joined name. */
  lemma JoinHead(parts: seq<string>, sep: char)
    requires parts != []
    ensures Join(parts, sep) == parts[0] + if |parts| == 1 then "" else [sep] + Join(parts[1..], sep)
  {
  }

  /** Labels with a first one that was cut do not give the name. */
  lemma CutLabel(labels: seq<string>, parts: seq<string>)
    requires labels != [] && parts != [] && Free(parts[0], '.')
    requires |labels[0]| < |parts[0]|
    ensures Join(labels, '.') != Join(parts, '.')
  {
    JoinHead(labels, '.');
    JoinHead(parts, '.');
    var n := |labels[0]|;
    assert Join(parts, '.')[n] == parts[0][n];
    if |labels| > 1 {
      assert Join(labels, '.')[n] == '.';
    }
  }

  ghost predicate Differs(labels: seq<string>, parts: seq<string>) {
    labels == [] || Join(labels, '.') != Join(parts, '.')
  }

  /** Labels with the same first one give the name only if the others give the rest of it. */
  lemma SameLabel(labels: seq<string>, parts: seq<string>)
    requires labels != [] && parts != [] && labels[0] == parts[0] && |parts| > 1
    requires Differs(labels[1..], parts[1..])
    ensures Differs(labels, parts)
  {
    JoinHead(labels, '.');
    JoinHead(parts, '.');
    if |labels| > 1 {
      SamePrefix(parts[0] + ".", Join(labels[1..], '.'), Join(parts[1..], '.'));
    }
  }

  lemma LaterBad(parts: seq<string>)
    requires parts != [] && GoodLabel(parts[0]) && exists i :: 0 <= i < |parts| && !GoodLabel(parts[i])
    ensures |parts| > 1 && exists i :: 0 <= i < |parts[1..]| && !GoodLabel(parts[1..][i])
  {
    var i :| 0 <= i < |parts| && !GoodLabel(parts[i]);
    assert parts[1..][i - 1] == parts[i];
  }

  lemma FirstBad(utf8: Utf8, data: Data, offset: nat, parts: seq<string>, labels: seq<string>, rest: Data)
    requires ExtendsAscii(utf8) && parts != [] && Ascii(parts[0]) && Free(parts[0], '.') && !GoodLabel(parts[0])
    requires Holds(data, offset, [Low8(|parts[0]|)] + Codes(parts[0]) + rest)
    requires labels == ParseLabels(utf8, data, offset).0
    ensures Differs(labels, parts)
  {
    var n: Byte := Low8(|parts[0]|);
    Stands(data, offset, n, Codes(parts[0]), rest);
    if n > 0 {
      CutLabelParses(utf8, data, offset, parts[0], n);
      CutLabel(labels, parts);
    }
  }

  lemma LaterDiffers(part: string, later: seq<string>, tail: seq<string>, labels: seq<string>, parts: seq<string>)
    requires tail != [] && Differs(later, tail) && labels == [part] + later && parts == [part] + tail
    ensures Differs(labels, parts)
  {
    HeadTail(part, later);
    HeadTail(part, tail);
    SameLabel(labels, parts);
  }

  lemma {:induction false} BadLabelsParse(utf8: Utf8, data: Data, offset: nat, parts: seq<string>, labels: seq<string>)
    requires ExtendsAscii(utf8) && AllAscii(parts) && AllFree(parts, '.')
    requires Holds(data, offset, SerializeLabels(parts) + [0])
    requires labels == ParseLabels(utf8, data, offset).0 && exists i :: 0 <= i < |parts| && !GoodLabel(parts[i])
    ensures Differs(labels, parts)
    decreases |parts|, 1
  {
    LabelsCons(parts);
    assert Ascii(parts[0]) && Free(parts[0], '.');
    if GoodLabel(parts[0]) {
      LaterBad(parts);
      HeadAndTail(parts);
      LaterBadParse(utf8, data, offset, parts[0], parts[1..], labels);
    } else {
      FirstBad(utf8, data, offset, parts, labels, SerializeLabels(parts[1..]) + [0]);
    }
  }

  lemma {:induction false} LaterBadParse(
    utf8: Utf8, data: Data, offset: nat, part: string, tail: seq<string>, labels: seq<string>)
    requires ExtendsAscii(utf8) && Ascii(part) && GoodLabel(part) && AllAscii(tail) && AllFree(tail, '.')
    requires Holds(data, offset, [Low8(|part|)] + Codes(part) + (SerializeLabels(tail) + [0]))
    requires labels == ParseLabels(utf8, data, offset).0 && exists i :: 0 <= i < |tail| && !GoodLabel(tail[i])
    ensures Differs(labels, [part] + tail)
    decreases |tail| + 1, 0
  {
    var next := offset + 1 + |part|;
    GoodLabelParses(utf8, data, offset, part, SerializeLabels(tail) + [0]);
    var later := ParseLabels(utf8, data, next).0;
    BadLabelsParse(utf8, data, next, tail, later);
    LaterDiffers(part, later, tail, labels, [part] + tail);
  }

  lemma SamePrefix(p: string, a: string, b: string)
    ensures p + a == p + b ==> a == b
  {
    assert (p + a)[|p|..] == a && (p + b)[|p|..] == b;
  }

  /** A name is read back from where it stands in a buffer, and reading goes on behind it. */
  lemma NameParses(utf8: Utf8, data: Data, offset: nat, name: string, end: nat)
    requires ExtendsAscii(utf8) && Ascii(name) && GoodName(name) && Holds(data, offset, SerializeName(name))
    requires end == offset + |SerializeName(name)|
    ensures ParseName(utf8, data, offset) == (name, end)
  {
    if name == "" {
      assert SerializeName(name) == [0];
      HoldsByte(data, offset, 0);
    } else {
      SplitAscii(name);
      JoinSplit(name, '.');
      LabelsParse(utf8, data, offset, Split(name, '.'), end);
    }
  }

  /** An ASCII name is read back exactly when it is the root or all its labels have 1 to 255 characters. */
  lemma NameRoundTripIff(utf8: Utf8, data: Data, offset: nat, name: string)
    requires ExtendsAscii(utf8) && Ascii(name) && Holds(data, offset, SerializeName(name))
    ensures ParseName(utf8, data, offset).0 == name <==> GoodName(name)
  {
    if GoodName(name) {
      NameParses(utf8, data, offset, name, offset + |SerializeName(name)|);
    } else {
      SplitAscii(name);
      JoinSplit(name, '.');
      BadLabelsParse(utf8, data, offset, Split(name, '.'), ParseLabels(utf8, data, offset).0);
    }
  }

  function Repeated(c: char, n: nat): (s: string)
    ensures |s| == n && forall i :: 0 <= i < n ==> s[i] == c
  {
    seq(n, _ => c)
  }

  lemma BadName(utf8: Utf8, data: Data, offset: nat, name: string)
    requires ExtendsAscii(utf8) && Ascii(name) && !GoodName(name) && Holds(data, offset, SerializeName(name))
    ensures ParseName(utf8, data, offset).0 != name
  {
    NameRoundTripIff(utf8, data, offset, name);
  }

  /** A name with an empty label is not read back. */
  lemma EmptyLabelIsLost(utf8: Utf8, data: Data, offset: nat)
    requires ExtendsAscii(utf8) && Holds(data, offset, SerializeName("a..b"))
    ensures ParseName(utf8, data, offset).0 != "a..b"
  {
    EmptyLabel();
    BadName(utf8, data, offset, "a..b");
  }

  /** Nor is a name of one label of 256 characters. */
  lemma LongLabelIsLost(utf8: Utf8, data: Data, offset: nat)
    requires ExtendsAscii(utf8) && Holds(data, offset, SerializeName(Repeated('a', 256)))
    ensures ParseName(utf8, data, offset).0 != Repeated('a', 256)
  {
    LongLabel(Repeated('a', 256));
    BadName(utf8, data, offset, Repeated('a', 256));
  }

  lemma LongLabel(name: string)
    requires |name| == 256 && Free(name, '.')
    ensures !GoodName(name)
  {
    SplitFirst(name, "", '.');
    assert !GoodLabel(Split(name, '.')[0]);
  }

  lemma EmptyLabel()
    ensures Ascii("a..b") && !GoodName("a..b")
  {
    SplitFirst("a", ".b", '.');
    SplitFirst("", "b", '.');
    assert "a..b" == "a" + ['.'] + ".b" && ".b" == "" + ['.'] + "b";
    assert !GoodLabel(Split("a..b", '.')[1]);
  }

  /** The loop of `parseName`. */
  method ParseNameAt(utf8: Utf8, data: Data, offset: nat) returns (name: string, end: nat)
    ensures (name, end) == ParseName(utf8, data, offset)
  {
    var parts: seq<string> := [];
    var currentOffset: nat := offset;
    while currentOffset < |data| && data[currentOffset] != 0
      invariant ParseLabels(utf8, data, offset).0 == parts + ParseLabels(utf8, data, currentOffset).0
      invariant ParseLabels(utf8, data, offset).1 == ParseLabels(utf8, data, currentOffset).1
      decreases |data| - currentOffset
    {
      ghost var tail := ParseLabels(utf8, data, currentOffset).0;
      assert parts + tail == parts + [tail[0]] + tail[1..];
      var length: nat := data[currentOffset];
      currentOffset := currentOffset + 1;
      var part := utf8.decode(Between(data, currentOffset, currentOffset + length));
      parts := parts + [part];
      currentOffset := currentOffset + length;
    }
    assert parts + [] == parts;
    return Join(parts, '.'), currentOffset + 1;
  }

  lemma {:induction false} LabelsLength(parts: seq<string>)
    ensures |SerializeLabels(parts)| == if parts == [] then 0 else |Join(parts, '.')| + 1
  {
    if parts != [] {
      LabelsLength(parts[1..]);
      JoinHead(parts, '.');
    }
  }

  lemma {:induction false} LabelsAppend(a: seq<string>, p: string)
    ensures SerializeLabels(a + [p]) == SerializeLabels(a) + [Low8(|p|)] + Codes(p)
  {
    if a == [] {
      assert a + [p] == [p];
      assert SerializeLabels([p]) == [Low8(|p|)] + Codes(p) + SerializeLabels([]);
    } else {
      assert (a + [p])[1..] == a[1..] + [p];
      LabelsAppend(a[1..], p);
    }
  }

  /** The loop of `serializeName` over the labels; the buffer of `name.length + 2` bytes suffices. */
  method SerializeNameBytes(name: string) returns (r: Data)
    ensures r == SerializeName(name)
  {
    var parts := Split(name, '.');
    JoinSplit(name, '.');
    LabelsLength(parts);
    var bytes := new Byte[|name| + 2](_ => 0);
    var offset := 0;
    ghost var written: Data := [];
    if name != "" {
      var k := 0;
      while k < |parts|
        invariant k <= |parts| && written == SerializeLabels(parts[..k]) && offset == |written|
        invariant Filled(bytes, written)
      {
        LabelsAppend(parts[..k], parts[k]);
        assert parts[..k] + [parts[k]] == parts[..k + 1];
        PrefixLength(parts, k + 1);
        Append(bytes, written, offset, [Low8(|parts[k]|)]);
        Append(bytes, written + [Low8(|parts[k]|)], offset + 1, Codes(parts[k]));
        written := written + [Low8(|parts[k]|)] + Codes(parts[k]);
        offset := offset + 1 + |parts[k]|;
        k := k + 1;
      }
      assert parts[..k] == parts;
    }
    Append(bytes, written, offset, [0]);
    return bytes[..offset + 1];
  }

  lemma {:induction false} PrefixLength(parts: seq<string>, k: nat)
    requires k <= |parts|
    ensures |SerializeLabels(parts[..k])| <= |SerializeLabels(parts)|
  {
    if k > 0 {
      PrefixLength(parts[1..], k - 1);
      assert parts[..k][1..] == parts[1..][..k - 1];
    }
  }

  // ---------------------------------------------------------------- TXT values

  const CHUNK: nat := 255

  /** Character-strings of at most 255 bytes. */
  function Chunks(encoded: Data): (parts: seq<Data>)
    ensures forall p :: p in parts ==> 0 < |p| <= CHUNK
  {
    if encoded == [] then []
    else if |encoded| <= CHUNK then [encoded]
    else [encoded[..CHUNK]] + Chunks(encoded[CHUNK..])
  }

  function SerializeChunks(parts: seq<Data>): Data {
    if parts == [] then [] else [Low8(|parts[0]|)] + parts[0] + SerializeChunks(parts[1..])
  }

  /** `serializeTxtValue` */
  function SerializeTxt(utf8: Utf8, value: string): Data {
    if value == "" then [0] else SerializeChunks(Chunks(utf8.encode(value)))
  }

  function Concat(parts: seq<string>): string {
    if parts == [] then "" else parts[0] + Concat(parts[1..])
  }

  function ParseTxtParts(utf8: Utf8, data: Data, offset: nat, end: nat): (seq<string>, nat)
    decreases |data| - offset
  {
    if offset >= end || offset >= |data| then ([], offset)
    else
      var length: nat := data[offset];
      var (rest, last) := ParseTxtParts(utf8, data, offset + 1 + length, end);
      ([utf8.decode(Between(data, offset + 1, offset + 1 + length))] + rest, last)
  }

  /** `parseTxtValue` */
  function ParseTxt(utf8: Utf8, data: Data, offset: nat, length: nat): (string, nat) {
    var (parts, last) := ParseTxtParts(utf8, data, offset, offset + length);
    (Concat(parts), last)
  }

  /** One character-string. */
  lemma ChunkParses(utf8: Utf8, data: Data, offset: nat, part: string, rest: Data, end: nat)
    requires ExtendsAscii(utf8) && Ascii(part) && |part| <= CHUNK && offset < end
    requires Holds(data, offset, [Low8(|part|)] + Codes(part) + rest)
    ensures var next := offset + 1 + |part|;
      && Holds(data, next, rest)
      && ParseTxtParts(utf8, data, offset, end).0 == [part] + ParseTxtParts(utf8, data, next, end).0
      && ParseTxtParts(utf8, data, offset, end).1 == ParseTxtParts(utf8, data, next, end).1
  {
    Stands(data, offset, Low8(|part|), Codes(part), rest);
    assert utf8.decode(Codes(part)) == part;
  }

  /** The first chunk of a value, and the others. */
  lemma ChunksOf(encoded: Data, n: nat)
    requires encoded != [] && n == if |encoded| <= CHUNK then |encoded| else CHUNK
    ensures Chunks(encoded) == [encoded[..n]] + Chunks(encoded[n..])
  {
    if |encoded| <= CHUNK {
      assert encoded[..n] == encoded && encoded[n..] == [];
    }
  }

  lemma ChunkBytes(value: string, n: nat)
    requires value != "" && n == if |value| <= CHUNK then |value| else CHUNK
    ensures SerializeChunks(Chunks(Codes(value))) ==
      [Low8(n)] + Codes(value[..n]) + SerializeChunks(Chunks(Codes(value[n..])))
  {
    ChunksOf(Codes(value), n);
    CodesSplit(value, n);
    HeadTail(Codes(value[..n]), Chunks(Codes(value[n..])));
  }

  lemma ConcatCons(p: string, rest: seq<string>)
    ensures Concat([p] + rest) == p + Concat(rest)
  {
    HeadTail(p, rest);
  }

  lemma AsciiParts(s: string, n: nat)
    requires Ascii(s) && n <= |s|
    ensures Ascii(s[..n]) && Ascii(s[n..]) && s[..n] + s[n..] == s
  {
  }

  /** The value that is read between two offsets. */
  ghost predicate TxtReads(utf8: Utf8, data: Data, offset: nat, end: nat, value: string) {
    var parsed := ParseTxtParts(utf8, data, offset, end);
    Concat(parsed.0) == value && parsed.1 == end
  }

  lemma TxtStep(utf8: Utf8, data: Data, offset: nat, head: string, tail: string, rest: Data, end: nat)
    requires ExtendsAscii(utf8) && Ascii(head) && |head| <= CHUNK && offset < end
    requires Holds(data, offset, [Low8(|head|)] + Codes(head) + rest)
    requires TxtReads(utf8, data, offset + 1 + |head|, end, tail)
    ensures TxtReads(utf8, data, offset, end, head + tail)
  {
    ChunkParses(utf8, data, offset, head, rest, end);
    ConcatCons(head, ParseTxtParts(utf8, data, offset + 1 + |head|, end).0);
  }

  lemma {:induction false} ChunksParse(utf8: Utf8, data: Data, offset: nat, value: string, end: nat)
    requires ExtendsAscii(utf8) && Ascii(value) && Holds(data, offset, SerializeChunks(Chunks(Codes(value))))
    requires end == offset + |SerializeChunks(Chunks(Codes(value)))|
    ensures TxtReads(utf8, data, offset, end, value)
    decreases |value|
  {
    if value != "" {
      var n: nat := if |value| <= CHUNK then |value| else CHUNK;
      var head, tail := value[..n], value[n..];
      var rest := SerializeChunks(Chunks(Codes(tail)));
      AsciiParts(value, n);
      ChunkBytes(value, n);
      Stands(data, offset, Low8(n), Codes(head), rest);
      ChunksParse(utf8, data, offset + 1 + n, tail, end);
      TxtStep(utf8, data, offset, head, tail, rest, end);
    }
  }

  lemma EmptyTxtParses(utf8: Utf8, data: Data, offset: nat)
    requires ExtendsAscii(utf8) && Holds(data, offset, [0])
    ensures ParseTxt(utf8, data, offset, 1) == ("", offset + 1)
  {
    HoldsByte(data, offset, 0);
    var parts := ParseTxtParts(utf8, data, offset, offset + 1).0;
    assert Ascii("") && Codes("") == [] == Between(data, offset + 1, offset + 1);
    assert utf8.decode(Codes("")) == "";
    assert parts[0] == "" && parts[1..] == ParseTxtParts(utf8, data, offset + 1, offset + 1).0 == [];
    assert Concat(parts) == parts[0] + Concat(parts[1..]);
  }

  /** An ASCII value of any length is read back from where it stands in a buffer. */
  lemma TxtParses(utf8: Utf8, data: Data, offset: nat, value: string, end: nat)
    requires ExtendsAscii(utf8) && Ascii(value) && Holds(data, offset, SerializeTxt(utf8, value))
    requires end == offset + |SerializeTxt(utf8, value)|
    ensures ParseTxt(utf8, data, offset, |SerializeTxt(utf8, value)|) == (value, end)
  {
    if value == "" {
      EmptyTxtParses(utf8, data, offset);
    } else {
      ChunksParse(utf8, data, offset, value, end);
    }
  }

  /** The loop of `parseTxtValue`. */
  method ParseTxtValue(utf8: Utf8, data: Data, offset: nat, length: nat) returns (value: string, last: nat)
    ensures (value, last) == ParseTxt(utf8, data, offset, length)
  {
    var parts: seq<string> := [];
    var currentOffset: nat := offset;
    while currentOffset < offset + length && currentOffset < |data|
      invariant ParseTxtParts(utf8, data, offset, offset + length).0
             == parts + ParseTxtParts(utf8, data, currentOffset, offset + length).0
      invariant ParseTxtParts(utf8, data, offset, offset + length).1
             == ParseTxtParts(utf8, data, currentOffset, offset + length).1
      decreases |data| - currentOffset
    {
      ghost var tail := ParseTxtParts(utf8, data, currentOffset, offset + length).0;
      assert parts + tail == parts + [tail[0]] + tail[1..];
      var partLength: nat := data[currentOffset];
      currentOffset := currentOffset + 1;
      parts := parts + [utf8.decode(Between(data, currentOffset, currentOffset + partLength))];
      currentOffset := currentOffset + partLength;
    }
    assert parts + [] == parts;
    return Concat(parts), currentOffset;
  }

  lemma {:induction false} SerializeChunksAppend(a: seq<Data>, p: Data)
    ensures SerializeChunks(a + [p]) == SerializeChunks(a) + [Low8(|p|)] + p
  {
    if a == [] {
      assert a + [p] == [p];
      assert SerializeChunks([p]) == [Low8(|p|)] + p + SerializeChunks([]);
    } else {
      assert (a + [p])[1..] == a[1..] + [p];
      SerializeChunksAppend(a[1..], p);
    }
  }

  /** The loop that cuts the encoded value into parts. */
  lemma FirstChunk(encoded: Data, i: nat, end: nat)
    requires i < |encoded| && end == if i + CHUNK < |encoded| then i + CHUNK else |encoded|
    ensures Chunks(From(encoded, i)) == [encoded[i..end]] + Chunks(From(encoded, i + CHUNK))
  {
    if i + CHUNK < |encoded| {
      assert encoded[i..][..CHUNK] == encoded[i..end] && encoded[i..][CHUNK..] == From(encoded, i + CHUNK);
    } else {
      assert encoded[i..] == encoded[i..end] && From(encoded, i + CHUNK) == [];
    }
  }

  lemma NextPart(parts: seq<Data>, part: Data, rest: seq<Data>)
    ensures parts + ([part] + rest) == parts + [part] + rest
  {
  }

  method CutChunks(encoded: Data) returns (parts: seq<Data>)
    ensures parts == Chunks(encoded)
  {
    parts := [];
    var i := 0;
    while i < |encoded|
      invariant 0 <= i
      invariant Chunks(encoded) == parts + Chunks(From(encoded, i))
    {
      var end := if i + CHUNK < |encoded| then i + CHUNK else |encoded|;
      FirstChunk(encoded, i, end);
      NextPart(parts, encoded[i..end], Chunks(From(encoded, i + CHUNK)));
      parts := parts + [encoded[i..end]];
      i := i + CHUNK;
    }
  }

  /** The size of the buffer, `parts.reduce(...)`. */
  function TotalSize(parts: seq<Data>): (n: nat)
    ensures n == |SerializeChunks(parts)|
  {
    if parts == [] then 0 else 1 + |parts[0]| + TotalSize(parts[1..])
  }

  lemma {:induction false} ChunksPrefixLength(parts: seq<Data>, k: nat)
    requires k <= |parts|
    ensures |SerializeChunks(parts[..k])| <= |SerializeChunks(parts)|
  {
    if k > 0 {
      ChunksPrefixLength(parts[1..], k - 1);
      assert parts[..k][1..] == parts[1..][..k - 1];
    }
  }

  method SerializeTxtValue(utf8: Utf8, value: string) returns (r: Data)
    ensures r == SerializeTxt(utf8, value)
  {
    if |value| == 0 {
      return [0];
    }
    var parts := CutChunks(utf8.encode(value));
    r := JoinChunks(parts);
  }

  /** The loop that writes the parts, each behind its length. */
  method JoinChunks(parts: seq<Data>) returns (r: Data)
    ensures r == SerializeChunks(parts)
  {
    var buffer := new Byte[TotalSize(parts)](_ => 0);
    var offset, k := 0, 0;
    while k < |parts|
      invariant k <= |parts| && offset == |SerializeChunks(parts[..k])|
      invariant Filled(buffer, SerializeChunks(parts[..k]))
    {
      ghost var written := SerializeChunks(parts[..k]);
      SerializeChunksAppend(parts[..k], parts[k]);
      assert parts[..k] + [parts[k]] == parts[..k + 1];
      ChunksPrefixLength(parts, k + 1);
      Append(buffer, written, offset, [Low8(|parts[k]|)]);
      Append(buffer, written + [Low8(|parts[k]|)], offset + 1, parts[k]);
      offset := offset + 1 + |parts[k]|;
      k := k + 1;
    }
    assert parts[..k] == parts;
    return buffer[..];
  }
}
