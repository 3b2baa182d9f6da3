/** DNS messages that were parsed, written again. */
module DnsReserialized {
  // Which of the messages that packages/dns/src/wire.ts accepts are written again as they were. Names
  // and TXT values are taken to be ASCII, as nothing is known of how other bytes are decoded.

  import opened Options
  import opened Bytes
  import opened Text
  import opened Buffers
  import opened DnsText
  import opened DnsRecords
  import opened DnsHeaders
  import opened DnsMessages
  import opened Bits
  import Transport
  import Ipv4Text
  import Ipv6Text

  // ---------------------------------------------------------------- ASCII bytes

  function Chars(b: Data): (s: string)
    ensures |s| == |b| && forall i :: 0 <= i < |b| ==> s[i] == b[i] as char
  {
    seq(|b|, i requires 0 <= i < |b| => b[i] as char)
  }

  predicate AsciiBytes(b: Data) {
    forall i :: 0 <= i < |b| ==> b[i] < 128
  }

  lemma {:induction false} CodesOfChars(b: Data)
    ensures Codes(Chars(b)) == b
  {
    if b != [] {
      CodesOfChars(b[1..]);
      assert Chars(b)[1..] == Chars(b[1..]);
    }
  }

  lemma AsciiDecodes(utf8: Utf8, b: Data)
    requires ExtendsAscii(utf8) && AsciiBytes(b)
    ensures utf8.decode(b) == Chars(b) && Ascii(Chars(b)) && Codes(Chars(b)) == b
  {
    CodesOfChars(b);
    assert Ascii(Chars(b));
  }

  // ---------------------------------------------------------------- names

  ghost predicate AsciiLabels(data: Data, offset: nat)
    decreases |data| - offset
  {
    offset >= |data| || data[offset] == 0 ||
      (var next := offset + 1 + data[offset]; AsciiBytes(Between(data, offset + 1, next)) && AsciiLabels(data, next))
  }

  /** Labels without dots that all end, and the root part, within the data. */
  predicate PlainLabels(data: Data, offset: nat)
    decreases |data| - offset
  {
    offset < |data| &&
      (data[offset] == 0 ||
        (var next := offset + 1 + data[offset];
          next <= |data| && '.' as int !in data[offset + 1..next] && PlainLabels(data, next)))
  }

  lemma LabelAt(utf8: Utf8, data: Data, offset: nat, part: string, next: nat)
    requires ExtendsAscii(utf8) && offset < |data| && data[offset] > 0 && next == offset + 1 + data[offset]
    requires AsciiBytes(Between(data, offset + 1, next)) && part == Chars(Between(data, offset + 1, next))
    ensures ParseLabels(utf8, data, offset).0 == [part] + ParseLabels(utf8, data, next).0
    ensures ParseLabels(utf8, data, offset).1 == ParseLabels(utf8, data, next).1
    ensures Ascii(part) && |part| <= data[offset]
  {
    AsciiDecodes(utf8, Between(data, offset + 1, next));
  }

  lemma CharsFree(b: Data)
    requires '.' as int !in b
    ensures Free(Chars(b), '.')
  {
    forall i | 0 <= i < |b| ensures Chars(b)[i] != '.' {
      assert b[i] in b;
    }
  }

  lemma LabelHolds(data: Data, offset: nat, part: string, next: nat, rest: Data)
    requires offset < |data| && next == offset + 1 + data[offset] <= |data| && part == Chars(data[offset + 1..next])
    requires Holds(data, next, rest)
    ensures Holds(data, offset, [Low8(|part|)] + Codes(part) + rest)
  {
    var b := data[offset + 1..next];
    CodesOfChars(b);
    BytesHold(data, offset, data[offset], b, rest);
    LowIs(|part|, data[offset]);
  }

  lemma BytesHold(data: Data, offset: nat, n: Byte, b: Data, rest: Data)
    requires offset < |data| && data[offset] == n && Holds(data, offset + 1, b) && Holds(data, offset + 1 + |b|, rest)
    ensures Holds(data, offset, [n] + b + rest)
  {
    HoldsByte(data, offset, n);
    HoldsParts(data, offset, [n], b);
    HoldsParts(data, offset, [n] + b, rest);
  }

  /** What plain labels are read as is written again as it was. */
  ghost predicate LabelsStand(data: Data, offset: nat, labels: seq<string>, end: nat) {
    && AllFree(labels, '.') && (forall i :: 0 <= i < |labels| ==> labels[i] != "")
    && Holds(data, offset, SerializeLabels(labels) + [0]) && end == offset + |SerializeLabels(labels)| + 1
  }

  lemma {:induction false} PlainLabelsStand(utf8: Utf8, data: Data, offset: nat)
    requires ExtendsAscii(utf8) && AsciiLabels(data, offset) && PlainLabels(data, offset)
    ensures LabelsStand(data, offset, ParseLabels(utf8, data, offset).0, ParseLabels(utf8, data, offset).1)
    decreases |data| - offset
  {
    if data[offset] == 0 {
      assert SerializeLabels([]) + [0] == [0];
      HoldsByte(data, offset, 0);
    } else {
      var next := offset + 1 + data[offset];
      var part := Chars(data[offset + 1..next]);
      PlainLabelsStand(utf8, data, next);
      LabelAt(utf8, data, offset, part, next);
      CharsFree(data[offset + 1..next]);
      LabelsStandCons(data, offset, part, ParseLabels(utf8, data, next).0, next, ParseLabels(utf8, data, next).1);
    }
  }

  lemma LabelsStandCons(data: Data, offset: nat, part: string, labels: seq<string>, next: nat, end: nat)
    requires offset < |data| && data[offset] > 0 && next == offset + 1 + data[offset] <= |data|
    requires part == Chars(data[offset + 1..next]) && Free(part, '.') && LabelsStand(data, next, labels, end)
    ensures LabelsStand(data, offset, [part] + labels, end)
  {
    LabelsCons([part] + labels);
    HeadTail(part, labels);
    LabelHolds(data, offset, part, next, SerializeLabels(labels) + [0]);
  }

  lemma NameStands(data: Data, offset: nat, labels: seq<string>, end: nat)
    requires LabelsStand(data, offset, labels, end)
    ensures var name := Join(labels, '.');
      Holds(data, offset, SerializeName(name)) && end == offset + |SerializeName(name)|
  {
    if labels == [] {
      assert SerializeName("") == [0] == SerializeLabels([]) + [0];
    } else {
      SplitJoin(labels, '.');
      assert labels[0] != "";
      JoinHead(labels, '.');
    }
  }

  /** A plain name is written again as it was. */
  lemma PlainNameWrites(utf8: Utf8, data: Data, offset: nat)
    requires ExtendsAscii(utf8) && AsciiLabels(data, offset) && PlainLabels(data, offset)
    ensures var (name, end) := ParseName(utf8, data, offset);
      Holds(data, offset, SerializeName(name)) && end == offset + |SerializeName(name)|
  {
    PlainLabelsStand(utf8, data, offset);
    NameStands(data, offset, ParseLabels(utf8, data, offset).0, ParseLabels(utf8, data, offset).1);
  }

  /** The first part of a name that starts with this label. */
  lemma FirstPart(part: string, rest: seq<string>, first: string)
    requires first == Split(Join([part] + rest, '.'), '.')[0]
    ensures |first| <= |part| && (|first| == |part| ==> Free(part, '.'))
    ensures Free(part, '.') ==>
      Split(Join([part] + rest, '.'), '.') == [part] + if rest == [] then [] else Split(Join(rest, '.'), '.')
  {
    HeadTail(part, rest);
    JoinHead([part] + rest, '.');
    if d: nat :| d < |part| && part[d] == '.' && Free(part[..d], '.') {
      DottedPart(part, d, if rest == [] then "" else "." + Join(rest, '.'));
    } else {
      NoFirstDot(part, |part|);
      assert part[..|part|] == part;
      SplitFirst(part, Join(rest, '.'), '.');
    }
  }

  lemma DottedPart(part: string, d: nat, tail: string)
    requires d < |part| && part[d] == '.' && Free(part[..d], '.')
    ensures Split(part + tail, '.')[0] == part[..d] && !Free(part, '.')
  {
    var behind := part[d + 1..] + tail;
    assert part + tail == part[..d] + "." + behind;
    SplitFirst(part[..d], behind, '.');
  }

  lemma {:induction false} NoFirstDot(s: string, n: nat)
    requires n <= |s| && forall d: nat :: d < |s| && s[d] == '.' ==> !Free(s[..d], '.')
    ensures Free(s[..n], '.')
  {
    if n > 0 {
      NoFirstDot(s, n - 1);
      assert s[..n] == s[..n - 1] + [s[n - 1]];
    }
  }

  lemma {:induction false} WrittenLabelsArePlain(utf8: Utf8, data: Data, offset: nat, labels: seq<string>)
    requires ExtendsAscii(utf8) && AsciiLabels(data, offset) && labels == ParseLabels(utf8, data, offset).0
    requires Holds(data, offset, SerializeName(Join(labels, '.')))
    ensures PlainLabels(data, offset)
    decreases |data| - offset
  {
    if labels == [] {
      assert SerializeName("") == [0];
      HoldsByte(data, offset, 0);
    } else {
      var next := offset + 1 + data[offset];
      var part, rest := Chars(Between(data, offset + 1, next)), ParseLabels(utf8, data, next).0;
      LabelAt(utf8, data, offset, part, next);
      WrittenLabel(data, offset, part, rest, next);
      WrittenLabelsArePlain(utf8, data, next, rest);
    }
  }

  /** A label that is written as it stands has no dot, is complete, and what follows is written as it stands. */
  lemma WrittenLabel(data: Data, offset: nat, part: string, rest: seq<string>, next: nat)
    requires offset < |data| && data[offset] > 0 && next == offset + 1 + data[offset]
    requires part == Chars(Between(data, offset + 1, next)) && |part| <= data[offset]
    requires Holds(data, offset, SerializeName(Join([part] + rest, '.')))
    ensures next <= |data| && '.' as int !in data[offset + 1..next]
    ensures Holds(data, next, SerializeName(Join(rest, '.')))
  {
    var parts := Split(Join([part] + rest, '.'), '.');
    NameNotEmpty(data, offset, Join([part] + rest, '.'));
    var behind := FirstLabelStands(data, offset, parts, SerializeName(Join([part] + rest, '.')));
    FirstPart(part, rest, parts[0]);
    PartIsWhole(data, offset, part, next, parts[0]);
    BehindIs(data, next, rest, behind);
  }

  lemma PartIsWhole(data: Data, offset: nat, part: string, next: nat, first: string)
    requires offset < |data| && next == offset + 1 + data[offset] && part == Chars(Between(data, offset + 1, next))
    requires |first| <= |part| <= data[offset] == Low8(|first|) && (|first| == |part| ==> Free(part, '.'))
    ensures |first| == |part| == data[offset] && Free(part, '.')
    ensures next <= |data| && '.' as int !in data[offset + 1..next]
  {
    NoDotIn(Between(data, offset + 1, next));
  }

  lemma NameNotEmpty(data: Data, offset: nat, name: string)
    requires offset < |data| && data[offset] > 0 && Holds(data, offset, SerializeName(name))
    ensures name != ""
  {
    if name == "" {
      HoldsByte(data, offset, 0);
    }
  }

  lemma FirstLabelStands(data: Data, offset: nat, parts: seq<string>, bytes: Data) returns (behind: Data)
    requires parts != [] && bytes == SerializeLabels(parts) + [0] && Holds(data, offset, bytes)
    ensures behind == SerializeLabels(parts[1..]) + [0]
    ensures offset < |data| && data[offset] == Low8(|parts[0]|) && Holds(data, offset + 1 + |parts[0]|, behind)
  {
    behind := LabelsFirst(parts, bytes);
    LengthStandsFirst(data, offset, bytes, Low8(|parts[0]|), Codes(parts[0]), behind);
  }

  lemma LabelsFirst(parts: seq<string>, bytes: Data) returns (behind: Data)
    requires parts != [] && bytes == SerializeLabels(parts) + [0]
    ensures behind == SerializeLabels(parts[1..]) + [0] && bytes == [Low8(|parts[0]|)] + Codes(parts[0]) + behind
  {
    LabelsCons(parts);
    behind := SerializeLabels(parts[1..]) + [0];
  }

  lemma LengthStandsFirst(data: Data, offset: nat, bytes: Data, n: Byte, b: Data, rest: Data)
    requires bytes == [n] + b + rest && Holds(data, offset, bytes)
    ensures offset < |data| && data[offset] == n && Holds(data, offset + 1 + |b|, rest)
  {
    Stands(data, offset, n, b, rest);
  }

  lemma NoDotIn(b: Data)
    requires Free(Chars(b), '.')
    ensures '.' as int !in b
  {
    forall i | 0 <= i < |b| ensures b[i] != '.' as int {
      assert Chars(b)[i] == b[i] as char;
    }
  }

  lemma BehindIs(data: Data, next: nat, rest: seq<string>, behind: Data)
    requires Holds(data, next, behind)
    requires behind == SerializeLabels(if rest == [] then [] else Split(Join(rest, '.'), '.')) + [0]
    ensures Holds(data, next, SerializeName(Join(rest, '.')))
  {
    if rest != [] && Join(rest, '.') == "" {
      assert behind == [0] + [0];
      HoldsParts(data, next, [0], [0]);
    }
  }

  /** The name that was read up to `at`, and whether its bytes stand there. */
  ghost predicate ExactName(data: Data, offset: nat, name: string, at: nat, plain: bool) {
    (Holds(data, offset, SerializeName(name)) <==> plain) && (plain ==> at == offset + |SerializeName(name)|)
  }

  /** A name stands as it is written exactly if it is plain. */
  lemma NameExact(utf8: Utf8, data: Data, offset: nat, name: string, at: nat)
    requires ExtendsAscii(utf8) && AsciiLabels(data, offset) && ParseName(utf8, data, offset) == (name, at)
    ensures ExactName(data, offset, name, at, PlainLabels(data, offset))
  {
    if PlainLabels(data, offset) {
      PlainNameWrites(utf8, data, offset);
    }
    if Holds(data, offset, SerializeName(name)) {
      WrittenLabelsArePlain(utf8, data, offset, ParseLabels(utf8, data, offset).0);
    }
  }

  // ---------------------------------------------------------------- TXT values

  ghost predicate AsciiPieces(data: Data, offset: nat, end: nat)
    decreases |data| - offset
  {
    offset >= end || offset >= |data| ||
      (var next := offset + 1 + data[offset];
        AsciiBytes(Between(data, offset + 1, next)) && AsciiPieces(data, next, end))
  }

  /** Character-strings that end at `end`, none empty and all but the last one of full length. */
  predicate PlainPieces(data: Data, offset: nat, end: nat)
    decreases |data| - offset
  {
    offset < end <= |data| && data[offset] > 0 &&
      (var next := offset + 1 + data[offset]; next == end || (data[offset] == CHUNK && PlainPieces(data, next, end)))
  }

  predicate PlainTxt(data: Data, offset: nat, length: nat) {
    (length == 1 && offset < |data| && data[offset] == 0) || PlainPieces(data, offset, offset + length)
  }

  lemma PieceAt(utf8: Utf8, data: Data, offset: nat, end: nat, part: string, next: nat)
    requires ExtendsAscii(utf8) && offset < end && offset < |data| && next == offset + 1 + data[offset]
    requires AsciiBytes(Between(data, offset + 1, next)) && part == Chars(Between(data, offset + 1, next))
    ensures ParseTxtParts(utf8, data, offset, end).0 == [part] + ParseTxtParts(utf8, data, next, end).0
    ensures ParseTxtParts(utf8, data, offset, end).1 == ParseTxtParts(utf8, data, next, end).1
    ensures Ascii(part) && |part| <= data[offset]
  {
    AsciiDecodes(utf8, Between(data, offset + 1, next));
  }

  /** The value of the pieces, and the bytes it is written as. */
  ghost predicate TxtStands(utf8: Utf8, data: Data, offset: nat, end: nat, value: string) {
    && TxtReads(utf8, data, offset, end, value) && value != "" && Ascii(value)
    && Holds(data, offset, SerializeChunks(Chunks(Codes(value))))
    && end == offset + |SerializeChunks(Chunks(Codes(value)))|
  }

  lemma {:induction false} PlainPiecesStand(utf8: Utf8, data: Data, offset: nat, end: nat)
    requires ExtendsAscii(utf8) && AsciiPieces(data, offset, end) && PlainPieces(data, offset, end)
    ensures TxtStands(utf8, data, offset, end, Concat(ParseTxtParts(utf8, data, offset, end).0))
    decreases |data| - offset
  {
    var next := offset + 1 + data[offset];
    var part, rest := Chars(data[offset + 1..next]), ParseTxtParts(utf8, data, next, end).0;
    PieceAt(utf8, data, offset, end, part, next);
    ConcatCons(part, rest);
    if next == end {
      assert rest == [] && part + "" == part;
      ChunkBytes(part, |part|);
      assert part[..|part|] == part && part[|part|..] == "";
      HoldsEmpty(data, next);
      LabelHolds(data, offset, part, next, []);
    } else {
      PlainPiecesStand(utf8, data, next, end);
      PieceStands(utf8, data, offset, end, part, Concat(rest), next);
    }
  }

  lemma HoldsEmpty(data: Data, offset: nat)
    requires offset <= |data|
    ensures Holds(data, offset, [])
  {
  }

  lemma PieceStands(utf8: Utf8, data: Data, offset: nat, end: nat, part: string, tail: string, next: nat)
    requires ExtendsAscii(utf8) && offset < |data| && data[offset] == CHUNK && next == offset + 1 + CHUNK <= |data|
    requires offset < end
    requires part == Chars(data[offset + 1..next]) && Ascii(part) && TxtStands(utf8, data, next, end, tail)
    ensures TxtStands(utf8, data, offset, end, part + tail)
  {
    var rest := SerializeChunks(Chunks(Codes(tail)));
    LabelHolds(data, offset, part, next, rest);
    TxtStep(utf8, data, offset, part, tail, rest, end);
    assert (part + tail)[..CHUNK] == part && (part + tail)[CHUNK..] == tail;
    ChunkBytes(part + tail, CHUNK);
  }

  lemma ChunksCons(encoded: Data, n: nat)
    requires encoded != [] && n == if |encoded| <= CHUNK then |encoded| else CHUNK
    ensures SerializeChunks(Chunks(encoded)) == [Low8(n)] + encoded[..n] + SerializeChunks(Chunks(encoded[n..]))
  {
    ChunksOf(encoded, n);
    HeadTail(encoded[..n], Chunks(encoded[n..]));
  }

  lemma {:induction false} ChunksArePlain(data: Data, offset: nat, encoded: Data, end: nat)
    requires encoded != [] && Holds(data, offset, SerializeChunks(Chunks(encoded)))
    requires end == offset + |SerializeChunks(Chunks(encoded))|
    ensures PlainPieces(data, offset, end)
    decreases |encoded|
  {
    var n: nat := if |encoded| <= CHUNK then |encoded| else CHUNK;
    var head, tail := encoded[..n], encoded[n..];
    var rest := SerializeChunks(Chunks(tail));
    ChunksCons(encoded, n);
    Stands(data, offset, Low8(n), head, rest);
    if tail != [] {
      ChunksArePlain(data, offset + 1 + n, tail, end);
    }
    PieceIsPlain(data, offset, n, head, rest, end);
  }

  lemma PieceIsPlain(data: Data, offset: nat, n: nat, head: Data, rest: Data, end: nat)
    requires Holds(data, offset, [Low8(n)] + head + rest) && |head| == n && 0 < n <= CHUNK
    requires end == offset + 1 + n + |rest|
    requires rest == [] || (n == CHUNK && PlainPieces(data, offset + 1 + n, end))
    ensures PlainPieces(data, offset, end)
  {
    Stands(data, offset, Low8(n), head, rest);
  }

  lemma {:induction false} ChunksLength(encoded: Data, k: nat)
    requires |encoded| <= CHUNK * k
    ensures |SerializeChunks(Chunks(encoded))| <= |encoded| + k
    decreases k
  {
    if encoded != [] {
      var n: nat := if |encoded| <= CHUNK then |encoded| else CHUNK;
      ChunksCons(encoded, n);
      ChunksLength(encoded[n..], k - 1);
    }
  }

  lemma {:induction false} PiecesLength(utf8: Utf8, data: Data, offset: nat, end: nat)
    requires ExtendsAscii(utf8) && AsciiPieces(data, offset, end) && offset <= end
    ensures var (parts, last) := ParseTxtParts(utf8, data, offset, end);
      && Ascii(Concat(parts)) && |Concat(parts)| <= CHUNK * |parts|
      && |Concat(parts)| + |parts| <= last - offset && last <= end + CHUNK
    decreases |data| - offset
  {
    if offset < end && offset < |data| {
      var next := offset + 1 + data[offset];
      var part, rest := Chars(Between(data, offset + 1, next)), ParseTxtParts(utf8, data, next, end).0;
      PieceAt(utf8, data, offset, end, part, next);
      ConcatCons(part, rest);
      if next <= end {
        PiecesLength(utf8, data, next, end);
      } else {
        assert rest == [] && ParseTxtParts(utf8, data, next, end).1 == next;
      }
    }
  }

  /** The value that is read between two offsets, and where reading stops. */
  ghost predicate TxtIs(utf8: Utf8, data: Data, offset: nat, stop: nat, value: string, end: nat) {
    var parsed := ParseTxtParts(utf8, data, offset, stop);
    Concat(parsed.0) == value && parsed.1 == end
  }

  /** A value is never written longer than a length field that overflows. */
  lemma TxtLength(utf8: Utf8, data: Data, offset: nat, stop: nat, length: nat, value: string, end: nat, written: Data)
    requires ExtendsAscii(utf8) && AsciiPieces(data, offset, stop) && length < 0x1_0000 && stop == offset + length
    requires TxtIs(utf8, data, offset, stop, value, end) && written == SerializeTxt(utf8, value)
    ensures Ascii(value) && (|written| % 0x1_0000 == length ==> |written| == length)
  {
    PiecesLength(utf8, data, offset, stop);
    if value != "" {
      ChunksLength(Codes(value), |ParseTxtParts(utf8, data, offset, stop).0|);
      NoOverflow(|written|, length);
    }
  }

  lemma NoOverflow(n: nat, length: nat)
    requires n <= length + CHUNK && length < 0x1_0000
    ensures n % 0x1_0000 == length ==> n == length
  {
  }

  /** The data of a record stand as they are written. */
  ghost predicate DataStands(data: Data, offset: nat, length: nat, written: Data) {
    |written| % 0x1_0000 == length && Holds(data, offset, written)
  }

  /** The bytes for data that were read up to `end`, and whether they stand there. */
  ghost predicate ExactData(data: Data, offset: nat, length: nat, written: Option<Data>, end: nat, plain: bool) {
    && written.Some?
    && (DataStands(data, offset, length, written.value) <==> plain)
    && (plain ==> end == offset + |written.value|)
  }

  /** A TXT value stands as it is written, with its length, exactly if it is plain. */
  lemma TxtExact(utf8: Utf8, data: Data, offset: nat, stop: nat, length: nat, value: string, end: nat, written: Data)
    requires ExtendsAscii(utf8) && AsciiPieces(data, offset, stop) && length < 0x1_0000 && stop == offset + length
    requires TxtIs(utf8, data, offset, stop, value, end) && written == SerializeTxt(utf8, value)
    ensures ExactData(data, offset, length, Some(written), end, PlainTxt(data, offset, length))
  {
    TxtLength(utf8, data, offset, stop, length, value, end, written);
    if |written| % 0x1_0000 == length && Holds(data, offset, written) {
      WrittenTxtIsPlain(utf8, data, offset, value);
    }
    if PlainTxt(data, offset, length) {
      PlainTxtStands(utf8, data, offset, stop, length, value, end, written);
    }
  }

  lemma PlainTxtStands(
    utf8: Utf8, data: Data, offset: nat, stop: nat, length: nat, value: string, end: nat, written: Data)
    requires ExtendsAscii(utf8) && AsciiPieces(data, offset, stop) && stop == offset + length
    requires TxtIs(utf8, data, offset, stop, value, end) && written == SerializeTxt(utf8, value)
    requires PlainTxt(data, offset, length)
    ensures |written| == length && end == stop && Holds(data, offset, written)
  {
    if PlainPieces(data, offset, stop) {
      PlainPiecesWritten(utf8, data, offset, stop, value, written);
    } else {
      EmptyTxtStands(utf8, data, offset);
    }
  }

  lemma PlainPiecesWritten(utf8: Utf8, data: Data, offset: nat, end: nat, value: string, written: Data)
    requires ExtendsAscii(utf8) && AsciiPieces(data, offset, end) && PlainPieces(data, offset, end)
    requires Concat(ParseTxtParts(utf8, data, offset, end).0) == value && written == SerializeTxt(utf8, value)
    ensures ParseTxtParts(utf8, data, offset, end).1 == end == offset + |written| && Holds(data, offset, written)
  {
    PlainPiecesStand(utf8, data, offset, end);
  }

  lemma EmptyTxtStands(utf8: Utf8, data: Data, offset: nat)
    requires ExtendsAscii(utf8) && offset < |data| && data[offset] == 0
    ensures ParseTxt(utf8, data, offset, 1) == ("", offset + 1) && Holds(data, offset, SerializeTxt(utf8, ""))
  {
    HoldsByte(data, offset, 0);
    EmptyTxtParses(utf8, data, offset);
  }

  lemma WrittenTxtIsPlain(utf8: Utf8, data: Data, offset: nat, value: string)
    requires ExtendsAscii(utf8) && Ascii(value) && Holds(data, offset, SerializeTxt(utf8, value))
    ensures PlainTxt(data, offset, |SerializeTxt(utf8, value)|)
  {
    if value == "" {
      HoldsByte(data, offset, 0);
    } else {
      ChunksArePlain(data, offset, Codes(value), offset + |SerializeTxt(utf8, value)|);
    }
  }

  // ---------------------------------------------------------------- questions and records

  /** A question stands as it is written exactly if its name is plain. */
  lemma QuestionExact(utf8: Utf8, data: Data, offset: nat, q: Question, end: nat)
    requires ExtendsAscii(utf8) && AsciiLabels(data, offset)
    requires ParseQuestion(utf8, data, offset) == Some(Parsed(q, end))
    ensures SerializeQuestion(q).Some?
    ensures Holds(data, offset, SerializeQuestion(q).value) <==> PlainLabels(data, offset)
    ensures PlainLabels(data, offset) ==> end == offset + |SerializeQuestion(q).value|
  {
    var at := ParseName(utf8, data, offset).1;
    ParsedQuestion(utf8, data, offset, q, end);
    NameExact(utf8, data, offset, q.name, at);
    CodesBehind(data, offset, q.name, at, SerializeQuestion(q).value, PlainLabels(data, offset));
  }

  lemma ParsedQuestion(utf8: Utf8, data: Data, offset: nat, q: Question, end: nat)
    requires ParseQuestion(utf8, data, offset) == Some(Parsed(q, end))
    ensures var (name, at) := ParseName(utf8, data, offset);
      && name == q.name && at + 4 == end <= |data|
      && SerializeQuestion(q) == Some(SerializeName(name) + Be16(Get16(data, at)) + Be16(Get16(data, at + 2)))
  {
    var at := ParseName(utf8, data, offset).1;
    TypesMatch(q.qtype, Get16(data, at));
    ClassesMatch(q.cls, Get16(data, at + 2));
  }

  /** The two codes behind a name stand where they were read. */
  lemma CodesBehind(data: Data, offset: nat, name: string, at: nat, written: Data, plain: bool)
    requires at + 4 <= |data| && ExactName(data, offset, name, at, plain)
    requires written == SerializeName(name) + Be16(Get16(data, at)) + Be16(Get16(data, at + 2))
    ensures (Holds(data, offset, written) <==> plain) && (plain ==> at + 4 == offset + |written|)
  {
    var t, c := Be16(Get16(data, at)), Be16(Get16(data, at + 2));
    HoldsParts(data, offset, SerializeName(name) + t, c);
    HoldsParts(data, offset, SerializeName(name), t);
    Be16Writes(data, at);
    Be16Writes(data, at + 2);
  }

  const A_CODE: nat := 1
  const PTR_CODE: nat := 12
  const TXT_CODE: nat := 16
  const AAAA_CODE: nat := 28

  ghost predicate AsciiData(data: Data, code: nat, offset: nat, length: nat) {
    && (code == TXT_CODE ==> AsciiPieces(data, offset, offset + length))
    && (code == PTR_CODE ==> AsciiLabels(data, offset))
  }

  /** Data whose length is what the length field says, with a plain name or value in it. */
  predicate PlainData(utf8: Utf8, data: Data, code: nat, offset: nat, length: nat) {
    && (code == A_CODE ==> length == 4)
    && (code == AAAA_CODE ==> length == 16)
    && (code == TXT_CODE ==> PlainTxt(data, offset, length))
    && (code == PTR_CODE ==>
          PlainLabels(data, offset) && (ParseName(utf8, data, offset).1 - offset) % 0x1_0000 == length)
  }

  lemma AddressExact(data: Data, offset: nat, length: nat, b: Data, size: nat)
    requires Between(data, offset, offset + length) == b && |b| == size && 0 < size < 0x1_0000 && length < 0x1_0000
    ensures ExactData(data, offset, length, Some(b), offset + length, length == size)
  {
  }

  lemma V4Exact(utf8: Utf8, data: Data, offset: nat, length: nat, ip: string)
    requires length < 0x1_0000 && Ipv4Text.Print(Between(data, offset, offset + length)) == Some(ip)
    ensures ExactData(data, offset, length, SerializeData(utf8, A(ip)), offset + length, length == 4)
  {
    var b := Between(data, offset, offset + length);
    Ipv4Text.PrintedIsCanonical(b);
    AddressExact(data, offset, length, b, 4);
  }

  lemma V6Exact(utf8: Utf8, data: Data, offset: nat, length: nat, b: Data)
    requires length < 0x1_0000 && Between(data, offset, offset + length) == b && |b| == 16
    ensures ExactData(
      data, offset, length, SerializeData(utf8, AAAA(Ipv6Text.Canonical(b))), offset + length, length == 16)
  {
    Ipv6Text.ExpandedRoundTrip(b);
    AddressExact(data, offset, length, b, 16);
  }

  /** The codes of the types whose data are read, and their names. */
  predicate KindOfCode(code: nat, kind: string) {
    && (code == A_CODE <==> kind == "A") && (code == AAAA_CODE <==> kind == "AAAA")
    && (code == TXT_CODE <==> kind == "TXT") && (code == PTR_CODE <==> kind == "PTR")
  }

  lemma KindOfName(code: nat, kind: string)
    requires TypeName(code) == Some(kind)
    ensures KindOfCode(code, kind)
  {
  }

  ghost predicate ReadAs(
    utf8: Utf8, data: Data, kind: string, offset: nat, length: nat, d: RecordData, end: nat) {
    ParseData(utf8, data, kind, offset, length) == Some(Parsed(d, end))
  }

  /** The data of a record of this type stand as they are written exactly if they are plain. */
  lemma DataExact(utf8: Utf8, data: Data, code: nat, kind: string, offset: nat, length: nat, d: RecordData, end: nat)
    requires ExtendsAscii(utf8) && AsciiData(data, code, offset, length) && length < 0x1_0000
    requires KindOfCode(code, kind) && ReadAs(utf8, data, kind, offset, length, d, end)
    ensures ExactData(data, offset, length, SerializeData(utf8, d), end, PlainData(utf8, data, code, offset, length))
  {
    KindOf(utf8, data, kind, offset, length, d, end);
    if code == A_CODE {
      V4DataExact(utf8, data, offset, length, d, end);
    } else if code == AAAA_CODE {
      V6DataExact(utf8, data, offset, length, d, end);
    } else if code == TXT_CODE {
      TxtDataExact(utf8, data, offset, length, d, end);
    } else if code == PTR_CODE {
      PtrDataExact(utf8, data, offset, length, d, end);
    }
  }

  lemma TypedDataExact(
    utf8: Utf8, data: Data, code: nat, kind: string, offset: nat, length: nat, d: RecordData, end: nat)
    requires ExtendsAscii(utf8) && AsciiData(data, code, offset, length) && length < 0x1_0000
    requires TypeName(code) == Some(kind) && ReadAs(utf8, data, kind, offset, length, d, end)
    ensures ExactData(data, offset, length, SerializeData(utf8, d), end, PlainData(utf8, data, code, offset, length))
    ensures TypeName(code) == Some(TypeOf(d))
  {
    KindOfName(code, kind);
    DataExact(utf8, data, code, kind, offset, length, d, end);
    KindOf(utf8, data, kind, offset, length, d, end);
  }

  lemma KindOf(utf8: Utf8, data: Data, kind: string, offset: nat, length: nat, d: RecordData, end: nat)
    requires ReadAs(utf8, data, kind, offset, length, d, end)
    ensures TypeOf(d) == kind
  {
  }

  lemma V4DataExact(utf8: Utf8, data: Data, offset: nat, length: nat, d: RecordData, end: nat)
    requires length < 0x1_0000 && ReadAs(utf8, data, "A", offset, length, d, end)
    ensures d.A? && ExactData(data, offset, length, SerializeData(utf8, d), end, length == 4)
  {
    V4Exact(utf8, data, offset, length, d.ip);
  }

  lemma V6DataExact(utf8: Utf8, data: Data, offset: nat, length: nat, d: RecordData, end: nat)
    requires length < 0x1_0000 && ReadAs(utf8, data, "AAAA", offset, length, d, end)
    ensures d.AAAA? && ExactData(data, offset, length, SerializeData(utf8, d), end, length == 16)
  {
    V6Exact(utf8, data, offset, length, Between(data, offset, offset + length));
  }

  lemma TxtDataExact(utf8: Utf8, data: Data, offset: nat, length: nat, d: RecordData, end: nat)
    requires ExtendsAscii(utf8) && AsciiPieces(data, offset, offset + length) && length < 0x1_0000
    requires ReadAs(utf8, data, "TXT", offset, length, d, end)
    ensures d.TXT? && ExactData(data, offset, length, SerializeData(utf8, d), end, PlainTxt(data, offset, length))
  {
    TxtParsed(utf8, data, offset, length, d, end);
    TxtExact(utf8, data, offset, offset + length, length, d.value, end, SerializeTxt(utf8, d.value));
  }

  lemma TxtParsed(utf8: Utf8, data: Data, offset: nat, length: nat, d: RecordData, end: nat)
    requires ReadAs(utf8, data, "TXT", offset, length, d, end)
    ensures d.TXT? && TxtIs(utf8, data, offset, offset + length, d.value, end)
    ensures SerializeData(utf8, d) == Some(SerializeTxt(utf8, d.value))
  {
  }

  lemma PtrDataExact(utf8: Utf8, data: Data, offset: nat, length: nat, d: RecordData, end: nat)
    requires ExtendsAscii(utf8) && AsciiLabels(data, offset) && length < 0x1_0000
    requires ReadAs(utf8, data, "PTR", offset, length, d, end)
    ensures d.PTR?
    ensures ExactData(
      data, offset, length, SerializeData(utf8, d), end,
      PlainLabels(data, offset) && (ParseName(utf8, data, offset).1 - offset) % 0x1_0000 == length)
  {
    NameExact(utf8, data, offset, d.ptr, end);
  }

  ghost predicate AsciiRecord(utf8: Utf8, data: Data, offset: nat) {
    var at := ParseName(utf8, data, offset).1;
    && AsciiLabels(data, offset)
    && (at + 10 <= |data| ==> AsciiData(data, Get16(data, at), at + 10, Get16(data, at + 8)))
  }

  predicate PlainRecord(utf8: Utf8, data: Data, offset: nat) {
    var at := ParseName(utf8, data, offset).1;
    && PlainLabels(data, offset) && at + 10 <= |data|
    && PlainData(utf8, data, Get16(data, at), at + 10, Get16(data, at + 8))
  }

  /** What the record at an offset was read from. */
  lemma ParsedRecord(utf8: Utf8, data: Data, offset: nat, r: Record, end: nat)
    requires ParseRecord(utf8, data, offset) == Some(Parsed(r, end))
    ensures var (name, at) := ParseName(utf8, data, offset);
      && name == r.name && at + 10 <= |data|
      && TypeName(Get16(data, at)).Some? && ClassName(Get16(data, at + 2)) == Some(r.cls)
      && Get32(data, at + 4) == r.ttl
      && ParseData(utf8, data, TypeName(Get16(data, at)).value, at + 10, Get16(data, at + 8)) ==
        Some(Parsed(r.data, end))
  {
  }

  lemma HeaderStands(data: Data, at: nat, t: nat, c: nat, ttl: nat, length: nat)
    requires at + 10 <= |data| && Get16(data, at) == t && Get16(data, at + 2) == c && Get32(data, at + 4) == ttl
    ensures Holds(data, at, RecordHeader(t, c, ttl, length)) <==> Get16(data, at + 8) == length % 0x1_0000
  {
    HoldsParts(data, at, Be16(t) + Be16(c) + Be32(ttl), Be16(length));
    HoldsParts(data, at, Be16(t) + Be16(c), Be32(ttl));
    HoldsParts(data, at, Be16(t), Be16(c));
    Be16Writes(data, at);
    Be16Writes(data, at + 2);
    Be32Writes(data, at + 4);
    LengthStands(data, at + 8, length);
  }

  lemma LengthStands(data: Data, at: nat, length: nat)
    requires at + 2 <= |data|
    ensures Holds(data, at, Be16(length)) <==> Get16(data, at) == length % 0x1_0000
  {
    Be16Writes(data, at);
    Be16Wraps(length);
    HoldsNumbers(data, at, length % 0x1_0000);
  }

  /** The parts of a record that stand where they belong. */
  lemma RecordStandsIff(data: Data, offset: nat, name: Data, header: Data, d: Data)
    ensures Holds(data, offset, name + header + d) <==>
      Holds(data, offset, name) && Holds(data, offset + |name|, header) && Holds(data, offset + |name| + |header|, d)
  {
    HoldsParts(data, offset, name + header, d);
    HoldsParts(data, offset, name, header);
  }

  /** A record stands as it is written exactly if it is plain. */
  lemma RecordExact(utf8: Utf8, data: Data, offset: nat, r: Record, end: nat)
    requires ExtendsAscii(utf8) && AsciiRecord(utf8, data, offset)
    requires ParseRecord(utf8, data, offset) == Some(Parsed(r, end))
    ensures ExactRecord(utf8, data, offset, r, end, PlainRecord(utf8, data, offset))
  {
    var at := ParseName(utf8, data, offset).1;
    ParsedRecord(utf8, data, offset, r, end);
    PlainRecordIs(utf8, data, offset, at, Get16(data, at), Get16(data, at + 8));
    RecordExactFrom(utf8, data, offset, r, end, at, Get16(data, at));
  }

  lemma PlainRecordIs(utf8: Utf8, data: Data, offset: nat, at: nat, code: nat, length: nat)
    requires at == ParseName(utf8, data, offset).1 && at + 10 <= |data|
    requires code == Get16(data, at) && length == Get16(data, at + 8)
    ensures PlainRecord(utf8, data, offset) ==
      (PlainLabels(data, offset) && PlainData(utf8, data, code, at + 10, length))
    ensures AsciiRecord(utf8, data, offset) ==> AsciiLabels(data, offset) && AsciiData(data, code, at + 10, length)
  {
  }

  /** The record that was read up to `end`, and whether its bytes stand there. */
  ghost predicate ExactRecord(utf8: Utf8, data: Data, offset: nat, r: Record, end: nat, plain: bool) {
    var written := SerializeRecord(utf8, r);
    && written.Some?
    && (Holds(data, offset, written.value) <==> plain)
    && (plain ==> end == offset + |written.value|)
  }

  lemma RecordExactFrom(utf8: Utf8, data: Data, offset: nat, r: Record, end: nat, at: nat, code: nat)
    requires ExtendsAscii(utf8) && ParseName(utf8, data, offset) == (r.name, at) && at + 10 <= |data|
    requires Get16(data, at) == code && TypeName(code).Some? && ClassName(Get16(data, at + 2)) == Some(r.cls)
    requires Get32(data, at + 4) == r.ttl
    requires ReadAs(utf8, data, TypeName(code).value, at + 10, Get16(data, at + 8), r.data, end)
    requires AsciiLabels(data, offset) && AsciiData(data, code, at + 10, Get16(data, at + 8))
    ensures ExactRecord(
      utf8, data, offset, r, end,
      PlainLabels(data, offset) && PlainData(utf8, data, code, at + 10, Get16(data, at + 8)))
  {
    var c, length := Get16(data, at + 2), Get16(data, at + 8);
    var plainName, plainData := PlainLabels(data, offset), PlainData(utf8, data, code, at + 10, length);
    TypedDataExact(utf8, data, code, TypeName(code).value, at + 10, length, r.data, end);
    NameExact(utf8, data, offset, r.name, at);
    BytesExact(utf8, data, offset, r, end, at, code, c, plainName, plainData);
  }

  lemma BytesExact(
    utf8: Utf8, data: Data, offset: nat, r: Record, end: nat, at: nat, t: nat, c: nat, plainName: bool, plainData: bool)
    requires at + 10 <= |data| && Get16(data, at) == t && Get16(data, at + 2) == c && Get32(data, at + 4) == r.ttl
    requires TypeName(t) == Some(TypeOf(r.data)) && ClassName(c) == Some(r.cls)
    requires ExactName(data, offset, r.name, at, plainName)
    requires ExactData(data, at + 10, Get16(data, at + 8), SerializeData(utf8, r.data), end, plainData)
    ensures ExactRecord(utf8, data, offset, r, end, plainName && plainData)
  {
    var d := SerializeData(utf8, r.data).value;
    TypesMatch(TypeOf(r.data), t);
    ClassesMatch(r.cls, c);
    RecordBytes(utf8, r, d, t, c);
    HeaderStands(data, at, t, c, r.ttl, |d|);
    PartsExact(data, offset, SerializeName(r.name), RecordHeader(t, c, r.ttl, |d|), d, at, end, plainName, plainData);
  }

  lemma PartsExact(
    data: Data, offset: nat, name: Data, header: Data, d: Data, at: nat, end: nat, plainName: bool, plainData: bool)
    requires at + 10 <= |data| && |header| == 10
    requires (Holds(data, offset, name) <==> plainName) && (plainName ==> at == offset + |name|)
    requires Holds(data, at, header) <==> Get16(data, at + 8) == |d| % 0x1_0000
    requires DataStands(data, at + 10, Get16(data, at + 8), d) <==> plainData
    requires plainData ==> end == at + 10 + |d|
    ensures Holds(data, offset, name + header + d) <==> plainName && plainData
    ensures plainName && plainData ==> end == offset + |name + header + d|
  {
    RecordStandsIff(data, offset, name, header, d);
  }

  // ---------------------------------------------------------------- sections

  /** `good` holds of the offsets at which `count` items were read. */
  ghost predicate Along<T>(parse: nat -> Option<Parsed<T>>, good: nat -> bool, offset: nat, count: nat)
    decreases count
  {
    count == 0 || (good(offset) && (parse(offset).Some? ==> Along(parse, good, parse(offset).value.end, count - 1)))
  }

  ghost function AsciiAt(utf8: Utf8, data: Data): nat -> bool {
    (offset: nat) => AsciiRecord(utf8, data, offset)
  }

  ghost function PlainAt(utf8: Utf8, data: Data): nat -> bool {
    (offset: nat) => PlainRecord(utf8, data, offset)
  }

  ghost function AsciiNameAt(data: Data): nat -> bool {
    (offset: nat) => AsciiLabels(data, offset)
  }

  ghost function PlainNameAt(data: Data): nat -> bool {
    (offset: nat) => PlainLabels(data, offset)
  }

  ghost predicate AsciiQuestions(utf8: Utf8, data: Data, offset: nat, count: nat) {
    Along(Questions(utf8, data), AsciiNameAt(data), offset, count)
  }

  ghost predicate AsciiRecords(utf8: Utf8, data: Data, offset: nat, count: nat) {
    Along(Records(utf8, data), AsciiAt(utf8, data), offset, count)
  }

  ghost predicate PlainQuestions(utf8: Utf8, data: Data, offset: nat, count: nat) {
    Along(Questions(utf8, data), PlainNameAt(data), offset, count)
  }

  ghost predicate PlainRecords(utf8: Utf8, data: Data, offset: nat, count: nat) {
    Along(Records(utf8, data), PlainAt(utf8, data), offset, count)
  }

  /** The first item of a section, and the others. */
  lemma ManyParts<T>(parse: nat -> Option<Parsed<T>>, offset: nat, count: nat, items: seq<T>, end: nat)
    requires count > 0 && ParseMany(parse, offset, count) == Some(Parsed(items, end))
    ensures items != [] && parse(offset).Some? && parse(offset).value.value == items[0]
    ensures ParseMany(parse, parse(offset).value.end, count - 1) == Some(Parsed(items[1..], end))
  {
    HeadTail(items[0], ParseMany(parse, parse(offset).value.end, count - 1).value.value);
  }

  lemma ManyCount<T>(parse: nat -> Option<Parsed<T>>, offset: nat, count: nat, items: seq<T>, end: nat)
    requires ParseMany(parse, offset, count) == Some(Parsed(items, end))
    ensures |items| == count
    decreases count
  {
    if count > 0 {
      ManyParts(parse, offset, count, items, end);
      ManyCount(parse, parse(offset).value.end, count - 1, items[1..], end);
    }
  }

  /** The bytes for what was read up to `end`, and whether they stand there. */
  ghost predicate ExactBytes(data: Data, offset: nat, bytes: Data, end: nat, plain: bool) {
    offset <= |data| ==> (Holds(data, offset, bytes) <==> plain) && (plain ==> end == offset + |bytes|)
  }

  lemma BytesAppend(
    data: Data, offset: nat, first: Data, rest: Data, next: nat, end: nat, plainFirst: bool, plainRest: bool)
    requires ExactBytes(data, offset, first, next, plainFirst) && ExactBytes(data, next, rest, end, plainRest)
    ensures ExactBytes(data, offset, first + rest, end, plainFirst && plainRest)
  {
    HoldsParts(data, offset, first, rest);
  }

  ghost predicate ExactParts(data: Data, offset: nat, parts: Option<seq<Data>>, end: nat, plain: bool) {
    parts.Some? && ExactBytes(data, offset, Flatten(parts.value), end, plain)
  }

  /** Parts stand behind each other exactly if the first and then the others do. */
  lemma FirstExact(
    data: Data, offset: nat, first: Data, rest: seq<Data>, next: nat, end: nat, plainFirst: bool, plainRest: bool)
    requires (Holds(data, offset, first) <==> plainFirst) && (plainFirst ==> next == offset + |first|)
    requires ExactParts(data, next, Some(rest), end, plainRest)
    ensures ExactParts(data, offset, Some([first] + rest), end, plainFirst && plainRest)
  {
    FlattenCons(first, rest);
    BytesAppend(data, offset, first, Flatten(rest), next, end, plainFirst, plainRest);
  }

  /** What was read at an offset stands there as it is written exactly if it is plain. */
  ghost predicate ExactItem<T>(
    data: Data, parsed: Option<Parsed<T>>, offset: nat, write: T -> Option<Data>, plain: bool) {
    parsed.Some? ==> (
      var written := write(parsed.value.value);
      && written.Some?
      && (Holds(data, offset, written.value) <==> plain)
      && (plain ==> parsed.value.end == offset + |written.value|))
  }

  function WriteMany<T>(write: T -> Option<Data>, items: seq<T>): Option<seq<Data>> {
    if items == [] then Some([])
    else
      var first :- write(items[0]);
      var rest :- WriteMany(write, items[1..]);
      Some([first] + rest)
  }

  lemma {:induction false} ManyExact<T>(
    data: Data, parse: nat -> Option<Parsed<T>>, write: T -> Option<Data>, good: nat -> bool, plain: nat -> bool,
    offset: nat, count: nat, items: seq<T>, end: nat)
    requires forall o: nat :: good(o) ==> ExactItem(data, parse(o), o, write, plain(o))
    requires Along(parse, good, offset, count) && ParseMany(parse, offset, count) == Some(Parsed(items, end))
    ensures ExactParts(data, offset, WriteMany(write, items), end, Along(parse, plain, offset, count))
    decreases count
  {
    if count > 0 {
      ManyParts(parse, offset, count, items, end);
      var next := parse(offset).value.end;
      ManyExact(data, parse, write, good, plain, next, count - 1, items[1..], end);
      var first, rest := write(items[0]).value, WriteMany(write, items[1..]).value;
      FirstExact(data, offset, first, rest, next, end, plain(offset), Along(parse, plain, next, count - 1));
    }
  }

  function WriteQuestion(): Question -> Option<Data> {
    q => SerializeQuestion(q)
  }

  function WriteRecord(utf8: Utf8): Record -> Option<Data> {
    r => SerializeRecord(utf8, r)
  }

  lemma {:induction false} WriteQuestions(questions: seq<Question>)
    ensures WriteMany(WriteQuestion(), questions) == SerializeQuestions(questions)
  {
    if questions != [] {
      WriteQuestions(questions[1..]);
    }
  }

  lemma {:induction false} WriteRecords(utf8: Utf8, records: seq<Record>)
    ensures WriteMany(WriteRecord(utf8), records) == SerializeRecords(utf8, records)
  {
    if records != [] {
      WriteRecords(utf8, records[1..]);
    }
  }

  lemma QuestionsExact(utf8: Utf8, data: Data, offset: nat, count: nat, questions: seq<Question>, end: nat)
    requires ExtendsAscii(utf8) && AsciiQuestions(utf8, data, offset, count)
    requires ParseMany(Questions(utf8, data), offset, count) == Some(Parsed(questions, end))
    ensures ExactParts(data, offset, SerializeQuestions(questions), end, PlainQuestions(utf8, data, offset, count))
  {
    var parse, write, good, plain := Questions(utf8, data), WriteQuestion(), AsciiNameAt(data), PlainNameAt(data);
    forall o: nat | good(o) ensures ExactItem(data, parse(o), o, write, plain(o)) {
      if parse(o).Some? {
        QuestionExact(utf8, data, o, parse(o).value.value, parse(o).value.end);
      }
    }
    ManyExact(data, parse, write, good, plain, offset, count, questions, end);
    WriteQuestions(questions);
  }

  lemma RecordsAreExact(utf8: Utf8, data: Data)
    requires ExtendsAscii(utf8)
    ensures forall o: nat :: AsciiAt(utf8, data)(o) ==>
      ExactItem(data, Records(utf8, data)(o), o, WriteRecord(utf8), PlainAt(utf8, data)(o))
  {
    forall o: nat | AsciiAt(utf8, data)(o)
      ensures ExactItem(data, Records(utf8, data)(o), o, WriteRecord(utf8), PlainAt(utf8, data)(o))
    {
      OneRecordExact(utf8, data, o, ParseRecord(utf8, data, o));
    }
  }

  lemma OneRecordExact(utf8: Utf8, data: Data, offset: nat, parsed: Option<Parsed<Record>>)
    requires ExtendsAscii(utf8) && AsciiRecord(utf8, data, offset) && parsed == ParseRecord(utf8, data, offset)
    ensures ExactItem(data, parsed, offset, WriteRecord(utf8), PlainRecord(utf8, data, offset))
  {
    if parsed.Some? {
      RecordExact(utf8, data, offset, parsed.value.value, parsed.value.end);
    }
  }

  lemma RecordsExact(utf8: Utf8, data: Data, offset: nat, count: nat, records: seq<Record>, end: nat)
    requires ExtendsAscii(utf8) && AsciiRecords(utf8, data, offset, count)
    requires ParseMany(Records(utf8, data), offset, count) == Some(Parsed(records, end))
    ensures ExactParts(data, offset, SerializeRecords(utf8, records), end, PlainRecords(utf8, data, offset, count))
  {
    RecordsAreExact(utf8, data);
    ManyExact(
      data, Records(utf8, data), WriteRecord(utf8), AsciiAt(utf8, data), PlainAt(utf8, data), offset, count, records,
      end);
    WriteRecords(utf8, records);
  }

  // ---------------------------------------------------------------- messages

  /** The offsets at which the sections behind the questions start, and the end of the message. */
  ghost function Offsets(utf8: Utf8, data: Data): (nat, nat, nat, nat)
    requires ParseMessage(utf8, data).Some?
  {
    var h := ParseHeader(data).value;
    var o1 := ParseMany(Questions(utf8, data), HEADER_LENGTH, h.questionCount).value.end;
    var o2 := ParseMany(Records(utf8, data), o1, h.answerCount).value.end;
    var o3 := ParseMany(Records(utf8, data), o2, h.authorityCount).value.end;
    (o1, o2, o3, ParseMany(Records(utf8, data), o3, h.additionalCount).value.end)
  }

  /** All names and TXT values of the message are ASCII. */
  ghost predicate AsciiMessage(utf8: Utf8, data: Data)
    requires ParseMessage(utf8, data).Some?
  {
    var h := ParseHeader(data).value;
    var (o1, o2, o3, _) := Offsets(utf8, data);
    && AsciiQuestions(utf8, data, HEADER_LENGTH, h.questionCount)
    && AsciiRecords(utf8, data, o1, h.answerCount)
    && AsciiRecords(utf8, data, o2, h.authorityCount)
    && AsciiRecords(utf8, data, o3, h.additionalCount)
  }

  /** The three reserved bits of the header are clear. */
  predicate ReservedClear(data: Data) {
    |data| >= HEADER_LENGTH && data[3] / 16 % 8 == 0
  }

  /** The reserved bits are clear, every question and record is plain, and nothing follows the last one. */
  ghost predicate PlainMessage(utf8: Utf8, data: Data)
    requires ParseMessage(utf8, data).Some?
  {
    var h := ParseHeader(data).value;
    var (o1, o2, o3, o4) := Offsets(utf8, data);
    && ReservedClear(data)
    && PlainQuestions(utf8, data, HEADER_LENGTH, h.questionCount)
    && PlainRecords(utf8, data, o1, h.answerCount)
    && PlainRecords(utf8, data, o2, h.authorityCount)
    && PlainRecords(utf8, data, o3, h.additionalCount)
    && o4 == |data|
  }

  lemma FlagBit(b: Byte, k: nat, p: nat)
    requires k <= 7 && p == Pow2(k)
    ensures Transport.Bit(BitAnd(b, p) != 0) == b / p % 2
  {
    BitSet(b, k, p);
  }

  /** The first byte of flags is put together again. */
  lemma FirstFlagsWrite(h: Header, x: Byte, op: nat)
    requires op == x / 8 % 16
    requires h.isResponse == (BitAnd(x, 0x80) != 0) && h.isAuthoritativeAnswer == (BitAnd(x, 0x04) != 0)
    requires h.isTruncated == (BitAnd(x, 0x02) != 0) && h.isRecursionDesired == (BitAnd(x, 0x01) != 0)
    ensures Low8(FirstFlags(h, op)) == x
  {
    PowersUsed();
    FlagBit(x, 7, 0x80);
    FlagBit(x, 2, 0x04);
    FlagBit(x, 1, 0x02);
    FlagBit(x, 0, 0x01);
    EightBits(x);
    FirstByte(h, op, x);
  }

  lemma EightBits(x: nat)
    requires x < 0x100
    ensures x == 128 * (x / 128 % 2) + 8 * (x / 8 % 16) + 4 * (x / 4 % 2) + 2 * (x / 2 % 2) + x / 1 % 2
  {
    var q: nat := x / 8;
    DivModUnique(x / 4, 2, x / 8, x / 4 % 2);
  }

  lemma OpCodeOf(x: Byte)
    ensures BitAnd(Sar(x, 3), 0x0f) == x / 8 % 16
  {
    PowersUsed();
    LowNibble(x / 8);
  }

  lemma SecondFlagsWrite(h: Header, y: Byte, rcode: nat)
    requires rcode == y % 16 && h.isRecursionAvailable == (BitAnd(y, 0x80) != 0)
    ensures Low8(SecondFlags(h, rcode)) == y <==> y / 16 % 8 == 0
  {
    PowersUsed();
    FlagBit(y, 7, 0x80);
    var high: nat, middle: nat := y / 128, y / 16 % 8;
    HighBit(y, high, middle);
    SecondByte(h, rcode, 128 * high + rcode);
  }

  lemma HighBit(y: nat, high: nat, middle: nat)
    requires y < 0x100 && high == y / 128 && middle == y / 16 % 8
    ensures y / 128 % 2 == high && y == 128 * high + 16 * middle + y % 16
  {
    DivModUnique(y / 16, 8, high, middle);
  }

  lemma CountsWrite(data: Data, h: Header)
    requires |data| >= HEADER_LENGTH
    requires Get16(data, 4) == h.questionCount && Get16(data, 6) == h.answerCount
    requires Get16(data, 8) == h.authorityCount && Get16(data, 10) == h.additionalCount
    ensures Counts(h) == data[4..12]
  {
    Be16Writes(data, 4);
    Be16Writes(data, 6);
    Be16Writes(data, 8);
    Be16Writes(data, 10);
    assert data[4..12] == data[4..6] + data[6..8] + data[8..10] + data[10..12];
  }

  /** A header is written again as it was exactly if its reserved bits are clear. */
  lemma HeaderExact(data: Data, h: Header)
    requires ParseHeader(data) == Some(h)
    ensures SerializeHeader(h).Some?
    ensures ExactBytes(data, 0, SerializeHeader(h).value, HEADER_LENGTH, ReservedClear(data))
  {
    var op: nat, rcode: nat := data[2] / 8 % 16, data[3] % 16;
    OpCodeOf(data[2]);
    LowNibble(data[3]);
    CodesMatch(h.opcode, op);
    CodesMatch(h.rcode, rcode);
    FirstFlagsWrite(h, data[2], op);
    SecondFlagsWrite(h, data[3], rcode);
    HeaderWritten(data, h, op, rcode, Low8(SecondFlags(h, rcode)));
    FlagsBetween(data, Low8(SecondFlags(h, rcode)));
  }

  lemma HeaderWritten(data: Data, h: Header, op: nat, rcode: nat, y: Byte)
    requires ParseHeader(data) == Some(h) && OpCode(h.opcode) == Some(op) && RCode(h.rcode) == Some(rcode)
    requires Low8(FirstFlags(h, op)) == data[2] && Low8(SecondFlags(h, rcode)) == y
    ensures SerializeHeader(h) == Some(data[0..2] + [data[2]] + [y] + data[4..12])
  {
    NumbersRead(data, h);
    CountsWrite(data, h);
    Be16Writes(data, 0);
    HeaderIs(h, op, rcode, data[0..2], data[2], y, data[4..12]);
  }

  lemma NumbersRead(data: Data, h: Header)
    requires ParseHeader(data) == Some(h)
    ensures |data| >= HEADER_LENGTH && Get16(data, 0) == h.id
    ensures Get16(data, 4) == h.questionCount && Get16(data, 6) == h.answerCount
    ensures Get16(data, 8) == h.authorityCount && Get16(data, 10) == h.additionalCount
  {
  }

  lemma HeaderIs(h: Header, op: nat, rcode: nat, id: Data, x: Byte, y: Byte, counts: Data)
    requires OpCode(h.opcode) == Some(op) && RCode(h.rcode) == Some(rcode)
    requires Be16(h.id) == id && Low8(FirstFlags(h, op)) == x && Low8(SecondFlags(h, rcode)) == y && Counts(h) == counts
    ensures SerializeHeader(h) == Some(id + [x] + [y] + counts)
  {
  }

  lemma FlagsBetween(data: Data, y: Byte)
    requires |data| >= HEADER_LENGTH
    ensures Holds(data, 0, data[0..2] + [data[2]] + [y] + data[4..12]) <==> y == data[3]
  {
    var header := data[0..2] + [data[2]] + [y] + data[4..12];
    assert header[3] == y;
    if y == data[3] {
      assert header == data[0..12];
    }
  }

  lemma SameCounts(utf8: Utf8, data: Data)
    requires ParseMessage(utf8, data).Some?
    ensures WithCounts(ParseMessage(utf8, data).value) == ParseMessage(utf8, data).value
  {
    var m := ParseMessage(utf8, data).value;
    var h := m.header;
    var (o1, o2, o3, o4) := Offsets(utf8, data);
    MessageSections(utf8, data, m, o1, o2, o3, o4);
    ManyCount(Questions(utf8, data), HEADER_LENGTH, h.questionCount, m.questions, o1);
    ManyCount(Records(utf8, data), o1, h.answerCount, m.answers.value, o2);
    ManyCount(Records(utf8, data), o2, h.authorityCount, m.authorities.value, o3);
    ManyCount(Records(utf8, data), o3, h.additionalCount, m.additionals.value, o4);
  }

  lemma FiveAppend(
    data: Data, h: Data, q: Data, an: Data, au: Data, ad: Data, o0: nat, o1: nat, o2: nat, o3: nat, o4: nat,
    p0: bool, p1: bool, p2: bool, p3: bool, p4: bool)
    requires ExactBytes(data, 0, h, o0, p0) && ExactBytes(data, o0, q, o1, p1) && ExactBytes(data, o1, an, o2, p2)
    requires ExactBytes(data, o2, au, o3, p3) && ExactBytes(data, o3, ad, o4, p4)
    ensures h + (q + (an + (au + ad))) == data <==> p0 && p1 && p2 && p3 && p4 && o4 == |data|
  {
    BytesAppend(data, o2, au, ad, o3, o4, p3, p4);
    BytesAppend(data, o1, an, au + ad, o2, o4, p2, p3 && p4);
    BytesAppend(data, o0, q, an + (au + ad), o1, o4, p1, p2 && p3 && p4);
    BytesAppend(data, 0, h, q + (an + (au + ad)), o0, o4, p0, p1 && p2 && p3 && p4);
    WholeHolds(data, h + (q + (an + (au + ad))));
  }

  lemma WholeHolds(data: Data, bytes: Data)
    ensures bytes == data <==> Holds(data, 0, bytes) && |bytes| == |data|
  {
    if Holds(data, 0, bytes) && |bytes| == |data| {
      assert data[0..|bytes|] == data;
    }
  }

  lemma FiveFlatten(h: Data, q: seq<Data>, an: seq<Data>, au: seq<Data>, ad: seq<Data>)
    ensures Flatten([h] + (q + (an + (au + ad)))) == h + (Flatten(q) + (Flatten(an) + (Flatten(au) + Flatten(ad))))
  {
    FlattenCons(h, q + (an + (au + ad)));
    FlattenAppend(q, an + (au + ad));
    FlattenAppend(an, au + ad);
    FlattenAppend(au, ad);
  }

  lemma MessageBytes(utf8: Utf8, m: Message, h: Data, q: seq<Data>, an: seq<Data>, au: seq<Data>, ad: seq<Data>)
    requires WithCounts(m) == m && SerializeHeader(m.header) == Some(h) && AreParts(utf8, m, q, an, au, ad)
    ensures SerializeMessage(utf8, m) ==
      Some(h + (Flatten(q) + (Flatten(an) + (Flatten(au) + Flatten(ad)))))
  {
    FiveFlatten(h, q, an, au, ad);
  }

  /** The sections of a message that was read. */
  lemma MessageSections(utf8: Utf8, data: Data, m: Message, o1: nat, o2: nat, o3: nat, o4: nat)
    requires ParseMessage(utf8, data) == Some(m) && Offsets(utf8, data) == (o1, o2, o3, o4)
    ensures m.answers.Some? && m.authorities.Some? && m.additionals.Some?
    ensures ParseMany(Questions(utf8, data), HEADER_LENGTH, m.header.questionCount) == Some(Parsed(m.questions, o1))
    ensures ParseMany(Records(utf8, data), o1, m.header.answerCount) == Some(Parsed(m.answers.value, o2))
    ensures ParseMany(Records(utf8, data), o2, m.header.authorityCount) == Some(Parsed(m.authorities.value, o3))
    ensures ParseMany(Records(utf8, data), o3, m.header.additionalCount) == Some(Parsed(m.additionals.value, o4))
    ensures AsciiMessage(utf8, data) ==>
      && AsciiQuestions(utf8, data, HEADER_LENGTH, m.header.questionCount)
      && AsciiRecords(utf8, data, o1, m.header.answerCount)
      && AsciiRecords(utf8, data, o2, m.header.authorityCount)
      && AsciiRecords(utf8, data, o3, m.header.additionalCount)
  {
  }

  lemma SectionsExact(utf8: Utf8, data: Data, m: Message, o1: nat, o2: nat, o3: nat, o4: nat)
    requires ExtendsAscii(utf8) && ParseMessage(utf8, data) == Some(m) && AsciiMessage(utf8, data)
    requires Offsets(utf8, data) == (o1, o2, o3, o4)
    ensures m.answers.Some? && m.authorities.Some? && m.additionals.Some?
    ensures ExactParts(
      data, HEADER_LENGTH, SerializeQuestions(m.questions), o1,
      PlainQuestions(utf8, data, HEADER_LENGTH, m.header.questionCount))
    ensures ExactParts(
      data, o1, SerializeRecords(utf8, m.answers.value), o2, PlainRecords(utf8, data, o1, m.header.answerCount))
    ensures ExactParts(
      data, o2, SerializeRecords(utf8, m.authorities.value), o3, PlainRecords(utf8, data, o2, m.header.authorityCount))
    ensures ExactParts(
      data, o3, SerializeRecords(utf8, m.additionals.value), o4, PlainRecords(utf8, data, o3, m.header.additionalCount))
  {
    MessageSections(utf8, data, m, o1, o2, o3, o4);
    QuestionsExact(utf8, data, HEADER_LENGTH, m.header.questionCount, m.questions, o1);
    RecordsExact(utf8, data, o1, m.header.answerCount, m.answers.value, o2);
    RecordsExact(utf8, data, o2, m.header.authorityCount, m.authorities.value, o3);
    RecordsExact(utf8, data, o3, m.header.additionalCount, m.additionals.value, o4);
  }

  /**
   Reading and then writing: the bytes of an accepted message with ASCII names and values are written
   again as they were exactly if the reserved bits of its header are clear, its labels have no dots and
   end with their names, its length fields say how long the data of the records are, its TXT values are
   cut into pieces as long as possible, and nothing follows its last record.
   */
  lemma MessageParsedSerializesIff(utf8: Utf8, data: Data)
    requires ExtendsAscii(utf8) && ParseMessage(utf8, data).Some? && AsciiMessage(utf8, data)
    ensures SerializeMessage(utf8, ParseMessage(utf8, data).value) == Some(data) <==> PlainMessage(utf8, data)
  {
    var m := ParseMessage(utf8, data).value;
    var h := m.header;
    var (o1, o2, o3, o4) := Offsets(utf8, data);
    SameCounts(utf8, data);
    HeaderExact(data, h);
    SectionsExact(utf8, data, m, o1, o2, o3, o4);
    var header, q := SerializeHeader(h).value, SerializeQuestions(m.questions).value;
    var an, au := SerializeRecords(utf8, m.answers.value).value, SerializeRecords(utf8, m.authorities.value).value;
    var ad := SerializeRecords(utf8, m.additionals.value).value;
    MessageBytes(utf8, m, header, q, an, au, ad);
    var p0, p1 := ReservedClear(data), PlainQuestions(utf8, data, HEADER_LENGTH, h.questionCount);
    var p2, p3 := PlainRecords(utf8, data, o1, h.answerCount), PlainRecords(utf8, data, o2, h.authorityCount);
    var p4 := PlainRecords(utf8, data, o3, h.additionalCount);
    FiveAppend(
      data, header, Flatten(q), Flatten(an), Flatten(au), Flatten(ad), HEADER_LENGTH, o1, o2, o3, o4, p0, p1, p2, p3,
      p4);
  }

  /** A query without questions that has the reserved bit set which later standards call AD. */
  const AuthenticQuery: Data := [0, 0, 1, 0x20, 0, 0, 0, 0, 0, 0, 0, 0]

  /** It is accepted, and written again without this bit. */
  lemma ReservedBitIsLost(utf8: Utf8)
    requires ExtendsAscii(utf8)
    ensures ParseMessage(utf8, AuthenticQuery).Some?
    ensures SerializeMessage(utf8, ParseMessage(utf8, AuthenticQuery).value) != Some(AuthenticQuery)
  {
    var h := QueryHeader(AuthenticQuery);
    EmptySections(utf8, AuthenticQuery, h);
    ReservedNotPlain(utf8, AuthenticQuery);
  }

  lemma ReservedNotPlain(utf8: Utf8, data: Data)
    requires ExtendsAscii(utf8) && ParseMessage(utf8, data).Some? && AsciiMessage(utf8, data) && !ReservedClear(data)
    ensures SerializeMessage(utf8, ParseMessage(utf8, data).value) != Some(data)
  {
    MessageParsedSerializesIff(utf8, data);
  }

  lemma QueryHeader(data: Data) returns (h: Header)
    requires |data| >= HEADER_LENGTH && data[2] == 1 && data[3] == 0x20
    ensures ParseHeader(data) == Some(h)
    ensures h.questionCount == Get16(data, 4) && h.answerCount == Get16(data, 6)
    ensures h.authorityCount == Get16(data, 8) && h.additionalCount == Get16(data, 10)
  {
    OpCodeOf(1);
    LowNibble(0x20);
    h := ParseHeader(data).value;
  }

  lemma EmptySections(utf8: Utf8, data: Data, h: Header)
    requires ParseHeader(data) == Some(h)
    requires h.questionCount == 0 && h.answerCount == 0 && h.authorityCount == 0 && h.additionalCount == 0
    ensures ParseMessage(utf8, data).Some? && AsciiMessage(utf8, data)
  {
  }
}
