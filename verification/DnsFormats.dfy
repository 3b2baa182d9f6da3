/**
 DNS on the wire, byte by byte in plain arithmetic (sections 3.1 and 4.1 of RFC 1035), and the order of
 the labels of reverse names (section 3.5 of RFC 1035, section 2.5 of RFC 3596).
 */
module DnsFormats {
  // packages/dns/src

  import opened Options
  import opened Bytes
  import opened Text
  import opened Buffers
  import opened DnsText
  import opened DnsRecords
  import opened DnsHeaders
  import opened DnsMessages
  import opened DnsPtr
  import opened WireFormats
  import Ipv4Text
  import Ipv6Text
  import Transport

  // ---------------------------------------------------------------- headers

  /** The numbers of the kinds of queries and of the response codes. */
  predicate HeaderNumbers(h: Header, op: nat, rcode: nat) {
    && (|| (h.opcode == "QUERY" && op == 0) || (h.opcode == "IQUERY" && op == 1) || (h.opcode == "STATUS" && op == 2)
        || (h.opcode == "NOTIFY" && op == 4) || (h.opcode == "UPDATE" && op == 5))
    && (|| (h.rcode == "NOERROR" && rcode == 0) || (h.rcode == "FORMERR" && rcode == 1)
        || (h.rcode == "SERVFAIL" && rcode == 2) || (h.rcode == "NXDOMAIN" && rcode == 3)
        || (h.rcode == "NOTIMP" && rcode == 4) || (h.rcode == "REFUSED" && rcode == 5))
  }

  ghost predicate HeaderFormat(h: Header, op: nat, rcode: nat, d: Data) {
    && |d| == 12 && Number16(d, 0, h.id)
    && d[2] == 128 * Transport.Bit(h.isResponse) + 8 * op + 4 * Transport.Bit(h.isAuthoritativeAnswer)
               + 2 * Transport.Bit(h.isTruncated) + Transport.Bit(h.isRecursionDesired)
    && d[3] == 128 * Transport.Bit(h.isRecursionAvailable) + rcode
    && Number16(d, 4, h.questionCount) && Number16(d, 6, h.answerCount)
    && Number16(d, 8, h.authorityCount) && Number16(d, 10, h.additionalCount)
  }

  lemma HeaderBytesAre(h: Header)
    requires HeaderWellFormed(h)
    ensures SerializeHeader(h).Some?
    ensures exists op: nat, rcode: nat ::
      HeaderNumbers(h, op, rcode) && HeaderFormat(h, op, rcode, SerializeHeader(h).value)
  {
    var op, rcode, d := OpCode(h.opcode).value, RCode(h.rcode).value, SerializeHeader(h).value;
    HeaderWhole(d);
    HeaderReads(d, h, op, rcode);
    HeaderFields(h, op, rcode, d);
    assert HeaderNumbers(h, op, rcode);
  }

  lemma HeaderWhole(d: Data)
    ensures Holds(d, 0, d)
  {
  }

  lemma HeaderFields(h: Header, op: nat, rcode: nat, d: Data)
    requires HeaderWellFormed(h) && OpCode(h.opcode) == Some(op) && RCode(h.rcode) == Some(rcode)
    requires SerializeHeader(h) == Some(d)
    requires Get16(d, 0) == h.id && Get16(d, 4) == h.questionCount && Get16(d, 6) == h.answerCount
    requires Get16(d, 8) == h.authorityCount && Get16(d, 10) == h.additionalCount
    ensures HeaderFormat(h, op, rcode, d)
  {
    var x: nat := 128 * Transport.Bit(h.isResponse) + 8 * op + 4 * Transport.Bit(h.isAuthoritativeAnswer)
                  + 2 * Transport.Bit(h.isTruncated) + Transport.Bit(h.isRecursionDesired);
    var y: nat := 128 * Transport.Bit(h.isRecursionAvailable) + rcode;
    FlagBytesAre(h, op, rcode, d, x, y);
    GetsAre(d, 0);
    GetsAre(d, 4);
    GetsAre(d, 6);
    GetsAre(d, 8);
    GetsAre(d, 10);
  }

  lemma FlagBytesAre(h: Header, op: nat, rcode: nat, d: Data, x: nat, y: nat)
    requires HeaderWellFormed(h) && OpCode(h.opcode) == Some(op) && RCode(h.rcode) == Some(rcode)
    requires SerializeHeader(h) == Some(d)
    requires x == 128 * Transport.Bit(h.isResponse) + 8 * op + 4 * Transport.Bit(h.isAuthoritativeAnswer)
                  + 2 * Transport.Bit(h.isTruncated) + Transport.Bit(h.isRecursionDesired)
    requires y == 128 * Transport.Bit(h.isRecursionAvailable) + rcode
    ensures |d| == 12 && d[2] == x && d[3] == y
  {
    CodesMatch(h.opcode, op);
    CodesMatch(h.rcode, rcode);
    HeaderWhole(d);
    HeaderBytes(d, h, op, rcode);
    FirstByte(h, op, x);
    SecondByte(h, rcode, y);
  }

  // ---------------------------------------------------------------- names, questions and records

  predicate IsCode(b: Byte, c: char) {
    b as int == c as int
  }

  /** The labels stand one behind the other, each behind a byte with its length; a zero byte ends the name. */
  ghost predicate LabelsAt(d: Data, i: nat, labels: seq<string>, end: nat)
    decreases |labels|
  {
    if labels == [] then i + 1 == end <= |d| && d[i] == 0
    else
      var n := |labels[0]|;
      && i + 1 + n <= |d| && d[i] == n
      && (forall k :: 0 <= k < n ==> IsCode(d[i + 1 + k], labels[0][k]))
      && LabelsAt(d, i + 1 + n, labels[1..], end)
  }

  lemma {:induction false} CodesAre(s: string)
    requires Ascii(s)
    ensures forall k :: 0 <= k < |s| ==> IsCode(Codes(s)[k], s[k])
  {
    if s != "" {
      assert Ascii(s[1..]);
      CodesAre(s[1..]);
    }
  }

  lemma {:induction false} LabelsStand(d: Data, i: nat, labels: seq<string>, end: nat)
    requires Holds(d, i, SerializeLabels(labels) + [0]) && AllAscii(labels)
    requires forall k :: 0 <= k < |labels| ==> GoodLabel(labels[k])
    requires end == i + |SerializeLabels(labels)| + 1
    ensures LabelsAt(d, i, labels, end)
    decreases |labels|
  {
    if labels == [] {
      assert SerializeLabels(labels) + [0] == [0];
      HoldsByte(d, i, 0);
    } else {
      var part, rest := labels[0], labels[1..];
      assert Ascii(part) && GoodLabel(part);
      LabelsCons(labels);
      Stands(d, i, Low8(|part|), Codes(part), SerializeLabels(rest) + [0]);
      CodesAre(part);
      CodesStand(d, i + 1, Codes(part), part);
      LabelsStand(d, i + 1 + |part|, rest, end);
      LabelsAtCons(d, i, labels, |part|, end);
    }
  }

  lemma LabelsAtCons(d: Data, i: nat, labels: seq<string>, n: nat, end: nat)
    requires labels != [] && n == |labels[0]| && i + 1 + n <= |d| && d[i] == n
    requires forall k :: 0 <= k < n ==> IsCode(d[i + 1 + k], labels[0][k])
    requires LabelsAt(d, i + 1 + n, labels[1..], end)
    ensures LabelsAt(d, i, labels, end)
  {
  }

  lemma CodesStand(d: Data, i: nat, codes: Data, part: string)
    requires Holds(d, i, codes) && |codes| == |part| && forall k :: 0 <= k < |part| ==> IsCode(codes[k], part[k])
    ensures forall k :: 0 <= k < |part| ==> IsCode(d[i + k], part[k])
  {
    forall k: nat | k < |part| ensures IsCode(d[i + k], part[k]) {
      HoldsAt(d, i, codes, k);
    }
  }

  lemma HoldsAt(d: Data, i: nat, bytes: Data, k: nat)
    requires Holds(d, i, bytes) && k < |bytes|
    ensures d[i + k] == bytes[k]
  {
    assert d[i..i + |bytes|][k] == d[i + k];
  }

  /** The labels of a name; the root has none. */
  function Labels(name: string): seq<string> {
    if name == "" then [] else Split(name, '.')
  }

  lemma NameBytes(d: Data, i: nat, name: string, end: nat)
    requires NameWellFormed(name) && Holds(d, i, SerializeName(name)) && end == i + |SerializeName(name)|
    ensures Join(Labels(name), '.') == name && LabelsAt(d, i, Labels(name), end)
  {
    JoinSplit(name, '.');
    SplitAscii(name);
    if name == "" {
      assert SerializeName(name) == SerializeLabels([]) + [0];
    } else {
      assert SerializeName(name) == SerializeLabels(Split(name, '.')) + [0];
    }
    LabelsStand(d, i, Labels(name), end);
  }

  /**
   A value is cut after every 255 characters, and each piece stands behind a byte with its length; an empty
   value is one empty piece.
   */
  ghost predicate TxtFormat(value: string, d: Data) {
    var n := |value|;
    && |d| == n + (if n == 0 then 1 else (n + 254) / 255)
    && (forall k: nat :: k < |d| - n ==> PieceLength(d, k, n))
    && (forall j: nat :: j < n ==> StandsFor(d, j, value[j]))
  }

  predicate PieceLength(d: Data, k: nat, n: nat) {
    256 * k < |d| && d[256 * k] == if 255 * k + 255 <= n then 255 else n - 255 * k
  }

  predicate StandsFor(d: Data, j: nat, c: char) {
    256 * (j / 255) + 1 + j % 255 < |d| && IsCode(d[256 * (j / 255) + 1 + j % 255], c)
  }

  lemma {:induction false} PiecesSize(encoded: Data)
    ensures |SerializeChunks(Chunks(encoded))| == |encoded| + (|encoded| + 254) / 255
    decreases |encoded|
  {
    if encoded != [] {
      var n := if |encoded| < 255 then |encoded| else 255;
      ChunksOf(encoded, n);
      PiecesCons(encoded[..n], Chunks(encoded[n..]));
      PiecesSize(encoded[n..]);
    }
  }

  lemma PiecesCons(first: Data, rest: seq<Data>)
    requires |first| < 256
    ensures SerializeChunks([first] + rest) == [|first|] + first + SerializeChunks(rest)
  {
    HeadTail(first, rest);
    LowIs(|first|, |first|);
  }

  lemma {:induction false} PieceAt(encoded: Data, k: nat, d: Data)
    requires 255 * k < |encoded| && d == SerializeChunks(Chunks(encoded))
    ensures PieceLength(d, k, |encoded|)
    decreases k
  {
    var n := if |encoded| < 255 then |encoded| else 255;
    ChunksOf(encoded, n);
    PiecesCons(encoded[..n], Chunks(encoded[n..]));
    if k > 0 {
      var rest := SerializeChunks(Chunks(encoded[n..]));
      PieceAt(encoded[n..], k - 1, rest);
      assert d[256 * k] == rest[256 * (k - 1)];
    }
  }

  lemma {:induction false} ByteAt(encoded: Data, j: nat, d: Data)
    requires j < |encoded| && d == SerializeChunks(Chunks(encoded))
    ensures 256 * (j / 255) + 1 + j % 255 < |d| && d[256 * (j / 255) + 1 + j % 255] == encoded[j]
    decreases j
  {
    var n := if |encoded| < 255 then |encoded| else 255;
    ChunksOf(encoded, n);
    PiecesCons(encoded[..n], Chunks(encoded[n..]));
    if j >= 255 {
      var rest := SerializeChunks(Chunks(encoded[n..]));
      ByteAt(encoded[n..], j - 255, rest);
      assert (j - 255) / 255 == j / 255 - 1 && (j - 255) % 255 == j % 255;
    }
  }

  lemma TxtBytes(utf8: Utf8, value: string)
    requires ExtendsAscii(utf8) && Ascii(value)
    ensures TxtFormat(value, SerializeTxt(utf8, value))
  {
    if value != "" {
      var codes, d := Codes(value), SerializeTxt(utf8, value);
      PiecesSize(codes);
      CodesAre(value);
      forall k: nat | k < |d| - |value| ensures PieceLength(d, k, |value|) {
        PieceAt(codes, k, d);
      }
      forall j: nat | j < |value| ensures StandsFor(d, j, value[j]) {
        ByteAt(codes, j, d);
      }
    }
  }

  predicate TypeNumber(t: string, n: nat) {
    || (t == "A" && n == 1) || (t == "NS" && n == 2) || (t == "CNAME" && n == 5) || (t == "SOA" && n == 6)
    || (t == "PTR" && n == 12) || (t == "MX" && n == 15) || (t == "TXT" && n == 16) || (t == "AAAA" && n == 28)
    || (t == "SRV" && n == 33) || (t == "ANY" && n == 255)
  }

  ghost predicate QuestionFormat(q: Question, t: nat, at: nat, d: Data) {
    && LabelsAt(d, 0, Labels(q.name), at) && |d| == at + 4
    && TypeNumber(q.qtype, t) && Number16(d, at, t) && q.cls == "IN" && Number16(d, at + 2, 1)
  }

  lemma QuestionBytes(q: Question)
    requires QuestionWellFormed(q)
    ensures SerializeQuestion(q).Some?
    ensures exists t: nat, at: nat :: QuestionFormat(q, t, at, SerializeQuestion(q).value)
  {
    var t, c, name := TypeCode(q.qtype).value, ClassCode(q.cls).value, SerializeName(q.name);
    var d := SerializeQuestion(q).value;
    HoldsParts(d, 0, name + Be16(t), Be16(c));
    HoldsParts(d, 0, name, Be16(t));
    NameBytes(d, 0, q.name, |name|);
    HoldsNumbers(d, |name|, t);
    HoldsNumbers(d, |name| + 2, c);
    GetsAre(d, |name|);
    GetsAre(d, |name| + 2);
    assert TypeNumber(q.qtype, t);
    assert QuestionFormat(q, t, |name|, d);
  }

  ghost predicate RecordFormat(utf8: Utf8, r: Record, t: nat, at: nat, d: Data) {
    && LabelsAt(d, 0, Labels(r.name), at) && at + 10 <= |d|
    && TypeNumber(TypeOf(r.data), t) && Number16(d, at, t) && r.cls == "IN" && Number16(d, at + 2, 1)
    && Number32(d, at + 4, r.ttl) && (!r.data.PTR? ==> Number16(d, at + 8, |d| - at - 10))
    && (match r.data
        case A(ip) => Ipv4Text.Print(d[at + 10..]) == Some(ip)
        case AAAA(ip) => |d| == at + 26 && Ipv6Text.Canonical(d[at + 10..]) == ip
        case PTR(ptr) => LabelsAt(d, at + 10, Labels(ptr), |d|)
        case TXT(value) => TxtFormat(value, d[at + 10..]))
  }

  lemma RecordBytesAre(utf8: Utf8, r: Record)
    requires ExtendsAscii(utf8) && RecordWellFormed(utf8, r)
    ensures SerializeRecord(utf8, r).Some?
    ensures exists t: nat, at: nat :: RecordFormat(utf8, r, t, at, SerializeRecord(utf8, r).value)
  {
    DataSerializes(utf8, r.data);
    var t, c, rd := TypeCode(TypeOf(r.data)).value, ClassCode(r.cls).value, SerializeData(utf8, r.data).value;
    RecordCodes(r, t, c);
    RecordBytes(utf8, r, rd, t, c);
    var d, at: nat := SerializeRecord(utf8, r).value, |SerializeName(r.name)|;
    HeaderWhole(d);
    RecordStands(d, 0, SerializeName(r.name), t, c, r.ttl, rd, at);
    NameBytes(d, 0, r.name, at);
    RecordFields(r, t, c, at, rd, d);
    RecordDataIs(utf8, r, at, rd, d);
    assert RecordFormat(utf8, r, t, at, d);
  }

  lemma RecordFields(r: Record, t: nat, c: nat, at: nat, rd: Data, d: Data)
    requires HeadReads(d, at, t, c, r.ttl, |rd|) && (r.data.PTR? || |rd| < 0x1_0000) && |d| == at + 10 + |rd|
    requires TypeCode(TypeOf(r.data)) == Some(t) && ClassCode(r.cls) == Some(c)
    ensures TypeNumber(TypeOf(r.data), t) && Number16(d, at, t) && r.cls == "IN" && Number16(d, at + 2, 1)
    ensures Number32(d, at + 4, r.ttl) && (!r.data.PTR? ==> Number16(d, at + 8, |d| - at - 10))
  {
    GetsAre(d, at);
    GetsAre(d, at + 2);
    GetsAre(d, at + 4);
    GetsAre(d, at + 8);
  }

  lemma RecordDataIs(utf8: Utf8, r: Record, at: nat, rd: Data, d: Data)
    requires ExtendsAscii(utf8) && RecordWellFormed(utf8, r) && SerializeData(utf8, r.data) == Some(rd)
    requires |d| == at + 10 + |rd| && Holds(d, at + 10, rd)
    ensures match r.data
      case A(ip) => Ipv4Text.Print(d[at + 10..]) == Some(ip)
      case AAAA(ip) => |d| == at + 26 && Ipv6Text.Canonical(d[at + 10..]) == ip
      case PTR(ptr) => LabelsAt(d, at + 10, Labels(ptr), |d|)
      case TXT(value) => TxtFormat(value, d[at + 10..])
  {
    assert d[at + 10..] == rd;
    match r.data {
      case A(ip) => AddressData(utf8, r.data);
      case AAAA(ip) => AddressData(utf8, r.data);
      case PTR(ptr) => NameBytes(d, at + 10, ptr, |d|);
      case TXT(value) => TxtBytes(utf8, value);
    }
  }

  // ---------------------------------------------------------------- reverse names

  lemma {:induction false} ReverseAt<T>(s: seq<T>, k: nat)
    requires k < |s|
    ensures Reverse(s)[|s| - 1 - k] == s[k]
  {
    if k > 0 {
      ReverseAt(s[1..], k - 1);
    }
  }

  /** The reverse name of an IPv4 address has its four numbers in reverse order. */
  lemma PtrNameV4Is(b: Data)
    requires |b| == 4
    ensures IpToPtrName(Ipv4Text.Print(b).value) == Some(
      ToText(b[3], 10) + "." + ToText(b[2], 10) + "." + ToText(b[1], 10) + "." + ToText(b[0], 10) + ".in-addr.arpa")
  {
    var parts := Ipv4Text.Decimals(b);
    DecimalsPlain(b);
    SplitJoin(parts, '.');
    ReversedDecimals(b, ToText(b[0], 10), ToText(b[1], 10), ToText(b[2], 10), ToText(b[3], 10));
    ZoneBehind(Join(Reverse(parts), '.'), "in-addr");
    assert "." + "in-addr" + ".arpa" == ".in-addr.arpa";
  }

  lemma ReversedDecimals(b: Data, t0: string, t1: string, t2: string, t3: string)
    requires |b| == 4 && t0 == ToText(b[0], 10) && t1 == ToText(b[1], 10) && t2 == ToText(b[2], 10)
    requires t3 == ToText(b[3], 10)
    ensures Join(Reverse(Ipv4Text.Decimals(b)), '.') == t3 + "." + t2 + "." + t1 + "." + t0
  {
    var parts := Ipv4Text.Decimals(b);
    forall k: nat | k < 4 ensures parts[k] == ToText(b[k], 10) && Reverse(parts)[3 - k] == parts[k] {
      DecimalsAt(b, k);
      ReverseAt(parts, k);
    }
    var t := Reverse(parts);
    assert t[3 - 0] == t0 && t[3 - 1] == t1 && t[3 - 2] == t2 && t[3 - 3] == t3;
    assert t == [t3, t2, t1, t0];
    JoinFour(t3, t2, t1, t0);
  }

  lemma {:induction false} DecimalsAt(b: Data, k: nat)
    requires k < |b|
    ensures Ipv4Text.Decimals(b)[k] == ToText(b[k], 10)
  {
    if k > 0 {
      DecimalsAt(b[1..], k - 1);
    }
  }

  /**
   That of an IPv6 address has a label for each of its 32 hexadecimal digits, the last digit first: counted from
   the end, labels `2 * k` and `2 * k + 1` are the high and the low digit of byte `k`.
   */
  lemma PtrNameV6Is(b: Data) returns (labels: seq<string>)
    requires |b| == 16
    ensures IpToPtrName(Ipv6Text.Canonical(b)) == Some(Join(labels, '.') + "." + "ip6" + ".arpa") && |labels| == 32
    ensures forall k: nat :: k < 16 ==> DigitsAt(labels, k, b[k])
  {
    labels := Reverse(Nibbles(b));
    forall k: nat | k < 16 ensures DigitsAt(labels, k, b[k]) {
      ReversedNibbles(b, Nibbles(b), labels, k);
    }
    NameOfCanonical(b);
  }

  lemma ReversedNibbles(b: Data, nibbles: seq<string>, labels: seq<string>, k: nat)
    requires |b| == 16 && nibbles == Nibbles(b) && labels == Reverse(nibbles) && k < 16
    ensures DigitsAt(labels, k, b[k])
  {
    NibblesAt(b, k);
    ReverseAt(nibbles, 2 * k);
    ReverseAt(nibbles, 2 * k + 1);
  }

  predicate DigitsAt(labels: seq<string>, k: nat, b: Byte) {
    |labels| == 32 && k < 16 && labels[31 - 2 * k] == [Digit(b / 16)] && labels[30 - 2 * k] == [Digit(b % 16)]
  }

  lemma ZoneBehind(name: string, zone: string)
    ensures name + "." + zone + ".arpa" == name + ("." + zone + ".arpa")
  {
  }

  lemma {:induction false} NibblesAt(b: Data, k: nat)
    requires k < |b|
    ensures Nibbles(b)[2 * k] == [Digit(b[k] / 16)] && Nibbles(b)[2 * k + 1] == [Digit(b[k] % 16)]
  {
    NibbleDigits(b[0]);
    if k > 0 {
      NibblesAt(b[1..], k - 1);
    }
  }
}
