/** DNS questions and resource records. */
module DnsRecords {
  // packages/dns/src/wire.ts (sections 4.1.2 and 4.1.3 of RFC 1035)

  import opened Options
  import opened Bytes
  import opened Buffers
  import opened DnsText
  import Ipv4Text
  import Ipv6Text

  // ---------------------------------------------------------------- codes

  function TypeCode(t: string): Option<nat> {
    if t == "A" then Some(1)
    else if t == "NS" then Some(2)
    else if t == "CNAME" then Some(5)
    else if t == "SOA" then Some(6)
    else if t == "PTR" then Some(12)
    else if t == "MX" then Some(15)
    else if t == "TXT" then Some(16)
    else if t == "AAAA" then Some(28)
    else if t == "SRV" then Some(33)
    else if t == "ANY" then Some(255)
    else None
  }

  function TypeName(code: nat): Option<string> {
    match code
    case 1 => Some("A")
    case 2 => Some("NS")
    case 5 => Some("CNAME")
    case 6 => Some("SOA")
    case 12 => Some("PTR")
    case 15 => Some("MX")
    case 16 => Some("TXT")
    case 28 => Some("AAAA")
    case 33 => Some("SRV")
    case 255 => Some("ANY")
    case _ => None
  }

  function ClassCode(c: string): Option<nat> {
    if c == "IN" then Some(1) else None
  }

  function ClassName(code: nat): Option<string> {
    if code == 1 then Some("IN") else None
  }

  /** Names and codes stand for each other. */
  lemma TypesMatch(name: string, code: nat)
    ensures TypeCode(name) == Some(code) <==> TypeName(code) == Some(name)
    ensures TypeCode(name) == Some(code) ==> code < 0x1_0000
  {
  }

  lemma ClassesMatch(name: string, code: nat)
    ensures ClassCode(name) == Some(code) <==> ClassName(code) == Some(name)
    ensures ClassCode(name) == Some(code) ==> code < 0x1_0000
  {
  }

  /** What was read, and the offset behind it. */
  datatype Parsed<T> = Parsed(value: T, end: nat)

  // ---------------------------------------------------------------- questions

  datatype Question = Question(name: string, qtype: string, cls: string)

  /** `serializeQuestion` */
  function SerializeQuestion(q: Question): Option<Data> {
    var t :- TypeCode(q.qtype);
    var c :- ClassCode(q.cls);
    Some(SerializeName(q.name) + Be16(t) + Be16(c))
  }

  /** `parseQuestion` */
  function ParseQuestion(utf8: Utf8, data: Data, offset: nat): Option<Parsed<Question>> {
    var (name, at) := ParseName(utf8, data, offset);
    if at + 4 > |data| then None
    else
      var t :- TypeName(Get16(data, at));
      var c :- ClassName(Get16(data, at + 2));
      Some(Parsed(Question(name, t, c), at + 4))
  }

  predicate NameWellFormed(name: string) {
    Ascii(name) && GoodName(name)
  }

  predicate QuestionWellFormed(q: Question) {
    NameWellFormed(q.name) && TypeCode(q.qtype).Some? && ClassCode(q.cls).Some?
  }

  lemma QuestionParses(utf8: Utf8, data: Data, offset: nat, q: Question, end: nat)
    requires ExtendsAscii(utf8) && QuestionWellFormed(q) && Holds(data, offset, SerializeQuestion(q).value)
    requires end == offset + |SerializeQuestion(q).value|
    ensures ParseQuestion(utf8, data, offset) == Some(Parsed(q, end))
  {
    var t, c := TypeCode(q.qtype).value, ClassCode(q.cls).value;
    var name := SerializeName(q.name);
    TypesMatch(q.qtype, t);
    ClassesMatch(q.cls, c);
    HoldsParts(data, offset, name + Be16(t), Be16(c));
    HoldsParts(data, offset, name, Be16(t));
    NameParses(utf8, data, offset, q.name, offset + |name|);
    HoldsNumbers(data, offset + |name|, t);
    HoldsNumbers(data, offset + |name| + 2, c);
  }

  // ---------------------------------------------------------------- resource records

  datatype RecordData = A(ip: string) | AAAA(ip: string) | TXT(value: string) | PTR(ptr: string)

  datatype Record = Record(name: string, cls: string, ttl: nat, data: RecordData)

  function TypeOf(d: RecordData): string {
    match d
    case A(_) => "A"
    case AAAA(_) => "AAAA"
    case TXT(_) => "TXT"
    case PTR(_) => "PTR"
  }

  /** `serializeResourceData` */
  function SerializeData(utf8: Utf8, d: RecordData): Option<Data> {
    match d
    case A(ip) => Ipv4Text.Serialize(ip)
    case AAAA(ip) =>
      var expanded :- Ipv6Text.Expand(ip);
      Ipv6Text.Serialize(expanded)
    case TXT(value) => Some(SerializeTxt(utf8, value))
    case PTR(ptr) => Some(SerializeName(ptr))
  }

  const RECORD_HEADER_LENGTH: nat := 10

  function RecordHeader(t: nat, c: nat, ttl: nat, length: nat): (d: Data)
    ensures |d| == RECORD_HEADER_LENGTH
  {
    Be16(t) + Be16(c) + Be32(ttl) + Be16(length)
  }

  /** `serializeResourceRecord` */
  function SerializeRecord(utf8: Utf8, r: Record): Option<Data> {
    var d :- SerializeData(utf8, r.data);
    var t :- TypeCode(TypeOf(r.data));
    var c :- ClassCode(r.cls);
    Some(SerializeName(r.name) + RecordHeader(t, c, r.ttl, |d|) + d)
  }

  /** The data of a record and the offset behind it. */
  function ParseData(utf8: Utf8, data: Data, t: string, offset: nat, length: nat): Option<Parsed<RecordData>> {
    if t == "A" then
      var ip :- Ipv4Text.Print(Between(data, offset, offset + length));
      Some(Parsed(A(ip), offset + length))
    else if t == "AAAA" then
      var ip :- Ipv6Text.Print(Between(data, offset, offset + length));
      Some(Parsed(AAAA(Ipv6Text.Compress(ip)), offset + length))
    else if t == "TXT" then
      var (value, end) := ParseTxt(utf8, data, offset, length);
      Some(Parsed(TXT(value), end))
    else if t == "PTR" then
      var (ptr, end) := ParseName(utf8, data, offset);
      Some(Parsed(PTR(ptr), end))
    else None
  }

  /** `parseResourceRecord` */
  function ParseRecord(utf8: Utf8, data: Data, offset: nat): Option<Parsed<Record>> {
    var (name, at) := ParseName(utf8, data, offset);
    if at + RECORD_HEADER_LENGTH > |data| then None
    else
      var t :- TypeName(Get16(data, at));
      var c :- ClassName(Get16(data, at + 2));
      var parsed :- ParseData(utf8, data, t, at + 10, Get16(data, at + 8));
      Some(Parsed(Record(name, c, Get32(data, at + 4), parsed.value), parsed.end))
  }

  predicate CanonicalV6(ip: string) {
    && Ipv6Text.Serialize(ip).Some? && |Ipv6Text.Serialize(ip).value| == 16
    && Ipv6Text.Canonical(Ipv6Text.Serialize(ip).value) == ip
  }

  /** Only the length of a TXT value is read back; the data of the other records end by themselves. */
  predicate DataWellFormed(utf8: Utf8, d: RecordData) {
    match d
    case A(ip) => Ipv4Text.Canonical(ip)
    case AAAA(ip) => CanonicalV6(ip)
    case TXT(value) => Ascii(value) && |SerializeTxt(utf8, value)| < 0x1_0000
    case PTR(ptr) => NameWellFormed(ptr)
  }

  predicate RecordWellFormed(utf8: Utf8, r: Record) {
    NameWellFormed(r.name) && ClassCode(r.cls).Some? && r.ttl < 0x1_0000_0000 && DataWellFormed(utf8, r.data)
  }

  lemma AddressData(utf8: Utf8, d: RecordData)
    requires (d.A? && Ipv4Text.Canonical(d.ip)) || (d.AAAA? && CanonicalV6(d.ip))
    ensures d.A? ==> SerializeData(utf8, d) == Ipv4Text.Serialize(d.ip)
    ensures d.AAAA? ==> SerializeData(utf8, d) == Ipv6Text.Serialize(d.ip)
    ensures SerializeData(utf8, d).Some? && |SerializeData(utf8, d).value| == if d.A? then 4 else 16
  {
    if d.AAAA? {
      Ipv6Text.ExpandedRoundTrip(Ipv6Text.Serialize(d.ip).value);
    }
  }

  lemma DataParses(utf8: Utf8, data: Data, offset: nat, d: RecordData, length: nat, end: nat)
    requires ExtendsAscii(utf8) && DataWellFormed(utf8, d)
    requires SerializeData(utf8, d).Some? && Holds(data, offset, SerializeData(utf8, d).value)
    requires length == |SerializeData(utf8, d).value| || d.PTR?
    requires end == offset + |SerializeData(utf8, d).value|
    ensures ParseData(utf8, data, TypeOf(d), offset, length) == Some(Parsed(d, end))
  {
    match d {
      case A(ip) => 
        AddressData(utf8, d);
        HoldsBetween(data, offset, SerializeData(utf8, d).value);
      case AAAA(ip) =>
        AddressData(utf8, d);
        HoldsBetween(data, offset, SerializeData(utf8, d).value);
      case TXT(value) => TxtParses(utf8, data, offset, value, end);
      case PTR(ptr) => NameParses(utf8, data, offset, ptr, end);
    }
  }

  lemma DataSerializes(utf8: Utf8, d: RecordData)
    requires DataWellFormed(utf8, d)
    ensures SerializeData(utf8, d).Some?
    ensures d.PTR? || |SerializeData(utf8, d).value| < 0x1_0000
  {
    match d {
      case A(_) => AddressData(utf8, d);
      case AAAA(_) => AddressData(utf8, d);
      case TXT(_) =>
      case PTR(_) =>
    }
  }

  lemma RecordSerializes(utf8: Utf8, r: Record)
    requires RecordWellFormed(utf8, r)
    ensures SerializeData(utf8, r.data).Some? && SerializeRecord(utf8, r).Some?
  {
    DataSerializes(utf8, r.data);
    assert TypeCode(TypeOf(r.data)).Some?;
  }

  lemma RecordHeaderHolds(data: Data, at: nat, t: nat, c: nat, ttl: nat, length: nat)
    requires Holds(data, at, RecordHeader(t, c, ttl, length)) && t < 0x1_0000 && c < 0x1_0000 && ttl < 0x1_0000_0000
    ensures HeadReads(data, at, t, c, ttl, length)
  {
    HoldsParts(data, at, Be16(t) + Be16(c) + Be32(ttl), Be16(length));
    HoldsParts(data, at, Be16(t) + Be16(c), Be32(ttl));
    HoldsParts(data, at, Be16(t), Be16(c));
    HoldsNumbers(data, at, t);
    HoldsNumbers(data, at + 2, c);
    HoldsNumber32(data, at + 4, ttl);
    HoldsNumbers(data, at + 8, length);
  }

  lemma RecordParts(data: Data, offset: nat, name: Data, header: Data, d: Data)
    requires Holds(data, offset, name + header + d)
    ensures Holds(data, offset, name) && Holds(data, offset + |name|, header)
    ensures Holds(data, offset + |name| + |header|, d)
  {
    HoldsParts(data, offset, name + header, d);
    HoldsParts(data, offset, name, header);
  }

  lemma RecordAssembled(utf8: Utf8, data: Data, offset: nat, r: Record, at: nat, t: nat, c: nat, end: nat)
    requires ParseName(utf8, data, offset) == (r.name, at) && at + RECORD_HEADER_LENGTH <= |data|
    requires TypeName(t) == Some(TypeOf(r.data)) && ClassName(c) == Some(r.cls)
    requires Get16(data, at) == t && Get16(data, at + 2) == c && Get32(data, at + 4) == r.ttl
    requires ParseData(utf8, data, TypeOf(r.data), at + 10, Get16(data, at + 8)) == Some(Parsed(r.data, end))
    ensures ParseRecord(utf8, data, offset) == Some(Parsed(r, end))
  {
  }

  /** What the fixed fields of a record are read as. */
  ghost predicate HeadReads(data: Data, at: nat, t: nat, c: nat, ttl: nat, length: nat) {
    && at + RECORD_HEADER_LENGTH <= |data|
    && Get16(data, at) == t && Get16(data, at + 2) == c && Get32(data, at + 4) == ttl
    && (length < 0x1_0000 ==> Get16(data, at + 8) == length)
  }

  lemma DataParsesFrom(utf8: Utf8, data: Data, at: nat, rd: RecordData, d: Data, t: nat, c: nat, ttl: nat, end: nat)
    requires ExtendsAscii(utf8) && DataWellFormed(utf8, rd) && SerializeData(utf8, rd) == Some(d)
    requires HeadReads(data, at, t, c, ttl, |d|) && (rd.PTR? || |d| < 0x1_0000)
    requires Holds(data, at + 10, d) && end == at + 10 + |d|
    ensures ParseData(utf8, data, TypeOf(rd), at + 10, Get16(data, at + 8)) == Some(Parsed(rd, end))
  {
    DataParses(utf8, data, at + 10, rd, Get16(data, at + 8), end);
  }

  lemma RecordParsesFrom(utf8: Utf8, data: Data, offset: nat, r: Record, t: nat, c: nat, at: nat, length: nat, end: nat)
    requires ExtendsAscii(utf8) && NameWellFormed(r.name) && HeadReads(data, at, t, c, r.ttl, length)
    requires TypeName(t) == Some(TypeOf(r.data)) && ClassName(c) == Some(r.cls)
    requires Holds(data, offset, SerializeName(r.name)) && at == offset + |SerializeName(r.name)|
    requires ParseData(utf8, data, TypeOf(r.data), at + 10, Get16(data, at + 8)) == Some(Parsed(r.data, end))
    ensures ParseRecord(utf8, data, offset) == Some(Parsed(r, end))
  {
    NameParses(utf8, data, offset, r.name, at);
    RecordAssembled(utf8, data, offset, r, at, t, c, end);
  }

  lemma RecordBytes(utf8: Utf8, r: Record, d: Data, t: nat, c: nat)
    requires SerializeData(utf8, r.data) == Some(d) && TypeCode(TypeOf(r.data)) == Some(t)
    requires ClassCode(r.cls) == Some(c)
    ensures SerializeRecord(utf8, r) == Some(SerializeName(r.name) + RecordHeader(t, c, r.ttl, |d|) + d)
  {
  }

  lemma RecordCodes(r: Record, t: nat, c: nat)
    requires TypeCode(TypeOf(r.data)) == Some(t) && ClassCode(r.cls) == Some(c)
    ensures TypeName(t) == Some(TypeOf(r.data)) && ClassName(c) == Some(r.cls) && t < 0x1_0000 && c < 0x1_0000
  {
    TypesMatch(TypeOf(r.data), t);
    ClassesMatch(r.cls, c);
  }

  lemma RecordStands(data: Data, offset: nat, name: Data, t: nat, c: nat, ttl: nat, d: Data, at: nat)
    requires Holds(data, offset, name + RecordHeader(t, c, ttl, |d|) + d) && at == offset + |name|
    requires t < 0x1_0000 && c < 0x1_0000 && ttl < 0x1_0000_0000
    ensures Holds(data, offset, name) && HeadReads(data, at, t, c, ttl, |d|) && Holds(data, at + 10, d)
  {
    RecordParts(data, offset, name, RecordHeader(t, c, ttl, |d|), d);
    RecordHeaderHolds(data, at, t, c, ttl, |d|);
  }

  lemma RecordAt(utf8: Utf8, data: Data, offset: nat, r: Record, d: Data, t: nat, c: nat, end: nat)
    requires ExtendsAscii(utf8) && NameWellFormed(r.name) && r.ttl < 0x1_0000_0000 && DataWellFormed(utf8, r.data)
    requires SerializeData(utf8, r.data) == Some(d) && (r.data.PTR? || |d| < 0x1_0000)
    requires TypeName(t) == Some(TypeOf(r.data)) && ClassName(c) == Some(r.cls) && t < 0x1_0000 && c < 0x1_0000
    requires Holds(data, offset, SerializeName(r.name) + RecordHeader(t, c, r.ttl, |d|) + d)
    requires end == offset + |SerializeName(r.name)| + 10 + |d|
    ensures ParseRecord(utf8, data, offset) == Some(Parsed(r, end))
  {
    var at: nat := offset + |SerializeName(r.name)|;
    RecordStands(data, offset, SerializeName(r.name), t, c, r.ttl, d, at);
    DataParsesFrom(utf8, data, at, r.data, d, t, c, r.ttl, end);
    RecordParsesFrom(utf8, data, offset, r, t, c, at, |d|, end);
  }

  lemma RecordParses(utf8: Utf8, data: Data, offset: nat, r: Record, end: nat)
    requires ExtendsAscii(utf8) && RecordWellFormed(utf8, r)
    requires SerializeRecord(utf8, r).Some? && Holds(data, offset, SerializeRecord(utf8, r).value)
    requires end == offset + |SerializeRecord(utf8, r).value|
    ensures ParseRecord(utf8, data, offset) == Some(Parsed(r, end))
  {
    DataSerializes(utf8, r.data);
    var t, c, d := TypeCode(TypeOf(r.data)).value, ClassCode(r.cls).value, SerializeData(utf8, r.data).value;
    RecordCodes(r, t, c);
    RecordBytes(utf8, r, d, t, c);
    RecordAt(utf8, data, offset, r, d, t, c, end);
  }
}
