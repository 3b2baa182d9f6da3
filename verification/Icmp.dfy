/** ICMP messages (packages/wire/src/icmp.ts). */
module Icmp {
  import opened Options
  import opened Bytes
  import opened Checksum
  import opened Buffers

  datatype Message = Message(icmpType: string, code: Option<string>, identifier: nat, sequenceNumber: nat,
    payload: Data)

  function ParseType(t: Byte): Option<string> {
    match t
    case 0 => Some("echo-reply")
    case 3 => Some("destination-unreachable")
    case 8 => Some("echo-request")
    case 11 => Some("time-exceeded")
    case _ => None
  }

  function SerializeType(t: string): Option<Byte> {
    if t == "echo-reply" then Some(0)
    else if t == "destination-unreachable" then Some(3)
    else if t == "echo-request" then Some(8)
    else if t == "time-exceeded" then Some(11)
    else None
  }

  /** The code of an echo is `undefined`; the outer option is the error. */
  function ParseCode(t: string, code: Byte): Option<Option<string>> {
    if t == "echo-reply" || t == "echo-request" then
      if code == 0 then Some(None) else None
    else if t == "destination-unreachable" then
      match code
      case 0 => Some(Some("network-unreachable"))
      case 1 => Some(Some("host-unreachable"))
      case 2 => Some(Some("protocol-unreachable"))
      case _ => None
    else if t == "time-exceeded" then
      match code
      case 0 => Some(Some("ttl-exceeded"))
      case 1 => Some(Some("fragment-reassembly-time-exceeded"))
      case _ => None
    else None
  }

  function SerializeCode(t: string, code: Option<string>): Option<Byte> {
    if t == "echo-reply" || t == "echo-request" then
      if code == None then Some(0) else None
    else if t == "destination-unreachable" then
      if code == Some("network-unreachable") then Some(0)
      else if code == Some("host-unreachable") then Some(1)
      else if code == Some("protocol-unreachable") then Some(2)
      else None
    else if t == "time-exceeded" then
      if code == Some("ttl-exceeded") then Some(0)
      else if code == Some("fragment-reassembly-time-exceeded") then Some(1)
      else None
    else None
  }

  /** The two tables undo each other. */
  lemma TypesMatch(t: Byte, s: string)
    ensures ParseType(t) == Some(s) <==> SerializeType(s) == Some(t)
  {
  }

  lemma CodesMatch(t: string, c: Byte, code: Option<string>)
    ensures ParseCode(t, c) == Some(code) <==> SerializeCode(t, code) == Some(c)
  {
  }

  const HEADER_LENGTH: nat := 8

  /** The message with an empty checksum field. */
  function Blank(t: Byte, c: Byte, m: Message): (d: Data)
    ensures |d| == HEADER_LENGTH + |m.payload|
  {
    [t, c] + [0, 0] + Be16(m.identifier) + Be16(m.sequenceNumber) + m.payload
  }

  /** `serializeIcmpMessage` */
  function Serialize(m: Message): Option<Data> {
    var t :- SerializeType(m.icmpType);
    var c :- SerializeCode(m.icmpType, m.code);
    var data := Blank(t, c, m);
    Some(Write16(data, 2, Checksum.Checksum(data, 2)))
  }

  /** `parseIcmpMessage` */
  function Parse(data: Data): Option<Message> {
    if |data| < HEADER_LENGTH || Checksum.Checksum(data, 2) != Get16(data, 2) then None
    else
      var t :- ParseType(data[0]);
      var c :- ParseCode(t, data[1]);
      Some(Message(t, c, Get16(data, 4), Get16(data, 6), From(data, 8)))
  }

  predicate WellFormed(m: Message) {
    && SerializeType(m.icmpType).Some? && SerializeCode(m.icmpType, m.code).Some?
    && m.identifier < 0x1_0000 && m.sequenceNumber < 0x1_0000
  }

  lemma SerializedParses(m: Message)
    requires WellFormed(m)
    ensures Parse(Serialize(m).value) == Some(m)
  {
    var t, c := SerializeType(m.icmpType).value, SerializeCode(m.icmpType, m.code).value;
    TypesMatch(t, m.icmpType);
    CodesMatch(m.icmpType, c, m.code);
    var data := Blank(t, c, m);
    var d := Serialize(m).value;
    WriteReads(data, 2, Checksum.Checksum(data, 2));
    Be16Reads(m.identifier, [t, c, 0, 0], Be16(m.sequenceNumber) + m.payload);
    Be16Reads(m.sequenceNumber, [t, c, 0, 0] + Be16(m.identifier), m.payload);
    assert data == [t, c, 0, 0] + Be16(m.identifier) + (Be16(m.sequenceNumber) + m.payload);
    assert data == [t, c, 0, 0] + Be16(m.identifier) + Be16(m.sequenceNumber) + m.payload;
    assert Get16(d, 4) == Get16(data, 4) && Get16(d, 6) == Get16(data, 6);
    assert d[8..] == m.payload;
  }

  lemma ParsedSerializes(data: Data)
    requires Parse(data).Some?
    ensures WellFormed(Parse(data).value) && Serialize(Parse(data).value) == Some(data)
  {
    var m := Parse(data).value;
    TypesMatch(data[0], m.icmpType);
    CodesMatch(m.icmpType, data[1], m.code);
    Be16Writes(data, 4);
    Be16Writes(data, 6);
    Cleared(data);
    assert Blank(data[0], data[1], m) == Write16(data, 2, 0);
    WriteReads(data, 2, 0);
    WrittenBack(data);
  }

  lemma WrittenBack(data: Data)
    requires |data| >= 4
    ensures Write16(Write16(data, 2, 0), 2, Get16(data, 2)) == data
  {
  }

  lemma Cleared(data: Data)
    requires |data| >= 8
    ensures data[..2] + [0, 0] + data[4..6] + data[6..8] + data[8..] == Write16(data, 2, 0)
  {
  }

  /** Parsing and serializing are inverse to each other: the accepted byte strings are the serialized messages. */
  lemma RoundTrip(m: Message, data: Data)
    ensures Parse(data) == Some(m) <==> WellFormed(m) && Serialize(m) == Some(data)
  {
    if Parse(data) == Some(m) {
      ParsedSerializes(data);
    }
    if WellFormed(m) {
      SerializedParses(m);
    }
  }

  /** The buffer of `serializeIcmpMessage` is filled in place. */
  method SerializeIcmpMessage(m: Message) returns (r: Option<Data>)
    ensures r == Serialize(m)
  {
    var t := SerializeType(m.icmpType);
    var c := SerializeCode(m.icmpType, m.code);
    if t.None? || c.None? {
      return None;
    }
    var data := FillMessage(t.value, c.value, m);
    var checksum := CalculateChecksum(data[..], 2);
    WriteIs(data[..], 2, checksum);
    Put(data, 2, Be16(checksum));
    return Some(data[..]);
  }

  method FillMessage(t: Byte, c: Byte, m: Message) returns (data: array<Byte>)
    ensures fresh(data) && data[..] == Blank(t, c, m)
  {
    var id, number := Be16(m.identifier), Be16(m.sequenceNumber);
    data := new Byte[HEADER_LENGTH + |m.payload|](_ => 0);
    Append(data, [], 0, [t]);
    Append(data, [t], 1, [c]);
    ghost var done := [t, c];
    ZerosAreFilled(data, done, 2);
    done := done + Zeros(2);
    Append(data, done, 4, id);
    Append(data, done + id, 6, number);
    Append(data, done + id + number, 8, m.payload);
    assert done == [t, c] + [0, 0];
  }
}
