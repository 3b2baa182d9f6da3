/** ARP messages (packages/wire/src/arp.ts). */
module ArpMessages {
  import opened Options
  import opened Bytes
  import opened Buffers
  import opened MacAddresses
  import Ipv4Text

  datatype Message = Message(
    hardwareType: string,
    protocolType: string,
    opcode: string,
    senderMac: string,
    senderIP: string,
    targetMac: string,
    targetIP: string)

  const MESSAGE_LENGTH: nat := 28

  // ---------------------------------------------------------------- codes

  function ParseHardwareType(code: nat): Option<string> {
    if code == 1 then Some("ethernet") else None
  }

  function SerializeHardwareType(hardwareType: string): Option<nat> {
    if hardwareType == "ethernet" then Some(1) else None
  }

  function ParseProtocolType(code: nat): Option<string> {
    if code == 0x0800 then Some("ipv4") else None
  }

  function SerializeProtocolType(protocolType: string): Option<nat> {
    if protocolType == "ipv4" then Some(0x0800) else None
  }

  function ParseOpcode(code: nat): Option<string> {
    if code == 1 then Some("request") else if code == 2 then Some("reply") else None
  }

  function SerializeOpcode(opcode: string): Option<nat> {
    if opcode == "request" then Some(1) else if opcode == "reply" then Some(2) else None
  }

  // ---------------------------------------------------------------- messages

  /** `parseArpMessage`: it looks at 28 bytes and skips the two that give the lengths of the addresses. */
  function Parse(data: Data): Option<Message> {
    if |data| < 8 then None
    else
      var hardwareType :- ParseHardwareType(Get16(data, 0));
      var protocolType :- ParseProtocolType(Get16(data, 2));
      var opcode :- ParseOpcode(Get16(data, 6));
      var senderMac :- MacText(Between(data, 8, 14));
      var senderIP :- Ipv4Text.Print(Between(data, 14, 18));
      var targetMac :- MacText(Between(data, 18, 24));
      var targetIP :- Ipv4Text.Print(Between(data, 24, 28));
      Some(Message(hardwareType, protocolType, opcode, senderMac, senderIP, targetMac, targetIP))
  }

  function Layout(hardware: nat, protocol: nat, opcode: nat, addresses: Data): Data {
    Be16(hardware) + Be16(protocol) + [6] + [4] + Be16(opcode) + addresses
  }

  /** `serializeArpMessage` */
  function Serialize(m: Message): (r: Option<Data>)
    ensures r.Some? ==> |r.value| == MESSAGE_LENGTH
  {
    var hardware :- SerializeHardwareType(m.hardwareType);
    var protocol :- SerializeProtocolType(m.protocolType);
    var opcode :- SerializeOpcode(m.opcode);
    var senderMac :- MacNumber(m.senderMac);
    var senderIP :- Ipv4Text.Serialize(m.senderIP);
    var targetMac :- MacNumber(m.targetMac);
    var targetIP :- Ipv4Text.Serialize(m.targetIP);
    Some(Layout(hardware, protocol, opcode, senderMac + senderIP + targetMac + targetIP))
  }

  predicate WellFormed(m: Message) {
    && SerializeHardwareType(m.hardwareType).Some? && SerializeProtocolType(m.protocolType).Some?
    && SerializeOpcode(m.opcode).Some?
    && CanonicalMac(m.senderMac) && Ipv4Text.Canonical(m.senderIP)
    && CanonicalMac(m.targetMac) && Ipv4Text.Canonical(m.targetIP)
  }

  /** The 28 bytes that are looked at, with the lengths of the addresses in their places. */
  function Normalized(data: Data): (r: Data)
    requires |data| >= MESSAGE_LENGTH
    ensures |r| == MESSAGE_LENGTH
  {
    data[..4] + [6, 4] + data[6..28]
  }

  lemma LayoutReads(hardware: nat, protocol: nat, opcode: nat, addresses: Data)
    requires hardware < 0x1_0000 && protocol < 0x1_0000 && opcode < 0x1_0000
    ensures var d := Layout(hardware, protocol, opcode, addresses);
      Get16(d, 0) == hardware && Get16(d, 2) == protocol && Get16(d, 6) == opcode && d[8..] == addresses
  {
    var d := Layout(hardware, protocol, opcode, addresses);
    var front := Be16(hardware) + Be16(protocol);
    Be16Reads(hardware, [], Be16(protocol) + [6] + [4] + Be16(opcode) + addresses);
    assert d == [] + Be16(hardware) + (Be16(protocol) + [6] + [4] + Be16(opcode) + addresses);
    Be16Reads(protocol, Be16(hardware), [6] + [4] + Be16(opcode) + addresses);
    assert d == front + ([6] + [4] + Be16(opcode) + addresses);
    Be16Reads(opcode, front + [6] + [4], addresses);
  }

  lemma AddressesRead(data: Data, senderMac: Data, senderIP: Data, targetMac: Data, targetIP: Data)
    requires |senderMac| == 6 && |senderIP| == 4 && |targetMac| == 6 && |targetIP| == 4
    requires |data| == MESSAGE_LENGTH && data[8..] == senderMac + senderIP + targetMac + targetIP
    ensures Between(data, 8, 14) == senderMac && Between(data, 14, 18) == senderIP
    ensures Between(data, 18, 24) == targetMac && Between(data, 24, 28) == targetIP
  {
    var tail := data[8..];
    assert tail[..6] == senderMac && tail[6..10] == senderIP && tail[10..16] == targetMac && tail[16..20] == targetIP;
  }

  /** A well-formed message is read back. */
  lemma SerializedParses(m: Message)
    requires WellFormed(m)
    ensures Serialize(m).Some? && Parse(Serialize(m).value) == Some(m)
  {
    var senderMac, targetMac := MacNumber(m.senderMac).value, MacNumber(m.targetMac).value;
    var senderIP, targetIP := Ipv4Text.Serialize(m.senderIP).value, Ipv4Text.Serialize(m.targetIP).value;
    LayoutReads(1, 0x0800, SerializeOpcode(m.opcode).value, senderMac + senderIP + targetMac + targetIP);
    AddressesRead(Serialize(m).value, senderMac, senderIP, targetMac, targetIP);
  }

  /** Parsing depends only on the bytes it looks at. */
  lemma ParseNormalized(data: Data)
    requires |data| >= MESSAGE_LENGTH
    ensures Parse(Normalized(data)) == Parse(data)
  {
    var d := Normalized(data);
    assert d[0] == data[0] && d[1] == data[1] && d[2] == data[2] && d[3] == data[3] && d[6] == data[6] &&
      d[7] == data[7];
    SlicesKept(data, 8, 14);
    SlicesKept(data, 14, 18);
    SlicesKept(data, 18, 24);
    SlicesKept(data, 24, 28);
  }

  lemma SlicesKept(data: Data, i: nat, j: nat)
    requires 8 <= i <= j <= MESSAGE_LENGTH <= |data|
    ensures Normalized(data)[i..j] == data[i..j]
  {
    forall k | i <= k < j ensures Normalized(data)[k] == data[k] {
      assert Normalized(data)[k] == data[6..28][k - 6];
    }
  }

  lemma NormalizedIsSame(data: Data)
    requires |data| >= MESSAGE_LENGTH
    ensures Normalized(data) == data <==> |data| == MESSAGE_LENGTH && data[4] == 6 && data[5] == 4
  {
    assert Normalized(data)[4] == 6 && Normalized(data)[5] == 4;
  }

  lemma NormalizedParts(data: Data)
    requires |data| >= MESSAGE_LENGTH
    ensures Normalized(data) ==
      Layout(Get16(data, 0), Get16(data, 2), Get16(data, 6), data[8..14] + data[14..18] + data[18..24] + data[24..28])
  {
    Be16Writes(data, 0);
    Be16Writes(data, 2);
    Be16Writes(data, 6);
    assert data[8..14] + data[14..18] + data[18..24] + data[24..28] == data[8..28];
    assert data[..4] == data[0..2] + data[2..4];
    assert data[6..28] == data[6..8] + data[8..28];
  }

  lemma ParsedSerializes(data: Data)
    requires Parse(data).Some?
    ensures |data| >= MESSAGE_LENGTH
    ensures WellFormed(Parse(data).value) && Serialize(Parse(data).value) == Some(Normalized(data))
  {
    PrintedIsCanonical(data[8..14]);
    Ipv4Text.PrintedIsCanonical(data[14..18]);
    PrintedIsCanonical(data[18..24]);
    Ipv4Text.PrintedIsCanonical(data[24..28]);
    NormalizedParts(data);
  }

  /** What is accepted: the bytes of a well-formed message, whatever follows them and whatever lengths they give. */
  lemma AcceptedIff(m: Message, data: Data)
    ensures Parse(data) == Some(m) <==>
      WellFormed(m) && |data| >= MESSAGE_LENGTH && Serialize(m) == Some(Normalized(data))
  {
    if Parse(data) == Some(m) {
      ParsedSerializes(data);
    }
    if WellFormed(m) && |data| >= MESSAGE_LENGTH && Serialize(m) == Some(Normalized(data)) {
      SerializedParses(m);
      ParseNormalized(data);
    }
  }

  /**
   The bytes of an accepted message are written again exactly if nothing follows them and they give the
   right lengths.
   */
  lemma ParsedSerializesIff(data: Data)
    requires Parse(data).Some?
    ensures Serialize(Parse(data).value) == Some(data) <==> |data| == MESSAGE_LENGTH && data[4] == 6 && data[5] == 4
  {
    ParsedSerializes(data);
    NormalizedIsSame(data);
  }

  /** A message that is padded is read as without its padding, which is lost when it is written. */
  lemma PaddingIsLost(m: Message, padding: Data)
    requires WellFormed(m) && padding != []
    ensures var data := Serialize(m).value + padding;
      Serialize(m).Some? && Parse(data) == Some(m) && Serialize(m) != Some(data)
  {
    SerializedParses(m);
    var bytes := Serialize(m).value;
    ParsedSerializes(bytes);
    assert Normalized(bytes + padding) == Normalized(bytes);
    ParseNormalized(bytes + padding);
    ParseNormalized(bytes);
  }

  /** The buffer that `serializeArpMessage` fills. */
  method SerializeArpMessage(m: Message) returns (r: Option<Data>)
    ensures r == Serialize(m)
  {
    var hardware, protocol := SerializeHardwareType(m.hardwareType), SerializeProtocolType(m.protocolType);
    var opcode := SerializeOpcode(m.opcode);
    var senderMac, targetMac := MacNumber(m.senderMac), MacNumber(m.targetMac);
    var senderIP, targetIP := Ipv4Text.Serialize(m.senderIP), Ipv4Text.Serialize(m.targetIP);
    if hardware.None? || protocol.None? || opcode.None? {
      return None;
    }
    if senderMac.None? || senderIP.None? || targetMac.None? || targetIP.None? {
      return None;
    }
    var data := new Byte[MESSAGE_LENGTH](_ => 0);
    SetLead(data, hardware.value, protocol.value, opcode.value);
    ghost var lead := Layout(hardware.value, protocol.value, opcode.value, []);
    Append(data, lead, 8, senderMac.value);
    Append(data, lead + senderMac.value, 14, senderIP.value);
    Append(data, lead + senderMac.value + senderIP.value, 18, targetMac.value);
    Append(data, lead + senderMac.value + senderIP.value + targetMac.value, 24, targetIP.value);
    ghost var addresses := senderMac.value + senderIP.value + targetMac.value + targetIP.value;
    LayoutAppends(hardware.value, protocol.value, opcode.value, senderMac.value, senderIP.value, targetMac.value,
      targetIP.value);
    assert data[..] == Layout(hardware.value, protocol.value, opcode.value, addresses);
    return Some(data[..]);
  }

  lemma LayoutAppends(hardware: nat, protocol: nat, opcode: nat, a: Data, b: Data, c: Data, d: Data)
    ensures Layout(hardware, protocol, opcode, []) + a + b + c + d == Layout(hardware, protocol, opcode, a + b + c + d)
  {
  }

  /** The fields before the addresses. */
  method SetLead(data: array<Byte>, hardware: nat, protocol: nat, opcode: nat)
    requires data.Length == MESSAGE_LENGTH && Filled(data, [])
    modifies data
    ensures Filled(data, Layout(hardware, protocol, opcode, []))
  {
    ghost var done := Be16(hardware);
    Append(data, [], 0, Be16(hardware));
    assert [] + done == done;
    Append(data, done, 2, Be16(protocol));
    done := done + Be16(protocol);
    Append(data, done, 4, [6]);
    done := done + [6];
    Append(data, done, 5, [4]);
    done := done + [4];
    Append(data, done, 6, Be16(opcode));
    assert Layout(hardware, protocol, opcode, []) == done + Be16(opcode);
  }
}
