/**
 The bytes on the wire. Each format is stated byte by byte in plain arithmetic, as its standard draws it,
 without the shifts, masks and buffers of the program: ICMP (RFC 792), UDP (RFC 768), TCP (section 3.1 of
 RFC 9293), IPv4 (section 3.1 of RFC 791), ARP (RFC 826) and Ethernet.
 */
module WireFormats {
  // packages/wire/src

  import opened Options
  import opened Bits
  import opened Bytes
  import opened Checksum
  import opened Buffers
  import opened Transport
  import opened Ipv4Packets
  import opened MacAddresses
  import Icmp
  import Text
  import Ipv4Text
  import ArpMessages
  import Ethernet

  /** The bytes at `i` are this number, high byte first. */
  predicate Number16(d: Data, i: nat, n: int) {
    i + 2 <= |d| && n == 256 * (d[i] as int) + d[i + 1] as int
  }

  predicate Number32(d: Data, i: nat, n: int) {
    && i + 4 <= |d|
    && n == 0x100_0000 * (d[i] as int) + 0x1_0000 * (d[i + 1] as int) + 256 * (d[i + 2] as int) + d[i + 3] as int
  }

  /** What a receiver tests (section 1 of RFC 1071): all words, the checksum among them, add up to minus zero. */
  predicate SumsUp(d: Data) {
    OnesSum(d, 0, 0) == 0xffff
  }

  lemma ZeroChecksumSumsUp(d: Data)
    requires |d| <= 65536 && Checksum.Checksum(d, 0) == 0
    ensures SumsUp(d)
  {
    ChecksumIsComplement(d, 0);
    FoldIsOnesSum(d, 0, 0);
  }

  lemma SealedSumsUp(pseudo: Data, data: Data, offset: nat)
    requires |pseudo| > 0 && (|pseudo| + offset) % 2 == 0 && offset + 2 <= |data| && |pseudo| + |data| <= 65536
    ensures SumsUp(pseudo + Sealed(pseudo, data, offset))
  {
    var c := Checksum.Checksum(pseudo + data, |pseudo| + offset);
    WriteBehind(pseudo, data, offset, c);
    WrittenChecksumVerifies(pseudo + data, |pseudo| + offset, c);
    ZeroChecksumSumsUp(pseudo + Sealed(pseudo, data, offset));
  }

  lemma GetsAre(d: Data, i: nat)
    ensures i + 2 <= |d| ==> Number16(d, i, Get16(d, i))
    ensures i + 4 <= |d| ==> Number32(d, i, Get32(d, i))
  {
  }

  // ---------------------------------------------------------------- UDP

  ghost predicate UdpFormat(u: Udp, d: Data) {
    && |d| == 8 + |u.payload|
    && Number16(d, 0, u.sourcePort) && Number16(d, 2, u.destinationPort) && Number16(d, 4, 8 + |u.payload|)
    && d[8..] == u.payload
  }

  lemma UdpBytes(u: Udp, pseudo: Data)
    requires UdpWellFormed(u)
    ensures UdpFormat(u, SerializeUdp(u, pseudo))
    ensures 0 < |pseudo| <= 65000 - |u.payload| && |pseudo| % 2 == 0 ==> SumsUp(pseudo + SerializeUdp(u, pseudo))
  {
    UdpFields(u);
    var d := SerializeUdp(u, pseudo);
    assert d[8..] == UdpBlank(u)[8..];
    if 0 < |pseudo| <= 65000 - |u.payload| && |pseudo| % 2 == 0 {
      SealedSumsUp(pseudo, UdpBlank(u), 6);
    }
  }

  // ---------------------------------------------------------------- TCP

  ghost predicate TcpFormat(s: Tcp, d: Data) {
    var n := |s.options|;
    && |d| == 20 + n + |s.payload|
    && Number16(d, 0, s.sourcePort) && Number16(d, 2, s.destinationPort)
    && Number32(d, 4, s.sequenceNumber) && Number32(d, 8, s.acknowledgmentNumber)
    && d[12] == 16 * ((20 + n) / 4) + 2 * s.reserved
    && d[13] == 32 * Bit(s.flags.urg) + 16 * Bit(s.flags.ack) + 8 * Bit(s.flags.psh) + 4 * Bit(s.flags.rst)
                + 2 * Bit(s.flags.syn) + Bit(s.flags.fin)
    && Number16(d, 14, s.windowSize) && Number16(d, 18, s.urgentPointer)
    && d[20..20 + n] == s.options && d[20 + n..] == s.payload
  }

  lemma TcpBytes(s: Tcp, pseudo: Data)
    requires TcpWellFormed(s)
    ensures TcpFormat(s, SerializeTcp(s, pseudo))
    ensures 0 < |pseudo| <= 65000 - |s.payload| && |pseudo| % 2 == 0 ==> SumsUp(pseudo + SerializeTcp(s, pseudo))
  {
    TcpBlankFormat(s);
    SealingKeeps(pseudo, TcpBlank(s));
    KeepsTcpFormat(s, TcpBlank(s), SerializeTcp(s, pseudo));
    if 0 < |pseudo| <= 65000 - |s.payload| && |pseudo| % 2 == 0 {
      SealedSumsUp(pseudo, TcpBlank(s), 16);
    }
  }

  lemma TcpBlankFormat(s: Tcp)
    requires TcpWellFormed(s)
    ensures TcpFormat(s, TcpBlank(s))
  {
    var x, y := OffsetByte(s.dataOffset, s.reserved), FlagsByte(s.flags);
    TcpFields(s, x, y);
    TcpTail(s);
    FlagsValue(s.flags);
    OffsetByteValue(s.dataOffset / 4, s.reserved);
  }

  lemma KeepsTcpFormat(s: Tcp, b: Data, d: Data)
    requires TcpFormat(s, b) && |d| == |b| && d[..16] == b[..16] && d[18..] == b[18..]
    requires forall i :: 20 <= i <= |b| ==> d[20..i] == b[20..i] && d[i..] == b[i..]
    ensures TcpFormat(s, d)
  {
    assert forall i :: 0 <= i < 16 ==> d[i] == d[..16][i] && b[i] == b[..16][i];
    assert forall i :: 18 <= i < 20 ==> d[i] == d[18..][i - 18] && b[i] == b[18..][i - 18];
  }

  // ---------------------------------------------------------------- ICMP

  /** The numbers of the types, and of the codes of the two types that have any. */
  predicate TypeNumber(m: Icmp.Message, t: Byte, c: Byte) {
    || (m.icmpType == "echo-reply" && t == 0 && m.code == None && c == 0)
    || (m.icmpType == "echo-request" && t == 8 && m.code == None && c == 0)
    || (m.icmpType == "destination-unreachable" && t == 3 && (
          || (m.code == Some("network-unreachable") && c == 0)
          || (m.code == Some("host-unreachable") && c == 1)
          || (m.code == Some("protocol-unreachable") && c == 2)))
    || (m.icmpType == "time-exceeded" && t == 11 && (
          || (m.code == Some("ttl-exceeded") && c == 0)
          || (m.code == Some("fragment-reassembly-time-exceeded") && c == 1)))
  }

  ghost predicate IcmpFormat(m: Icmp.Message, d: Data) {
    && |d| == 8 + |m.payload|
    && TypeNumber(m, d[0], d[1])
    && Number16(d, 4, m.identifier) && Number16(d, 6, m.sequenceNumber)
    && d[8..] == m.payload
  }

  lemma IcmpBytes(m: Icmp.Message)
    requires Icmp.WellFormed(m)
    ensures Icmp.Serialize(m).Some? && IcmpFormat(m, Icmp.Serialize(m).value)
    ensures |m.payload| <= 65528 ==> SumsUp(Icmp.Serialize(m).value)
  {
    var t, c := Icmp.SerializeType(m.icmpType).value, Icmp.SerializeCode(m.icmpType, m.code).value;
    assert TypeNumber(m, t, c);
    IcmpFields(m, t, c, Icmp.Serialize(m).value);
    if |m.payload| <= 65528 {
      IcmpSums(t, c, m);
    }
  }

  lemma IcmpSums(t: Byte, c: Byte, m: Icmp.Message)
    requires |m.payload| <= 65528
    ensures var data := Icmp.Blank(t, c, m); SumsUp(Write16(data, 2, Checksum.Checksum(data, 2)))
  {
    var data := Icmp.Blank(t, c, m);
    WrittenChecksumVerifies(data, 2, Checksum.Checksum(data, 2));
    ZeroChecksumSumsUp(Write16(data, 2, Checksum.Checksum(data, 2)));
  }

  lemma IcmpFields(m: Icmp.Message, t: Byte, c: Byte, d: Data)
    requires m.identifier < 0x1_0000 && m.sequenceNumber < 0x1_0000
    requires var data := Icmp.Blank(t, c, m); d == Write16(data, 2, Checksum.Checksum(data, 2))
    ensures |d| == 8 + |m.payload| && d[0] == t && d[1] == c && d[8..] == m.payload
    ensures Number16(d, 4, m.identifier) && Number16(d, 6, m.sequenceNumber)
  {
    var data := Icmp.Blank(t, c, m);
    assert data[4..6] == Be16(m.identifier) && data[6..8] == Be16(m.sequenceNumber);
    assert d[4] == data[4..6][0] && d[5] == data[4..6][1] && d[6] == data[6..8][0] && d[7] == data[6..8][1];
    assert d[8..] == data[8..] == m.payload;
  }

  // ---------------------------------------------------------------- IPv4

  lemma PseudoBytes(source: Data, destination: Data, protocol: Byte, length: nat)
    requires |source| == 4 && |destination| == 4 && length < 0x1_0000
    ensures var d := Pseudo(source, destination, protocol, length);
      && |d| == 12 && d[..4] == source && d[4..8] == destination && d[8] == 0 && d[9] == protocol
      && Number16(d, 10, length)
  {
    var d := Pseudo(source, destination, protocol, length);
    assert d[10..] == Be16(length);
    assert d[10] == d[10..][0] && d[11] == d[10..][1];
  }

  ghost predicate HeaderFormat(p: Packet, d: Data, total: nat) {
    && |d| >= 20
    && d[0] == 16 * p.version + 5 && d[1] == 4 * p.dscp + p.ecn
    && Number16(d, 2, total) && Number16(d, 4, p.identification)
    && Number16(d, 6, 0x2000 * p.flags + p.fragmentOffset)
    && d[8] == p.ttl
    && d[9] == (match p.payload case IcmpPayload(_) => 1 case TcpPayload(_) => 6 case UdpPayload(_) => 17)
    && Ipv4Text.Print(d[12..16]) == Some(p.sourceIP) && Ipv4Text.Print(d[16..20]) == Some(p.destinationIP)
  }

  lemma PacketBytes(p: Packet)
    requires Ipv4Packets.WellFormed(p) && Fits(p)
    ensures Ipv4Packets.Serialize(p).Some? && SerializePayload(p).Some?
    ensures var d, payload := Ipv4Packets.Serialize(p).value, SerializePayload(p).value;
      && HeaderFormat(p, d, |d|) && SumsUp(d[..20]) && d[20..] == payload && |payload| == PayloadLength(p.payload)
  {
    SerializedPayloadLength(p);
    var payload := SerializePayload(p).value;
    var source, destination := Ipv4Text.Serialize(p.sourceIP).value, Ipv4Text.Serialize(p.destinationIP).value;
    SerializedIs(p, payload, source, destination);
    var total: nat := 20 + |payload|;
    LeadBytes(p, total);
    HeaderAround(p, Lead(p, total), source, destination, payload, total);
  }

  ghost predicate LeadFormat(p: Packet, d: Data, total: nat) {
    && |d| >= 10
    && d[0] == 16 * p.version + 5 && d[1] == 4 * p.dscp + p.ecn
    && Number16(d, 2, total) && Number16(d, 4, p.identification)
    && Number16(d, 6, 0x2000 * p.flags + p.fragmentOffset)
    && d[8] == p.ttl && d[9] == Protocol(p.payload)
  }

  lemma LeadBytes(p: Packet, total: nat)
    requires HeaderWellFormed(p) && total < 0x1_0000
    ensures LeadFormat(p, Lead(p, total), total)
  {
    var b0, b1 := BitOr(Shl(p.version, 4), IPV4_HEADER_LENGTH / 4), BitOr(Shl(p.dscp, 2), p.ecn);
    var b6, b7 := BitOr(Shl(p.flags, 5), Sar(p.fragmentOffset, 8)), BitAnd(p.fragmentOffset, 0xff);
    VersionByte(p.version);
    ServiceByte(p.dscp, p.ecn);
    FragmentBytes(p.flags, p.fragmentOffset);
    LeadIs(p, total, b0, b1, b6, b7);
    LeadAt(b0, b1, total, p.identification, b6, b7, p.ttl, Protocol(p.payload));
    PackedBytes(p, b0, b1, b6, b7);
  }

  lemma PackedBytes(p: Packet, b0: int, b1: int, b6: int, b7: int)
    requires HeaderWellFormed(p)
    requires b0 == BitOr(Shl(p.version, 4), 5) && b1 == BitOr(Shl(p.dscp, 2), p.ecn)
    requires b6 == BitOr(Shl(p.flags, 5), Sar(p.fragmentOffset, 8)) && b7 == BitAnd(p.fragmentOffset, 0xff)
    ensures b0 == 16 * p.version + 5 && b1 == 4 * p.dscp + p.ecn
    ensures 256 * b6 + b7 == 0x2000 * p.flags + p.fragmentOffset
  {
    PackedFields(p.version, 5, 4, 16);
    PackedFields(p.dscp, p.ecn, 2, 4);
    assert Sar(p.fragmentOffset, 8) == p.fragmentOffset / 0x100 && b7 == p.fragmentOffset % 0x100 by {
      OffsetBytes(p.fragmentOffset);
    }
    PackedFields(p.flags, p.fragmentOffset / 0x100, 5, 32);
  }

  lemma PackedFields(high: nat, low: nat, k: nat, power: nat)
    requires (k == 4 && power == 16) || (k == 2 && power == 4) || (k == 5 && power == 32)
    requires low < power && high * power + low < 0x100
    ensures BitOr(Shl(high, k), low) == power * high + low
  {
    PowersUsed();
    Packed(high, low, k);
  }

  lemma HeaderAround(p: Packet, lead: Data, source: Data, destination: Data, payload: Data, total: nat)
    requires |lead| == 12 && |source| == 4 && |destination| == 4 && LeadFormat(p, lead, total)
    requires Ipv4Text.Print(source) == Some(p.sourceIP) && Ipv4Text.Print(destination) == Some(p.destinationIP)
    ensures var d := SealedHeader(lead + source + destination) + payload;
      HeaderFormat(p, d, total) && SumsUp(d[..20]) && d[20..] == payload
  {
    var header := lead + source + destination;
    var d := SealedHeader(header) + payload;
    HeaderVerifies(lead, source, destination, payload);
    assert forall i :: 0 <= i < 10 ==> d[i] == d[..10][i] && lead[i] == lead[..10][i];
    assert d[..20] == SealedHeader(header);
    WrittenChecksumVerifies(header, 10, Checksum.Checksum(header, 10));
    ZeroChecksumSumsUp(SealedHeader(header));
  }

  // ---------------------------------------------------------------- ARP and Ethernet

  ghost predicate ArpFormat(m: ArpMessages.Message, d: Data) {
    && |d| == 28
    && m.hardwareType == "ethernet" && Number16(d, 0, 1) && m.protocolType == "ipv4" && Number16(d, 2, 0x0800)
    && d[4] == 6 && d[5] == 4
    && ((m.opcode == "request" && Number16(d, 6, 1)) || (m.opcode == "reply" && Number16(d, 6, 2)))
    && MacText(d[8..14]) == Some(m.senderMac) && Ipv4Text.Print(d[14..18]) == Some(m.senderIP)
    && MacText(d[18..24]) == Some(m.targetMac) && Ipv4Text.Print(d[24..28]) == Some(m.targetIP)
  }

  lemma ArpBytes(m: ArpMessages.Message)
    requires ArpMessages.WellFormed(m)
    ensures ArpMessages.Serialize(m).Some? && ArpFormat(m, ArpMessages.Serialize(m).value)
  {
    var senderMac, targetMac := MacNumber(m.senderMac).value, MacNumber(m.targetMac).value;
    var senderIP, targetIP := Ipv4Text.Serialize(m.senderIP).value, Ipv4Text.Serialize(m.targetIP).value;
    var opcode := ArpMessages.SerializeOpcode(m.opcode).value;
    var addresses := senderMac + senderIP + targetMac + targetIP;
    ArpMessages.LayoutReads(1, 0x0800, opcode, addresses);
    var d := ArpMessages.Layout(1, 0x0800, opcode, addresses);
    assert ArpMessages.Serialize(m) == Some(d);
    ArpMessages.AddressesRead(d, senderMac, senderIP, targetMac, targetIP);
    GetsAre(d, 0);
    GetsAre(d, 2);
    GetsAre(d, 6);
  }

  lemma FrameBytes(f: Ethernet.Frame)
    requires Ethernet.Serialize(f).Some? && CanonicalMac(f.destinationMac) && CanonicalMac(f.sourceMac)
    ensures var d := Ethernet.Serialize(f).value;
      && |d| >= 14
      && MacText(d[..6]) == Some(f.destinationMac) && MacText(d[6..12]) == Some(f.sourceMac)
      && Number16(d, 12, if f.payload.Ipv4? then 0x0800 else 0x0806)
      && Ethernet.SerializePayload(f.payload) == Some(d[14..])
  {
    var destination, source := MacNumber(f.destinationMac).value, MacNumber(f.sourceMac).value;
    Ethernet.FrameParts(destination, source, Ethernet.TypeOf(f.payload), Ethernet.SerializePayload(f.payload).value);
    GetsAre(Ethernet.Serialize(f).value, 12);
  }

  // ---------------------------------------------------------------- address text

  /** The four numbers of an address are in the order of its bytes. */
  lemma Ipv4TextIs(b: Data)
    requires |b| == 4
    ensures Ipv4Text.Print(b) == Some(
      Text.ToText(b[0], 10) + "." + Text.ToText(b[1], 10) + "." + Text.ToText(b[2], 10) + "." + Text.ToText(b[3], 10))
  {
    var t0, t1, t2, t3 := Text.ToText(b[0], 10), Text.ToText(b[1], 10), Text.ToText(b[2], 10), Text.ToText(b[3], 10);
    assert b[1..][1..] == b[2..] && b[2..][1..] == b[3..] && b[3..][1..] == [];
    assert Ipv4Text.Decimals(b[3..]) == [t3];
    assert Ipv4Text.Decimals(b[2..]) == [t2] + [t3] == [t2, t3];
    assert Ipv4Text.Decimals(b[1..]) == [t1] + [t2, t3] == [t1, t2, t3];
    assert Ipv4Text.Decimals(b) == [t0] + [t1, t2, t3] == [t0, t1, t2, t3];
    JoinFour(t0, t1, t2, t3);
  }

  lemma JoinFour(t0: string, t1: string, t2: string, t3: string)
    ensures Text.Join([t0, t1, t2, t3], '.') == t0 + "." + t1 + "." + t2 + "." + t3
  {
    assert [t0, t1, t2, t3][1..] == [t1, t2, t3] && [t1, t2, t3][1..] == [t2, t3] && [t2, t3][1..] == [t3];
    assert Text.Join([t2, t3], '.') == t2 + "." + t3;
    assert Text.Join([t1, t2, t3], '.') == t1 + "." + (t2 + "." + t3);
  }

  /** Character `3 * k` and the next are the hexadecimal digits of byte `k` of a MAC address, with colons between. */
  lemma MacTextIs(b: Data, k: nat)
    requires |b| == 6 && k < 6
    ensures var t := MacText(b).value;
      && |t| == 17 && t[3 * k] == Text.Digit(b[k] / 16) && t[3 * k + 1] == Text.Digit(b[k] % 16)
      && (k < 5 ==> t[3 * k + 2] == ':')
  {
    PairsJoined(b, k);
  }

  /** Where byte `k` stands in the text. */
  predicate PairAt(t: string, b: Data, k: nat)
    requires k < |b|
  {
    && |t| == 3 * |b| - 1 && t[3 * k] == Text.Digit(b[k] / 16) && t[3 * k + 1] == Text.Digit(b[k] % 16)
    && (k < |b| - 1 ==> t[3 * k + 2] == ':')
  }

  lemma {:induction false} PairsJoined(b: Data, k: nat)
    requires k < |b|
    ensures PairAt(Text.Join(HexPairs(b), ':'), b, k)
  {
    var first, rest := [Text.Digit(b[0] / 16), Text.Digit(b[0] % 16)], HexPairs(b[1..]);
    assert HexPairs(b) == [first] + rest && ([first] + rest)[1..] == rest;
    if |b| > 1 {
      assert Text.Join(HexPairs(b), ':') == first + ":" + Text.Join(rest, ':');
      PairsJoined(b[1..], if k > 0 then k - 1 else 0);
      PairJoined(first, Text.Join(rest, ':'), b, k);
    }
  }

  lemma PairJoined(first: string, rest: string, b: Data, k: nat)
    requires k < |b| && |b| > 1 && first == [Text.Digit(b[0] / 16), Text.Digit(b[0] % 16)]
    requires PairAt(rest, b[1..], if k > 0 then k - 1 else 0)
    ensures PairAt(first + ":" + rest, b, k)
  {
    if k > 0 {
      assert (first + ":" + rest)[3 * k..] == rest[3 * (k - 1)..];
    }
  }
}
