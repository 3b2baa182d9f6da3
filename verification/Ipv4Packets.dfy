/** IPv4 packets with their ICMP, TCP or UDP payload (packages/wire/src/ipv4.ts). */
module Ipv4Packets {
  import opened Options
  import opened Bits
  import opened Bytes
  import opened Checksum
  import opened Buffers
  import opened Transport
  import Icmp
  import Ipv4Text

  datatype Payload = IcmpPayload(icmp: Icmp.Message) | TcpPayload(tcp: Tcp) | UdpPayload(udp: Udp)

  datatype Packet = Packet(
    version: int,
    dscp: int,
    ecn: int,
    identification: int,
    flags: int,
    fragmentOffset: int,
    ttl: int,
    sourceIP: string,
    destinationIP: string,
    payload: Payload)

  const IPV4_HEADER_LENGTH: nat := 20

  /** The protocol number; the protocol of a packet is the kind of its payload. */
  function Protocol(p: Payload): Byte {
    match p
    case IcmpPayload(_) => 1
    case TcpPayload(_) => 6
    case UdpPayload(_) => 17
  }

  /** `serializeIPv4PseudoHeader` */
  function PseudoHeader(sourceIP: string, destinationIP: string, protocol: Byte, length: int): Option<Data> {
    var source :- Ipv4Text.Serialize(sourceIP);
    var destination :- Ipv4Text.Serialize(destinationIP);
    Some(Pseudo(source, destination, protocol, length))
  }

  function Pseudo(source: Data, destination: Data, protocol: Byte, length: int): Data {
    source + destination + [0] + [protocol] + Be16(length)
  }

  // ---------------------------------------------------------------- writing

  function SerializePayload(p: Packet): Option<Data> {
    match p.payload
    case IcmpPayload(icmp) => Icmp.Serialize(icmp)
    case TcpPayload(tcp) =>
      var pseudo :- PseudoHeader(p.sourceIP, p.destinationIP, 6, IPV4_HEADER_LENGTH + |tcp.payload|);
      Some(SerializeTcp(tcp, pseudo))
    case UdpPayload(udp) =>
      var pseudo :- PseudoHeader(p.sourceIP, p.destinationIP, 17, UDP_HEADER_LENGTH + |udp.payload|);
      Some(SerializeUdp(udp, pseudo))
  }

  /** The first twelve bytes of the header, without checksum. */
  function Lead(p: Packet, totalLength: int): (d: Data)
    ensures |d| == 12
  {
    LeadOf(
      Low8(BitOr(Shl(p.version, 4), IPV4_HEADER_LENGTH / 4)),
      Low8(BitOr(Shl(p.dscp, 2), p.ecn)),
      totalLength,
      p.identification,
      Low8(BitOr(Shl(p.flags, 5), Sar(p.fragmentOffset, 8))),
      Low8(BitAnd(p.fragmentOffset, 0xff)),
      Low8(p.ttl),
      Protocol(p.payload))
  }

  function LeadOf(
    b0: Byte, b1: Byte, totalLength: int, identification: int, b6: Byte, b7: Byte, b8: Byte, b9: Byte): (d: Data)
    ensures |d| == 12
  {
    [b0] + [b1] + Be16(totalLength) + Be16(identification) + [b6] + [b7] + [b8] + [b9] + [0, 0]
  }

  function SealedHeader(header: Data): (d: Data)
    requires |header| == IPV4_HEADER_LENGTH
    ensures |d| == IPV4_HEADER_LENGTH
  {
    Write16(header, 10, Checksum.Checksum(header, 10))
  }

  /** The bytes of a packet around these of its payload. */
  function Around(p: Packet, payload: Data): (r: Option<Data>)
    ensures r.Some? ==> |r.value| >= IPV4_HEADER_LENGTH
  {
    var source :- Ipv4Text.Serialize(p.sourceIP);
    var destination :- Ipv4Text.Serialize(p.destinationIP);
    if |source| != 4 || |destination| != 4 then None
    else Some(SealedHeader(Lead(p, IPV4_HEADER_LENGTH + |payload|) + source + destination) + payload)
  }

  /** `serializeIPv4Packet` */
  function Serialize(p: Packet): (r: Option<Data>)
    ensures r.Some? ==> |r.value| >= IPV4_HEADER_LENGTH
  {
    var payload :- SerializePayload(p);
    Around(p, payload)
  }

  // ---------------------------------------------------------------- reading

  function ParsePayload(protocol: Byte, payload: Data, sourceIP: string, destinationIP: string): Option<Payload> {
    match protocol
    case 1 =>
      var icmp :- Icmp.Parse(payload);
      Some(IcmpPayload(icmp))
    case 6 =>
      var pseudo :- PseudoHeader(sourceIP, destinationIP, 6, |payload|);
      var tcp :- ParseTcp(payload, pseudo);
      Some(TcpPayload(tcp))
    case 17 =>
      var pseudo :- PseudoHeader(sourceIP, destinationIP, 17, |payload|);
      var udp :- ParseUdp(payload, pseudo);
      Some(UdpPayload(udp))
    case _ => None
  }

  /** `parseIPv4Packet` */
  function Parse(data: Data): Option<Packet> {
    if |data| < IPV4_HEADER_LENGTH then None
    else if Checksum.Checksum(data[..20], 10) != Get16(data, 10) then None
    else if Get16(data, 2) != |data| then None
    else
      var sourceIP :- Ipv4Text.Print(data[12..16]);
      var destinationIP :- Ipv4Text.Print(data[16..20]);
      var headerLength := BitAnd(data[0], 0xf) * 4;
      var rest := if headerLength < 0 then data else From(data, headerLength);
      var payload :- ParsePayload(data[9], rest, sourceIP, destinationIP);
      Some(Packet(
        Sar(data[0], 4),
        Sar(data[1], 2),
        BitAnd(data[1], 0x3),
        Get16(data, 4),
        Sar(data[6], 5),
        BitOr(Shl(BitAnd(data[6], 0x1f), 8), data[7]),
        data[8],
        sourceIP,
        destinationIP,
        payload))
  }

  // ---------------------------------------------------------------- round trip

  predicate PayloadWellFormed(p: Payload) {
    match p
    case IcmpPayload(icmp) => Icmp.WellFormed(icmp)
    case TcpPayload(tcp) => TcpWellFormed(tcp)
    case UdpPayload(udp) => UdpWellFormed(udp)
  }

  function PayloadLength(p: Payload): nat {
    match p
    case IcmpPayload(icmp) => Icmp.HEADER_LENGTH + |icmp.payload|
    case TcpPayload(tcp) => TCP_HEADER_MIN_LENGTH + |tcp.options| + |tcp.payload|
    case UdpPayload(udp) => UDP_HEADER_LENGTH + |udp.payload|
  }

  predicate HeaderWellFormed(p: Packet) {
    && 0 <= p.version < 16 && 0 <= p.dscp < 64 && 0 <= p.ecn < 4
    && 0 <= p.identification < 0x1_0000
    && 0 <= p.flags < 8 && 0 <= p.fragmentOffset < 0x2000
    && 0 <= p.ttl < 0x100
  }

  predicate WellFormed(p: Packet) {
    && HeaderWellFormed(p)
    && Ipv4Text.Canonical(p.sourceIP) && Ipv4Text.Canonical(p.destinationIP)
    && PayloadWellFormed(p.payload)
  }

  /** The total length fits its field. */
  predicate Fits(p: Packet) {
    IPV4_HEADER_LENGTH + PayloadLength(p.payload) < 0x1_0000
  }

  predicate HasOptions(p: Payload) {
    p.TcpPayload? && p.tcp.options != []
  }

  lemma VersionByte(version: nat)
    requires version < 16
    ensures var b := BitOr(Shl(version, 4), IPV4_HEADER_LENGTH / 4);
      0 <= b < 0x100 && Sar(b, 4) == version && BitAnd(b, 0xf) == 5
  {
    assert Pow2(4) == 16 by {
      PowersUsed();
    }
    Packed(version, 5, 4);
  }

  lemma ServiceByte(dscp: nat, ecn: nat)
    requires dscp < 64 && ecn < 4
    ensures var b := BitOr(Shl(dscp, 2), ecn);
      0 <= b < 0x100 && Sar(b, 2) == dscp && BitAnd(b, 0x3) == ecn
  {
    assert Pow2(2) == 4 by {
      PowersUsed();
    }
    Packed(dscp, ecn, 2);
  }

  lemma FragmentFlags(flags: nat, high: nat)
    requires flags < 8 && high < 32
    ensures var b6 := BitOr(Shl(flags, 5), high);
      0 <= b6 < 0x100 && Sar(b6, 5) == flags && BitAnd(b6, 0x1f) == high
  {
    assert Pow2(5) == 32 by {
      PowersUsed();
    }
    Packed(flags, high, 5);
  }

  lemma OffsetBytes(fragmentOffset: nat)
    requires fragmentOffset < 0x2000
    ensures Sar(fragmentOffset, 8) == fragmentOffset / 0x100 && BitAnd(fragmentOffset, 0xff) == fragmentOffset % 0x100
  {
    assert Pow2(8) == 256 by {
      PowersUsed();
    }
    LowByte(fragmentOffset);
  }

  lemma FragmentBytes(flags: nat, fragmentOffset: nat)
    requires flags < 8 && fragmentOffset < 0x2000
    ensures var b6, b7 := BitOr(Shl(flags, 5), Sar(fragmentOffset, 8)), BitAnd(fragmentOffset, 0xff);
      && 0 <= b6 < 0x100 && 0 <= b7 < 0x100
      && Sar(b6, 5) == flags
      && BitOr(Shl(BitAnd(b6, 0x1f), 8), b7) == fragmentOffset
  {
    var high: nat, low: nat := fragmentOffset / 0x100, fragmentOffset % 0x100;
    OffsetBytes(fragmentOffset);
    FragmentFlags(flags, high);
    WordIsOr(high, low);
  }

  /** What the header's fields are read as. */
  ghost predicate LeadReads(d: Data, p: Packet, totalLength: nat) {
    && |d| >= 12
    && Sar(d[0], 4) == p.version && BitAnd(d[0], 0xf) == 5
    && Sar(d[1], 2) == p.dscp && BitAnd(d[1], 0x3) == p.ecn
    && Get16(d, 2) == totalLength && Get16(d, 4) == p.identification
    && Sar(d[6], 5) == p.flags && BitOr(Shl(BitAnd(d[6], 0x1f), 8), d[7]) == p.fragmentOffset
    && d[8] == p.ttl && d[9] == Protocol(p.payload)
  }

  lemma LeadAt(b0: Byte, b1: Byte, totalLength: nat, identification: nat, b6: Byte, b7: Byte, b8: Byte, b9: Byte)
    requires totalLength < 0x1_0000 && identification < 0x1_0000
    ensures var d := LeadOf(b0, b1, totalLength, identification, b6, b7, b8, b9);
      && d[0] == b0 && d[1] == b1 && Get16(d, 2) == totalLength && Get16(d, 4) == identification
      && d[6] == b6 && d[7] == b7 && d[8] == b8 && d[9] == b9
  {
    var rest := [b6] + [b7] + [b8] + [b9] + [0, 0];
    Be16Reads(totalLength, [b0] + [b1], Be16(identification) + rest);
    Be16Reads(identification, [b0] + [b1] + Be16(totalLength), rest);
    var d := LeadOf(b0, b1, totalLength, identification, b6, b7, b8, b9);
    assert d == [b0] + [b1] + Be16(totalLength) + (Be16(identification) + rest);
    assert d == [b0] + [b1] + Be16(totalLength) + Be16(identification) + rest;
  }

  lemma LeadIs(p: Packet, totalLength: nat, b0: Byte, b1: Byte, b6: Byte, b7: Byte)
    requires b0 == BitOr(Shl(p.version, 4), IPV4_HEADER_LENGTH / 4) && b1 == BitOr(Shl(p.dscp, 2), p.ecn)
    requires b6 == BitOr(Shl(p.flags, 5), Sar(p.fragmentOffset, 8)) && b7 == BitAnd(p.fragmentOffset, 0xff)
    requires 0 <= p.ttl < 0x100
    ensures Lead(p, totalLength) == LeadOf(b0, b1, totalLength, p.identification, b6, b7, p.ttl, Protocol(p.payload))
  {
    LowIs(BitOr(Shl(p.version, 4), IPV4_HEADER_LENGTH / 4), b0);
    LowIs(BitOr(Shl(p.dscp, 2), p.ecn), b1);
    LowIs(BitOr(Shl(p.flags, 5), Sar(p.fragmentOffset, 8)), b6);
    LowIs(BitAnd(p.fragmentOffset, 0xff), b7);
    LowIs(p.ttl, p.ttl);
  }

  lemma LeadParses(p: Packet, totalLength: nat)
    requires HeaderWellFormed(p) && totalLength < 0x1_0000
    ensures LeadReads(Lead(p, totalLength), p, totalLength)
  {
    var b0, b1 := BitOr(Shl(p.version, 4), IPV4_HEADER_LENGTH / 4), BitOr(Shl(p.dscp, 2), p.ecn);
    var b6, b7 := BitOr(Shl(p.flags, 5), Sar(p.fragmentOffset, 8)), BitAnd(p.fragmentOffset, 0xff);
    VersionByte(p.version);
    ServiceByte(p.dscp, p.ecn);
    FragmentBytes(p.flags, p.fragmentOffset);
    LeadIs(p, totalLength, b0, b1, b6, b7);
    LeadAt(b0, b1, totalLength, p.identification, b6, b7, p.ttl, Protocol(p.payload));
  }

  /** The header checks itself, and the fields around the checksum are not touched by it. */
  lemma HeaderVerifies(lead: Data, source: Data, destination: Data, payload: Data)
    requires |lead| == 12 && |source| == 4 && |destination| == 4
    ensures var d := SealedHeader(lead + source + destination) + payload;
      && Checksum.Checksum(d[..20], 10) == Get16(d, 10)
      && d[..10] == lead[..10] && d[12..16] == source && d[16..20] == destination && d[20..] == payload
  {
    var header := lead + source + destination;
    var d := SealedHeader(header) + payload;
    WriteReads(header, 10, Checksum.Checksum(header, 10));
    assert d[..20] == SealedHeader(header);
    assert Get16(d, 10) == Get16(SealedHeader(header), 10);
  }

  lemma LeadReadsPrefix(d: Data, lead: Data, p: Packet, totalLength: nat)
    requires |lead| == 12 && |d| >= 12 && d[..10] == lead[..10] && LeadReads(lead, p, totalLength)
    ensures LeadReads(d, p, totalLength)
  {
    assert forall i :: 0 <= i < 10 ==> d[i] == d[..10][i] && lead[i] == lead[..10][i];
  }

  lemma SerializedPayloadLength(p: Packet)
    requires WellFormed(p)
    ensures SerializePayload(p).Some? && |SerializePayload(p).value| == PayloadLength(p.payload)
  {
  }

  /** A packet whose header says what `p` says is parsed as `p` with whatever its payload is parsed as. */
  lemma ParseOf(p: Packet, d: Data, payload: Data)
    requires LeadReads(d, p, |d|) && |d| == IPV4_HEADER_LENGTH + |payload| && d[20..] == payload
    requires Checksum.Checksum(d[..20], 10) == Get16(d, 10)
    requires Ipv4Text.Print(d[12..16]) == Some(p.sourceIP) && Ipv4Text.Print(d[16..20]) == Some(p.destinationIP)
    ensures var inner := ParsePayload(Protocol(p.payload), payload, p.sourceIP, p.destinationIP);
      Parse(d) == if inner.None? then None else Some(p.(payload := inner.value))
  {
    assert From(d, 20) == payload;
  }

  /** The bytes of a packet, taken apart again. */
  lemma ParseOfParts(p: Packet, lead: Data, source: Data, destination: Data, payload: Data, d: Data)
    requires |lead| == 12 && LeadReads(lead, p, IPV4_HEADER_LENGTH + |payload|) && |source| == 4 && |destination| == 4
    requires Ipv4Text.Print(source) == Some(p.sourceIP) && Ipv4Text.Print(destination) == Some(p.destinationIP)
    requires d == SealedHeader(lead + source + destination) + payload
    ensures var inner := ParsePayload(Protocol(p.payload), payload, p.sourceIP, p.destinationIP);
      Parse(d) == if inner.None? then None else Some(p.(payload := inner.value))
  {
    HeaderVerifies(lead, source, destination, payload);
    LeadReadsPrefix(d, lead, p, IPV4_HEADER_LENGTH + |payload|);
    ParseOf(p, d, payload);
  }

  lemma SerializedIs(p: Packet, payload: Data, source: Data, destination: Data)
    requires SerializePayload(p) == Some(payload)
    requires Ipv4Text.Serialize(p.sourceIP) == Some(source) && Ipv4Text.Serialize(p.destinationIP) == Some(destination)
    requires |source| == 4 && |destination| == 4
    ensures Serialize(p) == Some(SealedHeader(Lead(p, IPV4_HEADER_LENGTH + |payload|) + source + destination) + payload)
  {
  }

  /** The parser of the packet reduces to that of the payload. */
  lemma ParseReduces(p: Packet)
    requires WellFormed(p) && Fits(p)
    ensures SerializePayload(p).Some? && Serialize(p).Some?
    ensures var inner := ParsePayload(Protocol(p.payload), SerializePayload(p).value, p.sourceIP, p.destinationIP);
      Parse(Serialize(p).value) == if inner.None? then None else Some(p.(payload := inner.value))
  {
    SerializedPayloadLength(p);
    var payload := SerializePayload(p).value;
    var source, destination := Ipv4Text.Serialize(p.sourceIP).value, Ipv4Text.Serialize(p.destinationIP).value;
    var total: nat := IPV4_HEADER_LENGTH + |payload|;
    SerializedIs(p, payload, source, destination);
    LeadParses(p, total);
    ParseOfParts(p, Lead(p, total), source, destination, payload, Serialize(p).value);
  }

  lemma PseudoShape(source: Data, destination: Data, protocol: Byte, length: int)
    requires |source| == 4 && |destination| == 4
    ensures |Pseudo(source, destination, protocol, length)| == 12
  {
  }

  // With options the lengths in the two pseudo headers differ.

  lemma {:induction false} WrittenSum(data: Data, j: nat, value: nat, i: nat, offset: nat)
    requires j % 2 == 0 && i % 2 == 0 && j + 2 <= offset && offset % 2 == 0 && offset + 2 <= |data| && value < 0x1_0000
    ensures WordSum(Write16(data, j, value), i, offset) ==
      WordSum(data, i, offset) + if i <= j then value - Word(data, j) else 0
    decreases |data| - i
  {
    if i < |data| {
      WrittenSum(data, j, value, i + 2, offset);
    }
  }

  lemma FoldDiffers(sum: nat, k: nat)
    requires 0 < k <= 40
    ensures Fold(sum + k) != Fold(sum)
  {
    if sum > 0 {
      var q, r := (sum - 1) / 0xffff, (sum - 1) % 0xffff;
      assert sum + k - 1 == q * 0xffff + (r + k);
      if r + k < 0xffff {
        DivModUnique(sum + k - 1, 0xffff, q, r + k);
      } else {
        DivModUnique(sum + k - 1, 0xffff, q + 1, r + k - 0xffff);
      }
    }
  }

  lemma LengthAt(lead: Data, n: nat, m: nat, data: Data)
    requires |lead| == 10 && n < 0x1_0000 && m < 0x1_0000
    ensures lead + Be16(m) + data == Write16(lead + Be16(n) + data, 10, m)
    ensures Word(lead + Be16(n) + data, 10) == n
  {
    Be16Reads(n, lead, data);
  }

  lemma PseudoLength(source: Data, destination: Data, protocol: Byte, n: nat, m: nat, data: Data)
    requires |source| == 4 && |destination| == 4 && n < 0x1_0000 && m < 0x1_0000
    ensures var whole := Pseudo(source, destination, protocol, n) + data;
      && Pseudo(source, destination, protocol, m) + data == Write16(whole, 10, m)
      && Word(whole, 10) == n
  {
    LengthAt(source + destination + [0] + [protocol], n, m, data);
  }

  /** A wrong length in the pseudo header makes the checksum fail. */
  lemma WrongLengthFails(source: Data, destination: Data, n: nat, k: nat, data: Data)
    requires |source| == 4 && |destination| == 4 && 0 < k <= 40 && n + k < 0x1_0000
    requires TCP_HEADER_MIN_LENGTH <= |data| <= 65524
    ensures !Verifies(Pseudo(source, destination, 6, n + k), Sealed(Pseudo(source, destination, 6, n), data, 16), 16)
  {
    var pseudo := Pseudo(source, destination, 6, n);
    var wrong := Pseudo(source, destination, 6, n + k);
    var d := Sealed(pseudo, data, 16);
    PseudoShape(source, destination, 6, n);
    SealedVerifies(pseudo, data, 16);
    PseudoLength(source, destination, 6, n, n + k, d);
    WrittenSum(pseudo + d, 10, n + k, 0, 28);
    FoldDiffers(WordSum(pseudo + d, 0, 28), k);
    ChecksumIsComplement(pseudo + d, 28);
    ChecksumIsComplement(wrong + d, 28);
  }

  lemma TcpRoundTripIff(tcp: Tcp, source: Data, destination: Data)
    requires TcpWellFormed(tcp) && |source| == 4 && |destination| == 4
    requires IPV4_HEADER_LENGTH + TCP_HEADER_MIN_LENGTH + |tcp.options| + |tcp.payload| < 0x1_0000
    ensures var n := IPV4_HEADER_LENGTH + |tcp.payload|;
      var d := SerializeTcp(tcp, Pseudo(source, destination, 6, n));
      && |d| == n + |tcp.options|
      && ParseTcp(d, Pseudo(source, destination, 6, |d|)) == if tcp.options == [] then Some(tcp) else None
  {
    var n: nat := IPV4_HEADER_LENGTH + |tcp.payload|;
    PseudoShape(source, destination, 6, n);
    if tcp.options == [] {
      TcpRoundTrip(tcp, Pseudo(source, destination, 6, n));
    } else {
      WrongLengthFails(source, destination, n, |tcp.options|, TcpBlank(tcp));
    }
  }

  lemma UdpPayloadRoundTrip(udp: Udp, source: Data, destination: Data)
    requires UdpWellFormed(udp) && |source| == 4 && |destination| == 4
    ensures var pseudo := Pseudo(source, destination, 17, UDP_HEADER_LENGTH + |udp.payload|);
      ParseUdp(SerializeUdp(udp, pseudo), pseudo) == Some(udp)
  {
    PseudoShape(source, destination, 17, UDP_HEADER_LENGTH + |udp.payload|);
    UdpSerializedParses(udp, Pseudo(source, destination, 17, UDP_HEADER_LENGTH + |udp.payload|));
  }

  lemma PayloadRoundTrip(p: Packet)
    requires WellFormed(p) && Fits(p)
    ensures SerializePayload(p).Some?
    ensures ParsePayload(Protocol(p.payload), SerializePayload(p).value, p.sourceIP, p.destinationIP) ==
      if HasOptions(p.payload) then None else Some(p.payload)
  {
    var source, destination := Ipv4Text.Serialize(p.sourceIP).value, Ipv4Text.Serialize(p.destinationIP).value;
    match p.payload {
      case IcmpPayload(icmp) => Icmp.SerializedParses(icmp);
      case UdpPayload(udp) => UdpPayloadRoundTrip(udp, source, destination);
      case TcpPayload(tcp) => TcpRoundTripIff(tcp, source, destination);
    }
  }

  lemma LeadWraps(p: Packet, total: nat)
    ensures Lead(p, total) == Lead(p, total % 0x1_0000)
  {
    Be16Wraps(total);
  }

  /** A packet whose total length does not fit its field is refused for it. */
  lemma TooLongIsRefused(p: Packet)
    requires WellFormed(p) && !Fits(p)
    ensures Serialize(p).Some? && Parse(Serialize(p).value) == None
  {
    SerializedPayloadLength(p);
    var payload := SerializePayload(p).value;
    var source, destination := Ipv4Text.Serialize(p.sourceIP).value, Ipv4Text.Serialize(p.destinationIP).value;
    var total: nat := IPV4_HEADER_LENGTH + |payload|;
    SerializedIs(p, payload, source, destination);
    LeadWraps(p, total);
    LeadParses(p, total % 0x1_0000);
    HeaderVerifies(Lead(p, total), source, destination, payload);
    LeadReadsPrefix(Serialize(p).value, Lead(p, total), p, total % 0x1_0000);
  }

  /**
   A packet with well-formed fields passes every checksum and length test and is read back as it was,
   exactly unless it is too long for its length field or carries TCP options: then it is refused, in
   the latter case because the sender leaves the options out of the length in the pseudo header.
   */
  lemma RoundTripIff(p: Packet)
    requires WellFormed(p)
    ensures Serialize(p).Some?
    ensures Parse(Serialize(p).value) == if !Fits(p) || HasOptions(p.payload) then None else Some(p)
  {
    if Fits(p) {
      ParseReduces(p);
      PayloadRoundTrip(p);
    } else {
      TooLongIsRefused(p);
    }
  }

  /**
   It is only the sender that is wrong: a segment with options whose checksum covers its true length is
   accepted in a packet, and read back with its options.
   */
  lemma RightlySealedIsRead(p: Packet)
    requires WellFormed(p) && Fits(p) && p.payload.TcpPayload?
    ensures PseudoHeader(p.sourceIP, p.destinationIP, 6, PayloadLength(p.payload)).Some?
    ensures var pseudo := PseudoHeader(p.sourceIP, p.destinationIP, 6, PayloadLength(p.payload)).value;
      var d := Around(p, SerializeTcp(p.payload.tcp, pseudo));
      d.Some? && Parse(d.value) == Some(p)
  {
    var source, destination := Ipv4Text.Serialize(p.sourceIP).value, Ipv4Text.Serialize(p.destinationIP).value;
    var pseudo := Pseudo(source, destination, 6, PayloadLength(p.payload));
    SealedSegmentParses(p, source, destination, pseudo);
    AroundParses(p, source, destination, SerializeTcp(p.payload.tcp, pseudo));
  }

  lemma SealedSegmentParses(p: Packet, source: Data, destination: Data, pseudo: Data)
    requires WellFormed(p) && Fits(p) && p.payload.TcpPayload? && |source| == 4 && |destination| == 4
    requires Ipv4Text.Serialize(p.sourceIP) == Some(source) && Ipv4Text.Serialize(p.destinationIP) == Some(destination)
    requires pseudo == Pseudo(source, destination, 6, PayloadLength(p.payload))
    ensures var payload := SerializeTcp(p.payload.tcp, pseudo);
      |payload| == PayloadLength(p.payload) && ParsePayload(6, payload, p.sourceIP, p.destinationIP) == Some(p.payload)
  {
    PseudoShape(source, destination, 6, PayloadLength(p.payload));
    TcpRoundTrip(p.payload.tcp, pseudo);
  }

  lemma AroundParses(p: Packet, source: Data, destination: Data, payload: Data)
    requires WellFormed(p) && Fits(p) && |source| == 4 && |destination| == 4
    requires Ipv4Text.Serialize(p.sourceIP) == Some(source) && Ipv4Text.Serialize(p.destinationIP) == Some(destination)
    requires |payload| == PayloadLength(p.payload)
    ensures var inner := ParsePayload(Protocol(p.payload), payload, p.sourceIP, p.destinationIP);
      var d := Around(p, payload);
      d.Some? && Parse(d.value) == if inner.None? then None else Some(p.(payload := inner.value))
  {
    var total: nat := IPV4_HEADER_LENGTH + |payload|;
    LeadParses(p, total);
    ParseOfParts(p, Lead(p, total), source, destination, payload, Around(p, payload).value);
  }

  /** A SYN with a maximum segment size option, from and to any address. */
  function SynWithOption(b: Data): Packet
    requires |b| == 4
  {
    var ip := Ipv4Text.Print(b).value;
    var syn := Tcp(1024, 80, 0, 0, 24, 0, Flags(false, false, false, false, true, false), 65535, 0, [2, 4, 5, 180], []);
    Packet(4, 0, 0, 0, 0, 0, 64, ip, ip, TcpPayload(syn))
  }

  /** Such a segment is well-formed, and is refused by the receiver. */
  lemma OptionsAreRefused(b: Data)
    requires |b| == 4
    ensures var p := SynWithOption(b); WellFormed(p) && Serialize(p).Some? && Parse(Serialize(p).value) == None
  {
    var p := SynWithOption(b);
    Ipv4Text.RoundTrip(b);
    assert Ipv4Text.Canonical(p.sourceIP) && HasOptions(p.payload);
    RoundTripIff(p);
  }

  /** An echo request from and to any address, with a payload of zeros. */
  function EchoRequest(b: Data, n: nat): Packet
    requires |b| == 4
  {
    var ip := Ipv4Text.Print(b).value;
    Packet(4, 0, 0, 0, 0, 0, 64, ip, ip, IcmpPayload(Icmp.Message("echo-request", None, 0, 0, Zeros(n))))
  }

  /** It is well-formed, and is read back exactly up to a payload of 65507 bytes. */
  lemma LongEchoIsRefused(b: Data, n: nat)
    requires |b| == 4
    ensures var p := EchoRequest(b, n);
      && WellFormed(p) && Serialize(p).Some?
      && Parse(Serialize(p).value) == if n < 65508 then Some(p) else None
  {
    Ipv4Text.RoundTrip(b);
    assert Ipv4Text.Canonical(EchoRequest(b, n).sourceIP);
    RoundTripIff(EchoRequest(b, n));
  }

  // ---------------------------------------------------------------- the buffers

  method SerializeIPv4PseudoHeader(
    sourceIP: string, destinationIP: string, protocol: Byte, length: int) returns (r: Option<Data>)
    ensures r == PseudoHeader(sourceIP, destinationIP, protocol, length)
  {
    var source := Ipv4Text.Serialize(sourceIP);
    var destination := Ipv4Text.Serialize(destinationIP);
    if source.None? || destination.None? {
      return None;
    }
    AddressLength(sourceIP);
    AddressLength(destinationIP);
    var buffer := new Byte[12](_ => 0);
    ghost var done := source.value;
    Append(buffer, [], 0, source.value);
    assert [] + done == done;
    Append(buffer, done, 4, destination.value);
    done := done + destination.value;
    Append(buffer, done, 8, [0]);
    Append(buffer, done + [0], 9, [protocol]);
    Append(buffer, done + [0] + [protocol], 10, Be16(length));
    assert buffer[..] == Pseudo(source.value, destination.value, protocol, length);
    return Some(buffer[..]);
  }

  lemma AddressLength(ip: string)
    ensures Ipv4Text.Serialize(ip).Some? ==> |Ipv4Text.Serialize(ip).value| == 4
  {
  }

  method WritePayload(p: Packet) returns (r: Option<Data>)
    ensures r == SerializePayload(p)
  {
    match p.payload {
      case IcmpPayload(icmp) =>
        r := Icmp.SerializeIcmpMessage(icmp);
      case TcpPayload(tcp) =>
        var pseudo := SerializeIPv4PseudoHeader(p.sourceIP, p.destinationIP, 6, IPV4_HEADER_LENGTH + |tcp.payload|);
        if pseudo.None? {
          return None;
        }
        AddressLength(p.sourceIP);
        AddressLength(p.destinationIP);
        var buffer := SerializeTcpSegment(tcp, pseudo.value);
        r := Some(buffer[..]);
      case UdpPayload(udp) =>
        var pseudo := SerializeIPv4PseudoHeader(p.sourceIP, p.destinationIP, 17, UDP_HEADER_LENGTH + |udp.payload|);
        if pseudo.None? {
          return None;
        }
        AddressLength(p.sourceIP);
        AddressLength(p.destinationIP);
        var buffer := SerializeUdpDatagram(udp, pseudo.value);
        r := Some(buffer[..]);
    }
  }

  method WriteLead(p: Packet, data: array<Byte>, totalLength: int)
    requires Filled(data, []) && data.Length >= IPV4_HEADER_LENGTH
    modifies data
    ensures Filled(data, Lead(p, totalLength))
  {
    var b0, b1 := Low8(BitOr(Shl(p.version, 4), IPV4_HEADER_LENGTH / 4)), Low8(BitOr(Shl(p.dscp, 2), p.ecn));
    var b6, b7 := Low8(BitOr(Shl(p.flags, 5), Sar(p.fragmentOffset, 8))), Low8(BitAnd(p.fragmentOffset, 0xff));
    WriteLeadBytes(data, b0, b1, totalLength, p.identification, b6, b7, Low8(p.ttl), Protocol(p.payload));
  }

  method WriteLeadBytes(
    data: array<Byte>, b0: Byte, b1: Byte, totalLength: int, identification: int, b6: Byte, b7: Byte, b8: Byte,
    b9: Byte)
    requires Filled(data, []) && data.Length >= IPV4_HEADER_LENGTH
    modifies data
    ensures Filled(data, LeadOf(b0, b1, totalLength, identification, b6, b7, b8, b9))
  {
    Append(data, [], 0, [b0]);
    ghost var done := [b0];
    assert [] + [b0] == done;
    Append(data, done, 1, [b1]);
    done := done + [b1];
    Append(data, done, 2, Be16(totalLength));
    done := done + Be16(totalLength);
    Append(data, done, 4, Be16(identification));
    done := done + Be16(identification);
    Append(data, done, 6, [b6]);
    Append(data, done + [b6], 7, [b7]);
    Append(data, done + [b6] + [b7], 8, [b8]);
    Append(data, done + [b6] + [b7] + [b8], 9, [b9]);
    ZerosAreFilled(data, done + [b6] + [b7] + [b8] + [b9], 2);
    assert Zeros(2) == [0, 0];
  }

  /** The header is checked over its own bytes, and the payload put behind it. */
  method SealHeader(data: array<Byte>, ghost header: Data)
    requires data.Length >= IPV4_HEADER_LENGTH && |header| == IPV4_HEADER_LENGTH && data[..20] == header
    modifies data
    ensures data[..20] == SealedHeader(header)
  {
    ghost var rest := data[20..];
    assert data[..] == header + rest;
    var checksum := CalculateChecksum(data[..20], 10);
    WriteIs(header, 10, checksum);
    Put(data, 10, Be16(checksum));
    assert data[..] == header[..10] + Be16(checksum) + header[12..] + rest;
  }

  /** The buffer of `serializeIPv4Packet`. */
  method SerializeIPv4Packet(p: Packet) returns (r: Option<Data>)
    ensures r == Serialize(p)
  {
    var payload := WritePayload(p);
    var source := Ipv4Text.Serialize(p.sourceIP);
    var destination := Ipv4Text.Serialize(p.destinationIP);
    if payload.None? || source.None? || destination.None? {
      return None;
    }
    AddressLength(p.sourceIP);
    AddressLength(p.destinationIP);
    var data := FillPacket(p, payload.value, source.value, destination.value);
    return Some(data[..]);
  }

  method FillPacket(p: Packet, payload: Data, source: Data, destination: Data) returns (data: array<Byte>)
    requires |source| == 4 && |destination| == 4
    ensures fresh(data)
    ensures data[..] == SealedHeader(Lead(p, IPV4_HEADER_LENGTH + |payload|) + source + destination) + payload
  {
    data := new Byte[IPV4_HEADER_LENGTH + |payload|](_ => 0);
    WriteLead(p, data, data.Length);
    ghost var lead := Lead(p, data.Length);
    Append(data, lead, 12, source);
    Append(data, lead + source, 16, destination);
    ghost var header := lead + source + destination;
    SealHeader(data, header);
    Put(data, 20, payload);
  }
}
