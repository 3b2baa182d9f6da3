/** Exactly which bytes are accepted as segments, packets and frames, and what they are read as. */
module Accepted {
  // packages/wire/src

  import opened Options
  import opened Bits
  import opened Bytes
  import opened Checksum
  import opened Buffers
  import opened Transport
  import opened WireFormats
  import Ipv4Packets
  import Ipv4Text
  import Icmp
  import ArpMessages
  import MacAddresses
  import Ethernet
  import Reserialized

  // ---------------------------------------------------------------- checksums

  /** The checksum field of `d` holds one of the two zeros, where the other bytes alone give the other one. */
  predicate OtherZero(pseudo: Data, d: Data, offset: nat)
    requires offset + 2 <= |d|
  {
    Get16(d, offset) == 0xffff && Checksum.Checksum(pseudo + d, |pseudo| + offset) == 0
  }

  /**
   The test of the program is that of section 1 of RFC 1071, that everything adds up to minus zero, but for one
   case: where the checksum is zero, it refuses the other zero, 0xffff.
   */
  lemma VerifiesIff(pseudo: Data, d: Data, offset: nat)
    requires 0 < |pseudo| + offset && (|pseudo| + offset) % 2 == 0 && offset + 2 <= |d| && |pseudo| + |d| <= 65536
    ensures Verifies(pseudo, d, offset) <==> SumsUp(pseudo + d) && !OtherZero(pseudo, d, offset)
  {
    var whole, at := pseudo + d, |pseudo| + offset;
    assert Get16(whole, at) == Get16(d, offset);
    WrittenBack(whole, at);
    WrittenIsZeroIff(whole, at, Get16(d, offset));
    ChecksumIsComplement(whole, 0);
    FoldIsOnesSum(whole, 0, 0);
  }

  lemma WrittenBack(d: Data, at: nat)
    requires at + 2 <= |d|
    ensures Write16(d, at, Get16(d, at)) == d
  {
  }

  /** A datagram whose checksum is zero, and which is therefore sent with 0xffff (RFC 768), is refused. */
  lemma OtherZeroIsRefused(u: Udp, pseudo: Data)
    requires UdpWellFormed(u) && 0 < |pseudo| <= 65000 - |u.payload| && |pseudo| % 2 == 0
    requires Checksum.Checksum(pseudo + UdpBlank(u), |pseudo| + 6) == 0
    ensures var d := Write16(UdpBlank(u), 6, 0xffff); SumsUp(pseudo + d) && ParseUdp(d, pseudo) == None
  {
    var blank := UdpBlank(u);
    var d := Write16(blank, 6, 0xffff);
    WriteBehind(pseudo, blank, 6, 0xffff);
    WrittenIsZeroIff(pseudo + blank, |pseudo| + 6, 0xffff);
    ZeroChecksumSumsUp(pseudo + d);
    WriteReads(pseudo + blank, |pseudo| + 6, 0xffff);
    WriteReads(blank, 6, 0xffff);
  }

  /** There are such datagrams: an empty one from port 65502 to port 0, from and to 0.0.0.0. */
  lemma ZeroChecksumDatagram() returns (u: Udp, pseudo: Data)
    ensures UdpWellFormed(u) && pseudo == Ipv4Packets.Pseudo([0, 0, 0, 0], [0, 0, 0, 0], 17, 8)
    ensures |pseudo| == 12 && u.payload == [] && Checksum.Checksum(pseudo + UdpBlank(u), 18) == 0
  {
    u, pseudo := Udp(65502, 0, []), Ipv4Packets.Pseudo([0, 0, 0, 0], [0, 0, 0, 0], 17, 8);
    assert pseudo == [0, 0, 0, 0, 0, 0, 0, 0, 0, 17, 0, 8];
    assert UdpBlank(u) == [255, 222, 0, 0, 0, 8, 0, 0];
    ZeroChecksumSum(pseudo + UdpBlank(u));
    ChecksumIsComplement(pseudo + UdpBlank(u), 18);
  }

  lemma ZeroChecksumSum(d: Data)
    requires d == [0, 0, 0, 0, 0, 0, 0, 0, 0, 17, 0, 8] + [255, 222, 0, 0, 0, 8, 0, 0]
    ensures WordSum(d, 0, 18) == 0xffff
  {
    assert WordSum(d, 18, 18) == WordSum(d, 20, 18) == 0;
    assert WordSum(d, 16, 18) == 8 && WordSum(d, 14, 18) == 8 && WordSum(d, 12, 18) == 65510;
    assert WordSum(d, 10, 18) == 65518 && WordSum(d, 8, 18) == 0xffff && WordSum(d, 6, 18) == 0xffff;
    assert WordSum(d, 4, 18) == 0xffff && WordSum(d, 2, 18) == 0xffff;
  }

  // ---------------------------------------------------------------- TCP

  /** What the fields of an accepted segment are, in terms of its bytes; a header that is too long takes all of them. */
  ghost predicate SegmentReads(d: Data, s: Tcp)
    requires |d| >= 20
  {
    var end := d[12] / 16 * 4;
    && s.dataOffset == end >= 20
    && Number16(d, 0, s.sourcePort) && Number16(d, 2, s.destinationPort)
    && Number32(d, 4, s.sequenceNumber) && Number32(d, 8, s.acknowledgmentNumber)
    && s.reserved == d[12] / 2 % 8
    && Bit(s.flags.urg) == d[13] / 32 % 2 && Bit(s.flags.ack) == d[13] / 16 % 2 && Bit(s.flags.psh) == d[13] / 8 % 2
    && Bit(s.flags.rst) == d[13] / 4 % 2 && Bit(s.flags.syn) == d[13] / 2 % 2 && Bit(s.flags.fin) == d[13] % 2
    && Number16(d, 14, s.windowSize) && Number16(d, 18, s.urgentPointer)
    && (if end <= |d| then s.options == d[20..end] && s.payload == d[end..]
        else s.options == d[20..] && s.payload == [])
  }

  /**
   A segment is accepted exactly if it has 20 bytes, its checksum is right and it claims at least 20 bytes of
   header; nothing keeps the header from being longer than the segment.
   */
  lemma SegmentAcceptedIff(d: Data, pseudo: Data)
    ensures ParseTcp(d, pseudo).Some? <==> |d| >= 20 && Verifies(pseudo, d, 16) && d[12] / 16 >= 5
    ensures ParseTcp(d, pseudo).Some? ==> |d| >= 20 && SegmentReads(d, ParseTcp(d, pseudo).value)
  {
    if |d| >= 20 {
      Reserialized.OffsetBits(d[12]);
      if ParseTcp(d, pseudo).Some? {
        FlagBits(d[13]);
        NumbersRead(d, pseudo);
        PartsRead(d, pseudo);
      }
    }
  }

  lemma FlagBits(b: Byte)
    ensures var f := ParseFlags(b);
      && Bit(f.urg) == b / 32 % 2 && Bit(f.ack) == b / 16 % 2 && Bit(f.psh) == b / 8 % 2
      && Bit(f.rst) == b / 4 % 2 && Bit(f.syn) == b / 2 % 2 && Bit(f.fin) == b % 2
  {
    SmallPowers(0);
    SmallPowers(1);
    SmallPowers(2);
    SmallPowers(3);
    SmallPowers(4);
    assert Pow2(5) == 32 by {
      PowersUsed();
    }
    Reserialized.FlagAt(b, 5, 0x20);
    Reserialized.FlagAt(b, 4, 0x10);
    Reserialized.FlagAt(b, 3, 0x08);
    Reserialized.FlagAt(b, 2, 0x04);
    Reserialized.FlagAt(b, 1, 0x02);
    Reserialized.FlagAt(b, 0, 0x01);
  }

  lemma NumbersRead(d: Data, pseudo: Data)
    requires ParseTcp(d, pseudo).Some?
    ensures var s := ParseTcp(d, pseudo).value;
      && |d| >= 20 && Number16(d, 0, s.sourcePort) && Number16(d, 2, s.destinationPort)
      && Number32(d, 4, s.sequenceNumber) && Number32(d, 8, s.acknowledgmentNumber)
      && Number16(d, 14, s.windowSize) && Number16(d, 18, s.urgentPointer)
  {
    GetsAre(d, 0);
    GetsAre(d, 2);
    GetsAre(d, 4);
    GetsAre(d, 8);
    GetsAre(d, 14);
    GetsAre(d, 18);
  }

  lemma PartsRead(d: Data, pseudo: Data)
    requires ParseTcp(d, pseudo).Some? && Sar(d[12], 4) == d[12] / 16
    ensures var s, end := ParseTcp(d, pseudo).value, d[12] / 16 * 4;
      if end <= |d| then s.options == d[20..end] && s.payload == d[end..] else s.options == d[20..] && s.payload == []
  {
  }

  // ---------------------------------------------------------------- IPv4

  /** The data behind a header of the length that its first byte gives. */
  function Behind(d: Data): Data
    requires d != []
  {
    var n: nat := d[0] % 16 * 4;
    if n <= |d| then d[n..] else []
  }

  ghost predicate PayloadAccepted(d: Data)
    requires |d| >= 20
  {
    var rest := Behind(d);
    || (d[9] == 1 && Icmp.Parse(rest).Some?)
    || (d[9] == 6 && ParseTcp(rest, Ipv4Packets.Pseudo(d[12..16], d[16..20], 6, |rest|)).Some?)
    || (d[9] == 17 && ParseUdp(rest, Ipv4Packets.Pseudo(d[12..16], d[16..20], 17, |rest|)).Some?)
  }

  ghost predicate PacketReads(d: Data, p: Ipv4Packets.Packet) {
    && |d| >= 20
    && p.version == d[0] / 16 && p.dscp == d[1] / 4 && p.ecn == d[1] % 4 && Number16(d, 4, p.identification)
    && p.flags == d[6] / 32 && p.fragmentOffset == 256 * (d[6] % 32) + d[7] as int && p.ttl == d[8]
    && Some(p.sourceIP) == Ipv4Text.Print(d[12..16]) && Some(p.destinationIP) == Ipv4Text.Print(d[16..20])
    && (match p.payload
        case IcmpPayload(icmp) => d[9] == 1 && Icmp.Parse(Behind(d)) == Some(icmp)
        case TcpPayload(tcp) =>
          d[9] == 6 && ParseTcp(Behind(d), Ipv4Packets.Pseudo(d[12..16], d[16..20], 6, |Behind(d)|)) == Some(tcp)
        case UdpPayload(udp) =>
          d[9] == 17 && ParseUdp(Behind(d), Ipv4Packets.Pseudo(d[12..16], d[16..20], 17, |Behind(d)|)) == Some(udp))
  }

  /**
   A packet is accepted exactly if it has 20 bytes, the checksum of the first 20 is right, its length field is
   its length, and the data behind its header are an accepted message, segment or datagram under the pseudo
   header of its addresses. Neither the version nor the length of the header is tested.
   */
  lemma PacketAcceptedIff(d: Data)
    ensures Ipv4Packets.Parse(d).Some? <==>
      && |d| >= 20 && Checksum.Checksum(d[..20], 10) == Get16(d, 10) && Number16(d, 2, |d|) && PayloadAccepted(d)
    ensures Ipv4Packets.Parse(d).Some? ==> PacketReads(d, Ipv4Packets.Parse(d).value)
  {
    if |d| >= 20 {
      var sourceIP, destinationIP := Ipv4Text.Print(d[12..16]).value, Ipv4Text.Print(d[16..20]).value;
      NibblesAreBits(d[0]);
      GetsAre(d, 2);
      PayloadReads(d, sourceIP, destinationIP);
      HeaderLengthIs(d);
      if Ipv4Packets.Parse(d).Some? {
        GetsAre(d, 4);
        FieldBits(d);
      }
    }
  }

  lemma HeaderLengthIs(d: Data)
    requires |d| >= 20 && BitAnd(d[0], 0xf) == d[0] % 16
    ensures BitAnd(d[0], 0xf) * 4 >= 0 && From(d, BitAnd(d[0], 0xf) * 4) == Behind(d)
  {
  }

  lemma FieldBits(d: Data)
    requires |d| >= 20
    ensures Sar(d[0], 4) == d[0] / 16 && Sar(d[1], 2) == d[1] / 4 && BitAnd(d[1], 0x3) == d[1] % 4
    ensures Sar(d[6], 5) == d[6] / 32 && BitOr(Shl(BitAnd(d[6], 0x1f), 8), d[7]) == 256 * (d[6] % 32) + d[7] as int
  {
    NibblesAreBits(d[0]);
    ServiceBits(d[1]);
    FragmentBits(d[6], d[7]);
  }

  lemma ServiceBits(b: Byte)
    ensures Sar(b, 2) == b / 4 && BitAnd(b, 0x3) == b % 4
  {
    assert Pow2(2) == 4 by {
      PowersUsed();
    }
    PackedApart(b / 4, b % 4, 2, b);
  }

  lemma FragmentBits(high: Byte, low: Byte)
    ensures Sar(high, 5) == high / 32 && BitOr(Shl(BitAnd(high, 0x1f), 8), low) == 256 * (high % 32) + low as int
  {
    assert Pow2(5) == 32 by {
      PowersUsed();
    }
    PackedApart(high / 32, high % 32, 5, high);
    WordIsOr(high % 32, low);
  }

  /** The pseudo header is made of the addresses in the header. */
  lemma PayloadReads(d: Data, sourceIP: string, destinationIP: string)
    requires |d| >= 20
    requires Ipv4Text.Print(d[12..16]) == Some(sourceIP) && Ipv4Text.Print(d[16..20]) == Some(destinationIP)
    ensures Ipv4Packets.ParsePayload(d[9], Behind(d), sourceIP, destinationIP).Some? <==> PayloadAccepted(d)
    ensures var inner := Ipv4Packets.ParsePayload(d[9], Behind(d), sourceIP, destinationIP);
      inner.Some? ==> match inner.value
        case IcmpPayload(icmp) => d[9] == 1 && Icmp.Parse(Behind(d)) == Some(icmp)
        case TcpPayload(tcp) =>
          d[9] == 6 && ParseTcp(Behind(d), Ipv4Packets.Pseudo(d[12..16], d[16..20], 6, |Behind(d)|)) == Some(tcp)
        case UdpPayload(udp) =>
          d[9] == 17 && ParseUdp(Behind(d), Ipv4Packets.Pseudo(d[12..16], d[16..20], 17, |Behind(d)|)) == Some(udp)
  {
    Ipv4Text.RoundTrip(d[12..16]);
    Ipv4Text.RoundTrip(d[16..20]);
  }

  lemma {:induction false} SumInTwo(a: Data, b: Data, i: nat)
    requires |a| % 2 == 0 && i % 2 == 0 && i <= |a|
    ensures WordSum(a + b, i, 0) == WordSum(a, i, 0) + WordSum(b, 0, 0)
    decreases |a| - i
  {
    if i < |a| {
      SumInTwo(a, b, i + 2);
    } else {
      SumBehind(a, b, 0);
    }
  }

  lemma {:induction false} SumBehind(a: Data, b: Data, i: nat)
    requires |a| % 2 == 0 && i % 2 == 0
    ensures WordSum(a + b, |a| + i, 0) == WordSum(b, i, 0)
    decreases |b| - i
  {
    if i < |b| {
      SumBehind(a, b, i + 2);
    }
  }

  lemma SumPositive(d: Data)
    requires d != [] && d[0] > 0
    ensures WordSum(d, 0, 0) > 0
  {
  }

  lemma ResiduesAdd(a: nat, b: nat)
    requires (a + b) % 0xffff == 0
    ensures a % 0xffff == 0 <==> b % 0xffff == 0
  {
    var p, q := a % 0xffff, b % 0xffff;
    var k := a / 0xffff + b / 0xffff;
    assert a + b == k * 0xffff + (p + q);
    if p + q < 0xffff {
      DivModUnique(a + b, 0xffff, k, p + q);
    } else {
      DivModUnique(a + b, 0xffff, k + 1, p + q - 0xffff);
    }
  }

  /**
   A header with options, rightly checksummed over all of its bytes, passes the test, which covers 20 of them,
   exactly if the options add up to zero and the checksum field does not hold the other zero.
   */
  lemma HeaderOptionsIff(first: Data, options: Data)
    requires |first| == 20 && first[0] > 0 && |options| <= 40 && SumsUp(first + options)
    ensures Checksum.Checksum(first, 10) == Get16(first, 10) <==>
      OnesSum(options, 0, 0) in {0, 0xffff} && !OtherZero([], first, 10)
  {
    var a, b := WordSum(first, 0, 0), WordSum(options, 0, 0);
    assert [] + first == first;
    VerifiesIff([], first, 10);
    FoldIsOnesSum(first, 0, 0);
    FoldIsOnesSum(options, 0, 0);
    FoldIsOnesSum(first + options, 0, 0);
    SumInTwo(first, options, 0);
    SumPositive(first);
    FoldResidue(a);
    FoldResidue(b);
    FoldResidue(a + b);
    ResiduesAdd(a, b);
  }

  // ---------------------------------------------------------------- Ethernet

  /** A frame is accepted exactly if it has 14 bytes and behind them a packet or an ARP message, as its type says. */
  lemma FrameAcceptedIff(d: Data)
    ensures Ethernet.Parse(d).Some? <==>
      && |d| >= 14
      && (|| (d[12] == 8 && d[13] == 0 && Ipv4Packets.Parse(d[14..]).Some?)
          || (d[12] == 8 && d[13] == 6 && ArpMessages.Parse(d[14..]).Some?))
    ensures Ethernet.Parse(d).Some? ==> (
      var f := Ethernet.Parse(d).value;
      && MacAddresses.MacText(d[..6]) == Some(f.destinationMac) && MacAddresses.MacText(d[6..12]) == Some(f.sourceMac)
      && (match f.payload
          case Ipv4(packet) => d[13] == 0 && Ipv4Packets.Parse(d[14..]) == Some(packet)
          case Arp(message) => d[13] == 6 && ArpMessages.Parse(d[14..]) == Some(message)))
  {
    if |d| >= 14 {
      var hi: nat, lo: nat := d[12], d[13];
      TypeBytes(hi, lo, Get16(d, 12));
      FrameOfType(d, Get16(d, 12));
    }
  }

  lemma FrameOfType(d: Data, t: nat)
    requires |d| >= 14 && t == Get16(d, 12)
    ensures Ethernet.Parse(d).Some? <==>
      (t == 0x0800 && Ipv4Packets.Parse(d[14..]).Some?) || (t == 0x0806 && ArpMessages.Parse(d[14..]).Some?)
    ensures Ethernet.Parse(d).Some? ==> (
      var f := Ethernet.Parse(d).value;
      && MacAddresses.MacText(d[..6]) == Some(f.destinationMac) && MacAddresses.MacText(d[6..12]) == Some(f.sourceMac)
      && (match f.payload
          case Ipv4(packet) => t == 0x0800 && Ipv4Packets.Parse(d[14..]) == Some(packet)
          case Arp(message) => t == 0x0806 && ArpMessages.Parse(d[14..]) == Some(message)))
  {
  }

  lemma TypeBytes(hi: nat, lo: nat, t: nat)
    requires hi < 256 && lo < 256 && t == 256 * hi + lo
    ensures t == 0x0800 <==> hi == 8 && lo == 0
    ensures t == 0x0806 <==> hi == 8 && lo == 6
  {
  }
}
