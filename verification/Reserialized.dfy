/** Packets that were parsed, written again. */
module Reserialized {
  // Which byte strings accepted by the parsers of packages/wire/src/tcp.ts, packages/wire/src/ipv4.ts and
  // packages/wire/src/ethernet.ts are written again as they were, and some that are not.

  import opened Options
  import opened Bits
  import opened Bytes
  import opened Checksum
  import opened Buffers
  import opened Transport
  import opened Ipv4Packets
  import opened MacAddresses
  import Ethernet
  import ArpMessages

  // ---------------------------------------------------------------- TCP

  /** The bits that the parser ignores are clear, and the header ends within the data. */
  predicate Plain(d: Data) {
    |d| >= TCP_HEADER_MIN_LENGTH && d[12] % 2 == 0 && d[13] < 0x40 && d[12] / 16 * 4 <= |d|
  }

  lemma OffsetBits(b: Byte)
    ensures Sar(b, 4) == b / 16 && ReservedBits(b) == b / 2 % 8
  {
    assert Pow2(4) == 16 && Pow2(1) == 2 by {
      PowersUsed();
    }
    var low: nat := b / 2 % 8;
    EvenMask(b);
    SmallAnd(b, 0x0e, 2 * low);
  }

  lemma Halved(b: Byte)
    ensures b / 2 == 8 * (b / 16) + b / 2 % 8
  {
    DivModUnique(b, 16, b / 16, b % 16);
  }

  /** The byte is written again exactly without its lowest bit. */
  lemma OffsetByteWrites(b: Byte)
    ensures OffsetByte(b / 16 * 4, ReservedBits(b)) == b / 2 * 2
  {
    var q: nat, r: nat := b / 16, b / 2 % 8;
    OffsetBits(b);
    Halved(b);
    assert 4 * q / 4 == q;
    OffsetByteValue(q, r);
  }

  lemma FlagAt(b: Byte, k: nat, p: nat)
    requires k <= 5 && p == Pow2(k)
    ensures Bit(BitAnd(b, p) != 0) == b / p % 2
  {
    BitSet(b, k, p);
  }

  lemma SixBits(b: nat)
    requires b < 64
    ensures b == 32 * (b / 32 % 2) + 16 * (b / 16 % 2) + 8 * (b / 8 % 2) + 4 * (b / 4 % 2) + 2 * (b / 2 % 2) + b / 1 % 2
  {
    NextBit(b, 1, 2);
    NextBit(b, 2, 4);
    NextBit(b, 4, 8);
    NextBit(b, 8, 16);
    NextBit(b, 16, 32);
  }

  lemma NextBit(b: nat, p: nat, next: nat)
    requires p > 0 && next == 2 * p
    ensures b / p == 2 * (b / next) + b / p % 2
  {
    var q: nat := b / p;
    var high: nat, bit: nat, low: nat := q / 2, q % 2, b % p;
    assert b == (2 * high + bit) * p + low;
    assert (2 * high + bit) * p == high * next + bit * p;
    DivModUnique(b, next, high, bit * p + low);
  }

  lemma FlagsByteWrites(b: Byte)
    requires b < 0x40
    ensures FlagsByte(ParseFlags(b)) == b
  {
    assert Pow2(0) == 1 && Pow2(1) == 2 && Pow2(2) == 4 && Pow2(3) == 8 && Pow2(4) == 16 && Pow2(5) == 32 by {
      PowersUsed();
    }
    FlagAt(b, 5, 0x20);
    FlagAt(b, 4, 0x10);
    FlagAt(b, 3, 0x08);
    FlagAt(b, 2, 0x04);
    FlagAt(b, 1, 0x02);
    FlagAt(b, 0, 0x01);
    FlagsValue(ParseFlags(b));
    SixBits(b);
  }

  /** The fields of a segment that was parsed, in terms of its bytes. */
  lemma ParsedFields(d: Data, pseudo: Data)
    requires ParseTcp(d, pseudo).Some?
    ensures var s := ParseTcp(d, pseudo).value;
      && s.dataOffset == d[12] / 16 * 4 && s.dataOffset >= TCP_HEADER_MIN_LENGTH && 0 <= s.reserved < 8
      && |s.options| <= s.dataOffset - TCP_HEADER_MIN_LENGTH
      && (s.dataOffset <= |d| ==> s.options == d[20..s.dataOffset] && s.payload == d[s.dataOffset..])
      && (s.dataOffset > |d| ==> TCP_HEADER_MIN_LENGTH + |s.options| < s.dataOffset)
  {
    OffsetBits(d[12]);
  }

  lemma HeadWrites(s: Tcp, d: Data)
    requires |d| >= TCP_HEADER_MIN_LENGTH
    requires s.sourcePort == Get16(d, 0) && s.destinationPort == Get16(d, 2)
    requires s.sequenceNumber == Get32(d, 4) && s.acknowledgmentNumber == Get32(d, 8)
    ensures TcpHead(s) == d[..12]
  {
    Be16Writes(d, 0);
    Be16Writes(d, 2);
    Be32Writes(d, 4);
    Be32Writes(d, 8);
    assert d[..12] == d[0..2] + d[2..4] + d[4..8] + d[8..12];
  }

  lemma MiddleWrites(d: Data, x: Byte, y: Byte)
    requires |d| >= TCP_HEADER_MIN_LENGTH && x == d[12] && y == d[13]
    ensures Middle(x, y, Get16(d, 14), Get16(d, 18)) == d[12..16] + [0, 0] + d[18..20]
  {
    Be16Writes(d, 14);
    Be16Writes(d, 18);
    assert Be16(0) == [0, 0];
    assert d[12..16] == [x] + [y] + d[14..16];
  }

  /** The fields of a segment are those that stand in the bytes. */
  ghost predicate FieldsOf(s: Tcp, d: Data) {
    && |d| >= TCP_HEADER_MIN_LENGTH
    && s.sourcePort == Get16(d, 0) && s.destinationPort == Get16(d, 2)
    && s.sequenceNumber == Get32(d, 4) && s.acknowledgmentNumber == Get32(d, 8)
    && s.reserved == ReservedBits(d[12]) && s.flags == ParseFlags(d[13])
    && s.windowSize == Get16(d, 14) && s.urgentPointer == Get16(d, 18)
  }

  lemma ParsedIsOf(d: Data, pseudo: Data)
    requires ParseTcp(d, pseudo).Some?
    ensures FieldsOf(ParseTcp(d, pseudo).value, d)
  {
  }

  lemma MiddleOf(s: Tcp, d: Data)
    requires FieldsOf(s, d) && Plain(d) && s.dataOffset == d[12] / 16 * 4 == TCP_HEADER_MIN_LENGTH + |s.options|
    ensures d[12] == OffsetByte(s.dataOffset, s.reserved) && d[13] == FlagsByte(s.flags)
  {
    OffsetByteWrites(d[12]);
    FlagsByteWrites(d[13]);
  }

  lemma BlankOf(s: Tcp, d: Data)
    requires FieldsOf(s, d) && Plain(d) && s.dataOffset == d[12] / 16 * 4 == TCP_HEADER_MIN_LENGTH + |s.options|
    requires s.options == d[20..s.dataOffset] && s.payload == d[s.dataOffset..]
    ensures TcpBlank(s) == Write16(d, 16, 0)
  {
    MiddleOf(s, d);
    BlankIs(s, d[12], d[13]);
    HeadWrites(s, d);
    MiddleWrites(d, d[12], d[13]);
    BlankParts(d, s.dataOffset);
  }

  lemma TcpBlankWrites(d: Data, pseudo: Data)
    requires ParseTcp(d, pseudo).Some? && Plain(d)
    ensures var s := ParseTcp(d, pseudo).value; TcpWellFormed(s) && TcpBlank(s) == Write16(d, 16, 0)
  {
    ParsedFields(d, pseudo);
    ParsedIsOf(d, pseudo);
    FieldsFit(ParseTcp(d, pseudo).value, d);
    BlankOf(ParseTcp(d, pseudo).value, d);
  }

  lemma FieldsFit(s: Tcp, d: Data)
    requires FieldsOf(s, d) && 0 <= s.reserved < 8
    requires s.dataOffset == d[12] / 16 * 4 == TCP_HEADER_MIN_LENGTH + |s.options|
    ensures TcpWellFormed(s)
  {
  }

  lemma BlankParts(d: Data, offset: nat)
    requires TCP_HEADER_MIN_LENGTH <= offset <= |d|
    ensures Write16(d, 16, 0) == d[..12] + (d[12..16] + [0, 0] + d[18..20]) + d[20..offset] + d[offset..]
  {
    assert d[12..16] + [0, 0] + d[18..20] + d[20..offset] + d[offset..] == d[12..16] + [0, 0] + d[18..];
  }

  lemma BlankBytes(s: Tcp)
    ensures var d := TcpBlank(s);
      && d[12] == Low8(OffsetByte(TCP_HEADER_MIN_LENGTH + |s.options|, s.reserved)) && d[13] == Low8(FlagsByte(s.flags))
  {
    var x, y := Low8(OffsetByte(TCP_HEADER_MIN_LENGTH + |s.options|, s.reserved)), Low8(FlagsByte(s.flags));
    var middle := Middle(x, y, s.windowSize, s.urgentPointer);
    assert middle[0] == x && middle[1] == y;
    Parts(TcpHead(s), middle, s.options, s.payload);
    assert TcpBlank(s)[12] == TcpBlank(s)[12..20][0] && TcpBlank(s)[13] == TcpBlank(s)[12..20][1];
  }

  /** An offset byte without its lowest bit, for a header of this length. */
  lemma EvenOffset(b: Byte, headerLength: nat, reserved: int)
    requires 0 <= reserved < 8 && headerLength < 64 && b == Low8(OffsetByte(headerLength, reserved))
    ensures b % 2 == 0 && b / 16 * 4 <= headerLength
  {
    OffsetByteValue(headerLength / 4, reserved);
    EvenByte(b, headerLength / 4, reserved);
  }

  lemma EvenByte(b: nat, q: nat, r: nat)
    requires b == 16 * q + 2 * r && r < 8
    ensures b % 2 == 0 && b / 16 == q
  {
    DivModUnique(b, 16, q, 2 * r);
    DivModUnique(b, 2, 8 * q + r, 0);
  }

  lemma SealedBytes(d: Data, pseudo: Data, blank: Data)
    requires |blank| >= TCP_HEADER_MIN_LENGTH && d == Sealed(pseudo, blank, 16)
    ensures d[12] == blank[12] && d[13] == blank[13]
  {
  }

  lemma WrittenIsPlain(s: Tcp, other: Data)
    requires 0 <= s.reserved < 8 && |s.options| <= 40
    ensures Plain(SerializeTcp(s, other))
  {
    var d := SerializeTcp(s, other);
    BlankBytes(s);
    SealedBytes(d, other, TcpBlank(s));
    EvenOffset(d[12], TCP_HEADER_MIN_LENGTH + |s.options|, s.reserved);
    SixFlags(s.flags);
  }

  lemma SixFlags(f: Flags)
    ensures Low8(FlagsByte(f)) < 0x40
  {
    FlagsParse(f);
    LowIs(FlagsByte(f), FlagsByte(f));
  }

  /** Whatever the pseudo header, only plain bytes are written again as they were. */
  lemma OnlyPlainIsWritten(d: Data, pseudo: Data, other: Data)
    requires ParseTcp(d, pseudo).Some? && SerializeTcp(ParseTcp(d, pseudo).value, other) == d
    ensures Plain(d)
  {
    ParsedFields(d, pseudo);
    WrittenIsPlain(ParseTcp(d, pseudo).value, other);
  }

  lemma PlainIsWritten(d: Data, pseudo: Data)
    requires |pseudo| > 0 && |pseudo| % 2 == 0 && ParseTcp(d, pseudo).Some? && Plain(d)
    ensures SerializeTcp(ParseTcp(d, pseudo).value, pseudo) == d
  {
    TcpBlankWrites(d, pseudo);
    ParsedVerifies(d, pseudo);
    VerifiedIsSealed(pseudo, d, 16);
    SealedAnew(pseudo, d);
  }

  lemma ParsedVerifies(d: Data, pseudo: Data)
    requires ParseTcp(d, pseudo).Some?
    ensures |d| >= TCP_HEADER_MIN_LENGTH && Verifies(pseudo, d, 16)
  {
  }

  lemma SealedAnew(pseudo: Data, d: Data)
    requires |d| >= TCP_HEADER_MIN_LENGTH && Sealed(pseudo, Write16(d, 16, 0), 16) == d
    ensures forall s: Tcp :: TcpBlank(s) == Write16(d, 16, 0) ==> SerializeTcp(s, pseudo) == d
  {
  }

  /** A parsed segment is written again as it was, under its own pseudo header, exactly if its bytes are plain. */
  lemma TcpParsedSerializesIff(d: Data, pseudo: Data)
    requires |pseudo| > 0 && |pseudo| % 2 == 0 && ParseTcp(d, pseudo).Some?
    ensures SerializeTcp(ParseTcp(d, pseudo).value, pseudo) == d <==> Plain(d)
  {
    if Plain(d) {
      PlainIsWritten(d, pseudo);
    }
    if SerializeTcp(ParseTcp(d, pseudo).value, pseudo) == d {
      OnlyPlainIsWritten(d, pseudo, pseudo);
    }
  }

  const Syn := Tcp(1024, 80, 0, 0, 20, 0, Flags(false, false, false, false, true, false), 65535, 0, [], [])

  /** A SYN that asks for explicit congestion notification: the bits above the six flags are set. */
  function EcnSyn(pseudo: Data): (d: Data)
    ensures |d| == TCP_HEADER_MIN_LENGTH
  {
    Sealed(pseudo, TcpLayout(Syn, 0x50, 0xc2), 16)
  }

  lemma EcnFlags()
    ensures ParseFlags(0xc2) == Syn.flags
  {
    PowersUsed();
    SmallPowers(0);
    BitAt(3, 0, 2, 0x20, 5, 0xc2);
    BitAt(6, 0, 2, 0x10, 4, 0xc2);
    BitAt(12, 0, 2, 0x08, 3, 0xc2);
    BitAt(24, 0, 2, 0x04, 2, 0xc2);
    BitAt(48, 1, 0, 0x02, 1, 0xc2);
    BitAt(97, 0, 0, 0x01, 0, 0xc2);
  }

  lemma EcnSynParses(pseudo: Data)
    requires |pseudo| > 0 && |pseudo| % 2 == 0
    ensures ParseTcp(EcnSyn(pseudo), pseudo) == Some(Syn) && EcnSyn(pseudo)[13] == 0xc2
  {
    var blank := TcpLayout(Syn, 0x50, 0xc2);
    LayoutFields(Syn, 0x50, 0xc2, blank);
    OffsetBits(0x50);
    EcnFlags();
    SealedParses(Syn, 0x50, 0xc2, blank, pseudo);
    SealedBytes(EcnSyn(pseudo), pseudo, blank);
  }

  /** Under any pseudo header such a segment is accepted, and written again without these bits. */
  lemma EcnIsLost(pseudo: Data)
    requires |pseudo| > 0 && |pseudo| % 2 == 0
    ensures ParseTcp(EcnSyn(pseudo), pseudo) == Some(Syn) && SerializeTcp(Syn, pseudo) != EcnSyn(pseudo)
  {
    EcnSynParses(pseudo);
    TcpParsedSerializesIff(EcnSyn(pseudo), pseudo);
  }

  // ---------------------------------------------------------------- IPv4

  /** The header has no options, and the bits of a TCP payload that the parser ignores, or cannot write, are clear. */
  predicate Regular(d: Data) {
    && |d| >= IPV4_HEADER_LENGTH && d[0] % 16 == 5
    && (d[9] == 6 ==> |d| >= 40 && d[32] / 16 == 5 && d[32] % 2 == 0 && d[33] < 0x40)
  }

  /** The fields of a packet that was parsed. */
  ghost predicate LeadParsed(p: Packet, d: Data) {
    && |d| >= IPV4_HEADER_LENGTH && Get16(d, 2) == |d|
    && Checksum.Checksum(d[..20], 10) == Get16(d, 10)
    && p.version == Sar(d[0], 4) && p.dscp == Sar(d[1], 2) && p.ecn == BitAnd(d[1], 0x3)
    && p.identification == Get16(d, 4) && p.flags == Sar(d[6], 5)
    && p.fragmentOffset == BitOr(Shl(BitAnd(d[6], 0x1f), 8), d[7]) && p.ttl == d[8]
    && Some(p.sourceIP) == Ipv4Text.Print(d[12..16]) && Some(p.destinationIP) == Ipv4Text.Print(d[16..20])
  }

  lemma ParsedLead(d: Data)
    requires Ipv4Packets.Parse(d).Some?
    ensures LeadParsed(Ipv4Packets.Parse(d).value, d) && Protocol(Ipv4Packets.Parse(d).value.payload) == d[9]
  {
  }

  lemma ServiceWrites(b: Byte)
    ensures BitOr(Shl(Sar(b, 2), 2), BitAnd(b, 0x3)) == b
  {
    assert Pow2(2) == 4 by {
      PowersUsed();
    }
    PackedApart(b / 4, b % 4, 2, b);
    PackedOr(b / 4, b % 4, 2, b / 4 * 4);
  }

  lemma FragmentWrites(b6: Byte, b7: Byte)
    ensures var offset := BitOr(Shl(BitAnd(b6, 0x1f), 8), b7);
      BitOr(Shl(Sar(b6, 5), 5), Sar(offset, 8)) == b6 && BitAnd(offset, 0xff) == b7
  {
    assert Pow2(5) == 32 by {
      PowersUsed();
    }
    var high: nat := b6 % 32;
    PackedApart(b6 / 32, high, 5, b6);
    WordIsOr(high, b7);
    var offset: nat := 256 * high + b7;
    OffsetBytes(offset);
    DivModUnique(offset, 0x100, high, b7);
    PackedOr(b6 / 32, high, 5, b6 / 32 * 32);
  }

  lemma LeadWrites(p: Packet, d: Data)
    requires LeadParsed(p, d) && d[0] % 16 == 5 && Protocol(p.payload) == d[9]
    ensures Lead(p, |d|) == d[..10] + [0, 0]
  {
    NibblesAreBits(d[0]);
    VersionIs(d[0]);
    ServiceWrites(d[1]);
    FragmentWrites(d[6], d[7]);
    LeadIs(p, |d|, d[0], d[1], d[6], d[7]);
    Be16Writes(d, 2);
    Be16Writes(d, 4);
    assert d[..10] == [d[0]] + [d[1]] + d[2..4] + d[4..6] + [d[6]] + [d[7]] + [d[8]] + [d[9]];
  }

  lemma VersionIs(b: Byte)
    requires b % 16 == 5
    ensures BitOr(Shl(b / 16, 4), IPV4_HEADER_LENGTH / 4) == b
  {
    assert Pow2(4) == 16 by {
      PowersUsed();
    }
    PackedOr(b / 16, 5, 4, b / 16 * 16);
  }

  lemma HeaderSealedAgain(header: Data)
    requires |header| == IPV4_HEADER_LENGTH && Checksum.Checksum(header, 10) == Get16(header, 10)
    ensures SealedHeader(header[..10] + [0, 0] + header[12..16] + header[16..20]) == header
  {
    assert header[..10] + [0, 0] + header[12..16] + header[16..20] == Write16(header, 10, 0);
    WriteReads(header, 10, 0);
    assert Write16(Write16(header, 10, 0), 10, Get16(header, 10)) == header;
  }

  /** The header is written again as it was. */
  lemma HeaderWrites(p: Packet, d: Data)
    requires LeadParsed(p, d) && d[0] % 16 == 5 && Protocol(p.payload) == d[9]
    ensures SealedHeader(Lead(p, |d|) + d[12..16] + d[16..20]) == d[..20]
  {
    LeadWrites(p, d);
    PrefixSealedAgain(d, Lead(p, |d|));
  }

  lemma PrefixSealedAgain(d: Data, lead: Data)
    requires |d| >= IPV4_HEADER_LENGTH && Checksum.Checksum(d[..20], 10) == Get16(d, 10)
    requires lead == d[..10] + [0, 0]
    ensures SealedHeader(lead + d[12..16] + d[16..20]) == d[..20]
  {
    var header := d[..20];
    assert header[..10] == d[..10] && header[12..16] == d[12..16] && header[16..20] == d[16..20];
    assert Get16(header, 10) == Get16(d, 10);
    HeaderSealedAgain(header);
  }

  lemma LeadFirst(p: Packet, total: int)
    ensures Lead(p, total)[0] == Low8(BitOr(Shl(p.version, 4), IPV4_HEADER_LENGTH / 4))
  {
  }

  lemma VersionWritten(version: nat, b: Byte)
    requires version < 16 && b == Low8(BitOr(Shl(version, 4), IPV4_HEADER_LENGTH / 4))
    ensures b % 16 == 5
  {
    var x := BitOr(Shl(version, 4), IPV4_HEADER_LENGTH / 4);
    VersionByte(version);
    LowIs(x, x);
    NibblesAreBits(b);
  }

  /** The first byte is written with a header length of 20. */
  lemma FirstByteWritten(p: Packet, d: Data)
    requires Ipv4Packets.Serialize(p) == Some(d) && 0 <= p.version < 16
    ensures d[0] % 16 == 5
  {
    var payload := SerializePayload(p).value;
    var source, destination := Ipv4Text.Serialize(p.sourceIP).value, Ipv4Text.Serialize(p.destinationIP).value;
    var total: nat := IPV4_HEADER_LENGTH + |payload|;
    SerializedIs(p, payload, source, destination);
    HeaderVerifies(Lead(p, total), source, destination, payload);
    LeadFirst(p, total);
    assert d[0] == d[..10][0] == Lead(p, total)[..10][0];
    VersionWritten(p.version, d[0]);
  }

  /** A packet is written as its header and its payload. */
  lemma WritesBoth(p: Packet, d: Data, payload: Data)
    requires LeadParsed(p, d) && d[0] % 16 == 5 && Protocol(p.payload) == d[9]
    requires SerializePayload(p) == Some(payload)
    ensures Ipv4Packets.Serialize(p) == Some(d) <==> payload == d[20..]
  {
    Ipv4Text.PrintedIsCanonical(d[12..16]);
    Ipv4Text.PrintedIsCanonical(d[16..20]);
    SerializedIs(p, payload, d[12..16], d[16..20]);
    var header := Lead(p, IPV4_HEADER_LENGTH + |payload|) + d[12..16] + d[16..20];
    if payload == d[20..] {
      HeaderWrites(p, d);
    }
    HeadAndTail(d, SealedHeader(header), payload);
  }

  lemma HeadAndTail(d: Data, header: Data, payload: Data)
    requires |header| == 20 <= |d| && (payload == d[20..] ==> header == d[..20])
    ensures header + payload == d <==> payload == d[20..]
  {
    assert (header + payload)[20..] == payload;
    if payload == d[20..] {
      assert d == d[..20] + d[20..];
    }
  }

  /** With options, the segment is written with a checksum that its receiver would refuse. */
  lemma OptionsAreNotWritten(bytes: Data, source: Data, destination: Data, s: Tcp)
    requires |source| == 4 && |destination| == 4 && TCP_HEADER_MIN_LENGTH <= |bytes| <= 0xffff - IPV4_HEADER_LENGTH
    requires Verifies(Pseudo(source, destination, 6, |bytes|), bytes, 16) && 0 < |s.options| <= 40
    ensures SerializeTcp(s, Pseudo(source, destination, 6, IPV4_HEADER_LENGTH + |s.payload|)) != bytes
  {
    var n: nat := IPV4_HEADER_LENGTH + |s.payload|;
    if SerializeTcp(s, Pseudo(source, destination, 6, n)) == bytes {
      assert |bytes| == n + |s.options|;
      WrongLengthFails(source, destination, n, |s.options|, TcpBlank(s));
    }
  }

  /** The TCP payload of a packet is written again as it was exactly if it is plain and has no options. */
  lemma TcpPayloadWrites(bytes: Data, source: Data, destination: Data)
    requires |source| == 4 && |destination| == 4 && |bytes| <= 0xffff - IPV4_HEADER_LENGTH
    requires ParseTcp(bytes, Pseudo(source, destination, 6, |bytes|)).Some?
    ensures var s := ParseTcp(bytes, Pseudo(source, destination, 6, |bytes|)).value;
      SerializeTcp(s, Pseudo(source, destination, 6, IPV4_HEADER_LENGTH + |s.payload|)) == bytes <==>
        Plain(bytes) && bytes[12] / 16 == 5
  {
    var pseudo := Pseudo(source, destination, 6, |bytes|);
    ParsedVerifies(bytes, pseudo);
    ParsedFields(bytes, pseudo);
    TcpBytesWrite(ParseTcp(bytes, pseudo).value, bytes, source, destination, pseudo);
  }

  lemma TcpBytesWrite(s: Tcp, bytes: Data, source: Data, destination: Data, pseudo: Data)
    requires |source| == 4 && |destination| == 4 && TCP_HEADER_MIN_LENGTH <= |bytes| <= 0xffff - IPV4_HEADER_LENGTH
    requires pseudo == Pseudo(source, destination, 6, |bytes|) && ParseTcp(bytes, pseudo) == Some(s)
    requires Verifies(pseudo, bytes, 16)
    requires s.dataOffset == bytes[12] / 16 * 4 && s.dataOffset >= TCP_HEADER_MIN_LENGTH
    requires |s.options| <= s.dataOffset - TCP_HEADER_MIN_LENGTH
    requires s.dataOffset <= |bytes| ==> s.options == bytes[20..s.dataOffset] && s.payload == bytes[s.dataOffset..]
    ensures SerializeTcp(s, Pseudo(source, destination, 6, IPV4_HEADER_LENGTH + |s.payload|)) == bytes <==>
      Plain(bytes) && bytes[12] / 16 == 5
  {
    if Plain(bytes) && bytes[12] / 16 == 5 {
      PseudoShape(source, destination, 6, |bytes|);
      PlainIsWritten(bytes, pseudo);
      assert |bytes| == IPV4_HEADER_LENGTH + |s.payload|;
    } else if Plain(bytes) {
      OptionsAreNotWritten(bytes, source, destination, s);
    } else if SerializeTcp(s, Pseudo(source, destination, 6, IPV4_HEADER_LENGTH + |s.payload|)) == bytes {
      OnlyPlainIsWritten(bytes, pseudo, Pseudo(source, destination, 6, IPV4_HEADER_LENGTH + |s.payload|));
    }
  }

  lemma IcmpPayloadWrites(bytes: Data)
    requires Icmp.Parse(bytes).Some?
    ensures Icmp.Serialize(Icmp.Parse(bytes).value) == Some(bytes)
  {
    Icmp.RoundTrip(Icmp.Parse(bytes).value, bytes);
  }

  lemma UdpPayloadWrites(bytes: Data, source: Data, destination: Data)
    requires |source| == 4 && |destination| == 4
    requires ParseUdp(bytes, Pseudo(source, destination, 17, |bytes|)).Some?
    ensures var u := ParseUdp(bytes, Pseudo(source, destination, 17, |bytes|)).value;
      |bytes| == UDP_HEADER_LENGTH + |u.payload| && SerializeUdp(u, Pseudo(source, destination, 17, |bytes|)) == bytes
  {
    PseudoShape(source, destination, 17, |bytes|);
    UdpParsedSerializes(bytes, Pseudo(source, destination, 17, |bytes|));
  }

  /** The payload of a parsed packet without header options, and whether it is written again as it was. */
  lemma PayloadWrites(p: Packet, d: Data)
    requires LeadParsed(p, d) && d[0] % 16 == 5 && Protocol(p.payload) == d[9]
    requires ParsePayload(d[9], d[20..], p.sourceIP, p.destinationIP) == Some(p.payload)
    ensures SerializePayload(p).Some?
    ensures SerializePayload(p).value == d[20..] <==> Regular(d)
  {
    Ipv4Text.PrintedIsCanonical(d[12..16]);
    Ipv4Text.PrintedIsCanonical(d[16..20]);
    match p.payload {
      case IcmpPayload(_) => IcmpPayloadWrites(d[20..]);
      case UdpPayload(_) => UdpPayloadWrites(d[20..], d[12..16], d[16..20]);
      case TcpPayload(s) => TcpPacketWrites(s, d, d[20..], d[12..16], d[16..20]);
    }
  }

  lemma TcpPacketWrites(s: Tcp, d: Data, bytes: Data, source: Data, destination: Data)
    requires 20 <= |d| < 0x1_0000 && bytes == d[20..] && |source| == 4 && |destination| == 4 && d[0] % 16 == 5
    requires d[9] == 6
    requires ParseTcp(bytes, Pseudo(source, destination, 6, |bytes|)) == Some(s)
    ensures SerializeTcp(s, Pseudo(source, destination, 6, IPV4_HEADER_LENGTH + |s.payload|)) == bytes <==> Regular(d)
  {
    TcpPayloadWrites(bytes, source, destination);
    ParsedVerifies(bytes, Pseudo(source, destination, 6, |bytes|));
    assert bytes[12] == d[32] && bytes[13] == d[33];
  }

  lemma ParsedPayload(d: Data)
    requires Ipv4Packets.Parse(d).Some? && d[0] % 16 == 5
    ensures var p := Ipv4Packets.Parse(d).value;
      ParsePayload(d[9], d[20..], p.sourceIP, p.destinationIP) == Some(p.payload)
  {
    NibblesAreBits(d[0]);
    assert From(d, 20) == d[20..];
  }

  lemma VersionParsed(b: Byte)
    ensures 0 <= Sar(b, 4) < 16
  {
    NibblesAreBits(b);
  }

  /**
   Reading and then writing: the bytes of an accepted packet are written again as they were exactly if
   its header has no options and, for TCP, the segment has none either and the bits that the parser
   ignores are clear.
   */
  lemma PacketParsedSerializesIff(d: Data)
    requires Ipv4Packets.Parse(d).Some?
    ensures Ipv4Packets.Serialize(Ipv4Packets.Parse(d).value) == Some(d) <==> Regular(d)
  {
    var p := Ipv4Packets.Parse(d).value;
    ParsedLead(d);
    VersionParsed(d[0]);
    if d[0] % 16 == 5 {
      ParsedPayload(d);
      PayloadWrites(p, d);
      WritesBoth(p, d, SerializePayload(p).value);
    } else if Ipv4Packets.Serialize(p) == Some(d) {
      FirstByteWritten(p, d);
    }
  }

  /** A packet that carries a SYN for explicit congestion notification, from and to any address. */
  function EcnPacket(b: Data): (d: Data)
    requires |b| == 4
    ensures |d| == 40
  {
    SealedHeader(Lead(SynPacket(b), 40) + b + b) + EcnSyn(Pseudo(b, b, 6, TCP_HEADER_MIN_LENGTH))
  }

  function SynPacket(b: Data): Packet
    requires |b| == 4
  {
    var ip := Ipv4Text.Print(b).value;
    Packet(4, 0, 0, 0, 0, 0, 64, ip, ip, TcpPayload(Syn))
  }

  /** It is accepted, and written again as another packet. */
  lemma EcnPacketIsChanged(b: Data)
    requires |b| == 4
    ensures Ipv4Packets.Parse(EcnPacket(b)) == Some(SynPacket(b))
    ensures Ipv4Packets.Serialize(SynPacket(b)) != Some(EcnPacket(b))
  {
    var p, pseudo := SynPacket(b), Pseudo(b, b, 6, TCP_HEADER_MIN_LENGTH);
    var d := EcnPacket(b);
    Ipv4Text.PrintedIsCanonical(b);
    PseudoShape(b, b, 6, TCP_HEADER_MIN_LENGTH);
    EcnSynParses(pseudo);
    LeadParses(p, 40);
    ParseOfParts(p, Lead(p, 40), b, b, EcnSyn(pseudo), d);
    PacketParsedSerializesIff(d);
    ParsedLead(d);
    assert d[33] == EcnSyn(pseudo)[13];
  }

  // ---------------------------------------------------------------- Ethernet

  /** A frame that was parsed, in terms of its bytes. */
  lemma ParsedFrame(frame: Data)
    requires Ethernet.Parse(frame).Some?
    ensures var f := Ethernet.Parse(frame).value;
      && |frame| >= 14 && Some(f.destinationMac) == MacText(frame[..6]) && Some(f.sourceMac) == MacText(frame[6..12])
      && Get16(frame, 12) == Ethernet.TypeOf(f.payload)
      && (f.payload.Ipv4? ==> Ipv4Packets.Parse(frame[14..]) == Some(f.payload.packet))
      && (f.payload.Arp? ==> ArpMessages.Parse(frame[14..]) == Some(f.payload.message))
  {
  }

  lemma FrameIs(f: Ethernet.Frame, destination: Data, source: Data, payload: Data)
    requires MacNumber(f.destinationMac) == Some(destination) && MacNumber(f.sourceMac) == Some(source)
    requires Ethernet.SerializePayload(f.payload) == Some(payload)
    ensures Ethernet.Serialize(f) == Some(destination + source + Be16(Ethernet.TypeOf(f.payload)) + payload)
  {
  }

  /** No padding behind an ARP message, and the lengths of the addresses in their places. */
  predicate Exact(message: Data) {
    |message| == ArpMessages.MESSAGE_LENGTH && message[4] == 6 && message[5] == 4
  }

  lemma FramePayloadWrites(p: Ethernet.Payload, rest: Data)
    requires p.Ipv4? ==> Ipv4Packets.Parse(rest) == Some(p.packet)
    requires p.Arp? ==> ArpMessages.Parse(rest) == Some(p.message)
    ensures Ethernet.SerializePayload(p) == Some(rest) <==> if p.Ipv4? then Regular(rest) else Exact(rest)
  {
    if p.Ipv4? {
      PacketParsedSerializesIff(rest);
    } else {
      ArpMessages.ParsedSerializesIff(rest);
    }
  }

  /**
   A parsed frame is written again as it was exactly if its packet is, or its ARP message has no
   padding and gives the right lengths.
   */
  lemma FrameParsedSerializesIff(frame: Data)
    requires Ethernet.Parse(frame).Some?
    ensures var f := Ethernet.Parse(frame).value;
      Ethernet.Serialize(f) == Some(frame) <==> if f.payload.Ipv4? then Regular(frame[14..]) else Exact(frame[14..])
  {
    var f := Ethernet.Parse(frame).value;
    ParsedFrame(frame);
    PrintedIsCanonical(frame[..6]);
    PrintedIsCanonical(frame[6..12]);
    FrameWritesIff(frame, f, Ethernet.SerializePayload(f.payload));
    FramePayloadWrites(f.payload, frame[14..]);
  }

  lemma FrameWritesIff(frame: Data, f: Ethernet.Frame, payload: Option<Data>)
    requires |frame| >= 14 && payload == Ethernet.SerializePayload(f.payload)
    requires MacNumber(f.destinationMac) == Some(frame[..6]) && MacNumber(f.sourceMac) == Some(frame[6..12])
    requires Get16(frame, 12) == Ethernet.TypeOf(f.payload)
    ensures Ethernet.Serialize(f) == Some(frame) <==> payload == Some(frame[14..])
  {
    Be16Writes(frame, 12);
    if payload.Some? {
      FrameIs(f, frame[..6], frame[6..12], payload.value);
      FrameWrites(frame, payload);
    }
  }

  /**
   An ARP frame that is padded to the 60 bytes that Ethernet asks for is read as the same frame, and
   written again without the padding.
   */
  lemma PaddedFrameIsCut(f: Ethernet.Frame)
    requires Ethernet.WellFormed(f) && f.payload.Arp?
    ensures Ethernet.Serialize(f).Some?
    ensures var frame := Ethernet.Serialize(f).value + Zeros(18);
      |frame| == 60 && Ethernet.Parse(frame) == Some(f) && Ethernet.Serialize(f) != Some(frame)
  {
    var m := f.payload.message;
    ArpMessages.PaddingIsLost(m, Zeros(18));
    var destination, source := MacNumber(f.destinationMac).value, MacNumber(f.sourceMac).value;
    var message := ArpMessages.Serialize(m).value;
    FrameIs(f, destination, source, message);
    Ethernet.FrameParses(f, destination, source, message + Zeros(18));
    var lead := destination + source + Be16(Ethernet.TypeOf(f.payload));
    assert lead + message + Zeros(18) == lead + (message + Zeros(18));
  }

  lemma FrameWrites(frame: Data, payload: Option<Data>)
    requires |frame| >= 14 && payload.Some?
    ensures frame[..6] + frame[6..12] + frame[12..14] + payload.value == frame <==> payload.value == frame[14..]
  {
    var lead := frame[..6] + frame[6..12] + frame[12..14];
    assert lead == frame[..14];
    assert (lead + payload.value)[14..] == payload.value;
  }
}
