/** UDP datagrams and TCP segments. */
module Transport {
  // packages/wire/src/udp.ts, packages/wire/src/tcp.ts, with their pseudo header.

  import opened Options
  import opened Bits
  import opened Bytes
  import opened Checksum
  import opened Buffers

  // ---------------------------------------------------------------- checksums over a pseudo header

  /** `data` with the checksum of `pseudo + data` in the field at `offset`. */
  function Sealed(pseudo: Data, data: Data, offset: nat): (r: Data)
    requires offset + 2 <= |data|
    ensures |r| == |data|
  {
    Write16(data, offset, Checksum.Checksum(pseudo + data, |pseudo| + offset))
  }

  predicate Verifies(pseudo: Data, data: Data, offset: nat)
    requires offset + 2 <= |data|
  {
    Checksum.Checksum(pseudo + data, |pseudo| + offset) == Get16(data, offset)
  }

  /** A sealed buffer verifies, whatever stood in its checksum field. */
  lemma SealedVerifies(pseudo: Data, data: Data, offset: nat)
    requires |pseudo| > 0 && (|pseudo| + offset) % 2 == 0 && offset + 2 <= |data|
    ensures Verifies(pseudo, Sealed(pseudo, data, offset), offset)
  {
    var c := Checksum.Checksum(pseudo + data, |pseudo| + offset);
    WriteBehind(pseudo, data, offset, c);
    WriteReads(pseudo + data, |pseudo| + offset, c);
    assert (pseudo + Sealed(pseudo, data, offset))[|pseudo| + offset] == Sealed(pseudo, data, offset)[offset];
    assert (pseudo + Sealed(pseudo, data, offset))[|pseudo| + offset + 1] == Sealed(pseudo, data, offset)[offset + 1];
  }

  /** A buffer that verifies is the sealing of itself with a cleared checksum field. */
  lemma VerifiedIsSealed(pseudo: Data, data: Data, offset: nat)
    requires |pseudo| > 0 && (|pseudo| + offset) % 2 == 0 && offset + 2 <= |data| && Verifies(pseudo, data, offset)
    ensures Sealed(pseudo, Write16(data, offset, 0), offset) == data
  {
    WriteBehind(pseudo, data, offset, 0);
    WriteReads(pseudo + data, |pseudo| + offset, 0);
    assert Write16(Write16(data, offset, 0), offset, Get16(data, offset)) == data;
  }

  /** The checksum loop reads the pseudo header and the buffer as one. */
  method Seal(pseudo: Data, buffer: array<Byte>, offset: nat)
    requires offset + 2 <= buffer.Length
    modifies buffer
    ensures buffer[..] == Sealed(pseudo, old(buffer[..]), offset)
  {
    var checksumBuffer := new Byte[|pseudo| + buffer.Length](_ => 0);
    Append(checksumBuffer, [], 0, pseudo);
    assert [] + pseudo == pseudo;
    Append(checksumBuffer, pseudo, |pseudo|, buffer[..]);
    assert checksumBuffer[..] == pseudo + buffer[..];
    var checksum := CalculateChecksum(checksumBuffer[..], |pseudo| + offset);
    Put(buffer, offset, Be16(checksum));
  }

  // ---------------------------------------------------------------- UDP

  const UDP_HEADER_LENGTH: nat := 8

  datatype Udp = Udp(sourcePort: nat, destinationPort: nat, payload: Data)

  function UdpBlank(u: Udp): (d: Data)
    ensures |d| == UDP_HEADER_LENGTH + |u.payload|
  {
    Be16(u.sourcePort) + Be16(u.destinationPort) + Be16(UDP_HEADER_LENGTH + |u.payload|) + Be16(0) + u.payload
  }

  /** `serializeUdpDatagram` with a pseudo header. */
  function SerializeUdp(u: Udp, pseudo: Data): Data {
    Sealed(pseudo, UdpBlank(u), 6)
  }

  /** `parseUdpDatagram` with a pseudo header. */
  function ParseUdp(data: Data, pseudo: Data): Option<Udp> {
    if |data| < UDP_HEADER_LENGTH || !Verifies(pseudo, data, 6) then None
    else if Get16(data, 4) != UDP_HEADER_LENGTH + |From(data, 8)| then None
    else Some(Udp(Get16(data, 0), Get16(data, 2), From(data, 8)))
  }

  predicate UdpWellFormed(u: Udp) {
    u.sourcePort < 0x1_0000 && u.destinationPort < 0x1_0000 && UDP_HEADER_LENGTH + |u.payload| < 0x1_0000
  }

  lemma UdpFields(u: Udp)
    requires UdpWellFormed(u)
    ensures var d := UdpBlank(u);
      && Get16(d, 0) == u.sourcePort && Get16(d, 2) == u.destinationPort
      && Get16(d, 4) == UDP_HEADER_LENGTH + |u.payload| && d[8..] == u.payload
  {
    var a, b, n := Be16(u.sourcePort), Be16(u.destinationPort), UDP_HEADER_LENGTH + |u.payload|;
    var d := UdpBlank(u);
    Be16Reads(u.sourcePort, [], b + Be16(n) + Be16(0) + u.payload);
    assert d == [] + a + (b + Be16(n) + Be16(0) + u.payload);
    Be16Reads(u.destinationPort, a, Be16(n) + Be16(0) + u.payload);
    assert d == a + b + (Be16(n) + Be16(0) + u.payload);
    Be16Reads(n, a + b, Be16(0) + u.payload);
    assert d == a + b + Be16(n) + (Be16(0) + u.payload);
  }

  lemma UdpSerializedParses(u: Udp, pseudo: Data)
    requires UdpWellFormed(u) && |pseudo| > 0 && |pseudo| % 2 == 0
    ensures ParseUdp(SerializeUdp(u, pseudo), pseudo) == Some(u)
  {
    UdpFields(u);
    var d := SerializeUdp(u, pseudo);
    SealedVerifies(pseudo, UdpBlank(u), 6);
    assert d[8..] == UdpBlank(u)[8..];
  }

  lemma UdpParsedSerializes(data: Data, pseudo: Data)
    requires |pseudo| > 0 && |pseudo| % 2 == 0 && ParseUdp(data, pseudo).Some?
    ensures var u := ParseUdp(data, pseudo).value; UdpWellFormed(u) && SerializeUdp(u, pseudo) == data
  {
    var u := ParseUdp(data, pseudo).value;
    VerifiedIsSealed(pseudo, data, 6);
    Be16Writes(data, 0);
    Be16Writes(data, 2);
    Be16Writes(data, 4);
    assert UdpBlank(u) == data[0..2] + data[2..4] + data[4..6] + Be16(0) + data[8..];
    assert UdpBlank(u) == Write16(data, 6, 0);
  }

  /** Under any pseudo header, the accepted byte strings are the serialized datagrams. */
  lemma UdpRoundTrip(u: Udp, data: Data, pseudo: Data)
    requires |pseudo| > 0 && |pseudo| % 2 == 0
    ensures ParseUdp(data, pseudo) == Some(u) <==> UdpWellFormed(u) && SerializeUdp(u, pseudo) == data
  {
    if ParseUdp(data, pseudo) == Some(u) {
      UdpParsedSerializes(data, pseudo);
    }
    if UdpWellFormed(u) {
      UdpSerializedParses(u, pseudo);
    }
  }

  method SerializeUdpDatagram(u: Udp, pseudo: Data) returns (buffer: array<Byte>)
    ensures fresh(buffer) && buffer[..] == SerializeUdp(u, pseudo)
  {
    var a, b, n := Be16(u.sourcePort), Be16(u.destinationPort), Be16(UDP_HEADER_LENGTH + |u.payload|);
    buffer := new Byte[UDP_HEADER_LENGTH + |u.payload|](_ => 0);
    Append(buffer, [], 0, a);
    assert [] + a == a;
    Append(buffer, a, 2, b);
    Append(buffer, a + b, 4, n);
    Append(buffer, a + b + n, 6, Be16(0));
    Append(buffer, a + b + n + Be16(0), 8, u.payload);
    assert buffer[..] == UdpBlank(u);
    Seal(pseudo, buffer, 6);
  }

  // ---------------------------------------------------------------- TCP

  const TCP_HEADER_MIN_LENGTH: nat := 20

  datatype Flags = Flags(urg: bool, ack: bool, psh: bool, rst: bool, syn: bool, fin: bool)

  datatype Tcp = Tcp(
    sourcePort: nat,
    destinationPort: nat,
    sequenceNumber: nat,
    acknowledgmentNumber: nat,
    dataOffset: nat,
    reserved: int,
    flags: Flags,
    windowSize: nat,
    urgentPointer: nat,
    options: Data,
    payload: Data)

  function If(flag: bool, bit: nat): nat {
    if flag then bit else 0
  }

  function WithFlag(flags: int, flag: bool, bit: nat): int {
    BitOr(flags, If(flag, bit))
  }

  function FlagsByte(f: Flags): int {
    WithFlag(WithFlag(WithFlag(WithFlag(WithFlag(If(f.urg, 0x20), f.ack, 0x10), f.psh, 0x08), f.rst, 0x04), f.syn,
      0x02), f.fin, 0x01)
  }

  function ParseFlags(b: Byte): Flags {
    Flags(BitAnd(b, 0x20) != 0, BitAnd(b, 0x10) != 0, BitAnd(b, 0x08) != 0,
          BitAnd(b, 0x04) != 0, BitAnd(b, 0x02) != 0, BitAnd(b, 0x01) != 0)
  }

  /** The data offset and the reserved bits. */
  function OffsetByte(headerLength: nat, reserved: int): int {
    BitOr(Shl(headerLength / 4, 4), Shl(reserved, 1))
  }

  function TcpHead(s: Tcp): (d: Data)
    ensures |d| == 12
  {
    Be16(s.sourcePort) + Be16(s.destinationPort) + Be32(s.sequenceNumber) + Be32(s.acknowledgmentNumber)
  }

  function TcpBlank(s: Tcp): (d: Data)
    ensures |d| == TCP_HEADER_MIN_LENGTH + |s.options| + |s.payload|
  {
    var headerLength := TCP_HEADER_MIN_LENGTH + |s.options|;
    TcpLayout(s, Low8(OffsetByte(headerLength, s.reserved)), Low8(FlagsByte(s.flags)))
  }

  function TcpLayout(s: Tcp, offsetByte: Byte, flagsByte: Byte): (d: Data)
    ensures |d| == TCP_HEADER_MIN_LENGTH + |s.options| + |s.payload|
  {
    TcpHead(s) + Middle(offsetByte, flagsByte, s.windowSize, s.urgentPointer) + s.options + s.payload
  }

  function Middle(offsetByte: Byte, flagsByte: Byte, windowSize: nat, urgentPointer: nat): (d: Data)
    ensures |d| == 8
  {
    [offsetByte] + [flagsByte] + Be16(windowSize) + Be16(0) + Be16(urgentPointer)
  }

  /** `serializeTcpSegment` with a pseudo header. */
  function SerializeTcp(s: Tcp, pseudo: Data): Data {
    Sealed(pseudo, TcpBlank(s), 16)
  }

  /** `parseTcpSegment` with a pseudo header. */
  function ParseTcp(data: Data, pseudo: Data): Option<Tcp> {
    if |data| < TCP_HEADER_MIN_LENGTH || !Verifies(pseudo, data, 16) then None
    else
      var dataOffset := Sar(data[12], 4) * 4;
      if dataOffset < TCP_HEADER_MIN_LENGTH then None
      else
        Some(Tcp(
          Get16(data, 0),
          Get16(data, 2),
          Get32(data, 4),
          Get32(data, 8),
          dataOffset,
          ReservedBits(data[12]),
          ParseFlags(data[13]),
          Get16(data, 14),
          Get16(data, 18),
          Between(data, TCP_HEADER_MIN_LENGTH, dataOffset),
          From(data, dataOffset)))
  }

  function ReservedBits(b: Byte): int {
    Sar(BitAnd(b, 0x0e), 1)
  }

  predicate TcpWellFormed(s: Tcp) {
    && s.sourcePort < 0x1_0000 && s.destinationPort < 0x1_0000
    && s.sequenceNumber < 0x1_0000_0000 && s.acknowledgmentNumber < 0x1_0000_0000
    && |s.options| % 4 == 0 && |s.options| <= 40 && s.dataOffset == TCP_HEADER_MIN_LENGTH + |s.options|
    && 0 <= s.reserved < 8
    && s.windowSize < 0x1_0000 && s.urgentPointer < 0x1_0000
  }

  lemma OrBit(x: nat, q: nat, k: nat, p: nat, flag: bool)
    requires k <= 7 && p == Pow2(k) && x == q * (2 * p) && x + p < 0x100
    ensures BitOr(x, If(flag, p)) == x + If(flag, p)
  {
    OrLow(q, If(flag, p), k + 1);
    SmallOr(x, If(flag, p), x + If(flag, p));
  }

  function Bit(flag: bool): (b: nat)
    ensures b <= 1
  {
    if flag then 1 else 0
  }

  lemma HighFlags(u: bool, a: bool, p: bool)
    ensures WithFlag(WithFlag(If(u, 0x20), a, 0x10), p, 0x08) == 8 * (4 * Bit(u) + 2 * Bit(a) + Bit(p))
  {
    var x: nat, y: nat := 2 * Bit(u), 4 * Bit(u) + 2 * Bit(a);
    assert WithFlag(If(u, 0x20), a, 0x10) == 8 * y by {
      FlagAdded(16 * x, Bit(u), 4, 16, a);
    }
    FlagAdded(8 * y, y / 2, 3, 8, p);
  }

  lemma LowFlags(x: nat, r: bool, s: bool, i: bool)
    requires x < 8
    ensures WithFlag(WithFlag(WithFlag(8 * x, r, 0x04), s, 0x02), i, 0x01) == 8 * x + 4 * Bit(r) + 2 * Bit(s) + Bit(i)
  {
    var y: nat := 2 * x + Bit(r);
    assert WithFlag(8 * x, r, 0x04) == 4 * y by {
      FlagAdded(8 * x, x, 2, 4, r);
    }
    var z: nat := 2 * y + Bit(s);
    assert WithFlag(4 * y, s, 0x02) == 2 * z by {
      FlagAdded(4 * y, y, 1, 2, s);
    }
    FlagAdded(2 * z, z, 0, 1, i);
  }

  lemma FlagsValue(f: Flags)
    ensures FlagsByte(f) ==
      32 * Bit(f.urg) + 16 * Bit(f.ack) + 8 * Bit(f.psh) + 4 * Bit(f.rst) + 2 * Bit(f.syn) + Bit(f.fin)
  {
    HighFlags(f.urg, f.ack, f.psh);
    LowFlags(4 * Bit(f.urg) + 2 * Bit(f.ack) + Bit(f.psh), f.rst, f.syn, f.fin);
  }

  lemma SmallPowers(k: nat)
    requires k <= 4
    ensures Pow2(k) == if k == 0 then 1 else if k == 1 then 2 else if k == 2 then 4 else if k == 3 then 8 else 16
  {
    PowersUsed();
  }

  lemma FlagAdded(x: nat, q: nat, k: nat, p: nat, flag: bool)
    requires k <= 4 && x == q * (2 * p) && x + p < 0x100
    requires p == if k == 0 then 1 else if k == 1 then 2 else if k == 2 then 4 else if k == 3 then 8 else 16
    ensures WithFlag(x, flag, p) == x + p * Bit(flag)
  {
    SmallPowers(k);
    OrBit(x, q, k, p, flag);
  }

  lemma BitAt(high: nat, bit: nat, low: nat, p: nat, k: nat, b: nat)
    requires bit <= 1 && low < p && b == (2 * high + bit) * p + low && k <= 7 && p == Pow2(k) && b < 0x100
    ensures BitAnd(b, p) != 0 <==> bit == 1
  {
    BitSet(b, k, p);
    assert b / p == 2 * high + bit by {
      DivModUnique(b, p, 2 * high + bit, low);
    }
  }

  lemma BitsParse(u: nat, a: nat, p: nat, r: nat, s: nat, i: nat, b: nat)
    requires u <= 1 && a <= 1 && p <= 1 && r <= 1 && s <= 1 && i <= 1
    requires b == 32 * u + 16 * a + 8 * p + 4 * r + 2 * s + i
    ensures ParseFlags(b) == Flags(u == 1, a == 1, p == 1, r == 1, s == 1, i == 1)
  {
    PowersUsed();
    SmallPowers(0);
    BitAt(0, u, 16 * a + 8 * p + 4 * r + 2 * s + i, 0x20, 5, b);
    BitAt(u, a, 8 * p + 4 * r + 2 * s + i, 0x10, 4, b);
    BitAt(2 * u + a, p, 4 * r + 2 * s + i, 0x08, 3, b);
    BitAt(4 * u + 2 * a + p, r, 2 * s + i, 0x04, 2, b);
    BitAt(8 * u + 4 * a + 2 * p + r, s, i, 0x02, 1, b);
    BitAt(16 * u + 8 * a + 4 * p + 2 * r + s, i, 0, 0x01, 0, b);
  }

  lemma FlagsParse(f: Flags)
    ensures 0 <= FlagsByte(f) < 0x40 && ParseFlags(FlagsByte(f)) == f
  {
    FlagsValue(f);
    BitsParse(Bit(f.urg), Bit(f.ack), Bit(f.psh), Bit(f.rst), Bit(f.syn), Bit(f.fin), FlagsByte(f));
  }

  lemma EvenMask(b: nat)
    requires b < 0x100
    ensures And(b, 0x0e) == 2 * (b / 2 % 8)
  {
    PowersUsed();
    AndLow(b / 2, 3);
    assert And(b / 2, 7) == b / 2 % 8;
  }

  lemma ReservedParses(q: nat, reserved: nat, b: nat)
    requires q < 16 && reserved < 8 && b == 16 * q + 2 * reserved
    ensures ReservedBits(b) == reserved
  {
    EvenMask(b);
    assert b / 2 % 8 == reserved by {
      DivModUnique(b / 2, 8, q, reserved);
    }
    SmallAnd(b, 0x0e, 2 * reserved);
    assert Pow2(1) == 2 by {
      PowersUsed();
    }
  }

  lemma OffsetByteValue(q: nat, reserved: nat)
    requires q < 16 && reserved < 8
    ensures BitOr(Shl(q, 4), Shl(reserved, 1)) == 16 * q + 2 * reserved && Sar(16 * q + 2 * reserved, 4) == q
  {
    assert Pow2(4) == 16 && Pow2(1) == 2 by {
      PowersUsed();
    }
    assert Shl(reserved, 1) == 2 * reserved;
    Packed(q, 2 * reserved, 4);
  }

  lemma OffsetParses(headerLength: nat, reserved: nat, b: int)
    requires headerLength % 4 == 0 && headerLength <= 60 && reserved < 8 && b == OffsetByte(headerLength, reserved)
    ensures 0 <= b < 0x100 && Sar(b, 4) * 4 == headerLength && ReservedBits(b) == reserved
  {
    var q: nat := headerLength / 4;
    OffsetByteValue(q, reserved);
    ReservedParses(q, reserved, 16 * q + 2 * reserved);
  }

  lemma TcpHeadFields(s: Tcp)
    requires TcpWellFormed(s)
    ensures var d := TcpHead(s);
      && Get16(d, 0) == s.sourcePort && Get16(d, 2) == s.destinationPort
      && Get32(d, 4) == s.sequenceNumber && Get32(d, 8) == s.acknowledgmentNumber
  {
    var a, b, c, e := Be16(s.sourcePort), Be16(s.destinationPort), Be32(s.sequenceNumber), Be32(s.acknowledgmentNumber);
    var d := TcpHead(s);
    Be16Reads(s.sourcePort, [], b + c + e);
    assert d == [] + a + (b + c + e);
    Be16Reads(s.destinationPort, a, c + e);
    assert d == a + b + (c + e);
    Be32Reads(s.sequenceNumber, a + b, e);
    Be32Reads(s.acknowledgmentNumber, a + b + c, []);
    assert d == a + b + c + e + [];
  }

  lemma MiddleReads(x: Byte, y: Byte, w: nat, u: nat)
    requires w < 0x1_0000 && u < 0x1_0000
    ensures var d := Middle(x, y, w, u); d[0] == x && d[1] == y && Get16(d, 2) == w && Get16(d, 6) == u
  {
    Be16Reads(w, [x] + [y], Be16(0) + Be16(u));
    assert Middle(x, y, w, u) == [x] + [y] + Be16(w) + (Be16(0) + Be16(u));
    Be16Reads(u, [x] + [y] + Be16(w) + Be16(0), []);
    assert Middle(x, y, w, u) == [x] + [y] + Be16(w) + Be16(0) + Be16(u) + [];
  }

  lemma Parts(a: Data, b: Data, c: Data, e: Data)
    ensures var d := a + b + c + e;
      && d[..|a|] == a && d[|a|..|a| + |b|] == b && d[|a| + |b|..|a| + |b| + |c|] == c && d[|a| + |b| + |c|..] == e
  {
  }

  lemma SliceReads(d: Data, i: nat, j: nat)
    requires i <= j <= |d|
    ensures forall k: nat :: k + 2 <= j - i ==> Get16(d[i..j], k) == Get16(d, i + k)
    ensures forall k: nat :: k + 4 <= j - i ==> Get32(d[i..j], k) == Get32(d, i + k)
  {
  }

  ghost predicate HasFields(s: Tcp, x: int, y: int, d: Data) {
    && |d| >= TCP_HEADER_MIN_LENGTH
    && Get16(d, 0) == s.sourcePort && Get16(d, 2) == s.destinationPort
    && Get32(d, 4) == s.sequenceNumber && Get32(d, 8) == s.acknowledgmentNumber
    && d[12] == x && d[13] == y
    && Get16(d, 14) == s.windowSize && Get16(d, 18) == s.urgentPointer
  }

  lemma LayoutFields(s: Tcp, x: Byte, y: Byte, d: Data)
    requires TcpWellFormed(s) && d == TcpLayout(s, x, y)
    ensures HasFields(s, x, y, d)
  {
    TcpHeadFields(s);
    MiddleReads(x, y, s.windowSize, s.urgentPointer);
    Parts(TcpHead(s), Middle(x, y, s.windowSize, s.urgentPointer), s.options, s.payload);
    SliceReads(d, 0, 12);
    SliceReads(d, 12, 20);
    assert d[12] == d[12..20][0] && d[13] == d[12..20][1];
  }

  lemma TcpFields(s: Tcp, x: int, y: int)
    requires TcpWellFormed(s) && x == OffsetByte(s.dataOffset, s.reserved) && y == FlagsByte(s.flags)
    ensures HasFields(s, x, y, TcpBlank(s))
    ensures Sar(x, 4) * 4 == s.dataOffset && ReservedBits(x) == s.reserved && ParseFlags(y) == s.flags
  {
    OffsetFits(s);
    OffsetParses(s.dataOffset, s.reserved, x);
    FlagsParse(s.flags);
    BlankIs(s, x, y);
    LayoutFields(s, x, y, TcpBlank(s));
  }

  lemma OffsetFits(s: Tcp)
    requires TcpWellFormed(s)
    ensures s.dataOffset % 4 == 0 && s.dataOffset <= 60
  {
  }

  lemma BlankIs(s: Tcp, x: Byte, y: Byte)
    requires s.dataOffset == TCP_HEADER_MIN_LENGTH + |s.options|
    requires x == OffsetByte(s.dataOffset, s.reserved) && y == FlagsByte(s.flags)
    ensures TcpBlank(s) == TcpLayout(s, x, y)
  {
    LowIs(OffsetByte(TCP_HEADER_MIN_LENGTH + |s.options|, s.reserved), x);
    LowIs(FlagsByte(s.flags), y);
  }

  lemma SealingKeeps(pseudo: Data, data: Data)
    requires |data| >= TCP_HEADER_MIN_LENGTH
    ensures var d := Sealed(pseudo, data, 16);
      && d[..16] == data[..16] && d[18..] == data[18..]
      && forall i :: 20 <= i <= |data| ==> d[20..i] == data[20..i] && d[i..] == data[i..]
  {
  }

  /** Under any pseudo header a segment, with its options, is read back as it was. */
  lemma TcpRoundTrip(s: Tcp, pseudo: Data)
    requires TcpWellFormed(s) && |pseudo| > 0 && |pseudo| % 2 == 0
    ensures ParseTcp(SerializeTcp(s, pseudo), pseudo) == Some(s)
  {
    var x, y := OffsetByte(s.dataOffset, s.reserved), FlagsByte(s.flags);
    TcpFields(s, x, y);
    TcpTail(s);
    SealedParses(s, x, y, TcpBlank(s), pseudo);
  }

  lemma SealedParses(s: Tcp, x: int, y: int, blank: Data, pseudo: Data)
    requires HasFields(s, x, y, blank) && Sar(x, 4) * 4 == s.dataOffset && ReservedBits(x) == s.reserved
    requires ParseFlags(y) == s.flags
    requires s.dataOffset >= 20 && |blank| == s.dataOffset + |s.payload| && |pseudo| > 0 && |pseudo| % 2 == 0
    requires blank[20..s.dataOffset] == s.options && blank[s.dataOffset..] == s.payload
    ensures ParseTcp(Sealed(pseudo, blank, 16), pseudo) == Some(s)
  {
    var d := Sealed(pseudo, blank, 16);
    SealedVerifies(pseudo, blank, 16);
    SealingKeeps(pseudo, blank);
    FieldsKept(s, x, y, blank, d);
    TcpParses(s, x, y, d, pseudo);
  }

  lemma TcpTail(s: Tcp)
    requires s.dataOffset == TCP_HEADER_MIN_LENGTH + |s.options|
    ensures TcpBlank(s)[20..s.dataOffset] == s.options && TcpBlank(s)[s.dataOffset..] == s.payload
  {
    var x, y := Low8(OffsetByte(s.dataOffset, s.reserved)), Low8(FlagsByte(s.flags));
    Parts(TcpHead(s), Middle(x, y, s.windowSize, s.urgentPointer), s.options, s.payload);
  }

  lemma FieldsKept(s: Tcp, x: int, y: int, blank: Data, d: Data)
    requires |d| == |blank| && HasFields(s, x, y, blank) && d[..16] == blank[..16] && d[18..] == blank[18..]
    ensures HasFields(s, x, y, d)
  {
    SliceReads(d, 0, 16);
    SliceReads(blank, 0, 16);
    SliceReads(d, 18, |d|);
    SliceReads(blank, 18, |d|);
    assert d[12] == d[..16][12] && d[13] == d[..16][13] && blank[12] == blank[..16][12] && blank[13] == blank[..16][13];
    assert d[18..] == d[18..|d|] && blank[18..] == blank[18..|d|];
  }

  lemma TcpParses(s: Tcp, x: int, y: int, d: Data, pseudo: Data)
    requires HasFields(s, x, y, d) && Sar(x, 4) * 4 == s.dataOffset && ReservedBits(x) == s.reserved
    requires ParseFlags(y) == s.flags
    requires s.dataOffset >= 20 && |d| == s.dataOffset + |s.payload| && Verifies(pseudo, d, 16)
    requires d[20..s.dataOffset] == s.options && d[s.dataOffset..] == s.payload
    ensures ParseTcp(d, pseudo) == Some(s)
  {
  }

  method SerializeTcpSegment(s: Tcp, pseudo: Data) returns (buffer: array<Byte>)
    ensures fresh(buffer) && buffer[..] == SerializeTcp(s, pseudo)
  {
    var headerLength := TCP_HEADER_MIN_LENGTH + |s.options|;
    buffer := new Byte[headerLength + |s.payload|](_ => 0);
    ghost var done := Be16(s.sourcePort);
    Append(buffer, [], 0, Be16(s.sourcePort));
    assert [] + done == done;
    Append(buffer, done, 2, Be16(s.destinationPort));
    done := done + Be16(s.destinationPort);
    Append(buffer, done, 4, Be32(s.sequenceNumber));
    done := done + Be32(s.sequenceNumber);
    Append(buffer, done, 8, Be32(s.acknowledgmentNumber));
    done := done + Be32(s.acknowledgmentNumber);
    assert done == TcpHead(s);
    SetTcpFields(s, buffer, headerLength);
    Seal(pseudo, buffer, 16);
  }

  /** The fields behind the acknowledgment number, the options and the payload. */
  method SetTcpFields(s: Tcp, buffer: array<Byte>, headerLength: nat)
    requires headerLength == TCP_HEADER_MIN_LENGTH + |s.options| && buffer.Length == headerLength + |s.payload|
    requires Filled(buffer, TcpHead(s))
    modifies buffer
    ensures buffer[..] == TcpBlank(s)
  {
    ghost var done := TcpHead(s);
    Append(buffer, done, 12, [Low8(OffsetByte(headerLength, s.reserved))]);
    done := done + [Low8(OffsetByte(headerLength, s.reserved))];
    Append(buffer, done, 13, [Low8(FlagsByte(s.flags))]);
    done := done + [Low8(FlagsByte(s.flags))];
    Append(buffer, done, 14, Be16(s.windowSize));
    done := done + Be16(s.windowSize);
    Append(buffer, done, 16, Be16(0));
    done := done + Be16(0);
    Append(buffer, done, 18, Be16(s.urgentPointer));
    done := done + Be16(s.urgentPointer);
    Append(buffer, done, TCP_HEADER_MIN_LENGTH, s.options);
    done := done + s.options;
    Append(buffer, done, headerLength, s.payload);
    assert done == TcpHead(s)
      + Middle(Low8(OffsetByte(headerLength, s.reserved)), Low8(FlagsByte(s.flags)), s.windowSize, s.urgentPointer)
        + s.options;
    assert buffer[..] == done + s.payload;
  }
}
