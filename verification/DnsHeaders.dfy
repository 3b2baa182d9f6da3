/**
 DNS message headers (packages/dns/src/wire.ts, section 4.1.1 of RFC 1035): the identifier, two bytes
 of flags and codes that are put together and taken apart bit by bit, and the counts of the sections.
 */
module DnsHeaders {
  import opened Options
  import opened Bits
  import opened Bytes
  import opened Buffers
  import opened DnsText
  import Transport

  // ---------------------------------------------------------------- codes

  function OpCode(op: string): Option<nat> {
    if op == "QUERY" then Some(0)
    else if op == "IQUERY" then Some(1)
    else if op == "STATUS" then Some(2)
    else if op == "NOTIFY" then Some(4)
    else if op == "UPDATE" then Some(5)
    else None
  }

  function OpName(code: int): Option<string> {
    match code
    case 0 => Some("QUERY")
    case 1 => Some("IQUERY")
    case 2 => Some("STATUS")
    case 4 => Some("NOTIFY")
    case 5 => Some("UPDATE")
    case _ => None
  }

  function RCode(r: string): Option<nat> {
    if r == "NOERROR" then Some(0)
    else if r == "FORMERR" then Some(1)
    else if r == "SERVFAIL" then Some(2)
    else if r == "NXDOMAIN" then Some(3)
    else if r == "NOTIMP" then Some(4)
    else if r == "REFUSED" then Some(5)
    else None
  }

  function RCodeName(code: int): Option<string> {
    match code
    case 0 => Some("NOERROR")
    case 1 => Some("FORMERR")
    case 2 => Some("SERVFAIL")
    case 3 => Some("NXDOMAIN")
    case 4 => Some("NOTIMP")
    case 5 => Some("REFUSED")
    case _ => None
  }

  /** Names and codes stand for each other. */
  lemma CodesMatch(name: string, code: nat)
    ensures OpCode(name) == Some(code) <==> OpName(code) == Some(name)
    ensures RCode(name) == Some(code) <==> RCodeName(code) == Some(name)
    ensures OpCode(name) == Some(code) || RCode(name) == Some(code) ==> code < 16
  {
  }

  // ---------------------------------------------------------------- headers

  datatype Header = Header(
    id: nat,
    isResponse: bool,
    opcode: string,
    isAuthoritativeAnswer: bool,
    isTruncated: bool,
    isRecursionDesired: bool,
    isRecursionAvailable: bool,
    rcode: string,
    questionCount: nat,
    answerCount: nat,
    authorityCount: nat,
    additionalCount: nat)

  const HEADER_LENGTH: nat := 12

  function ResponseAndOp(isResponse: bool, op: nat): int {
    BitOr(Transport.If(isResponse, 0x80), Shl(BitAnd(op, 0x0f), 3))
  }

  function FirstFlags(h: Header, op: nat): int {
    Transport.WithFlag(
      Transport.WithFlag(
        Transport.WithFlag(
          ResponseAndOp(h.isResponse, op),
          h.isAuthoritativeAnswer, 0x04),
        h.isTruncated, 0x02),
      h.isRecursionDesired, 0x01)
  }

  function SecondFlags(h: Header, rcode: nat): int {
    BitOr(Transport.If(h.isRecursionAvailable, 0x80), BitAnd(rcode, 0x0f))
  }

  /** `serializeHeader` */
  function SerializeHeader(h: Header): (r: Option<Data>)
    ensures r.Some? ==> |r.value| == HEADER_LENGTH
  {
    var op :- OpCode(h.opcode);
    var rcode :- RCode(h.rcode);
    Some(Be16(h.id) + [Low8(FirstFlags(h, op))] + [Low8(SecondFlags(h, rcode))] + Counts(h))
  }

  function Counts(h: Header): (d: Data)
    ensures |d| == 8
  {
    Be16(h.questionCount) + Be16(h.answerCount) + Be16(h.authorityCount) + Be16(h.additionalCount)
  }

  /** `parseHeader` */
  function ParseHeader(data: Data): Option<Header> {
    if |data| < HEADER_LENGTH then None
    else
      var op :- OpName(BitAnd(Sar(data[2], 3), 0x0f));
      var rcode :- RCodeName(BitAnd(data[3], 0x0f));
      Some(Header(
        Get16(data, 0),
        BitAnd(data[2], 0x80) != 0,
        op,
        BitAnd(data[2], 0x04) != 0,
        BitAnd(data[2], 0x02) != 0,
        BitAnd(data[2], 0x01) != 0,
        BitAnd(data[3], 0x80) != 0,
        rcode,
        Get16(data, 4),
        Get16(data, 6),
        Get16(data, 8),
        Get16(data, 10)))
  }

  predicate HeaderWellFormed(h: Header) {
    && h.id < 0x1_0000 && OpCode(h.opcode).Some? && RCode(h.rcode).Some?
    && h.questionCount < 0x1_0000 && h.answerCount < 0x1_0000
    && h.authorityCount < 0x1_0000 && h.additionalCount < 0x1_0000
  }

  lemma LowNibble(n: nat)
    requires n < 0x100
    ensures BitAnd(n, 0x0f) == n % 16
  {
    assert Pow2(4) == 16 by {
      PowersUsed();
    }
    AndLow(n, 4);
    SmallAnd(n, 0x0f, n % 16);
  }

  lemma HighOr(high: nat, low: nat)
    requires high <= 1 && low < 128
    ensures BitOr(128 * high, low) == 128 * high + low
  {
    assert Pow2(7) == 128 by {
      PowersUsed();
    }
    OrLow(high, low, 7);
    SmallOr(128 * high, low, 128 * high + low);
  }

  lemma ShiftedOp(op: nat)
    requires op < 16
    ensures Shl(BitAnd(op, 0x0f), 3) == 8 * op
  {
    assert BitAnd(op, 0x0f) == op by {
      LowNibble(op);
    }
    assert Pow2(3) == 8 by {
      PowersUsed();
    }
    Unsigned(8 * op);
  }

  lemma ResponseAndOpValue(response: bool, op: nat)
    requires op < 16
    ensures ResponseAndOp(response, op) == 128 * Transport.Bit(response) + 8 * op
  {
    ShiftedOp(op);
    HighOr(Transport.Bit(response), 8 * op);
  }

  lemma FirstFlagsValue(h: Header, op: nat)
    requires op < 16
    ensures FirstFlags(h, op) == 128 * Transport.Bit(h.isResponse) + 8 * op + 4 * Transport.Bit(h.isAuthoritativeAnswer)
                                 + 2 * Transport.Bit(h.isTruncated) + Transport.Bit(h.isRecursionDesired)
  {
    var x: nat := 16 * Transport.Bit(h.isResponse) + op;
    assert ResponseAndOp(h.isResponse, op) == 8 * x by {
      ResponseAndOpValue(h.isResponse, op);
    }
    AddLowFlags(x, h.isAuthoritativeAnswer, h.isTruncated, h.isRecursionDesired);
  }

  lemma AddLowFlags(x: nat, a: bool, t: bool, d: bool)
    requires x < 32
    ensures Transport.WithFlag(Transport.WithFlag(Transport.WithFlag(8 * x, a, 0x04), t, 0x02), d, 0x01)
         == 8 * x + 4 * Transport.Bit(a) + 2 * Transport.Bit(t) + Transport.Bit(d)
  {
    var y: nat := 2 * x + Transport.Bit(a);
    assert Transport.WithFlag(8 * x, a, 0x04) == 4 * y by {
      Transport.FlagAdded(8 * x, x, 2, 4, a);
    }
    var z: nat := 2 * y + Transport.Bit(t);
    assert Transport.WithFlag(4 * y, t, 0x02) == 2 * z by {
      Transport.FlagAdded(4 * y, y, 1, 2, t);
    }
    Transport.FlagAdded(2 * z, z, 0, 1, d);
  }

  lemma OpShift(r: nat, op: nat, rest: nat, b: nat)
    requires r <= 1 && op < 16 && rest < 8 && b == 8 * (16 * r + op) + rest
    ensures Sar(b, 3) == 16 * r + op
  {
    assert Pow2(3) == 8 by {
      PowersUsed();
    }
    Unsigned(b);
    DivModUnique(b, 8, 16 * r + op, rest);
  }

  lemma OpParses(r: nat, op: nat, rest: nat, b: nat)
    requires r <= 1 && op < 16 && rest < 8 && b == 128 * r + 8 * op + rest
    ensures (BitAnd(b, 0x80) != 0) == (r == 1) && BitAnd(Sar(b, 3), 0x0f) == op
  {
    TopBitParses(r, 8 * op + rest, b);
    OpShift(r, op, rest, b);
    LowNibble(16 * r + op);
    DivModUnique(16 * r + op, 16, r, op);
  }

  lemma LowBitsParse(x: nat, a: nat, t: nat, d: nat, b: nat)
    requires x < 32 && a <= 1 && t <= 1 && d <= 1 && b == 8 * x + 4 * a + 2 * t + d
    ensures (BitAnd(b, 0x04) != 0) == (a == 1) && (BitAnd(b, 0x02) != 0) == (t == 1)
    ensures (BitAnd(b, 0x01) != 0) == (d == 1)
  {
    Transport.SmallPowers(0);
    Transport.SmallPowers(1);
    Transport.SmallPowers(2);
    Transport.BitAt(x, a, 2 * t + d, 0x04, 2, b);
    Transport.BitAt(2 * x + a, t, d, 0x02, 1, b);
    Transport.BitAt(4 * x + 2 * a + t, d, 0, 0x01, 0, b);
  }

  lemma SecondFlagsValue(available: bool, rcode: nat)
    requires rcode < 16
    ensures BitOr(Transport.If(available, 0x80), BitAnd(rcode, 0x0f)) == 128 * Transport.Bit(available) + rcode
  {
    var high: nat := Transport.Bit(available);
    assert Transport.If(available, 0x80) == 128 * high;
    assert BitAnd(rcode, 0x0f) == rcode by {
      LowNibble(rcode);
    }
    HighOr(high, rcode);
  }

  lemma TopBitParses(high: nat, low: nat, b: nat)
    requires high <= 1 && low < 128 && b == 128 * high + low
    ensures (BitAnd(b, 0x80) != 0) == (high == 1)
  {
    assert Pow2(7) == 128 by {
      PowersUsed();
    }
    Transport.BitAt(0, high, low, 0x80, 7, b);
  }

  lemma SecondFlagsParse(high: nat, rcode: nat, b: nat)
    requires high <= 1 && rcode < 16 && b == 128 * high + rcode
    ensures (BitAnd(b, 0x80) != 0) == (high == 1) && BitAnd(b, 0x0f) == rcode
  {
    TopBitParses(high, rcode, b);
    LowNibble(b);
    DivModUnique(b, 16, 8 * high, rcode);
  }

  lemma CountsHold(data: Data, offset: nat, h: Header)
    requires Holds(data, offset, Counts(h)) && HeaderWellFormed(h)
    ensures Get16(data, offset) == h.questionCount && Get16(data, offset + 2) == h.answerCount
    ensures Get16(data, offset + 4) == h.authorityCount && Get16(data, offset + 6) == h.additionalCount
  {
    HoldsParts(data, offset, Be16(h.questionCount) + Be16(h.answerCount) + Be16(h.authorityCount),
      Be16(h.additionalCount));
    HoldsParts(data, offset, Be16(h.questionCount) + Be16(h.answerCount), Be16(h.authorityCount));
    HoldsParts(data, offset, Be16(h.questionCount), Be16(h.answerCount));
    HoldsNumbers(data, offset, h.questionCount);
    HoldsNumbers(data, offset + 2, h.answerCount);
    HoldsNumbers(data, offset + 4, h.authorityCount);
    HoldsNumbers(data, offset + 6, h.additionalCount);
  }

  lemma HeaderParts(data: Data, id: Data, x: Byte, y: Byte, counts: Data)
    requires |id| == 2 && Holds(data, 0, id + [x] + [y] + counts)
    ensures Holds(data, 0, id) && |data| >= 4 && data[2] == x && data[3] == y && Holds(data, 4, counts)
  {
    HoldsParts(data, 0, id + [x] + [y], counts);
    HoldsParts(data, 0, id + [x], [y]);
    HoldsParts(data, 0, id, [x]);
  }

  /** What the flag bytes of a header are read as. */
  ghost predicate FlagsRead(h: Header, op: nat, rcode: nat, x: int, y: int) {
    && (BitAnd(x, 0x80) != 0) == h.isResponse && BitAnd(Sar(x, 3), 0x0f) == op
    && (BitAnd(x, 0x04) != 0) == h.isAuthoritativeAnswer && (BitAnd(x, 0x02) != 0) == h.isTruncated
    && (BitAnd(x, 0x01) != 0) == h.isRecursionDesired
    && (BitAnd(y, 0x80) != 0) == h.isRecursionAvailable && BitAnd(y, 0x0f) == rcode
  }

  lemma FlagsHold(h: Header, op: nat, rcode: nat, x: nat, y: nat)
    requires op < 16 && rcode < 16
    requires x == 128 * Transport.Bit(h.isResponse) + 8 * op + 4 * Transport.Bit(h.isAuthoritativeAnswer)
                  + 2 * Transport.Bit(h.isTruncated) + Transport.Bit(h.isRecursionDesired)
    requires y == 128 * Transport.Bit(h.isRecursionAvailable) + rcode
    ensures FlagsRead(h, op, rcode, x, y)
  {
    var r, a, t, d := Transport.Bit(h.isResponse), Transport.Bit(h.isAuthoritativeAnswer), Transport.Bit(h.isTruncated),
                      Transport.Bit(h.isRecursionDesired);
    OpParses(r, op, 4 * a + 2 * t + d, x);
    LowBitsParse(16 * r + op, a, t, d, x);
    SecondFlagsParse(Transport.Bit(h.isRecursionAvailable), rcode, y);
  }

  lemma FirstByte(h: Header, op: nat, x: nat)
    requires op < 16 && x == 128 * Transport.Bit(h.isResponse) + 8 * op + 4 * Transport.Bit(h.isAuthoritativeAnswer)
                             + 2 * Transport.Bit(h.isTruncated) + Transport.Bit(h.isRecursionDesired)
    ensures Low8(FirstFlags(h, op)) == x
  {
    assert FirstFlags(h, op) == x by {
      FirstFlagsValue(h, op);
    }
    LowIs(FirstFlags(h, op), x);
  }

  lemma SecondByte(h: Header, rcode: nat, y: nat)
    requires rcode < 16 && y == 128 * Transport.Bit(h.isRecursionAvailable) + rcode
    ensures Low8(SecondFlags(h, rcode)) == y
  {
    SecondFlagsValue(h.isRecursionAvailable, rcode);
    LowIs(SecondFlags(h, rcode), y);
  }

  lemma HeaderFlags(h: Header, op: nat, rcode: nat, x: int, y: int)
    requires op < 16 && rcode < 16 && x == Low8(FirstFlags(h, op)) && y == Low8(SecondFlags(h, rcode))
    ensures FlagsRead(h, op, rcode, x, y)
  {
    var first: nat := 128 * Transport.Bit(h.isResponse) + 8 * op + 4 * Transport.Bit(h.isAuthoritativeAnswer)
                      + 2 * Transport.Bit(h.isTruncated) + Transport.Bit(h.isRecursionDesired);
    var second: nat := 128 * Transport.Bit(h.isRecursionAvailable) + rcode;
    FirstByte(h, op, first);
    SecondByte(h, rcode, second);
    FlagsHold(h, op, rcode, first, second);
  }

  lemma HeaderAssembled(data: Data, h: Header, op: nat, rcode: nat)
    requires |data| >= HEADER_LENGTH && FlagsRead(h, op, rcode, data[2], data[3])
    requires OpName(op) == Some(h.opcode) && RCodeName(rcode) == Some(h.rcode)
    requires Get16(data, 0) == h.id && Get16(data, 4) == h.questionCount && Get16(data, 6) == h.answerCount
    requires Get16(data, 8) == h.authorityCount && Get16(data, 10) == h.additionalCount
    ensures ParseHeader(data) == Some(h)
  {
  }

  lemma HeaderBytes(data: Data, h: Header, op: nat, rcode: nat)
    requires HeaderWellFormed(h) && OpCode(h.opcode) == Some(op) && RCode(h.rcode) == Some(rcode)
    requires SerializeHeader(h).Some? && Holds(data, 0, SerializeHeader(h).value)
    ensures |data| >= HEADER_LENGTH && Get16(data, 0) == h.id && Holds(data, 4, Counts(h))
    ensures data[2] == Low8(FirstFlags(h, op)) && data[3] == Low8(SecondFlags(h, rcode))
  {
    HeaderParts(data, Be16(h.id), Low8(FirstFlags(h, op)), Low8(SecondFlags(h, rcode)), Counts(h));
    HoldsNumbers(data, 0, h.id);
  }

  lemma HeaderReads(data: Data, h: Header, op: nat, rcode: nat)
    requires HeaderWellFormed(h) && OpCode(h.opcode) == Some(op) && RCode(h.rcode) == Some(rcode) && op < 16
    requires rcode < 16
    requires SerializeHeader(h).Some? && Holds(data, 0, SerializeHeader(h).value)
    ensures |data| >= HEADER_LENGTH && FlagsRead(h, op, rcode, data[2], data[3])
    ensures Get16(data, 0) == h.id && Get16(data, 4) == h.questionCount && Get16(data, 6) == h.answerCount
    ensures Get16(data, 8) == h.authorityCount && Get16(data, 10) == h.additionalCount
  {
    HeaderBytes(data, h, op, rcode);
    CountsHold(data, 4, h);
    HeaderFlags(h, op, rcode, data[2], data[3]);
  }

  lemma HeaderParses(data: Data, h: Header)
    requires HeaderWellFormed(h) && SerializeHeader(h).Some? && Holds(data, 0, SerializeHeader(h).value)
    ensures ParseHeader(data) == Some(h)
  {
    var op, rcode := OpCode(h.opcode).value, RCode(h.rcode).value;
    CodesMatch(h.opcode, op);
    CodesMatch(h.rcode, rcode);
    HeaderReads(data, h, op, rcode);
    HeaderAssembled(data, h, op, rcode);
  }
}
