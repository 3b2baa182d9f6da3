/** Which bytes are accepted as DNS headers, questions and records, and what they are read as. */
module DnsAccepted {
  // packages/dns/src/wire.ts

  import opened Options
  import opened Bits
  import opened Bytes
  import opened Buffers
  import opened DnsText
  import opened DnsRecords
  import opened DnsHeaders
  import opened WireFormats
  import DnsFormats
  import Transport
  import Ipv4Text
  import Ipv6Text

  // ---------------------------------------------------------------- headers

  ghost predicate HeaderReads(d: Data, h: Header)
    requires |d| >= 12
  {
    && Number16(d, 0, h.id)
    && Transport.Bit(h.isResponse) == d[2] / 128 && Transport.Bit(h.isAuthoritativeAnswer) == d[2] / 4 % 2
    && Transport.Bit(h.isTruncated) == d[2] / 2 % 2 && Transport.Bit(h.isRecursionDesired) == d[2] % 2
    && Transport.Bit(h.isRecursionAvailable) == d[3] / 128
    && DnsFormats.HeaderNumbers(h, d[2] / 8 % 16, d[3] % 16)
    && Number16(d, 4, h.questionCount) && Number16(d, 6, h.answerCount)
    && Number16(d, 8, h.authorityCount) && Number16(d, 10, h.additionalCount)
  }

  /**
   A header is accepted exactly if its kind of query and its response code are known; the reserved bits do not
   matter.
   */
  lemma HeaderAcceptedIff(d: Data)
    ensures ParseHeader(d).Some? <==> |d| >= 12 && d[2] / 8 % 16 in {0, 1, 2, 4, 5} && d[3] % 16 <= 5
    ensures ParseHeader(d).Some? ==> |d| >= 12 && HeaderReads(d, ParseHeader(d).value)
  {
    if |d| >= 12 {
      OpBits(d[2]);
      LowNibble(d[3]);
      if ParseHeader(d).Some? {
        FlagBitsOf(d[2], d[3]);
        CountsAre(d);
      }
    }
  }

  lemma OpBits(b: Byte)
    ensures BitAnd(Sar(b, 3), 0x0f) == b / 8 % 16
  {
    assert Pow2(3) == 8 by {
      PowersUsed();
    }
    Unsigned(b);
    LowNibble(b / 8);
  }

  lemma FlagBitsOf(x: Byte, y: Byte)
    ensures Transport.Bit(BitAnd(x, 0x80) != 0) == x / 128 && Transport.Bit(BitAnd(x, 0x04) != 0) == x / 4 % 2
    ensures Transport.Bit(BitAnd(x, 0x02) != 0) == x / 2 % 2 && Transport.Bit(BitAnd(x, 0x01) != 0) == x % 2
    ensures Transport.Bit(BitAnd(y, 0x80) != 0) == y / 128
  {
    Transport.SmallPowers(0);
    Transport.SmallPowers(1);
    Transport.SmallPowers(2);
    assert Pow2(7) == 128 by {
      PowersUsed();
    }
    BitSet(x, 7, 128);
    BitSet(x, 2, 4);
    BitSet(x, 1, 2);
    BitSet(x, 0, 1);
    BitSet(y, 7, 128);
  }

  lemma CountsAre(d: Data)
    requires ParseHeader(d).Some?
    ensures |d| >= 12
    ensures var h := ParseHeader(d).value;
      && Number16(d, 0, h.id) && Number16(d, 4, h.questionCount) && Number16(d, 6, h.answerCount)
      && Number16(d, 8, h.authorityCount) && Number16(d, 10, h.additionalCount)
  {
    GetsAre(d, 0);
    GetsAre(d, 4);
    GetsAre(d, 6);
    GetsAre(d, 8);
    GetsAre(d, 10);
  }

  // ---------------------------------------------------------------- questions and records

  lemma NamesOfNumbers(n: nat)
    ensures TypeName(n).Some? <==> n in {1, 2, 5, 6, 12, 15, 16, 28, 33, 255}
    ensures TypeName(n).Some? ==> DnsFormats.TypeNumber(TypeName(n).value, n)
  {
  }

  /** A question is accepted exactly if its four fixed bytes are there, its type is known and its class is IN. */
  lemma QuestionAcceptedIff(utf8: Utf8, d: Data, offset: nat)
    ensures var at := ParseName(utf8, d, offset).1; var q := ParseQuestion(utf8, d, offset);
      && (q.Some? <==>
            && at + 4 <= |d| && Get16(d, at) in {1, 2, 5, 6, 12, 15, 16, 28, 33, 255} && Number16(d, at + 2, 1))
      && (q.Some? ==>
            && q.value.end == at + 4 && q.value.value.name == ParseName(utf8, d, offset).0
            && DnsFormats.TypeNumber(q.value.value.qtype, Get16(d, at)) && q.value.value.cls == "IN")
  {
    var at := ParseName(utf8, d, offset).1;
    if at + 4 <= |d| {
      NamesOfNumbers(Get16(d, at));
      GetsAre(d, at + 2);
    }
  }

  /** The bytes of the data of a record, cut where the message ends. */
  function DataBytes(d: Data, at: nat, length: nat): Data {
    Between(d, at, at + length)
  }

  ghost predicate DataAccepted(d: Data, t: nat, at: nat, length: nat) {
    || (t == 1 && |DataBytes(d, at, length)| == 4) || (t == 28 && |DataBytes(d, at, length)| == 16)
    || t == 16 || t == 12
  }

  ghost predicate DataReads(utf8: Utf8, d: Data, t: nat, at: nat, length: nat, rd: RecordData, end: nat) {
    match rd
    case A(ip) => t == 1 && Some(ip) == Ipv4Text.Print(DataBytes(d, at, length)) && end == at + length
    case AAAA(ip) =>
      t == 28 && |DataBytes(d, at, length)| == 16 && ip == Ipv6Text.Canonical(DataBytes(d, at, length))
      && end == at + length
    case TXT(value) => t == 16 && (value, end) == ParseTxt(utf8, d, at, length)
    case PTR(ptr) => t == 12 && (ptr, end) == ParseName(utf8, d, at)
  }

  lemma DataAcceptedIff(utf8: Utf8, d: Data, name: string, t: nat, at: nat, length: nat)
    requires TypeName(t) == Some(name)
    ensures ParseData(utf8, d, name, at, length).Some? <==> DataAccepted(d, t, at, length)
    ensures var r := ParseData(utf8, d, name, at, length);
      r.Some? ==> DataReads(utf8, d, t, at, length, r.value.value, r.value.end)
  {
    TypesMatch(name, t);
    NamesOfNumbers(t);
  }

  /**
   A record is accepted exactly if its ten fixed bytes are there, its class is IN, and it is an A record of four
   bytes, an AAAA record of sixteen, a TXT or a PTR record; the length of a PTR record does not matter, and where
   the message ends early the bytes that are left count.
   */
  lemma RecordAcceptedIff(utf8: Utf8, d: Data, offset: nat)
    ensures var at := ParseName(utf8, d, offset).1; var r := ParseRecord(utf8, d, offset);
      && (r.Some? <==>
            && at + 10 <= |d| && Number16(d, at + 2, 1) && DataAccepted(d, Get16(d, at), at + 10, Get16(d, at + 8)))
      && (r.Some? ==>
            && r.value.value.name == ParseName(utf8, d, offset).0 && r.value.value.cls == "IN"
            && Number32(d, at + 4, r.value.value.ttl)
            && DataReads(utf8, d, Get16(d, at), at + 10, Get16(d, at + 8), r.value.value.data, r.value.end))
  {
    var at := ParseName(utf8, d, offset).1;
    if at + 10 <= |d| {
      NamesOfNumbers(Get16(d, at));
      GetsAre(d, at + 2);
      GetsAre(d, at + 4);
      if TypeName(Get16(d, at)).Some? {
        DataAcceptedIff(utf8, d, TypeName(Get16(d, at)).value, Get16(d, at), at + 10, Get16(d, at + 8));
      }
    }
  }
}
