/** Exactly which texts are read as addresses, and as what. */
module AddressTexts {
  // packages/wire/src/ipv4.ts, packages/wire/src/ipv6.ts, packages/tcpip/src/ip.ts

  import opened Options
  import opened Bytes
  import opened Text
  import opened Ip
  import Ipv4Text
  import Ipv6Text
  import Ipv6Compressed

  /** The text is a number in decimal notation, of any length, possibly with leading zeros. */
  ghost predicate Decimal(s: string, n: nat) {
    && s != "" && (forall i :: 0 <= i < |s| ==> '0' <= s[i] <= '9')
    && n == DecimalValue(s)
  }

  function DecimalValue(s: string): nat
    requires forall i :: 0 <= i < |s| ==> '0' <= s[i] <= '9'
  {
    if s == "" then 0 else 10 * DecimalValue(s[..|s| - 1]) + (s[|s| - 1] as int - '0' as int)
  }

  lemma {:induction false} NumberIsDecimal(s: string)
    ensures Number(s, 10).Some? <==> forall i :: 0 <= i < |s| ==> '0' <= s[i] <= '9'
    ensures Number(s, 10).Some? ==> Number(s, 10).value == DecimalValue(s)
  {
    if s != "" {
      var front, last := s[..|s| - 1], s[|s| - 1];
      NumberIsDecimal(front);
      assert (forall i :: 0 <= i < |s| ==> '0' <= s[i] <= '9') <==>
        (forall i :: 0 <= i < |front| ==> '0' <= front[i] <= '9') && '0' <= last <= '9' by {
        assert forall i :: 0 <= i < |front| ==> s[i] == front[i];
      }
    }
  }

  lemma DecimalIff(s: string, n: nat)
    ensures Decimal(s, n) <==> s != "" && Number(s, 10) == Some(n)
  {
    NumberIsDecimal(s);
  }

  // ---------------------------------------------------------------- IPv4

  /** Four decimal numbers up to 255, of one to three digits each, with dots between. */
  ghost predicate DottedQuad(ip: string, parts: seq<string>, b: Data) {
    && |parts| == 4 && |b| == 4 && AllFree(parts, '.') && ip == Join(parts, '.')
    && forall k :: 0 <= k < 4 ==> |parts[k]| <= 3 && Decimal(parts[k], b[k])
  }

  lemma OctetIff(part: string, b: Byte)
    ensures Ipv4Text.Octet(part) == Some(b) <==> |part| <= 3 && Decimal(part, b)
  {
    DecimalIff(part, b);
  }

  lemma {:induction false} OctetsIff(parts: seq<string>, b: Data)
    ensures Ipv4Text.Octets(parts) == Some(b) <==>
      |parts| == |b| && forall k :: 0 <= k < |b| ==> Ipv4Text.Octet(parts[k]) == Some(b[k])
  {
    if Ipv4Text.Octets(parts) == Some(b) {
      OctetsApart(parts, b);
    }
    if |parts| == |b| && forall k :: 0 <= k < |b| ==> Ipv4Text.Octet(parts[k]) == Some(b[k]) {
      Ipv4Text.OctetsFrom(parts, b);
    }
  }

  lemma {:induction false} OctetsApart(parts: seq<string>, b: Data)
    requires Ipv4Text.Octets(parts) == Some(b)
    ensures |parts| == |b| && forall k :: 0 <= k < |b| ==> Ipv4Text.Octet(parts[k]) == Some(b[k])
  {
    if parts != [] {
      OctetsApart(parts[1..], b[1..]);
      forall k | 0 <= k < |b| ensures Ipv4Text.Octet(parts[k]) == Some(b[k]) {
        assert k > 0 ==> parts[k] == parts[1..][k - 1] && b[k] == b[1..][k - 1];
      }
    }
  }

  /** A text is read as an IPv4 address exactly if it is such a notation of it. */
  lemma Ipv4ReadIff(ip: string, b: Data)
    ensures Ipv4Text.Serialize(ip) == Some(b) <==> exists parts :: DottedQuad(ip, parts, b)
  {
    if Ipv4Text.Serialize(ip) == Some(b) {
      var parts := Split(ip, '.');
      JoinSplit(ip, '.');
      OctetsIff(parts, b);
      forall k | 0 <= k < 4 ensures |parts[k]| <= 3 && Decimal(parts[k], b[k]) {
        OctetIff(parts[k], b[k]);
      }
      assert DottedQuad(ip, parts, b);
    }
    if parts :| DottedQuad(ip, parts, b) {
      SplitJoin(parts, '.');
      forall k | 0 <= k < 4 ensures Ipv4Text.Octet(parts[k]) == Some(b[k]) {
        OctetIff(parts[k], b[k]);
      }
      OctetsIff(parts, b);
    }
  }

  // ---------------------------------------------------------------- IPv6

  /**
   A text is read as an IPv6 address exactly if its groups, where a `::` stands for as many zeros as are
   missing, are eight, of at most four hexadecimal digits each, with these values.
   */
  lemma Ipv6ReadIff(ip: string, b: Data)
    ensures Ipv6Text.Serialize(ip) == Some(b) <==>
      exists groups: seq<string>, gap: Option<nat>, v: seq<Ipv6Text.Group> ::
        ip == Join(groups, ':') && Ipv6Compressed.Reads(groups, gap, v) && b == Ipv6Text.ToBytes(v)
  {
    if Ipv6Text.Serialize(ip) == Some(b) {
      var gap, v := Ipv6Compressed.SerializedReads(ip);
      JoinSplit(ip, ':');
      assert ip == Join(Split(ip, ':'), ':');
    }
    if groups: seq<string>, gap: Option<nat>, v: seq<Ipv6Text.Group> :|
      ip == Join(groups, ':') && Ipv6Compressed.Reads(groups, gap, v) && b == Ipv6Text.ToBytes(v)
    {
      Ipv6Compressed.ReadsSerialized(groups, gap, v);
    }
  }

  // ---------------------------------------------------------------- CIDR notation

  /** An address, a slash, and a decimal number of bits that the address has. */
  ghost predicate Notation(text: string, address: string, prefix: string, c: Cidr) {
    && text == address + "/" + prefix && address != ""
    && ParseAddress(address) == Some(c.address) && Decimal(prefix, c.prefix) && c.prefix <= 8 * |c.address.bytes|
  }

  lemma {:induction false} LastIndexParts(s: string, c: char) returns (before: string, behind: string)
    requires LastIndexOf(s, c) >= 0
    ensures s == before + [c] + behind && |before| == LastIndexOf(s, c) && Free(behind, c)
    decreases |s|
  {
    var last := s[|s| - 1];
    if last == c {
      before, behind := s[..|s| - 1], "";
    } else {
      var rest;
      before, rest := LastIndexParts(s[..|s| - 1], c);
      behind := rest + [last];
      OneMore(s, before + [c], rest, last);
    }
  }

  lemma OneMore(s: string, front: string, rest: string, last: char)
    requires s != "" && s[..|s| - 1] == front + rest && s[|s| - 1] == last
    ensures s == front + (rest + [last])
  {
  }

  lemma DecimalIsFree(s: string, n: nat, c: char)
    requires Decimal(s, n) && !('0' <= c <= '9')
    ensures Free(s, c)
  {
  }

  /** A text is read as a CIDR value exactly if it is such a notation of it; a route's needs clear host bits besides. */
  lemma CidrReadIff(text: string, c: Cidr)
    ensures ParseInterfaceCidr(text) == Some(c) <==> exists address, prefix :: Notation(text, address, prefix, c)
    ensures ParseCidr(text) == Some(c) <==>
      ParseInterfaceCidr(text) == Some(c) && Mask(c.address.bytes, c.prefix) == c.address.bytes
  {
    if ParseInterfaceCidr(text) == Some(c) {
      var slash := LastIndexOf(text, '/');
      var address, prefix := LastIndexParts(text, '/');
      assert text[..slash] == address && text[slash + 1..] == prefix;
      DecimalIff(prefix, c.prefix);
      assert Notation(text, address, prefix, c);
    }
    if address, prefix :| Notation(text, address, prefix, c) {
      DecimalIff(prefix, c.prefix);
      DecimalIsFree(prefix, c.prefix, '/');
      ParsesAtSlash(text, address, prefix, c);
    }
  }
}
