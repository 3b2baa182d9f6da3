/** Addresses, prefixes and CIDR notation (packages/tcpip/src/ip.ts). */
module Ip {
  import opened Options
  import opened Bits
  import opened Bytes
  import opened Text
  import Ipv4Text
  import Ipv6Text

  datatype Family = V4 | V6

  function Width(f: Family): nat {
    if f == V4 then 4 else 16
  }

  datatype Address = Address(family: Family, bytes: Data)

  predicate WellFormed(a: Address) {
    |a.bytes| == Width(a.family)
  }

  // ---------------------------------------------------------------- masks

  /** The byte mask for the first `bits` bits, `(0xff << (8 - bits)) & 0xff`. */
  function ByteMask(bits: nat): int
    requires bits < 8
  {
    BitAnd(Shl(0xff, 8 - bits), 0xff)
  }

  /** The first `bits` bits of a byte, followed by zeros. */
  function MaskByte(b: Byte, bits: nat): (r: Byte)
    requires 0 < bits < 8
  {
    match bits
    case 1 => b / 128 * 128
    case 2 => b / 64 * 64
    case 3 => b / 32 * 32
    case 4 => b / 16 * 16
    case 5 => b / 8 * 8
    case 6 => b / 4 * 4
    case 7 => b / 2 * 2
  }

  lemma ByteMaskValue(bits: nat, d: nat)
    requires 0 < bits < 8 && d == Pow2(8 - bits) && d <= 128 && 0xff * d % 256 == 256 - d
    ensures ByteMask(bits) == 256 - d
  {
    AndLow(0xff * d, 8);
    assert Pow2(8) == 256 by {
      PowersUsed();
    }
    assert Shl(0xff, 8 - bits) == 0xff * d;
  }

  lemma SmallMask(b: Byte, mask: nat, r: int)
    requires mask < 256 && r <= b && And(b, mask) == r
    ensures BitAnd(b, mask) == r
  {
    SmallAnd(b, mask, r);
  }

  lemma MaskByteIsAndFor(b: Byte, bits: nat, d: nat)
    requires 0 < bits < 8 && d == Pow2(8 - bits) && d <= 128 && 0xff * d % 256 == 256 - d
    ensures BitAnd(b, ByteMask(bits)) == b / d * d
  {
    ByteMaskValue(bits, d);
    AndHighByte(b, 8 - bits, d);
    RoundedDown(b, d);
    SmallMask(b, 256 - d, b / d * d);
  }

  lemma RoundedDown(b: nat, d: nat)
    requires d > 0
    ensures 0 <= b / d * d <= b
  {
  }

  lemma AndHighByte(b: Byte, k: nat, d: nat)
    requires k < 8 && d == Pow2(k) && d <= 128
    ensures And(b, 256 - d) == b / d * d
  {
    assert Pow2(8) == 256 by {
      PowersUsed();
    }
    AndHigh(b, k, 8);
  }

  /** The weight of the last bit that is kept. */
  function Unit(bits: nat): (d: nat)
    requires 0 < bits < 8
    ensures 0 < d <= 128 && 0xff * d % 256 == 256 - d
  {
    match bits
    case 1 => 128
    case 2 => 64
    case 3 => 32
    case 4 => 16
    case 5 => 8
    case 6 => 4
    case 7 => 2
  }

  lemma UnitIsPower(bits: nat)
    requires 0 < bits < 8
    ensures Unit(bits) == Pow2(8 - bits)
  {
    PowersUsed();
  }

  lemma MaskByteUnit(b: Byte, bits: nat)
    requires 0 < bits < 8
    ensures MaskByte(b, bits) == b / Unit(bits) * Unit(bits)
  {
  }

  /** Masking a byte with the operators of the program clears its low bits. */
  lemma MaskByteIsAnd(b: Byte, bits: nat)
    requires 0 < bits < 8
    ensures BitAnd(b, ByteMask(bits)) == MaskByte(b, bits)
  {
    UnitIsPower(bits);
    MaskByteUnit(b, bits);
    MaskByteIsAndFor(b, bits, Unit(bits));
  }

  /** The first `prefix` bits of `bytes`, followed by zeros. */
  function Mask(bytes: Data, prefix: nat): (r: Data)
    ensures |r| == |bytes|
  {
    if bytes == [] then []
    else if prefix >= 8 then [bytes[0]] + Mask(bytes[1..], prefix - 8)
    else [if prefix == 0 then 0 else MaskByte(bytes[0], prefix)] + Mask(bytes[1..], 0)
  }

  /** Byte `k` of the masked address. */
  function MaskedAt(bytes: Data, prefix: nat, k: nat): Byte
    requires k < |bytes|
  {
    if k < prefix / 8 then bytes[k]
    else if k == prefix / 8 && prefix % 8 > 0 then MaskByte(bytes[k], prefix % 8)
    else 0
  }

  lemma {:induction false} MaskAt(bytes: Data, prefix: nat, k: nat)
    requires k < |bytes|
    ensures Mask(bytes, prefix)[k] == MaskedAt(bytes, prefix, k)
  {
    if k > 0 {
      if prefix >= 8 {
        MaskAt(bytes[1..], prefix - 8, k - 1);
        assert (prefix - 8) / 8 == prefix / 8 - 1 && (prefix - 8) % 8 == prefix % 8;
      } else {
        MaskAt(bytes[1..], 0, k - 1);
      }
    }
  }

  /** `maskAddress`: the array is copied, one byte is masked and the rest is cleared. */
  method MaskAddress(bytes: Data, prefixLength: nat) returns (masked: array<Byte>)
    ensures fresh(masked) && masked[..] == Mask(bytes, prefixLength)
  {
    masked := new Byte[|bytes|](i requires 0 <= i < |bytes| => bytes[i]);
    var wholeBytes, partialBits := prefixLength / 8, prefixLength % 8;
    if partialBits > 0 && wholeBytes < masked.Length {
      MaskByteIsAnd(masked[wholeBytes], partialBits);
      masked[wholeBytes] := BitAnd(masked[wholeBytes], ByteMask(partialBits));
    }
    ClearFrom(masked, wholeBytes + if partialBits > 0 then 1 else 0);
    forall k | 0 <= k < |bytes| ensures masked[k] == Mask(bytes, prefixLength)[k] {
      MaskAt(bytes, prefixLength, k);
    }
  }

  /** The clearing loop of `maskAddress`. */
  method ClearFrom(masked: array<Byte>, first: nat)
    modifies masked
    ensures forall k :: 0 <= k < masked.Length ==> masked[k] == if k < first then old(masked[k]) else 0
  {
    var index := first;
    while index < masked.Length
      invariant first <= index
      invariant forall k :: 0 <= k < masked.Length ==> masked[k] == if first <= k < index then 0 else old(masked[k])
    {
      masked[index] := 0;
      index := index + 1;
    }
  }

  // ---------------------------------------------------------------- matching

  /** `address` lies in the network: both have the same length and the same first `prefix` bits. */
  ghost predicate Matches(address: Data, network: Data, prefix: nat) {
    |address| == |network| && Mask(address, prefix) == Mask(network, prefix)
  }

  lemma MatchesByBytes(address: Data, network: Data, prefix: nat)
    requires |address| == |network| && prefix <= 8 * |address|
    ensures Matches(address, network, prefix) <==>
      && (forall k :: 0 <= k < prefix / 8 ==> address[k] == network[k])
      && (prefix % 8 > 0 ==> MaskByte(address[prefix / 8], prefix % 8) == MaskByte(network[prefix / 8], prefix % 8))
  {
    forall k | 0 <= k < |address|
      ensures Mask(address, prefix)[k] == MaskedAt(address, prefix, k)
      ensures Mask(network, prefix)[k] == MaskedAt(network, prefix, k)
    {
      MaskAt(address, prefix, k);
      MaskAt(network, prefix, k);
    }
    if Matches(address, network, prefix) {
      forall k | 0 <= k < |address| ensures MaskedAt(address, prefix, k) == MaskedAt(network, prefix, k) {
        assert Mask(address, prefix)[k] == Mask(network, prefix)[k];
      }
      assert forall k :: 0 <= k < prefix / 8 ==> address[k] == MaskedAt(address, prefix, k);
      if prefix % 8 > 0 {
        assert MaskedAt(address, prefix, prefix / 8) == MaskedAt(network, prefix, prefix / 8);
      }
    }
  }

  /** `prefixMatches` compares bytes, but agrees with equality of the masked addresses. */
  method PrefixMatches(address: Data, network: Data, prefixLength: nat) returns (r: bool)
    requires prefixLength <= 8 * |network|
    ensures r <==> Matches(address, network, prefixLength)
  {
    if |address| != |network| {
      return false;
    }
    MatchesByBytes(address, network, prefixLength);
    var wholeBytes, partialBits := prefixLength / 8, prefixLength % 8;
    for index := 0 to wholeBytes
      invariant forall k :: 0 <= k < index ==> address[k] == network[k]
    {
      if address[index] != network[index] {
        return false;
      }
    }
    if partialBits == 0 {
      return true;
    }
    var mask := ByteMask(partialBits);
    MaskByteIsAnd(address[wholeBytes], partialBits);
    MaskByteIsAnd(network[wholeBytes], partialBits);
    return BitAnd(address[wholeBytes], mask) == BitAnd(network[wholeBytes], mask);
  }

  lemma MaskByteIdempotent(b: Byte, bits: nat)
    requires 0 < bits < 8
    ensures MaskByte(MaskByte(b, bits), bits) == MaskByte(b, bits)
  {
    var d: nat, q: nat := Unit(bits), b / Unit(bits);
    MaskByteUnit(b, bits);
    MaskByteUnit(MaskByte(b, bits), bits);
    DivModUnique(q * d, d, q, 0);
  }

  /** A network address is its own network address. */
  lemma {:induction false} MaskIdempotent(bytes: Data, prefix: nat)
    ensures Mask(Mask(bytes, prefix), prefix) == Mask(bytes, prefix)
  {
    var once := Mask(bytes, prefix);
    forall k | 0 <= k < |bytes| ensures Mask(once, prefix)[k] == once[k] {
      MaskAt(bytes, prefix, k);
      MaskAt(once, prefix, k);
      if prefix % 8 > 0 {
        MaskByteIdempotent(bytes[k], prefix % 8);
      }
    }
  }

  /** Networks without host bits that match the same address at the same length are the same. */
  lemma MatchedNetworkUnique(address: Data, a: Data, b: Data, prefix: nat)
    requires Mask(a, prefix) == a && Mask(b, prefix) == b
    requires Matches(address, a, prefix) && Matches(address, b, prefix)
    ensures a == b
  {
  }

  // ---------------------------------------------------------------- text

  /** `parseAddress`: IPv4 if it can be read so, else IPv6. */
  function ParseAddress(text: string): Option<Address> {
    var v4 := Ipv4Text.Serialize(text);
    if v4.Some? then Some(Address(V4, v4.value))
    else
      var v6 :- Ipv6Text.Serialize(text);
      Some(Address(V6, v6))
  }

  /** `formatAddress` */
  function FormatAddress(a: Address): string
    requires WellFormed(a)
  {
    if a.family == V4 then Ipv4Text.Print(a.bytes).value else Ipv6Text.Canonical(a.bytes)
  }

  lemma {:induction false} JoinFree(parts: seq<string>, sep: char, c: char)
    requires AllFree(parts, c) && sep != c
    ensures Free(Join(parts, sep), c)
  {
    if parts != [] {
      assert Free(parts[0], c);
      JoinFree(parts[1..], sep, c);
    }
  }

  lemma RecommendedHasNoDot(v: seq<Ipv6Text.Group>, start: nat, length: nat)
    requires start + length <= |v|
    ensures Free(Ipv6Text.Recommended(v, start, length), '.')
  {
    var l, r := v[..start], v[start + length..];
    Ipv6Text.HexShape(v);
    Ipv6Text.HexShape(l);
    Ipv6Text.HexShape(r);
    JoinFree(Ipv6Text.Hex(v), ':', '.');
    JoinFree(Ipv6Text.Hex(l), ':', '.');
    JoinFree(Ipv6Text.Hex(r), ':', '.');
  }

  lemma CanonicalHasNoDot(b: Data)
    requires |b| == 16
    ensures Free(Ipv6Text.Canonical(b), '.')
  {
    Ipv6Text.CompressIsRecommended(b);
    var v := Ipv6Text.ToGroups(b);
    var start, length :| Ipv6Text.Chosen(v, start, length) &&
      Ipv6Text.Canonical(b) == Ipv6Text.Recommended(v, start, length);
    RecommendedHasNoDot(v, start, length);
  }

  /** Reading a formatted address of either family gives the address back. */
  lemma FormatRoundTrip(a: Address)
    requires WellFormed(a)
    ensures ParseAddress(FormatAddress(a)) == Some(a)
  {
    if a.family == V4 {
      Ipv4Text.RoundTrip(a.bytes);
    } else {
      CanonicalHasNoDot(a.bytes);
      SplitFirst(FormatAddress(a), "", '.');
      Ipv6Text.RoundTrip(a.bytes);
    }
  }

  datatype Cidr = Cidr(address: Address, prefix: nat)

  predicate ValidCidr(c: Cidr) {
    WellFormed(c.address) && c.prefix <= 8 * Width(c.address.family)
  }

  /** The canonical text of an address with its prefix length. */
  function CidrText(c: Cidr): string
    requires ValidCidr(c)
  {
    FormatAddress(c.address) + "/" + ToText(c.prefix, 10)
  }

  function Network(c: Cidr): (n: Cidr)
    ensures ValidCidr(c) ==> ValidCidr(n)
  {
    c.(address := c.address.(bytes := Mask(c.address.bytes, c.prefix)))
  }

  /** `s.lastIndexOf(c)` */
  function LastIndexOf(s: string, c: char): (r: int)
    ensures -1 <= r < |s|
  {
    if s == "" then -1 else if s[|s| - 1] == c then |s| - 1 else LastIndexOf(s[..|s| - 1], c)
  }

  lemma {:induction false} LastIndexAt(a: string, c: char, b: string)
    requires Free(b, c)
    ensures LastIndexOf(a + [c] + b, c) == |a|
  {
    if b != "" {
      var s := a + [c] + b;
      assert s[..|s| - 1] == a + [c] + b[..|b| - 1];
      LastIndexAt(a, c, b[..|b| - 1]);
    }
  }

  /** `parseInterfaceCidr` */
  function ParseInterfaceCidr(cidr: string): (r: Option<Cidr>)
  {
    var slash := LastIndexOf(cidr, '/');
    if slash <= 0 || slash == |cidr| - 1 then None
    else
      var address :- ParseAddress(cidr[..slash]);
      var prefix :- Number(cidr[slash + 1..], 10);
      if prefix > 8 * |address.bytes| then None else Some(Cidr(address, prefix))
  }

  /** `parseCidr` refuses host bits. */
  function ParseCidr(cidr: string): Option<Cidr> {
    var c :- ParseInterfaceCidr(cidr);
    if Network(c) != c then None else Some(c)
  }

  /**
   The canonical text names an address and prefix uniquely, so that it may serve as the key of the
   address map and for the comparison of routes; the text of a network passes as a route destination.
   */
  lemma CidrRoundTrip(c: Cidr)
    requires ValidCidr(c)
    ensures ParseInterfaceCidr(CidrText(c)) == Some(c)
    ensures ParseCidr(CidrText(Network(c))) == Some(Network(c))
  {
    CidrTextParses(c);
    CidrTextParses(Network(c));
    MaskIdempotent(c.address.bytes, c.prefix);
  }

  lemma CidrTextParses(c: Cidr)
    requires ValidCidr(c)
    ensures ParseInterfaceCidr(CidrText(c)) == Some(c)
  {
    var a, p := FormatAddress(c.address), ToText(c.prefix, 10);
    FormatRoundTrip(c.address);
    TextIsDigits(c.prefix, 10);
    NumberOfText(c.prefix, 10);
    ParsesAtSlash(CidrText(c), a, p, c);
  }

  lemma ParsesAtSlash(text: string, a: string, p: string, c: Cidr)
    requires text == a + "/" + p && a != "" && p != "" && Free(p, '/')
    requires ParseAddress(a) == Some(c.address) && Number(p, 10) == Some(c.prefix) && c.prefix <= 8 * |c.address.bytes|
    ensures ParseInterfaceCidr(text) == Some(c)
  {
    LastIndexAt(a, '/', p);
    assert text[..|a|] == a && text[|a| + 1..] == p;
  }

  lemma CidrTextInjective(c: Cidr, d: Cidr)
    requires ValidCidr(c) && ValidCidr(d)
    ensures CidrText(c) == CidrText(d) <==> c == d
  {
    CidrTextParses(c);
    CidrTextParses(d);
  }
}
