/** Addresses as reverse lookup names. */
module DnsPtr {
  // packages/dns/src/util.ts (section 3.5 of RFC 1035, section 2.5 of RFC 3596)

  import opened Options
  import opened Bits
  import opened Bytes
  import opened Buffers
  import opened Text
  import opened DnsText
  import Ip
  import Ipv4Text
  import Ipv6Text

  datatype PtrIP = PtrIPv4(ip: string) | PtrIPv6(ip: string)

  function Reverse<T>(s: seq<T>): (r: seq<T>)
    ensures |r| == |s|
  {
    if s == [] then [] else Reverse(s[1..]) + [s[0]]
  }

  /** `[byte >> 4, byte & 0xf].map((n) => n.toString(16))` */
  function NibbleTexts(b: Byte): (r: seq<string>)
    ensures |r| == 2
  {
    NibblesAreBits(b);
    [ToText(Sar(b, 4), 16), ToText(BitAnd(b, 0xf), 16)]
  }

  function Nibbles(b: Data): (r: seq<string>)
    ensures |r| == 2 * |b|
  {
    if b == [] then [] else NibbleTexts(b[0]) + Nibbles(b[1..])
  }

  /** The texts are the two hexadecimal digits of the byte. */
  lemma NibbleDigits(b: Byte)
    ensures NibbleTexts(b) == [[Digit(b / 16)], [Digit(b % 16)]]
  {
    NibblesAreBits(b);
  }

  function ReverseName(parts: seq<string>, zone: string): string {
    Join(Reverse(parts), '.') + "." + zone + ".arpa"
  }

  /** `ipToPtrName` */
  function IpToPtrName(ip: string): Option<string> {
    var parts := Split(ip, '.');
    if |parts| == 4 then Some(ReverseName(parts, "in-addr"))
    else
      var expanded :- Ipv6Text.Expand(ip);
      var bytes :- Ipv6Text.Serialize(expanded);
      Some(ReverseName(Nibbles(bytes), "ip6"))
  }

  function NonEmpty(parts: seq<string>): seq<string> {
    if parts == [] then []
    else if parts[0] == "" then NonEmpty(parts[1..]) else [parts[0]] + NonEmpty(parts[1..])
  }

  /** `s.replace(/(.{4})/g, '$1:')` */
  function Grouped(s: string): string {
    if |s| < 4 then s else s[..4] + ":" + Grouped(s[4..])
  }

  /** `s.replace(/:$/, '')` */
  function WithoutColon(s: string): string {
    if s != "" && s[|s| - 1] == ':' then s[..|s| - 1] else s
  }

  /** `ptrNameToIP` */
  function PtrNameToIP(name: string): Option<PtrIP> {
    var parts := NonEmpty(Reverse(Split(name, '.')));
    if |parts| < 2 || parts[0] != "arpa" then None
    else if parts[1] == "in-addr" then Some(PtrIPv4(Join(parts[2..], '.')))
    else if parts[1] == "ip6" then Some(PtrIPv6(Ipv6Text.Compress(WithoutColon(Grouped(Concat(parts[2..]))))))
    else None
  }

  // ---------------------------------------------------------------- round trip

  lemma {:induction false} ReverseAppend<T>(a: seq<T>, b: seq<T>)
    ensures Reverse(a + b) == Reverse(b) + Reverse(a)
  {
    if a == [] {
      assert a + b == b;
    } else {
      assert (a + b)[1..] == a[1..] + b;
      ReverseAppend(a[1..], b);
    }
  }

  lemma {:induction false} ReverseTwice<T>(s: seq<T>)
    ensures Reverse(Reverse(s)) == s
  {
    if s != [] {
      ReverseTwice(s[1..]);
      ReverseAppend(Reverse(s[1..]), [s[0]]);
      assert Reverse([s[0]]) == [s[0]];
    }
  }

  ghost predicate Plain(parts: seq<string>) {
    AllFree(parts, '.') && forall i :: 0 <= i < |parts| ==> parts[i] != ""
  }

  lemma {:induction false} ReversePlain(parts: seq<string>)
    requires Plain(parts)
    ensures Plain(Reverse(parts))
  {
    if parts != [] {
      assert Plain(parts[1..]);
      ReversePlain(parts[1..]);
    }
  }

  lemma {:induction false} NonEmptyKeeps(parts: seq<string>)
    requires Plain(parts)
    ensures NonEmpty(parts) == parts
  {
    if parts != [] {
      NonEmptyKeeps(parts[1..]);
    }
  }

  /** Splitting, reversing and filtering a name gives the labels of the address back behind the two of the zone. */
  lemma NameParts(parts: seq<string>, zone: string)
    requires Plain(parts) && parts != [] && Plain([zone, "arpa"])
    ensures NonEmpty(Reverse(Split(ReverseName(parts, zone), '.'))) == ["arpa", zone] + parts
  {
    var labels := Reverse(parts) + [zone, "arpa"];
    ReversePlain(parts);
    assert Plain(labels);
    JoinAppend(Reverse(parts), [zone, "arpa"], '.');
    assert [zone, "arpa"][1..] == ["arpa"];
    assert Join([zone, "arpa"], '.') == zone + "." + "arpa";
    assert Join(labels, '.') == Join(Reverse(parts), '.') + "." + zone + ".arpa";
    SplitJoin(labels, '.');
    ReverseAppend(Reverse(parts), [zone, "arpa"]);
    ReverseTwice(parts);
    assert Reverse([zone, "arpa"]) == ["arpa", zone] by {
      assert [zone, "arpa"][1..] == ["arpa"] && ["arpa"][1..] == [];
      assert Reverse(["arpa"]) == ["arpa"];
    }
    NonEmptyKeeps(["arpa", zone] + parts);
  }

  lemma {:induction false} DecimalsPlain(b: Data)
    ensures Plain(Ipv4Text.Decimals(b))
  {
    Ipv4Text.OctetsOfDecimals(b);
    DecimalsNonEmpty(b);
  }

  lemma {:induction false} DecimalsNonEmpty(b: Data)
    ensures forall i :: 0 <= i < |b| ==> Ipv4Text.Decimals(b)[i] != ""
  {
    if b != [] {
      DecimalsNonEmpty(b[1..]);
    }
  }

  lemma TwoPlain(h: char, l: char, rest: seq<string>)
    requires h != '.' && l != '.' && Plain(rest)
    ensures Plain([[h], [l]] + rest) && Concat([[h], [l]] + rest) == [h, l] + Concat(rest)
  {
    ConcatCons([l], rest);
    ConcatCons([h], [[l]] + rest);
    assert [[h], [l]] + rest == [[h]] + ([[l]] + rest);
  }

  lemma {:induction false} NibblesPlain(b: Data)
    ensures Plain(Nibbles(b)) && Concat(Nibbles(b)) == Ipv6Text.HexText(b)
  {
    if b != [] {
      NibbleDigits(b[0]);
      DigitDenotes(b[0] / 16);
      DigitDenotes(b[0] % 16);
      NibblesPlain(b[1..]);
      TwoPlain(Digit(b[0] / 16), Digit(b[0] % 16), Nibbles(b[1..]));
    }
  }

  lemma {:induction false} GroupedJoins(s: string)
    requires s != "" && |s| % 4 == 0
    ensures Grouped(s) == Join(Ipv6Text.Fours(s), ':') + ":"
  {
    if |s| == 4 {
      assert s[..4] == s && s[4..] == "";
    } else {
      GroupedJoins(s[4..]);
      var rest := Ipv6Text.Fours(s[4..]);
      assert Ipv6Text.Fours(s) == [s[..4]] + rest;
      assert Join([s[..4]] + rest, ':') == s[..4] + ":" + Join(rest, ':') by {
        assert ([s[..4]] + rest)[1..] == rest;
      }
    }
  }

  /** The reverse name of an IPv4 address in its printed form stands for that address. */
  lemma PtrRoundTripV4(b: Data)
    requires |b| == 4
    ensures var ip := Ipv4Text.Print(b).value;
      IpToPtrName(ip).Some? && PtrNameToIP(IpToPtrName(ip).value) == Some(PtrIPv4(ip))
  {
    var ip, parts := Ipv4Text.Print(b).value, Ipv4Text.Decimals(b);
    DecimalsPlain(b);
    SplitJoin(parts, '.');
    NameParts(parts, "in-addr");
    assert IpToPtrName(ip).value == ReverseName(parts, "in-addr");
    assert (["arpa", "in-addr"] + parts)[2..] == parts;
  }

  lemma NameOfCanonical(b: Data)
    requires |b| == 16
    ensures IpToPtrName(Ipv6Text.Canonical(b)) == Some(ReverseName(Nibbles(b), "ip6"))
  {
    CanonicalIsNotV4(b);
    Ipv6Text.ExpandedRoundTrip(b);
  }

  lemma TextOfNibbles(b: Data)
    requires |b| == 16
    ensures WithoutColon(Grouped(Concat(Nibbles(b)))) == Ipv6Text.Print(b).value
  {
    var t := Ipv6Text.HexText(b);
    assert Concat(Nibbles(b)) == t by {
      NibblesPlain(b);
    }
    assert t != "" && |t| % 4 == 0;
    GroupedText(t);
  }

  lemma GroupedText(s: string)
    requires s != "" && |s| % 4 == 0
    ensures WithoutColon(Grouped(s)) == Join(Ipv6Text.Fours(s), ':')
  {
    GroupedJoins(s);
  }

  /** The reverse name of an IPv6 address in canonical form stands for that address. */
  lemma PtrRoundTripV6(b: Data)
    requires |b| == 16
    ensures var ip := Ipv6Text.Canonical(b);
      IpToPtrName(ip).Some? && PtrNameToIP(IpToPtrName(ip).value) == Some(PtrIPv6(ip))
  {
    var parts := Nibbles(b);
    NameOfCanonical(b);
    NibblesPlain(b);
    NameParts(parts, "ip6");
    AddressOfParts(ReverseName(parts, "ip6"), parts);
    TextOfNibbles(b);
  }

  lemma AddressOfParts(name: string, parts: seq<string>)
    requires NonEmpty(Reverse(Split(name, '.'))) == ["arpa", "ip6"] + parts
    ensures PtrNameToIP(name) == Some(PtrIPv6(Ipv6Text.Compress(WithoutColon(Grouped(Concat(parts))))))
  {
    assert (["arpa", "ip6"] + parts)[2..] == parts;
  }

  lemma CanonicalIsNotV4(b: Data)
    requires |b| == 16
    ensures |Split(Ipv6Text.Canonical(b), '.')| == 1
  {
    Ip.CanonicalHasNoDot(b);
    SplitFirst(Ipv6Text.Canonical(b), "", '.');
  }
}
