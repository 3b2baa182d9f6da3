/**
 MAC addresses as text (packages/wire/src/ethernet.ts), read through `Number.parseInt`, which skips white
 space, takes a sign and an `0x`, and stops at the first character that is no digit.
 */
module MacAddresses {
  import opened Options
  import opened Bytes
  import opened Text
  import opened Buffers
  import Ipv6Text

  function HexPairs(b: Data): (r: seq<string>)
    ensures |r| == |b|
  {
    if b == [] then [] else [Ipv6Text.HexByte(b[0])] + HexPairs(b[1..])
  }

  /** `parseMacAddress` */
  function MacText(mac: Data): Option<string> {
    if |mac| != 6 then None else Some(Join(HexPairs(mac), ':'))
  }

  predicate IsSpace(c: char) {
    c == ' ' || ('\t' <= c <= '\r')
  }

  function TrimStart(s: string): string {
    if s != "" && IsSpace(s[0]) then TrimStart(s[1..]) else s
  }

  function HexDigits(s: string): (r: string)
    ensures forall i :: 0 <= i < |r| ==> HexValue(r[i]).Some?
  {
    if s == "" || HexValue(s[0]).None? then "" else [s[0]] + HexDigits(s[1..])
  }

  /** The digits `parseInt` reads in base 16, which an `0x` may precede; `None` is `NaN`. */
  function Magnitude(s: string): Option<nat> {
    var digits := HexDigits(if |s| >= 2 && s[0] == '0' && (s[1] == 'x' || s[1] == 'X') then s[2..] else s);
    if digits == "" then None else Number(digits, 16)
  }

  /** `Number.parseInt(text, 16)` */
  function ParseInt(text: string): Option<int> {
    var s := TrimStart(text);
    var n :- Magnitude(if s != "" && (s[0] == '+' || s[0] == '-') then s[1..] else s);
    var magnitude: int := n;
    var value := if s != "" && s[0] == '-' then -magnitude else magnitude;
    Some(value)
  }

  function MacBytes(segments: seq<string>): (r: Option<Data>)
    ensures r.Some? ==> |r.value| == |segments|
  {
    if segments == [] then Some([])
    else
      var first :- ParseInt(segments[0]);
      var rest :- MacBytes(segments[1..]);
      Some([Low8(first)] + rest)
  }

  /** `serializeMacAddress` */
  function MacNumber(text: string): (r: Option<Data>)
    ensures r.Some? ==> |r.value| == 6
  {
    var segments := Split(text, ':');
    if |segments| != 6 then None else MacBytes(segments)
  }

  lemma TwoHexDigits(h: char, l: char)
    requires HexValue(h).Some? && HexValue(l).Some? && h != 'x' && l != 'x' && l != 'X' && !IsSpace(h)
    requires h != '+' && h != '-'
    ensures ParseInt([h, l]) == Some(16 * HexValue(h).value + HexValue(l).value)
  {
    var s := [h, l];
    assert s[1..] == [l] && [l][1..] == "";
    assert HexDigits([l]) == [l] + HexDigits("");
    assert HexDigits(s) == [h] + HexDigits([l]);
    assert HexDigits(s) == s;
    NumberAppend("", h, 16);
    NumberAppend([h], l, 16);
    assert "" + [h] == [h] && [h] + [l] == s;
  }

  lemma MacBytesCons(first: string, b: Byte, rest: seq<string>, bytes: Data)
    requires ParseInt(first) == Some(b) && Free(first, ':') && MacBytes(rest) == Some(bytes) && AllFree(rest, ':')
    ensures MacBytes([first] + rest) == Some([b] + bytes) && AllFree([first] + rest, ':')
  {
    assert ([first] + rest)[1..] == rest;
  }

  lemma HexPairParses(b: Byte)
    ensures ParseInt(Ipv6Text.HexByte(b)) == Some(b) && Free(Ipv6Text.HexByte(b), ':')
  {
    var h: nat, l: nat := b / 16, b % 16;
    DigitDenotes(h);
    DigitDenotes(l);
    TwoHexDigits(Digit(h), Digit(l));
  }

  lemma {:induction false} MacBytesOfPairs(b: Data)
    ensures MacBytes(HexPairs(b)) == Some(b) && AllFree(HexPairs(b), ':')
  {
    if b != [] {
      HexPairParses(b[0]);
      MacBytesOfPairs(b[1..]);
      MacBytesCons(Ipv6Text.HexByte(b[0]), b[0], HexPairs(b[1..]), b[1..]);
      assert [b[0]] + b[1..] == b;
    }
  }

  /** A printed MAC address is read back as its six bytes. */
  lemma MacRoundTrip(b: Data)
    requires |b| == 6
    ensures MacNumber(MacText(b).value) == Some(b)
  {
    MacBytesOfPairs(b);
    SplitJoin(HexPairs(b), ':');
  }

  /** The text that is printed for the bytes it is read as. */
  predicate CanonicalMac(mac: string) {
    MacNumber(mac).Some? && MacText(MacNumber(mac).value) == Some(mac)
  }

  lemma PrintedIsCanonical(b: Data)
    requires |b| == 6
    ensures MacText(b).Some? && CanonicalMac(MacText(b).value) && MacNumber(MacText(b).value) == Some(b)
  {
    MacRoundTrip(b);
  }
}
