/**
 IPv6 addresses as text (packages/wire/src/ipv6.ts), compressed as RFC 5952 recommends.
 */
module Ipv6Text {
  import opened Options
  import opened Bits
  import opened Bytes
  import opened Text

  /** A 16-bit group of an address. */
  type Group = g: nat | g < 0x1_0000

  // ---------------------------------------------------------------- printing

  /** Two hexadecimal digits, `byte.toString(16).padStart(2, '0')`. */
  function HexByte(b: Byte): string {
    [Digit(b / 16), Digit(b % 16)]
  }

  function HexText(data: Data): (s: string)
    ensures |s| == 2 * |data|
  {
    if data == [] then "" else HexByte(data[0]) + HexText(data[1..])
  }

  /** `s.match(/.{1,4}/g)` */
  function Fours(s: string): seq<string> {
    if s == "" then [] else if |s| <= 4 then [s] else [s[..4]] + Fours(s[4..])
  }

  /** `parseIPv6Address` */
  function Print(data: Data): Option<string> {
    if |data| != 16 then None else Some(Join(Fours(HexText(data)), ':'))
  }

  // ---------------------------------------------------------------- compressing

  function ToLower(s: string): (r: string)
    ensures |r| == |s|
  {
    if s == "" then "" else [if 'A' <= s[0] <= 'Z' then (s[0] as int + 32) as char else s[0]] + ToLower(s[1..])
  }

  predicate IsWord(c: char) {
    'a' <= c <= 'z' || 'A' <= c <= 'Z' || '0' <= c <= '9' || c == '_'
  }

  /** `group.replace(/^0+(?=\w)/, '')`: zeros go as long as a word character follows. */
  function StripZeros(s: string): string {
    if |s| >= 2 && s[0] == '0' && IsWord(s[1]) then StripZeros(s[1..]) else s
  }

  function Normalize(groups: seq<string>): (r: seq<string>)
    ensures |r| == |groups|
  {
    if groups == [] then [] else [StripZeros(groups[0])] + Normalize(groups[1..])
  }

  predicate IsZero(group: string) {
    group == "0" || group == ""
  }

  /** The length of the run of zero groups that ends before position `k`. */
  function RunBefore(groups: seq<string>, k: nat): (n: nat)
    requires k <= |groups|
    ensures n <= k
  {
    if k == 0 || !IsZero(groups[k - 1]) then 0 else RunBefore(groups, k - 1) + 1
  }

  /** The first longest run of zero groups among the first `k`: its start and its length. */
  function LongestRun(groups: seq<string>, k: nat): (r: (nat, nat))
    requires k <= |groups|
    ensures r.0 + r.1 <= k
  {
    if k == 0 then (0, 0)
    else
      var before, run := LongestRun(groups, k - 1), RunBefore(groups, k);
      if run > before.1 then (k - run, run) else before
  }

  /** The groups around the run, with the empty strings that make `::` when they are joined. */
  function CutRun(groups: seq<string>, start: nat, length: nat): seq<string>
    requires start + length <= |groups|
  {
    var rest := groups[..start] + groups[start + length..];
    if start == 0 then ["", ""] + rest
    else if start == |rest| then rest + ["", ""]
    else rest[..start] + [""] + rest[start..]
  }

  /** `compressIPv6` */
  function Compress(ip: string): string {
    var groups := Normalize(Split(ToLower(ip), ':'));
    if forall i :: 0 <= i < |groups| ==> IsZero(groups[i]) then "::"
    else
      var (start, length) := LongestRun(groups, |groups|);
      Join(if length >= 2 then CutRun(groups, start, length) else groups, ':')
  }

  // ---------------------------------------------------------------- expanding and reading

  /** `s.split('::')` */
  function SplitDouble(s: string): (r: seq<string>)
    ensures r != []
  {
    if |s| < 2 then [s]
    else if s[0] == ':' && s[1] == ':' then [""] + SplitDouble(s[2..])
    else
      var rest := SplitDouble(s[1..]);
      [[s[0]] + rest[0]] + rest[1..]
  }

  /** `s.padStart(4, '0')` */
  function Pad(s: string): string
    decreases 4 - |s|
  {
    if |s| >= 4 then s else Pad("0" + s)
  }

  function PadAll(groups: seq<string>): (r: seq<string>)
    ensures |r| == |groups|
  {
    if groups == [] then [] else [Pad(groups[0])] + PadAll(groups[1..])
  }

  function Zeros(n: nat): (r: seq<string>)
    ensures |r| == n
  {
    seq(n, _ => "0000")
  }

  /** The groups of an address before they are padded, with the zeros that `::` stands for. */
  function AllGroups(ip: string): Option<seq<string>> {
    var halves := SplitDouble(ip);
    if ip == "" || |halves| > 2 then None
    else if |halves| == 1 then Some(Split(halves[0], ':'))
    else
      var left, right := Split(halves[0], ':'), Split(halves[1], ':');
      if |left| + |right| > 8 then None
      else Some(left + Zeros(8 - (|left| + |right|)) + right)
  }

  /** `expandIPv6` */
  function Expand(ip: string): Option<string> {
    var groups :- AllGroups(ip);
    Some(Join(PadAll(groups), ':'))
  }

  function GroupValue(part: string): Option<Group> {
    if part == "" || |part| > 4 then None
    else
      var value :- Number(part, 16);
      if value > 0xffff then None else Some(value)
  }

  function GroupValues(parts: seq<string>): (r: Option<seq<Group>>)
    ensures r.Some? ==> |r.value| == |parts|
  {
    if parts == [] then Some([])
    else
      var first :- GroupValue(parts[0]);
      var rest :- GroupValues(parts[1..]);
      Some([first] + rest)
  }

  /** Groups as bytes, high byte first. */
  function ToBytes(v: seq<Group>): (r: Data)
    ensures |r| == 2 * |v|
  {
    if v == [] then [] else [v[0] / 256, v[0] % 256] + ToBytes(v[1..])
  }

  function ToGroups(b: Data): (v: seq<Group>)
    requires |b| % 2 == 0
    ensures |v| == |b| / 2
  {
    if b == [] then [] else
      var hi: nat, lo: nat := b[0], b[1];
      [256 * hi + lo] + ToGroups(b[2..])
  }

  /** `serializeIPv6Address` */
  function Serialize(ip: string): Option<Data> {
    var expanded :- Expand(ip);
    var parts := Split(expanded, ':');
    if |parts| != 8 then None
    else
      var v :- GroupValues(parts);
      Some(ToBytes(v))
  }

  // ---------------------------------------------------------------- what RFC 5952 asks for

  /** The groups in lower case without leading zeros (sections 4.1 and 4.3). */
  function Hex(v: seq<Group>): (r: seq<string>)
    ensures |r| == |v|
  {
    if v == [] then [] else [ToText(v[0], 16)] + Hex(v[1..])
  }

  /** The run `v[start..start + length]` is zero throughout. */
  ghost predicate ZeroRun(v: seq<Group>, start: nat, length: nat) {
    start + length <= |v| && forall i :: start <= i < start + length ==> v[i] == 0
  }

  /**
   The run that `::` must replace: a longest one, the first of these (section 4.2.3).
   */
  ghost predicate Chosen(v: seq<Group>, start: nat, length: nat) {
    && ZeroRun(v, start, length)
    && forall s: nat, n: nat :: ZeroRun(v, s, n) ==> n <= length && (n == length && n > 0 ==> start <= s)
  }

  /**
   The recommended text, given the run to shorten: `::` replaces all of it (section 4.2.1), unless
   it is a single group or none (section 4.2.2).
   */
  function Recommended(v: seq<Group>, start: nat, length: nat): string
    requires start + length <= |v|
  {
    if length < 2 then Join(Hex(v), ':')
    else Join(Hex(v[..start]), ':') + "::" + Join(Hex(v[start + length..]), ':')
  }

  // ---------------------------------------------------------------- printed groups

  function FourDigits(g: Group): string {
    HexByte(g / 256) + HexByte(g % 256)
  }

  function PaddedHex(v: seq<Group>): (r: seq<string>)
    ensures |r| == |v|
  {
    if v == [] then [] else [FourDigits(v[0])] + PaddedHex(v[1..])
  }

  lemma {:induction false} FoursOfHexText(b: Data)
    requires |b| % 2 == 0
    ensures Fours(HexText(b)) == PaddedHex(ToGroups(b))
  {
    if b != [] {
      FoursOfHexText(b[2..]);
      FourDigitsOfBytes(ToGroups(b)[0], b[0], b[1]);
      HexTextOfTwo(b);
      FoursCons(HexByte(b[0]) + HexByte(b[1]), HexText(b[2..]));
    }
  }

  lemma FourDigitsOfBytes(g: Group, hi: Byte, lo: Byte)
    requires g == 256 * hi + lo
    ensures FourDigits(g) == HexByte(hi) + HexByte(lo)
  {
    DivModUnique(g, 256, hi, lo);
  }

  lemma HexTextOfTwo(b: Data)
    requires |b| >= 2
    ensures HexText(b) == HexByte(b[0]) + HexByte(b[1]) + HexText(b[2..])
  {
    assert b[1..][1..] == b[2..];
  }

  lemma FoursCons(four: string, rest: string)
    requires |four| == 4
    ensures Fours(four + rest) == [four] + Fours(rest)
  {
    assert (four + rest)[..4] == four && (four + rest)[4..] == rest;
    if rest == "" {
      assert four + rest == four;
    }
  }

  lemma StripDigits(a: char, b: char, c: char, d: char)
    requires IsDigit(a) && IsDigit(b) && IsDigit(c) && IsDigit(d)
    ensures StripZeros([a, b, c, d]) ==
      if a != '0' then [a, b, c, d] else if b != '0' then [b, c, d] else if c != '0' then [c, d] else [d]
  {
    assert [c, d][1..] == [d];
    assert StripZeros([c, d]) == if c != '0' then [c, d] else [d];
    assert [b, c, d][1..] == [c, d];
    assert StripZeros([b, c, d]) == if b != '0' then [b, c, d] else StripZeros([c, d]);
    assert [a, b, c, d][1..] == [b, c, d];
  }

  /** The four digits without leading zeros are the usual notation. */
  lemma StripFourDigits(g: Group)
    ensures StripZeros(FourDigits(g)) == ToText(g, 16)
    ensures Digits(FourDigits(g))
  {
    DivMod(g, 256);
    StripTwoBytes(g, g / 256, g % 256);
  }

  lemma StripTwoBytes(g: Group, hi: Byte, lo: Byte)
    requires g == 256 * hi + lo
    ensures StripZeros(HexByte(hi) + HexByte(lo)) == ToText(g, 16)
    ensures Digits(HexByte(hi) + HexByte(lo))
  {
    var d3: nat, d2: nat, d1: nat, d0: nat := hi / 16, hi % 16, lo / 16, lo % 16;
    DigitDenotes(d3);
    DigitDenotes(d2);
    DigitDenotes(d1);
    DigitDenotes(d0);
    assert HexByte(hi) + HexByte(lo) == [Digit(d3), Digit(d2), Digit(d1), Digit(d0)];
    DivMod(hi, 16);
    DivMod(lo, 16);
    TextOfDigits(d3, d2, d1, d0, hi, 16 * hi + d1, g);
  }

  /** The digits before the last one: none if they are all zero. */
  function Leading(high: nat): string {
    if high == 0 then "" else ToText(high, 16)
  }

  lemma TextAppend(high: nat, low: nat, n: nat)
    requires low < 16 && n == high * 16 + low
    ensures ToText(n, 16) == Leading(high) + [Digit(low)]
  {
    DivModUnique(n, 16, high, low);
  }

  lemma LeadingAppend(high: nat, low: nat, next: nat)
    requires low < 16 && next == high * 16 + low
    ensures Leading(next) == if next == 0 then "" else Leading(high) + [Digit(low)]
  {
    TextAppend(high, low, next);
  }

  lemma TextOfDigits(d3: nat, d2: nat, d1: nat, d0: nat, h2: nat, h1: nat, n: nat)
    requires d3 < 16 && d2 < 16 && d1 < 16 && d0 < 16
    requires h2 == d3 * 16 + d2 && h1 == h2 * 16 + d1 && n == h1 * 16 + d0
    ensures ToText(n, 16) == StripZeros([Digit(d3), Digit(d2), Digit(d1), Digit(d0)])
  {
    DigitDenotes(d3);
    DigitDenotes(d2);
    DigitDenotes(d1);
    DigitDenotes(d0);
    DigitIsZero(d3);
    DigitIsZero(d2);
    DigitIsZero(d1);
    StripDigits(Digit(d3), Digit(d2), Digit(d1), Digit(d0));
    LeadingAppend(0, d3, d3);
    LeadingAppend(d3, d2, h2);
    LeadingAppend(h2, d1, h1);
    TextAppend(h1, d0, n);
  }

  lemma {:induction false} NormalizePaddedHex(v: seq<Group>)
    ensures Normalize(PaddedHex(v)) == Hex(v)
    ensures AllFree(PaddedHex(v), ':') && forall i :: 0 <= i < |v| ==> Digits(PaddedHex(v)[i])
  {
    if v != [] {
      StripFourDigits(v[0]);
      NormalizePaddedHex(v[1..]);
      assert PaddedHex(v)[1..] == PaddedHex(v[1..]);
    }
  }

  predicate LowerOrColon(s: string) {
    forall i :: 0 <= i < |s| ==> IsDigit(s[i]) || s[i] == ':'
  }

  lemma {:induction false} ToLowerKeeps(s: string)
    requires LowerOrColon(s)
    ensures ToLower(s) == s
  {
    if s != "" {
      ToLowerKeeps(s[1..]);
      assert [s[0]] + s[1..] == s;
    }
  }

  lemma {:induction false} JoinIsLower(parts: seq<string>)
    requires forall i :: 0 <= i < |parts| ==> Digits(parts[i])
    ensures LowerOrColon(Join(parts, ':'))
  {
    if |parts| > 1 {
      JoinIsLower(parts[1..]);
    }
  }

  lemma GroupsOfPrinted(b: Data)
    requires |b| == 16
    ensures Normalize(Split(ToLower(Print(b).value), ':')) == Hex(ToGroups(b))
  {
    var v := ToGroups(b);
    FoursOfHexText(b);
    NormalizePaddedHex(v);
    JoinIsLower(PaddedHex(v));
    ToLowerKeeps(Print(b).value);
    SplitJoin(PaddedHex(v), ':');
  }

  // ---------------------------------------------------------------- the run that is cut out

  lemma {:induction false} HexAt(v: seq<Group>, i: nat)
    requires i < |v|
    ensures Hex(v)[i] == ToText(v[i], 16) && (IsZero(Hex(v)[i]) <==> v[i] == 0)
  {
    if i == 0 {
      NoLeadingZero(v[0], 16);
    } else {
      HexAt(v[1..], i - 1);
    }
  }

  lemma {:induction false} RunBeforeIsRun(v: seq<Group>, k: nat, s: nat)
    requires k <= |v|
    ensures var n := RunBefore(Hex(v), k);
      ZeroRun(v, k - n, n) && (s <= k && ZeroRun(v, s, k - s) ==> k - s <= n)
  {
    if k > 0 {
      HexAt(v, k - 1);
      if v[k - 1] == 0 {
        RunBeforeIsRun(v, k - 1, if s < k then s else k - 1);
      }
    }
  }

  /** The loop of `compressIPv6` finds the run that section 4.2.3 of RFC 5952 asks for. */
  lemma {:induction false} LongestRunIsFirst(v: seq<Group>, k: nat, s: nat, n: nat)
    requires k <= |v|
    ensures var (start, length) := LongestRun(Hex(v), k);
      && ZeroRun(v, start, length)
      && (s + n <= k && ZeroRun(v, s, n) ==> n <= length && (n == length && n > 0 ==> start <= s))
  {
    if k > 0 {
      RunBeforeIsRun(v, k, s);
      if s + n <= k - 1 {
        LongestRunIsFirst(v, k - 1, s, n);
      } else {
        LongestRunIsFirst(v, k - 1, 0, 0);
      }
    }
  }

  lemma LongestRunChosen(v: seq<Group>)
    ensures Chosen(v, LongestRun(Hex(v), |v|).0, LongestRun(Hex(v), |v|).1)
  {
    LongestRunIsFirst(v, |v|, 0, 0);
    forall s: nat, n: nat | ZeroRun(v, s, n)
      ensures n <= LongestRun(Hex(v), |v|).1
      ensures n == LongestRun(Hex(v), |v|).1 && n > 0 ==> LongestRun(Hex(v), |v|).0 <= s
    {
      LongestRunIsFirst(v, |v|, s, n);
    }
  }

  /** There is one such run only. */
  lemma ChosenOnce(v: seq<Group>, s1: nat, n1: nat, s2: nat, n2: nat)
    requires Chosen(v, s1, n1) && Chosen(v, s2, n2)
    ensures n1 == n2 && (n1 > 0 ==> s1 == s2)
  {
  }

  lemma {:induction false} HexSplit(v: seq<Group>, k: nat)
    requires k <= |v|
    ensures Hex(v)[..k] == Hex(v[..k]) && Hex(v)[k..] == Hex(v[k..])
  {
    if k > 0 {
      HexSplit(v[1..], k - 1);
      assert v[..k][1..] == v[1..][..k - 1] && v[1..][k - 1..] == v[k..];
      assert Hex(v)[..k] == [Hex(v)[0]] + Hex(v[1..])[..k - 1];
    }
  }

  /**
   `compressIPv6` of any printed address is the text that RFC 5952 recommends: lower case without
   leading zeros, and `::` for the first longest run of two or more zero groups.
   */
  lemma CompressIsRecommended(b: Data)
    requires |b| == 16
    ensures var v := ToGroups(b);
      exists start, length :: Chosen(v, start, length) && Compress(Print(b).value) == Recommended(v, start, length)
  {
    var v := ToGroups(b);
    var groups := Hex(v);
    GroupsOfPrinted(b);
    LongestRunChosen(v);
    var (start, length) := LongestRun(groups, |v|);
    forall i | 0 <= i < |v| ensures IsZero(groups[i]) <==> v[i] == 0 {
      HexAt(v, i);
    }
    if forall i :: 0 <= i < |groups| ==> IsZero(groups[i]) {
      assert ZeroRun(v, 0, 8);
      assert v[..0] == [] && v[8..] == [] && Compress(Print(b).value) == "::";
      assert Recommended(v, start, length) == "" + "::" + "";
    } else if length >= 2 {
      CutRunJoins(v, start, length);
    }
    assert Chosen(v, start, length) && Compress(Print(b).value) == Recommended(v, start, length);
  }

  lemma JoinBehindZeros(right: seq<string>)
    requires right != []
    ensures Join(["", ""] + right, ':') == "::" + Join(right, ':')
  {
    assert Join(["", ""], ':') == "" + [':'] + "" == ":";
    JoinAppend(["", ""], right, ':');
  }

  lemma JoinBeforeZeros(left: seq<string>)
    requires left != []
    ensures Join(left + ["", ""], ':') == Join(left, ':') + "::"
  {
    assert Join(["", ""], ':') == "" + [':'] + "" == ":";
    JoinAppend(left, ["", ""], ':');
  }

  lemma JoinAroundZeros(left: seq<string>, right: seq<string>)
    requires left != [] && right != []
    ensures Join(left + [""] + right, ':') == Join(left, ':') + "::" + Join(right, ':')
  {
    JoinAppend(left + [""], right, ':');
    JoinAppend(left, [""], ':');
  }

  lemma CutIs(groups: seq<string>, start: nat, length: nat)
    requires start + length <= |groups|
    ensures var left, right := groups[..start], groups[start + length..];
      CutRun(groups, start, length) ==
        if left == [] then ["", ""] + right else if right == [] then left + ["", ""] else left + [""] + right
  {
    var left, right := groups[..start], groups[start + length..];
    assert (left + right)[..start] == left && (left + right)[start..] == right;
    if right == [] {
      assert left + right == left;
    }
    if left == [] {
      assert left + right == right;
    }
  }

  lemma CutJoins(groups: seq<string>, start: nat, length: nat, left: seq<string>, right: seq<string>)
    requires start + length <= |groups| && length < |groups|
    requires left == groups[..start] && right == groups[start + length..]
    ensures Join(CutRun(groups, start, length), ':') == Join(left, ':') + "::" + Join(right, ':')
  {
    CutIs(groups, start, length);
    if left == [] {
      JoinBehindZeros(right);
    } else if right == [] {
      JoinBeforeZeros(left);
    } else {
      JoinAroundZeros(left, right);
    }
  }

  lemma CutRunJoins(v: seq<Group>, start: nat, length: nat)
    requires start + length <= |v| && length < |v|
    ensures Join(CutRun(Hex(v), start, length), ':') ==
      Join(Hex(v[..start]), ':') + "::" + Join(Hex(v[start + length..]), ':')
  {
    HexSplit(v, start);
    HexSplit(v, start + length);
    CutJoins(Hex(v), start, length, Hex(v[..start]), Hex(v[start + length..]));
  }

  // ---------------------------------------------------------------- reading it back

  predicate NoDouble(s: string) {
    forall i :: 0 <= i < |s| - 1 ==> !(s[i] == ':' && s[i + 1] == ':')
  }

  lemma {:induction false} SplitDoubleAt(left: string, right: string)
    requires NoDouble(left) && (left == "" || left[|left| - 1] != ':')
    ensures SplitDouble(left) == [left]
    ensures SplitDouble(left + "::" + right) == [left] + SplitDouble(right)
  {
    var s := left + "::" + right;
    if left == "" {
      assert s[2..] == right;
    } else {
      assert s[1..] == left[1..] + "::" + right;
      assert s[0] == ':' ==> s[1] != ':';
      forall i | 0 <= i < |left[1..]| - 1 ensures !(left[1..][i] == ':' && left[1..][i + 1] == ':') {
        assert !(left[i + 1] == ':' && left[i + 2] == ':');
      }
      SplitDoubleAt(left[1..], right);
      assert [left[0]] + left[1..] == left;
    }
  }

  lemma {:induction false} JoinedShape(parts: seq<string>)
    requires AllFree(parts, ':') && forall i :: 0 <= i < |parts| ==> parts[i] != ""
    ensures var s := Join(parts, ':');
      NoDouble(s) && (parts != [] ==> s != "" && s[0] != ':' && s[|s| - 1] != ':') && (parts == [] ==> s == "")
  {
    if |parts| > 1 {
      assert Free(parts[0], ':') && parts[0] != "";
      JoinedShape(parts[1..]);
    } else if |parts| == 1 {
      assert Free(parts[0], ':') && parts[0] != "";
    }
  }

  lemma {:induction false} HexShape(v: seq<Group>)
    ensures AllFree(Hex(v), ':') && AllFree(Hex(v), '.') && AllFree(Hex(v), '/')
    ensures forall i :: 0 <= i < |v| ==> Hex(v)[i] != ""
  {
    if v != [] {
      TextIsDigits(v[0], 16);
      HexShape(v[1..]);
    }
  }

  /** A group that is read as the number `g` once it is padded. */
  ghost predicate Means(group: string, g: Group) {
    Free(Pad(group), ':') && GroupValue(Pad(group)) == Some(g)
  }

  lemma {:induction false} GroupValuesOfPadded(groups: seq<string>, v: seq<Group>)
    requires |groups| == |v| && forall i :: 0 <= i < |v| ==> Means(groups[i], v[i])
    ensures AllFree(PadAll(groups), ':') && GroupValues(PadAll(groups)) == Some(v)
  {
    if v != [] {
      GroupValuesOfPadded(groups[1..], v[1..]);
      assert Means(groups[0], v[0]);
      assert [v[0]] + v[1..] == v;
    }
  }

  lemma {:induction false} PadMeans(s: string, g: Group)
    requires |s| <= 4 && Digits(s) && Number(s, 16) == Some(g)
    ensures Means(s, g)
    decreases 4 - |s|
  {
    if |s| < 4 {
      NumberOfPadded(s);
      PadMeans("0" + s, g);
    }
  }

  lemma {:induction false} NumberOfPadded(s: string)
    ensures Number("0" + s, 16) == Number(s, 16)
  {
    if s == "" {
      assert ("0" + s)[..0] == "" && HexValue('0') == Some(0);
    } else {
      NumberOfPadded(s[..|s| - 1]);
      assert ("0" + s)[..|s|] == "0" + s[..|s| - 1];
    }
  }

  lemma TextMeans(g: Group)
    ensures Means(ToText(g, 16), g)
  {
    TextIsDigits(g, 16);
    NumberOfText(g, 16);
    TextLength(g, 16, 4) by {
      assert Power(16, 0) == 1 && Power(16, 1) == 16 && Power(16, 2) == 256 && Power(16, 3) == 4096;
      assert Power(16, 4) == 16 * 4096;
    }
    PadMeans(ToText(g, 16), g);
  }

  lemma ZeroMeans()
    ensures Means("", 0) && Means("0000", 0)
  {
    assert Number("", 16) == Some(0);
    PadMeans("", 0);
    NumberOfPadded("");
    NumberOfPadded("0");
    NumberOfPadded("00");
    NumberOfPadded("000");
    assert "0" + "" == "0" && "0" + "0" == "00" && "0" + "00" == "000" && "0" + "000" == "0000";
    PadMeans("0000", 0);
  }

  /** One side of `::`: its groups, or a single empty one that stands for zero. */
  lemma SideMeans(v: seq<Group>)
    ensures var side := Split(Join(Hex(v), ':'), ':');
      && side == (if v == [] then [""] else Hex(v))
      && forall i :: 0 <= i < |side| ==> Means(side[i], if v == [] then 0 else v[i])
  {
    HexShape(v);
    ZeroMeans();
    if v != [] {
      SplitJoin(Hex(v), ':');
      forall i | 0 <= i < |v| ensures Means(Hex(v)[i], v[i]) {
        HexAt(v, i);
        TextMeans(v[i]);
      }
    }
  }

  lemma SidesSplit(l: seq<Group>, r: seq<Group>)
    ensures var left, right := Join(Hex(l), ':'), Join(Hex(r), ':');
      SplitDouble(left) == [left] && SplitDouble(left + "::" + right) == [left, right]
  {
    HexShape(l);
    HexShape(r);
    JoinedShape(Hex(l));
    JoinedShape(Hex(r));
    SplitDoubleAt(Join(Hex(l), ':'), Join(Hex(r), ':'));
    SplitDoubleAt(Join(Hex(r), ':'), "");
  }

  ghost predicate AllMean(groups: seq<string>, v: seq<Group>) {
    |groups| == |v| && forall i :: 0 <= i < |v| ==> Means(groups[i], v[i])
  }

  /** Zeros between two sides fill the address up. */
  lemma FilledMeans(left: seq<string>, right: seq<string>, v: seq<Group>, start: nat, length: nat)
    requires |v| == 8 && ZeroRun(v, start, length) && length >= 2
    requires |left| == (if start == 0 then 1 else start)
    requires |right| == (if start + length == 8 then 1 else 8 - start - length)
    requires forall i :: 0 <= i < |left| ==> Means(left[i], if start == 0 then 0 else v[i])
    requires forall i :: 0 <= i < |right| ==> Means(right[i], if start + length == 8 then 0 else v[start + length + i])
    ensures AllMean(left + Zeros(8 - (|left| + |right|)) + right, v)
  {
    ZeroMeans();
    var groups := left + Zeros(8 - (|left| + |right|)) + right;
    forall i | 0 <= i < 8 ensures Means(groups[i], v[i]) {
      if i >= 8 - |right| {
        assert groups[i] == right[i - (8 - |right|)];
      }
    }
  }

  lemma PlainGroups(v: seq<Group>)
    requires |v| == 8
    ensures AllGroups(Join(Hex(v), ':')) == Some(Hex(v)) && AllMean(Hex(v), v)
  {
    SidesSplit(v, []);
    HexShape(v);
    JoinedShape(Hex(v));
    SideMeans(v);
  }

  lemma CutGroups(v: seq<Group>, start: nat, length: nat)
    requires |v| == 8 && ZeroRun(v, start, length) && length >= 2
    ensures var text := Join(Hex(v[..start]), ':') + "::" + Join(Hex(v[start + length..]), ':');
      AllGroups(text).Some? && AllMean(AllGroups(text).value, v)
  {
    var l, r := v[..start], v[start + length..];
    var x, y := Join(Hex(l), ':'), Join(Hex(r), ':');
    SidesMean(v, start, length, Split(x, ':'), Split(y, ':'));
    SidesSplit(l, r);
    FilledGroups(x, y);
  }

  lemma SidesMean(v: seq<Group>, start: nat, length: nat, left: seq<string>, right: seq<string>)
    requires |v| == 8 && ZeroRun(v, start, length) && length >= 2
    requires left == Split(Join(Hex(v[..start]), ':'), ':') && right == Split(Join(Hex(v[start + length..]), ':'), ':')
    ensures |left| + |right| <= 8 && AllMean(left + Zeros(8 - (|left| + |right|)) + right, v)
  {
    SideMeans(v[..start]);
    SideMeans(v[start + length..]);
    FilledMeans(left, right, v, start, length);
  }

  lemma FilledGroups(left: string, right: string)
    requires SplitDouble(left + "::" + right) == [left, right]
    requires |Split(left, ':')| + |Split(right, ':')| <= 8
    ensures var l, r := Split(left, ':'), Split(right, ':');
      AllGroups(left + "::" + right) == Some(l + Zeros(8 - (|l| + |r|)) + r)
  {
  }

  /** The groups of the recommended text are the groups of the address. */
  lemma RecommendedGroups(v: seq<Group>, start: nat, length: nat)
    requires |v| == 8 && ZeroRun(v, start, length)
    ensures AllGroups(Recommended(v, start, length)).Some? && AllMean(AllGroups(Recommended(v, start, length)).value, v)
  {
    if length < 2 {
      PlainGroups(v);
    } else {
      CutGroups(v, start, length);
    }
  }

  lemma SerializeRecommended(v: seq<Group>, start: nat, length: nat)
    requires |v| == 8 && ZeroRun(v, start, length)
    ensures Serialize(Recommended(v, start, length)) == Some(ToBytes(v))
  {
    RecommendedGroups(v, start, length);
    var groups := AllGroups(Recommended(v, start, length)).value;
    GroupValuesOfPadded(groups, v);
    SplitJoin(PadAll(groups), ':');
  }

  lemma {:induction false} BytesOfGroups(b: Data)
    requires |b| % 2 == 0
    ensures ToBytes(ToGroups(b)) == b
  {
    if b != [] {
      BytesOfGroups(b[2..]);
      var hi: nat, lo: nat := b[0], b[1];
      assert (256 * hi + lo) / 256 == hi && (256 * hi + lo) % 256 == lo;
      assert b == [b[0], b[1]] + b[2..];
    }
  }

  /** The text of an address, as the program formats it. */
  function Canonical(b: Data): string
    requires |b| == 16
  {
    Compress(Print(b).value)
  }

  /** Round trip: for any sixteen bytes, reading the compressed text gives the bytes back. */
  lemma RoundTrip(b: Data)
    requires |b| == 16
    ensures Serialize(Canonical(b)) == Some(b)
  {
    CompressIsRecommended(b);
    var v := ToGroups(b);
    var start, length :| Chosen(v, start, length) && Compress(Print(b).value) == Recommended(v, start, length);
    SerializeRecommended(v, start, length);
    BytesOfGroups(b);
  }

  lemma {:induction false} PadAllTwice(groups: seq<string>)
    ensures PadAll(PadAll(groups)) == PadAll(groups)
    ensures forall i :: 0 <= i < |groups| ==> PadAll(groups)[i] != ""
  {
    if groups != [] {
      PadTwice(groups[0]);
      PadAllTwice(groups[1..]);
    }
  }

  lemma {:induction false} PadTwice(s: string)
    ensures |Pad(s)| >= 4 && Pad(Pad(s)) == Pad(s)
    decreases 4 - |s|
  {
    if |s| < 4 {
      PadTwice("0" + s);
    }
  }

  /** Expanding an expanded text changes nothing. */
  lemma ExpandTwice(groups: seq<string>)
    requires groups != [] && AllFree(PadAll(groups), ':')
    ensures Expand(Join(PadAll(groups), ':')) == Some(Join(PadAll(groups), ':'))
  {
    PadAllTwice(groups);
    JoinedShape(PadAll(groups));
    SplitDoubleAt(Join(PadAll(groups), ':'), "");
    SplitJoin(PadAll(groups), ':');
  }

  /** The expanded form of a canonical text is read as the same address. */
  lemma ExpandedRoundTrip(b: Data)
    requires |b| == 16
    ensures Expand(Canonical(b)).Some? && Serialize(Expand(Canonical(b)).value) == Some(b)
  {
    CompressIsRecommended(b);
    RoundTrip(b);
    var v := ToGroups(b);
    var start, length :| Chosen(v, start, length) && Compress(Print(b).value) == Recommended(v, start, length);
    RecommendedGroups(v, start, length);
    var groups := AllGroups(Canonical(b)).value;
    GroupValuesOfPadded(groups, v);
    ExpandTwice(groups);
  }

  /** Canonical texts are equal exactly when the addresses are. */
  lemma CanonicalIffEqual(a: Data, b: Data)
    requires |a| == |b| == 16
    ensures Canonical(a) == Canonical(b) <==> a == b
  {
    RoundTrip(a);
    RoundTrip(b);
  }

  // ---------------------------------------------------------------- the loops

  /** The pass of `compressIPv6` over the groups. */
  method LongestZeroRun(groups: seq<string>) returns (longestZeroStart: int, longestZeroLength: nat)
    ensures longestZeroLength == LongestRun(groups, |groups|).1
    ensures longestZeroLength > 0 ==> longestZeroStart == LongestRun(groups, |groups|).0
  {
    longestZeroStart, longestZeroLength := -1, 0;
    var currentZeroStart, currentZeroLength: nat := -1, 0;
    var i := 0;
    while i < |groups|
      invariant 0 <= i <= |groups|
      invariant currentZeroLength == RunBefore(groups, i)
      invariant currentZeroStart == if currentZeroLength == 0 then -1 else i - currentZeroLength
      invariant longestZeroLength == LongestRun(groups, i).1
      invariant longestZeroLength > 0 ==> longestZeroStart == LongestRun(groups, i).0
    {
      if groups[i] == "0" || groups[i] == "" {
        if currentZeroStart == -1 {
          currentZeroStart := i;
        }
        currentZeroLength := currentZeroLength + 1;
        if currentZeroLength > longestZeroLength {
          longestZeroStart, longestZeroLength := currentZeroStart, currentZeroLength;
        }
      } else {
        currentZeroStart, currentZeroLength := -1, 0;
      }
      i := i + 1;
    }
  }

  /** Splices the run out of the list and empty groups in, so that joining makes `::`. */
  method ReplaceRun(groups: seq<string>, start: nat, length: nat) returns (r: seq<string>)
    requires start + length <= |groups|
    ensures r == CutRun(groups, start, length)
    ensures length < |groups| ==>
      Join(r, ':') == Join(groups[..start], ':') + "::" + Join(groups[start + length..], ':')
  {
    if length < |groups| {
      CutJoins(groups, start, length, groups[..start], groups[start + length..]);
    }
    r := groups[..start] + groups[start + length..];
    if start == 0 {
      r := ["", ""] + r;
    } else if start == |r| {
      r := r + ["", ""];
    } else {
      r := r[..start] + [""] + r[start..];
    }
  }

  /** `compressIPv6`: one pass finds the run, then the list of groups is spliced. */
  method CompressIPv6(ip: string) returns (r: string)
    ensures r == Compress(ip)
  {
    var groups := Normalize(Split(ToLower(ip), ':'));
    if forall i :: 0 <= i < |groups| ==> IsZero(groups[i]) {
      return "::";
    }
    var longestZeroStart, longestZeroLength := LongestZeroRun(groups);
    if longestZeroLength >= 2 {
      groups := ReplaceRun(groups, longestZeroStart, longestZeroLength);
    }
    return Join(groups, ':');
  }

  lemma {:induction false} GroupValuesFail(parts: seq<string>, k: nat)
    requires k < |parts| && GroupValue(parts[k]).None?
    ensures GroupValues(parts).None?
  {
    if k > 0 {
      GroupValuesFail(parts[1..], k - 1);
    }
  }

  lemma {:induction false} GroupValuesFrom(parts: seq<string>, b: Data)
    requires |b| == 2 * |parts|
    requires forall k :: 0 <= k < |parts| ==>
      GroupValue(parts[k]).Some? && b[2 * k] == GroupValue(parts[k]).value / 256 &&
        b[2 * k + 1] == GroupValue(parts[k]).value % 256
    ensures GroupValues(parts).Some? && ToBytes(GroupValues(parts).value) == b
  {
    if parts != [] {
      var rest := b[2..];
      forall k | 0 <= k < |parts[1..]|
        ensures GroupValue(parts[1..][k]).Some? && rest[2 * k] == GroupValue(parts[1..][k]).value / 256
        ensures rest[2 * k + 1] == GroupValue(parts[1..][k]).value % 256
      {
        assert parts[1..][k] == parts[k + 1] && rest[2 * k] == b[2 * (k + 1)] && rest[2 * k + 1] == b[2 * (k + 1) + 1];
      }
      GroupValuesFrom(parts[1..], rest);
      assert b[2 * 0] == b[0] && b[2 * 0 + 1] == b[1];
      assert b == [b[0], b[1]] + rest;
    }
  }

  lemma HighAndLow(value: Group)
    ensures Sar(value, 8) == value / 256 && BitAnd(value, 0xff) == value % 256
  {
    PowersUsed();
    AndLow(value, 8);
  }

  lemma FourDigitsFit(part: string)
    requires |part| <= 4
    ensures Number(part, 16).Some? ==> Number(part, 16).value < 0x1_0000
  {
    NumberBelow(part, 16);
    assert Power(16, 0) == 1 && Power(16, 1) == 16 && Power(16, 2) == 256 && Power(16, 3) == 4096 &&
      Power(16, 4) == 65536;
  }

  /** The checks of one part. */
  method ParseGroup(part: string) returns (r: Option<Group>)
    ensures r == GroupValue(part)
  {
    if |part| == 0 || |part| > 4 {
      return None;
    }
    FourDigitsFit(part);
    var value := ParseHex(part);
    if value.None? || value.value > 0xffff {
      return None;
    }
    return Some(value.value);
  }

  /** `serializeIPv6Address`: it fills sixteen bytes group by group, or stops at the first bad group. */
  method SerializeIPv6Address(ip: string) returns (r: Option<Data>)
    ensures r == Serialize(ip)
  {
    var expanded := Expand(ip);
    if expanded.None? {
      return None;
    }
    var parts := Split(expanded.value, ':');
    var bytes := new Byte[16](_ => 0);
    if |parts| != 8 {
      return None;
    }
    for i := 0 to 8
      invariant forall k :: 0 <= k < i ==>
        GroupValue(parts[k]).Some? && bytes[2 * k] == GroupValue(parts[k]).value / 256 &&
          bytes[2 * k + 1] == GroupValue(parts[k]).value % 256
    {
      var value := ParseGroup(parts[i]);
      if value.None? {
        GroupValuesFail(parts, i);
        return None;
      }
      HighAndLow(value.value);
      bytes[i * 2] := Sar(value.value, 8);
      bytes[i * 2 + 1] := BitAnd(value.value, 0xff);
    }
    GroupValuesFrom(parts, bytes[..]);
    return Some(bytes[..]);
  }
}
