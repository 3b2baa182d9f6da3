/**
 IPv4 addresses as text (packages/wire/src/ipv4.ts) and as 32-bit numbers (packages/dhcp/src/util.ts),
 by signed shifts.
 */
module Ipv4Text {
  import opened Options
  import opened Bits
  import opened Bytes
  import opened Text
  import opened Ipv4Numbers

  function Decimals(b: Data): (r: seq<string>)
    ensures |r| == |b|
  {
    if b == [] then [] else [ToText(b[0], 10)] + Decimals(b[1..])
  }

  /** `parseIPv4Address` */
  function Print(b: Data): Option<string> {
    if |b| != 4 then None else Some(Join(Decimals(b), '.'))
  }

  function Octet(part: string): Option<Byte> {
    if part == "" || |part| > 3 then None
    else
      var value :- Number(part, 10);
      if value > 0xff then None else Some(value)
  }

  function Octets(parts: seq<string>): (r: Option<Data>)
    ensures r.Some? ==> |r.value| == |parts|
  {
    if parts == [] then Some([])
    else
      var first :- Octet(parts[0]);
      var rest :- Octets(parts[1..]);
      Some([first] + rest)
  }

  /** `serializeIPv4Address` */
  function Serialize(ip: string): Option<Data> {
    var parts := Split(ip, '.');
    if |parts| != 4 then None else Octets(parts)
  }

  /** The text is the printed form of an address. */
  predicate Canonical(ip: string) {
    Serialize(ip).Some? && Print(Serialize(ip).value) == Some(ip)
  }

  lemma OctetOfDecimal(b: Byte)
    ensures Octet(ToText(b, 10)) == Some(b) && Free(ToText(b, 10), '.') && Free(ToText(b, 10), ':')
    ensures Free(ToText(b, 10), '/')
  {
    NumberOfText(b, 10);
    TextIsDigits(b, 10);
    TextLength(b, 10, 3) by {
      assert Power(10, 0) == 1 && Power(10, 1) == 10 && Power(10, 2) == 100 && Power(10, 3) == 1000;
    }
  }

  lemma {:induction false} OctetsOfDecimals(b: Data)
    ensures Octets(Decimals(b)) == Some(b)
    ensures AllFree(Decimals(b), '.') && AllFree(Decimals(b), ':') && AllFree(Decimals(b), '/')
  {
    if b != [] {
      OctetOfDecimal(b[0]);
      OctetsOfDecimals(b[1..]);
      assert [b[0]] + b[1..] == b;
    }
  }

  /** Parsing the printed form of any four bytes gives them back. */
  lemma RoundTrip(b: Data)
    requires |b| == 4
    ensures Serialize(Print(b).value) == Some(b)
  {
    OctetsOfDecimals(b);
    SplitJoin(Decimals(b), '.');
  }

  lemma PrintedIsCanonical(b: Data)
    requires |b| == 4
    ensures Print(b).Some? && Canonical(Print(b).value) && Serialize(Print(b).value) == Some(b)
  {
    RoundTrip(b);
  }

  lemma {:induction false} OctetsFail(parts: seq<string>, k: nat)
    requires k < |parts| && Octet(parts[k]).None?
    ensures Octets(parts).None?
  {
    if k > 0 {
      OctetsFail(parts[1..], k - 1);
    }
  }

  lemma {:induction false} OctetsFrom(parts: seq<string>, b: Data)
    requires |b| == |parts| && forall k :: 0 <= k < |parts| ==> Octet(parts[k]) == Some(b[k])
    ensures Octets(parts) == Some(b)
  {
    if parts != [] {
      OctetsFrom(parts[1..], b[1..]);
      assert [b[0]] + b[1..] == b;
    }
  }

  /** The loop of `serializeIPv4Address`: it fills four bytes, or stops at the first bad part. */
  method SerializeIPv4Address(ip: string) returns (r: Option<Data>)
    ensures r == Serialize(ip)
  {
    var parts := Split(ip, '.');
    var bytes := new Byte[4](_ => 0);
    if |parts| != 4 {
      return None;
    }
    for i := 0 to 4
      invariant forall k :: 0 <= k < i ==> Octet(parts[k]) == Some(bytes[k])
    {
      var part := parts[i];
      if |part| == 0 || |part| > 3 {
        OctetsFail(parts, i);
        return None;
      }
      var value := ParseUint(part);
      if value.None? || value.value > 0xff {
        OctetsFail(parts, i);
        return None;
      }
      bytes[i] := value.value;
    }
    OctetsFrom(parts, bytes[..]);
    return Some(bytes[..]);
  }

  // ---------------------------------------------------------------- as numbers

  function Big(b: Data): (n: Ipv4)
    requires |b| == 4
  {
    var w: nat, x: nat, y: nat, z: nat := b[0], b[1], b[2], b[3];
    w * 0x100_0000 + x * 0x1_0000 + y * 0x100 + z
  }

  function FourBytes(n: Ipv4): (b: Data)
    ensures |b| == 4
  {
    [n / 0x100_0000, n / 0x1_0000 % 256, n / 0x100 % 256, n % 256]
  }

  /** `ipv4ToNumber` */
  function ToNumber(ip: string): Option<nat> {
    var b :- Serialize(ip);
    if |b| != 4 then None
    else Some(Uint32(BitOr(BitOr(BitOr(Shl(b[0], 24), Shl(b[1], 16)), Shl(b[2], 8)), b[3])))
  }

  /** `numberToIPv4` */
  function FromNumber(num: int): Option<string> {
    if num < 0 || num > 0xffff_ffff then None
    else
      var bytes := [BitAnd(Sar(num, 24), 0xff), BitAnd(Sar(num, 16), 0xff), BitAnd(Sar(num, 8), 0xff),
        BitAnd(num, 0xff)];
      if forall k :: 0 <= k < 4 ==> 0 <= bytes[k] < 256 then
        Print([bytes[0] as Byte, bytes[1] as Byte, bytes[2] as Byte, bytes[3] as Byte])
      else None
  }

  lemma FirstTwo(w: nat, x: nat)
    requires w < 256 && x < 256
    ensures Uint32(BitOr(Shl(w, 24), Shl(x, 16))) == w * 0x100_0000 + x * 0x1_0000
  {
    assert Pow2(24) == 0x100_0000 && Pow2(16) == 0x1_0000 by {
      PowersUsed();
    }
    ShlUnsigned(w, 24);
    ShlUnsigned(x, 16);
    OrUnsigned(Shl(w, 24), Shl(x, 16), w, x * 0x1_0000, 24);
  }

  lemma ThenThird(a: int, high: nat, y: nat)
    requires Uint32(a) == high * 0x1_0000 && high < 0x1_0000 && y < 256
    ensures Uint32(BitOr(a, Shl(y, 8))) == high * 0x1_0000 + y * 0x100
  {
    assert Pow2(16) == 0x1_0000 && Pow2(8) == 0x100 by {
      PowersUsed();
    }
    ShlUnsigned(y, 8);
    OrUnsigned(a, Shl(y, 8), high, y * 0x100, 16);
  }

  lemma ThenFourth(a: int, high: nat, z: nat)
    requires Uint32(a) == high * 0x100 && high < 0x100_0000 && z < 256
    ensures Uint32(BitOr(a, z)) == high * 0x100 + z
  {
    assert Pow2(8) == 0x100 by {
      PowersUsed();
    }
    OrUnsigned(a, z, high, z, 8);
  }

  lemma CombineIsBig(b: Data)
    requires |b| == 4
    ensures Uint32(BitOr(BitOr(BitOr(Shl(b[0], 24), Shl(b[1], 16)), Shl(b[2], 8)), b[3])) == Big(b)
  {
    var w: nat, x: nat, y: nat, z: nat := b[0], b[1], b[2], b[3];
    FirstTwo(w, x);
    ThenThird(BitOr(Shl(w, 24), Shl(x, 16)), w * 0x100 + x, y);
    ThenFourth(BitOr(BitOr(Shl(w, 24), Shl(x, 16)), Shl(y, 8)), w * 0x1_0000 + x * 0x100 + y, z);
  }

  lemma DivShift(n: int, d: int, turns: int)
    requires d > 0
    ensures (n - d * turns) / d == n / d - turns
  {
    assert (n / d - turns) * d == n / d * d - d * turns;
    DivModUnique(n - d * turns, d, n / d - turns, n % d);
  }

  lemma SameLowByte(q: int, turns: int)
    ensures (q - 256 * turns) % 256 == q % 256
  {
    DivModUnique(q - 256 * turns, 256, q / 256 - turns, q % 256);
  }

  /** A shift by `k` of the signed value leaves the same low byte as one of the unsigned value. */
  lemma ShiftedByte(num: Ipv4, k: nat, d: nat, turns: nat)
    requires k < 32 && Pow2(k) == d && d * (256 * turns) == TWO_32
    ensures BitAnd(Sar(num, k), 0xff) == num / d % 256
  {
    LowByte(Sar(num, k));
    if num >= TWO_31 {
      DivShift(num, d, 256 * turns);
      SameLowByte(num / d, turns);
    }
  }

  lemma SmallMod(n: nat)
    requires n < 256
    ensures n % 256 == n
  {
  }

  lemma TopByte(num: Ipv4)
    ensures BitAnd(Sar(num, 24), 0xff) == num / 0x100_0000
  {
    assert Pow2(24) == 0x100_0000 by {
      PowersUsed();
    }
    ShiftedByte(num, 24, 0x100_0000, 1);
    SmallMod(num / 0x100_0000);
  }

  lemma SecondByte(num: Ipv4)
    ensures BitAnd(Sar(num, 16), 0xff) == num / 0x1_0000 % 256
  {
    assert Pow2(16) == 0x1_0000 by {
      PowersUsed();
    }
    ShiftedByte(num, 16, 0x1_0000, 0x100);
  }

  lemma ThirdByte(num: Ipv4)
    ensures BitAnd(Sar(num, 8), 0xff) == num / 0x100 % 256
  {
    assert Pow2(8) == 0x100 by {
      PowersUsed();
    }
    ShiftedByte(num, 8, 0x100, 0x1_0000);
  }

  lemma FromNumberPrints(num: Ipv4)
    ensures FromNumber(num) == Print(FourBytes(num))
  {
    TopByte(num);
    SecondByte(num);
    ThirdByte(num);
    LowByte(num);
  }

  lemma BigOfFourBytes(n: Ipv4)
    ensures Big(FourBytes(n)) == n
  {
    var q1, q2 := n / 0x100, n / 0x1_0000;
    assert n == 256 * q1 + n % 256;
    assert q1 == 256 * q2 + q1 % 256 by {
      assert q2 == q1 / 256;
    }
    assert q2 == 256 * (n / 0x100_0000) + q2 % 256 by {
      assert n / 0x100_0000 == q2 / 256;
    }
  }

  lemma FourBytesOfBig(b: Data)
    requires |b| == 4
    ensures FourBytes(Big(b)) == b
  {
    var w: nat, x: nat, y: nat, z: nat := b[0], b[1], b[2], b[3];
    var n := Big(b);
    DivModUnique(n, 0x100_0000, w, x * 0x1_0000 + y * 0x100 + z);
    DivModUnique(n, 0x1_0000, w * 256 + x, y * 0x100 + z);
    DivModUnique(n, 0x100, w * 0x1_0000 + x * 256 + y, z);
    DivModUnique(w * 256 + x, 256, w, x);
    DivModUnique(w * 0x1_0000 + x * 256 + y, 256, w * 256 + x, y);
  }

  /**
   Canonical IPv4 text and 32-bit numbers stand for each other, up to 255.255.255.255, although the
   conversions pass through signed 32-bit integers.
   */
  lemma NumberRoundTrip(n: Ipv4, b: Data)
    requires |b| == 4
    ensures FromNumber(n).Some? && ToNumber(FromNumber(n).value) == Some(n)
    ensures ToNumber(Print(b).value) == Some(Big(b)) && FromNumber(Big(b)) == Print(b)
  {
    FromNumberPrints(n);
    BigOfFourBytes(n);
    FourBytesOfBig(b);
    RoundTrip(FourBytes(n));
    CombineIsBig(FourBytes(n));
    RoundTrip(b);
    CombineIsBig(b);
    FromNumberPrints(Big(b));
  }
}
