/**
 Text as the address formats use it: splitting at a separator and joining again, the notation of
 numbers in base 10 and 16, and the loops of packages/wire/src/util.ts that read numbers. Splitting and
 joining undo each other, and so do writing and reading a number.
 */
module Text {
  import opened Options
  import opened Bits

  // ---------------------------------------------------------------- split and join

  /** `s.split(sep)` for a separator of one character. */
  function Split(s: string, sep: char): (r: seq<string>)
    ensures r != []
  {
    if s == "" then [""]
    else
      var rest := Split(s[1..], sep);
      if s[0] == sep then [""] + rest else [[s[0]] + rest[0]] + rest[1..]
  }

  function Join(parts: seq<string>, sep: char): string {
    if parts == [] then ""
    else if |parts| == 1 then parts[0]
    else parts[0] + [sep] + Join(parts[1..], sep)
  }

  ghost predicate Free(s: string, c: char) {
    forall i :: 0 <= i < |s| ==> s[i] != c
  }

  ghost predicate AllFree(parts: seq<string>, c: char) {
    forall i :: 0 <= i < |parts| ==> Free(parts[i], c)
  }

  lemma {:induction false} SplitFirst(part: string, rest: string, sep: char)
    requires Free(part, sep)
    ensures Split(part, sep) == [part]
    ensures Split(part + [sep] + rest, sep) == [part] + Split(rest, sep)
  {
    if part == "" {
      assert part + [sep] + rest == [sep] + rest;
    } else {
      SplitFirst(part[1..], rest, sep);
      assert (part + [sep] + rest)[1..] == part[1..] + [sep] + rest;
      assert [part[0]] + part[1..] == part;
    }
  }

  /** Splitting undoes joining when no part contains the separator. */
  lemma {:induction false} SplitJoin(parts: seq<string>, sep: char)
    requires parts != [] && AllFree(parts, sep)
    ensures Split(Join(parts, sep), sep) == parts
  {
    if |parts| == 1 {
      SplitFirst(parts[0], "", sep);
    } else {
      assert AllFree(parts[1..], sep);
      SplitJoin(parts[1..], sep);
      assert Free(parts[0], sep);
      SplitFirst(parts[0], Join(parts[1..], sep), sep);
    }
  }

  /** Joining undoes splitting, and no part contains the separator. */
  lemma {:induction false} JoinSplit(s: string, sep: char)
    ensures Join(Split(s, sep), sep) == s && AllFree(Split(s, sep), sep)
  {
    if s != "" {
      JoinSplit(s[1..], sep);
      var rest := Split(s[1..], sep);
      assert [s[0]] + s[1..] == s;
      if s[0] == sep {
        assert ([""] + rest)[1..] == rest;
      } else {
        GrowFirst(s[0], rest, sep);
      }
    }
  }

  lemma GrowFirst(c: char, rest: seq<string>, sep: char)
    requires rest != [] && c != sep && AllFree(rest, sep)
    ensures var parts := [[c] + rest[0]] + rest[1..];
      Join(parts, sep) == [c] + Join(rest, sep) && AllFree(parts, sep)
  {
    var parts := [[c] + rest[0]] + rest[1..];
    assert parts[1..] == rest[1..];
    forall i | 0 <= i < |parts| ensures Free(parts[i], sep) {
      assert Free(rest[i], sep);
    }
  }

  lemma {:induction false} JoinAppend(a: seq<string>, b: seq<string>, sep: char)
    requires a != [] && b != []
    ensures Join(a + b, sep) == Join(a, sep) + [sep] + Join(b, sep)
  {
    assert (a + b)[1..] == a[1..] + b;
    if |a| > 1 {
      JoinAppend(a[1..], b, sep);
    } else {
      assert a[1..] + b == b;
    }
  }

  // ---------------------------------------------------------------- digits

  /** The digit of a value below 16, in lower case. */
  function Digit(d: nat): (c: char)
    requires d < 16
  {
    "0123456789abcdef"[d]
  }

  /** `n.toString(base)` */
  function ToText(n: nat, base: nat): (s: string)
    requires 2 <= base <= 16
    ensures s != ""
  {
    if n < base then [Digit(n)] else ToText(n / base, base) + [Digit(n % base)]
  }

  function HexValue(c: char): Option<nat> {
    if '0' <= c <= '9' then Some(c as int - 48)
    else if 'a' <= c <= 'f' then Some(c as int - 87)
    else if 'A' <= c <= 'F' then Some(c as int - 55)
    else None
  }

  function DecValue(c: char): Option<nat> {
    if '0' <= c <= '9' then Some(c as int - 48) else None
  }

  /** The number that `s` denotes in the given base, if every character is a digit. */
  function Number(s: string, base: nat): Option<nat>
    requires base == 10 || base == 16
  {
    if s == "" then Some(0)
    else
      var high :- Number(s[..|s| - 1], base);
      var low :- if base == 10 then DecValue(s[|s| - 1]) else HexValue(s[|s| - 1]);
      Some(base * high + low)
  }

  predicate IsDigit(c: char) {
    '0' <= c <= '9' || 'a' <= c <= 'f'
  }

  ghost predicate Digits(s: string) {
    forall i :: 0 <= i < |s| ==> IsDigit(s[i])
  }

  lemma DigitDenotes(d: nat)
    requires d < 16
    ensures HexValue(Digit(d)) == Some(d) && IsDigit(Digit(d))
    ensures d < 10 ==> DecValue(Digit(d)) == Some(d) && '0' <= Digit(d) <= '9'
  {
  }

  lemma DivMod(n: nat, d: nat)
    requires d > 1
    ensures n == d * (n / d) + n % d && n % d < d
    ensures n >= d ==> n / d < n
  {
    if n >= d {
      DivSmaller(n, d, n / d, n % d);
    }
  }

  lemma DivSmaller(n: nat, d: nat, q: nat, r: nat)
    requires d > 1 && n > 0 && n == d * q + r
    ensures q < n
  {
    if q > 0 {
      assert d * q == q + (d - 1) * q;
      MulMonotone(q, 1, d - 1);
    }
  }

  lemma TextOfMany(n: nat, base: nat)
    requires 2 <= base <= 16 && n >= base
    ensures ToText(n, base) == ToText(n / base, base) + [Digit(n % base)]
  {
  }

  /** The notation of a number denotes it. */
  lemma {:induction false} NumberOfText(n: nat, base: nat)
    requires base == 10 || base == 16
    ensures Number(ToText(n, base), base) == Some(n)
    decreases n
  {
    DivMod(n, base);
    if n < base {
      NumberOfDigits("", 0, n, base);
    } else {
      NumberOfText(n / base, base);
      NumberOfDigits(ToText(n / base, base), n / base, n % base, base);
      TextOfMany(n, base);
    }
  }

  lemma NumberOfDigits(s: string, high: nat, low: nat, base: nat)
    requires base == 10 || base == 16
    requires Number(s, base) == Some(high) && low < base
    ensures Number(s + [Digit(low)], base) == Some(base * high + low)
  {
    DigitDenotes(low);
    NumberAppend(s, Digit(low), base);
  }

  lemma NumberAppend(s: string, c: char, base: nat)
    requires base == 10 || base == 16
    requires Number(s, base).Some?
    requires HexValue(c).Some? && (base == 10 ==> DecValue(c).Some?)
    ensures Number(s + [c], base) == Some(base * Number(s, base).value + HexValue(c).value)
  {
    assert (s + [c])[..|s|] == s;
  }

  lemma DigitIsZero(d: nat)
    requires d < 16
    ensures Digit(d) == '0' <==> d == 0
  {
  }

  /** No leading zero, except in the notation of zero. */
  lemma {:induction false} NoLeadingZero(n: nat, base: nat)
    requires 2 <= base <= 16
    ensures ToText(n, base)[0] == '0' <==> n == 0
    ensures ToText(n, base)[0] == '0' ==> ToText(n, base) == "0"
    decreases n
  {
    if n < base {
      DigitIsZero(n);
    } else {
      DivMod(n, base);
      DivAtLeastOne(n, base);
      NoLeadingZero(n / base, base);
      TextOfMany(n, base);
    }
  }

  lemma DivAtLeastOne(n: nat, d: nat)
    requires n >= d > 0
    ensures n / d >= 1
  {
  }

  lemma {:induction false} TextIsDigits(n: nat, base: nat)
    requires 2 <= base <= 16
    ensures Digits(ToText(n, base))
    decreases n
  {
    DivMod(n, base);
    DigitDenotes(n % base);
    if n < base {
      DigitDenotes(n);
    } else {
      TextIsDigits(n / base, base);
    }
  }

  /** A number below `base^k` takes at most `k` digits. */
  function Power(base: nat, k: nat): nat {
    if k == 0 then 1 else base * Power(base, k - 1)
  }

  lemma {:induction false} TextLength(n: nat, base: nat, k: nat)
    requires 2 <= base <= 16 && k > 0 && n < Power(base, k)
    ensures |ToText(n, base)| <= k
    decreases k
  {
    if n >= base {
      assert k > 1 by {
        assert Power(base, 1) == base * Power(base, 0) == base;
      }
      QuotientBelow(n, base, Power(base, k - 1));
      TextLength(n / base, base, k - 1);
    }
  }

  lemma QuotientBelow(n: nat, base: nat, p: nat)
    requires base > 0 && n < base * p
    ensures n / base < p
  {
  }

  lemma MulMonotone(a: nat, b: nat, c: nat)
    requires b <= c
    ensures a * b <= a * c
  {
    assert a * c == a * b + a * (c - b);
  }

  lemma {:induction false} NumberBelow(s: string, base: nat)
    requires base == 10 || base == 16
    ensures Number(s, base).Some? ==> Number(s, base).value < Power(base, |s|)
  {
    if s != "" {
      NumberBelow(s[..|s| - 1], base);
      if Number(s, base).Some? {
        MulMonotone(base, Number(s[..|s| - 1], base).value + 1, Power(base, |s| - 1));
      }
    }
  }

  // ---------------------------------------------------------------- the parsing loops

  /** `parseUint`: the value of a non-empty string of decimal digits, or an error. */
  method ParseUint(str: string) returns (r: Option<nat>)
    ensures r == if str == "" then None else Number(str, 10)
  {
    if |str| == 0 {
      return None;
    }
    var value: nat := 0;
    var i := 0;
    while i < |str|
      invariant i <= |str| && Number(str[..i], 10) == Some(value)
    {
      var c := str[i];
      assert str[..i + 1][..i] == str[..i];
      if c as int < 48 || c as int > 57 {
        NoNumber(str, i + 1, 10);
        return None;
      }
      value := value * 10 + (c as int - 48);
      i := i + 1;
    }
    assert str[..i] == str;
    return Some(value);
  }

  lemma {:induction false} NoNumber(s: string, k: nat, base: nat)
    requires base == 10 || base == 16
    requires k <= |s| && Number(s[..k], base).None?
    ensures Number(s, base).None?
  {
    if k < |s| {
      assert s[..|s| - 1][..k] == s[..k];
      NoNumber(s[..|s| - 1], k, base);
    } else {
      assert s[..k] == s;
    }
  }

  /** One round of `parseHex` appends a digit to the 32-bit value of the digits so far. */
  lemma ShiftInDigit(n: nat, digit: nat, m: nat)
    requires digit < 16 && m == 16 * n + digit
    ensures BitOr(Shl(Int32(n), 4), digit) == Int32(m)
  {
    var low: nat := n % 0x1000_0000;
    ShiftedValue(n, Int32(n), low, digit, m);
    OrDigit(low, 16 * low, digit);
    OrWrapped(Shl(Int32(n), 4), 16 * low, digit, m);
  }

  lemma OrDigit(low: nat, u: nat, digit: nat)
    requires u == 16 * low && digit < 16
    ensures Or(u, digit) == u + digit
  {
    PowersUsed();
    OrLow(low, digit, 4);
    assert low * Pow2(4) == u;
  }

  lemma OrWrapped(x: int, u: nat, digit: nat, m: nat)
    requires Uint32(x) == u && digit < 16 && Or(u, digit) == Uint32(m)
    ensures BitOr(x, digit) == Int32(m)
  {
    WrapTwice(m);
  }

  lemma ShiftedValue(n: nat, x: int, low: nat, digit: nat, m: nat)
    requires x == Int32(n) && low == n % 0x1000_0000 && digit < 16 && m == 16 * n + digit
    ensures Uint32(Shl(x, 4)) == 16 * low && Uint32(m) == 16 * low + digit
  {
    var q: nat := n / 0x1000_0000;
    DivModUnique(m, TWO_32, q, 16 * low + digit);
    var t := WholeTurns(n);
    var y := 16 * x;
    DivModUnique(y, TWO_32, q - 16 * t, 16 * low);
    WrapTwice(y);
    PowersUsed();
  }

  lemma WholeTurns(n: nat) returns (t: int)
    ensures n == Int32(n) + t * TWO_32
  {
    DivMod(n, TWO_32);
    t := if n % TWO_32 < TWO_31 then n / TWO_32 else n / TWO_32 + 1;
  }

  lemma NextHexDigit(hex: string, i: nat, n: nat, digit: nat)
    requires i < |hex| && Number(hex[..i], 16) == Some(n) && HexValue(hex[i]) == Some(digit)
    ensures Number(hex[..i + 1], 16) == Some(16 * n + digit)
  {
    assert hex[..i + 1] == hex[..i] + [hex[i]];
    NumberAppend(hex[..i], hex[i], 16);
  }

  /** `parseHex`: the value is that of the digits, wrapped to 32 bits; the empty string denotes zero. */
  method ParseHex(hex: string) returns (r: Option<int>)
    ensures r == if Number(hex, 16).None? then None else Some(Int32(Number(hex, 16).value))
  {
    var value: int := 0;
    ghost var n: nat := 0;
    var i := 0;
    while i < |hex|
      invariant i <= |hex| && Number(hex[..i], 16) == Some(n) && value == Int32(n)
    {
      var c := hex[i];
      var digit: nat;
      if '0' <= c <= '9' {
        digit := c as int - 48;
      } else if 'a' <= c <= 'f' {
        digit := c as int - 87;
      } else if 'A' <= c <= 'F' {
        digit := c as int - 55;
      } else {
        assert hex[..i + 1][..i] == hex[..i];
        NoNumber(hex, i + 1, 16);
        return None;
      }
      NextHexDigit(hex, i, n, digit);
      ShiftInDigit(n, digit, 16 * n + digit);
      value := BitOr(Shl(value, 4), digit);
      n := 16 * n + digit;
      i := i + 1;
    }
    assert hex[..i] == hex;
    return Some(value);
  }
}
