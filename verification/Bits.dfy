/**
 Bitwise operators on numbers, bit by bit, and the 32-bit integers that JavaScript's shift and
 bitwise operators convert their operands to (sections 7.1.6 and 13.9 of ECMA-262). The lemmas say
 what masking and combining bit fields means in terms of division and remainder.
 */
module Bits {
  function Pow2(k: nat): (r: nat)
    ensures r > 0
  {
    if k == 0 then 1 else 2 * Pow2(k - 1)
  }

  function And(x: nat, y: nat): nat {
    if x == 0 || y == 0 then 0
    else 2 * And(x / 2, y / 2) + (if x % 2 == 1 && y % 2 == 1 then 1 else 0)
  }

  function Or(x: nat, y: nat): nat {
    if x == 0 then y
    else if y == 0 then x
    else 2 * Or(x / 2, y / 2) + (if x % 2 == 1 || y % 2 == 1 then 1 else 0)
  }

  const TWO_31: nat := 0x8000_0000
  const TWO_32: nat := 0x1_0000_0000

  /** The unsigned 32-bit value of a number. */
  function Uint32(x: int): (r: nat)
    ensures r < TWO_32
  {
    x % TWO_32
  }

  /** The signed 32-bit value of a number. */
  function Int32(x: int): (r: int)
    ensures -(TWO_31 as int) <= r < TWO_31
    ensures -(TWO_31 as int) <= x < TWO_31 ==> r == x
  {
    if Uint32(x) < TWO_31 then Uint32(x) else Uint32(x) - TWO_32
  }

  /** `x >> k` */
  function Sar(x: int, k: nat): int
    requires k < 32
  {
    Int32(x) / Pow2(k)
  }

  /** `x << k` */
  function Shl(x: int, k: nat): int
    requires k < 32
  {
    Int32(x * Pow2(k))
  }

  /** `x & y` */
  function BitAnd(x: int, y: int): int {
    Int32(And(Uint32(x), Uint32(y)))
  }

  /** `x | y` */
  function BitOr(x: int, y: int): int {
    Int32(Or(Uint32(x), Uint32(y)))
  }

  /** `~x` */
  function BitNot(x: int): int {
    -Int32(x) - 1
  }

  lemma MulAtLeast(k: int, d: int)
    requires k >= 1 && d > 0
    ensures k * d >= d
  {
    assert k * d == (k - 1) * d + d;
  }

  lemma DivModUnique(x: int, d: int, q: int, r: int)
    requires x == q * d + r && 0 <= r < d
    ensures x / d == q && x % d == r
  {
    var k := q - x / d;
    assert k * d == q * d - x / d * d;
    if k >= 1 {
      MulAtLeast(k, d);
    } else if k <= -1 {
      MulAtLeast(-k, d);
    }
  }

  lemma ModTwice(x: nat, p: nat)
    requires p > 0
    ensures x % (2 * p) == 2 * (x / 2 % p) + x % 2
    ensures x / (2 * p) == x / 2 / p
  {
    var q := x / 2 / p;
    var r := 2 * (x / 2 % p) + x % 2;
    assert x / 2 == q * p + x / 2 % p;
    assert x == q * (2 * p) + r by {
      assert q * (2 * p) == 2 * (q * p);
    }
    DivModUnique(x, 2 * p, q, r);
  }

  /** Masking with `k` ones takes the remainder. */
  lemma {:induction false} AndLow(x: nat, k: nat)
    ensures And(x, Pow2(k) - 1) == x % Pow2(k)
  {
    if k > 0 {
      AndLow(x / 2, k - 1);
      ModTwice(x, Pow2(k - 1));
    }
  }

  /** A value below `2^k` fills the low bits of a multiple of `2^k`. */
  lemma {:induction false} OrLow(high: nat, low: nat, k: nat)
    requires low < Pow2(k)
    ensures Or(high * Pow2(k), low) == high * Pow2(k) + low
  {
    if k > 0 {
      var h: nat := high * Pow2(k - 1);
      OrLow(high, low / 2, k - 1);
      MulTwice(high, Pow2(k - 1));
      OrTwice(h, low);
    }
  }

  lemma OrTwice(h: nat, low: nat)
    requires Or(h, low / 2) == h + low / 2
    ensures Or(2 * h, low) == 2 * h + low
  {
    assert 2 * h / 2 == h && 2 * h % 2 == 0;
  }

  lemma {:induction false} PowMonotone(j: nat, n: nat)
    requires j <= n
    ensures Pow2(j) <= Pow2(n)
  {
    if j < n {
      PowMonotone(j, n - 1);
    }
  }

  lemma MulTwice(q: nat, p: nat)
    ensures q * (2 * p) == 2 * (q * p)
  {
  }

  /** Masking with ones from bit `j` up to bit `n - 1` clears the low `j` bits. */
  lemma {:induction false} AndHigh(x: nat, j: nat, n: nat)
    requires j <= n && x < Pow2(n) && Pow2(j) <= Pow2(n)
    ensures And(x, Pow2(n) - Pow2(j)) == x / Pow2(j) * Pow2(j)
    decreases n
  {
    if j == 0 {
      AndLow(x, n);
      assert x / 1 * 1 == x;
      assert x % Pow2(n) == x by {
        DivModUnique(x, Pow2(n), 0, x);
      }
    } else {
      var p, m := Pow2(j - 1), Pow2(n) - Pow2(j);
      PowMonotone(j - 1, n - 1);
      AndHigh(x / 2, j - 1, n - 1);
      ModTwice(x, p);
      MulTwice(x / 2 / p, p);
      assert m == 2 * (Pow2(n - 1) - p);
    }
  }

  lemma PowersUsed()
    ensures Pow2(1) == 2 && Pow2(2) == 4 && Pow2(3) == 8 && Pow2(4) == 16 && Pow2(5) == 32 && Pow2(6) == 64
    ensures Pow2(7) == 128 && Pow2(8) == 256 && Pow2(16) == 0x1_0000 && Pow2(24) == 0x100_0000
  {
    assert Pow2(4) == 2 * Pow2(3);
    assert Pow2(8) == 2 * Pow2(7) && Pow2(7) == 2 * Pow2(6) && Pow2(6) == 2 * Pow2(5) && Pow2(5) == 2 * Pow2(4);
    assert Pow2(12) == 16 * Pow2(8) by {
      assert Pow2(12) == 2 * Pow2(11) && Pow2(11) == 2 * Pow2(10) && Pow2(10) == 2 * Pow2(9) && Pow2(9) == 2 * Pow2(8);
    }
    assert Pow2(16) == 16 * Pow2(12) by {
      assert Pow2(16) == 2 * Pow2(15) && Pow2(15) == 2 * Pow2(14) && Pow2(14) == 2 * Pow2(13) &&
        Pow2(13) == 2 * Pow2(12);
    }
    assert Pow2(20) == 16 * Pow2(16) by {
      assert Pow2(20) == 2 * Pow2(19) && Pow2(19) == 2 * Pow2(18) && Pow2(18) == 2 * Pow2(17) &&
        Pow2(17) == 2 * Pow2(16);
    }
    assert Pow2(24) == 16 * Pow2(20) by {
      assert Pow2(24) == 2 * Pow2(23) && Pow2(23) == 2 * Pow2(22) && Pow2(22) == 2 * Pow2(21) &&
        Pow2(21) == 2 * Pow2(20);
    }
  }

  lemma Unsigned(x: nat)
    requires x < TWO_31
    ensures Uint32(x) == x && Int32(x) == x
  {
  }

  lemma SmallOr(x: nat, y: nat, z: nat)
    requires x < TWO_31 && y < TWO_31 && z < TWO_31 && Or(x, y) == z
    ensures BitOr(x, y) == z
  {
    Unsigned(x);
    Unsigned(y);
    Unsigned(z);
  }

  lemma SmallAnd(x: nat, y: nat, z: nat)
    requires x < TWO_31 && y < TWO_31 && z < TWO_31 && And(x, y) == z
    ensures BitAnd(x, y) == z
  {
    Unsigned(x);
    Unsigned(y);
    Unsigned(z);
  }

  /** The remainder by 256 does not depend on the multiples of 2^32 that are dropped. */
  lemma LowByteOfUint32(x: int)
    ensures Uint32(x) % 256 == x % 256
  {
    var u: nat := x % TWO_32;
    var q := x / TWO_32;
    assert x == (0x100_0000 * q + u / 256) * 256 + u % 256;
    DivModUnique(x, 256, 0x100_0000 * q + u / 256, u % 256);
  }

  /** `x & 0xff` */
  lemma LowByte(x: int)
    ensures BitAnd(x, 0xff) == x % 256
  {
    assert Pow2(8) == 256 by {
      PowersUsed();
    }
    var u: nat, low: nat := Uint32(x), x % 256;
    LowByteOfUint32(x);
    AndLow(u, 8);
    assert Uint32(0xff) == 0xff;
    assert And(u, 0xff) == low;
    Unsigned(low);
  }

  lemma WrapTwice(x: int)
    ensures Uint32(Int32(x)) == Uint32(x)
  {
  }

  lemma ShlUnsigned(x: nat, k: nat)
    requires k < 32 && x * Pow2(k) < TWO_32
    ensures Uint32(Shl(x, k)) == x * Pow2(k)
  {
    WrapTwice(x * Pow2(k));
  }

  /** `a | b` when the low value fits below the bits of the high one. */
  lemma OrUnsigned(a: int, b: int, high: nat, low: nat, k: nat)
    requires Uint32(a) == high * Pow2(k) && Uint32(b) == low < Pow2(k) && high * Pow2(k) + low < TWO_32
    ensures Uint32(BitOr(a, b)) == high * Pow2(k) + low
  {
    OrLow(high, low, k);
    WrapTwice(Or(Uint32(a), Uint32(b)));
  }
}
