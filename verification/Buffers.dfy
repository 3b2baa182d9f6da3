/**
 Byte buffers as `DataView`, `Uint8Array.set` and `subarray` read and write them: fields of one, two
 and four bytes, high byte first, bit fields within a byte, the checksum field of a buffer, and new
 buffers that are filled from the front as the serializers fill theirs.
 */
module Buffers {
  import opened Bits
  import opened Bytes
  import opened Checksum

  /** The byte that `setUint8` writes. */
  function Low8(x: int): Byte {
    x % 0x100
  }

  lemma LowIs(x: int, b: Byte)
    requires x == b
    ensures Low8(x) == b
  {
  }

  /** The bytes that `setUint16` writes. */
  function Be16(x: int): (b: Data)
    ensures |b| == 2
  {
    [x % 0x1_0000 / 0x100, x % 0x100]
  }

  /** The bytes that `setUint32` writes. */
  function Be32(x: int): (b: Data)
    ensures |b| == 4
  {
    [x % 0x1_0000_0000 / 0x100_0000, x % 0x100_0000 / 0x1_0000, x % 0x1_0000 / 0x100, x % 0x100]
  }

  function Get16(data: Data, i: nat): (n: nat)
    requires i + 2 <= |data|
    ensures n < 0x1_0000
  {
    var hi: nat, lo: nat := data[i], data[i + 1];
    0x100 * hi + lo
  }

  function Get32(data: Data, i: nat): (n: nat)
    requires i + 4 <= |data|
    ensures n < 0x1_0000_0000
  {
    0x1_0000 * Get16(data, i) + Get16(data, i + 2)
  }

  lemma Be16Wraps(x: nat)
    ensures Be16(x) == Be16(x % 0x1_0000)
  {
    var q: nat, r: nat := x / 0x1_0000, x % 0x1_0000;
    LowByteOf(x, q, r, r / 0x100, r % 0x100);
    LowByteOf(r, 0, r, r / 0x100, r % 0x100);
    SameBe16(x, r);
  }

  lemma SameBe16(x: nat, y: nat)
    requires x % 0x1_0000 == y % 0x1_0000 && x % 0x100 == y % 0x100
    ensures Be16(x) == Be16(y)
  {
  }

  lemma LowByteOf(x: nat, q: nat, r: nat, hi: nat, lo: nat)
    requires x == 0x1_0000 * q + r && r == 0x100 * hi + lo && lo < 0x100
    ensures x % 0x100 == lo
  {
    DivModUnique(x, 0x100, 0x100 * q + hi, lo);
  }

  lemma Be16Reads(x: nat, before: Data, after: Data)
    requires x < 0x1_0000
    ensures Get16(before + Be16(x) + after, |before|) == x
  {
    var d := before + Be16(x) + after;
    assert d[|before|] == x / 0x100 && d[|before| + 1] == x % 0x100;
  }

  /** Bytes that are read as a number are written for it. */
  lemma Be16Writes(d: Data, i: nat)
    requires i + 2 <= |d|
    ensures Be16(Get16(d, i)) == d[i..i + 2]
  {
  }

  lemma Be32Reads(x: nat, before: Data, after: Data)
    requires x < 0x1_0000_0000
    ensures Get32(before + Be32(x) + after, |before|) == x
  {
    var d := before + Be32(x) + after;
    var i := |before|;
    assert d[i] == Be32(x)[0] && d[i + 1] == Be32(x)[1] && d[i + 2] == Be32(x)[2] && d[i + 3] == Be32(x)[3];
    FourBytes(x, d[i], d[i + 1], d[i + 2], d[i + 3]);
  }

  lemma FourBytes(x: nat, b3: nat, b2: nat, b1: nat, b0: nat)
    requires x < 0x1_0000_0000 && b3 == x % 0x1_0000_0000 / 0x100_0000 && b2 == x % 0x100_0000 / 0x1_0000
    requires b1 == x % 0x1_0000 / 0x100 && b0 == x % 0x100
    ensures x == 0x1_0000 * (0x100 * b3 + b2) + (0x100 * b1 + b0)
  {
    var low3: nat := x % 0x100_0000;
    var low2: nat := low3 % 0x1_0000;
    DivModUnique(x, 0x1_0000, 0x100 * b3 + b2, low2);
    DivModUnique(x, 0x100, 0x1_0000 * b3 + 0x100 * b2 + low2 / 0x100, low2 % 0x100);
  }

  lemma Be32Writes(d: Data, i: nat)
    requires i + 4 <= |d|
    ensures Be32(Get32(d, i)) == d[i..i + 4]
  {
    var a: nat, b: nat, c: nat, e: nat := d[i], d[i + 1], d[i + 2], d[i + 3];
    var x := Get32(d, i);
    assert x == a * 0x100_0000 + (b * 0x1_0000 + c * 0x100 + e);
    DivModUnique(x, 0x100_0000, a, b * 0x1_0000 + c * 0x100 + e);
    DivModUnique(b * 0x1_0000 + c * 0x100 + e, 0x1_0000, b, c * 0x100 + e);
    DivModUnique(x, 0x1_0000, a * 0x100 + b, c * 0x100 + e);
    DivModUnique(c * 0x100 + e, 0x100, c, e);
    DivModUnique(x, 0x100, a * 0x1_0000 + b * 0x100 + c, e);
  }

  /** `data.subarray(i)` */
  function From(data: Data, i: nat): Data {
    if i <= |data| then data[i..] else []
  }

  /** `data.subarray(i, j)` */
  function Between(data: Data, i: nat, j: nat): Data {
    if i <= j <= |data| then data[i..j] else if i <= |data| < j then data[i..] else []
  }

  // ---------------------------------------------------------------- bit fields

  lemma SmallPower(k: nat)
    requires k < 8
    ensures Pow2(k) <= 128
  {
    PowMonotone(k, 7);
    PowersUsed();
  }

  lemma PackedOr(high: nat, low: nat, k: nat, h: nat)
    requires k < 8 && low < Pow2(k) && h == high * Pow2(k) && h + low < 0x100
    ensures BitOr(Shl(high, k), low) == h + low
  {
    OrLow(high, low, k);
    Unsigned(h);
    SmallOr(h, low, h + low);
  }

  lemma PackedApart(high: nat, low: nat, k: nat, b: nat)
    requires k < 8 && low < Pow2(k) && b == high * Pow2(k) + low && b < 0x100
    ensures Sar(b, k) == high
    ensures BitAnd(b, Pow2(k) - 1) == low
  {
    var p: nat := Pow2(k);
    DivModUnique(b, p, high, low);
    Unsigned(b);
    SmallPower(k);
    AndLow(b, k);
    SmallAnd(b, p - 1, low);
  }

  /** The two hexadecimal digits of a byte. */
  lemma NibblesAreBits(b: Byte)
    ensures Sar(b, 4) == b / 16 && BitAnd(b, 0xf) == b % 16
  {
    assert Pow2(4) == 16 by {
      PowersUsed();
    }
    PackedApart(b / 16, b % 16, 4, b);
  }

  /** A byte made of a high and a low field, and the shifts and masks that take it apart. */
  lemma Packed(high: nat, low: nat, k: nat)
    requires 0 < k < 8 && low < Pow2(k) && high * Pow2(k) + low < 0x100
    ensures BitOr(Shl(high, k), low) == high * Pow2(k) + low
    ensures Sar(high * Pow2(k) + low, k) == high
    ensures BitAnd(high * Pow2(k) + low, Pow2(k) - 1) == low
  {
    var h: nat := high * Pow2(k);
    PackedOr(high, low, k, h);
    PackedApart(high, low, k, h + low);
  }

  /** A mask of one bit tells that bit. */
  lemma {:induction false} AndBit(x: nat, k: nat)
    ensures And(x, Pow2(k)) == if x / Pow2(k) % 2 == 1 then Pow2(k) else 0
  {
    if k > 0 {
      AndBit(x / 2, k - 1);
      ModTwice(x, Pow2(k - 1));
    }
  }

  lemma BitSet(x: nat, k: nat, p: nat)
    requires k <= 7 && x < 0x100 && p == Pow2(k)
    ensures BitAnd(x, p) != 0 <==> x / p % 2 == 1
  {
    AndBit(x, k);
    SmallPower(k);
    if x / p % 2 == 1 {
      SmallAnd(x, p, p);
    } else {
      SmallAnd(x, p, 0);
    }
  }

  // ---------------------------------------------------------------- checksums in place

  lemma WriteReads(data: Data, offset: nat, value: nat)
    requires 0 < offset && offset % 2 == 0 && offset + 2 <= |data| && value < 0x1_0000
    ensures Get16(Write16(data, offset, value), offset) == value
    ensures Checksum.Checksum(Write16(data, offset, value), offset) == Checksum.Checksum(data, offset)
  {
    WrittenChecksumVerifies(data, offset, value);
  }

  lemma WriteIs(data: Data, offset: nat, value: nat)
    requires offset + 2 <= |data| && value < 0x1_0000
    ensures Write16(data, offset, value) == data[..offset] + Be16(value) + data[offset + 2..]
  {
  }

  /** Writing behind a prefix. */
  lemma WriteBehind(prefix: Data, data: Data, offset: nat, value: nat)
    requires offset + 2 <= |data| && value < 0x1_0000
    ensures prefix + Write16(data, offset, value) == Write16(prefix + data, |prefix| + offset, value)
  {
  }

  // ---------------------------------------------------------------- arrays

  function Zeros(n: nat): (z: Data)
    ensures |z| == n
  {
    seq(n, _ => 0)
  }

  /** `Uint8Array.set`, and with the bytes of a number `setUint8`, `setUint16` and `setUint32`. */
  method Put(a: array<Byte>, offset: nat, bytes: Data)
    requires offset + |bytes| <= a.Length
    modifies a
    ensures a[..] == old(a[..offset]) + bytes + old(a[offset + |bytes|..])
  {
    for i := 0 to |bytes|
      invariant a[..] == old(a[..offset]) + bytes[..i] + old(a[offset + i..])
    {
      a[offset + i] := bytes[i];
    }
    assert bytes[..|bytes|] == bytes;
  }

  /** A new buffer that is filled from the front: `done` has been written, the rest is still zero. */
  ghost predicate Filled(a: array<Byte>, done: Data)
    reads a
  {
    |done| <= a.Length && a[..] == done + Zeros(a.Length - |done|)
  }

  /** Writing the next field. */
  method Append(a: array<Byte>, ghost done: Data, offset: nat, bytes: Data)
    requires Filled(a, done) && offset == |done| && offset + |bytes| <= a.Length
    modifies a
    ensures Filled(a, done + bytes)
  {
    ghost var rest := Zeros(a.Length - |done|);
    Put(a, offset, bytes);
    assert a[..] == done + bytes + rest[|bytes|..];
  }

  lemma ZerosAreFilled(a: array<Byte>, done: Data, n: nat)
    requires Filled(a, done) && |done| + n <= a.Length
    ensures Filled(a, done + Zeros(n))
  {
    assert Zeros(a.Length - |done|) == Zeros(n) + Zeros(a.Length - |done| - n);
  }
}
