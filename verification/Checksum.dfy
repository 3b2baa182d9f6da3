/** The internet checksum. */
module Checksum {
  // packages/wire/src/util.ts (section 1 of RFC 1071), computed with JavaScript's 32-bit operators.

  import opened Bits
  import opened Bytes

  /** The 16-bit word that starts at `i`; a missing second byte counts as zero. */
  function Word(data: Data, i: nat): (w: nat)
    requires i < |data|
    ensures w < 0x1_0000
  {
    var hi: nat, lo: nat := data[i], if i + 1 < |data| then data[i + 1] else 0;
    256 * hi + lo
  }

  /** Whether the word at `i` is left out; an offset of zero leaves out nothing. */
  predicate Skipped(i: nat, checksumOffset: nat) {
    checksumOffset != 0 && checksumOffset <= i < checksumOffset + 2
  }

  /** The sum of the words from `i` on. */
  function WordSum(data: Data, i: nat, checksumOffset: nat): nat
    decreases |data| - i
  {
    if i >= |data| then 0
    else (if Skipped(i, checksumOffset) then 0 else Word(data, i)) + WordSum(data, i + 2, checksumOffset)
  }

  /** The one's complement sum that a plain sum stands for. */
  function Fold(sum: nat): (r: nat)
    ensures r < 0x1_0000
  {
    if sum == 0 then 0 else (sum - 1) % 0xffff + 1
  }

  /** The sum of every second byte from `i` on. */
  function EverySecond(data: Data, i: nat): nat
    decreases |data| - i
  {
    if i >= |data| then 0 else data[i] + EverySecond(data, i + 2)
  }

  /** The bytes `i` and `i + 1`, as far as there are any, replaced by zeros. */
  function Blank(data: Data, i: nat): (r: Data)
    ensures |r| == |data| && forall k :: 0 <= k < |data| ==> r[k] == if i <= k < i + 2 then 0 else data[k]
  {
    seq(|data|, k requires 0 <= k < |data| => if i <= k < i + 2 then 0 else data[k])
  }

  /** The even place at which the word is left out; `|data|` if none is. */
  function Field(data: Data, checksumOffset: nat): nat {
    if checksumOffset == 0 then |data| else checksumOffset + checksumOffset % 2
  }

  lemma {:induction false} WordSumFrom(data: Data, i: nat, checksumOffset: nat, blank: Data)
    requires i % 2 == 0 && blank == Blank(data, Field(data, checksumOffset))
    ensures WordSum(data, i, checksumOffset) == 256 * EverySecond(blank, i) + EverySecond(blank, i + 1)
    decreases |data| - i
  {
    if i < |data| {
      WordSumFrom(data, i + 2, checksumOffset, blank);
      assert Skipped(i, checksumOffset) <==> i == Field(data, checksumOffset);
    }
  }

  /**
   What is summed: each byte at an even place counts 256 times, each at an odd place once, and the two of the
   checksum field not at all. The last byte of a buffer of odd length stands at an even place.
   */
  lemma WordSumIs(data: Data, checksumOffset: nat)
    ensures var blank := Blank(data, Field(data, checksumOffset));
      WordSum(data, 0, checksumOffset) == 256 * EverySecond(blank, 0) + EverySecond(blank, 1)
  {
    WordSumFrom(data, 0, checksumOffset, Blank(data, Field(data, checksumOffset)));
  }

  lemma {:induction false} PaddedSum(data: Data, i: nat, checksumOffset: nat)
    requires |data| % 2 == 1 && i % 2 == 0
    ensures WordSum(data + [0], i, checksumOffset) == WordSum(data, i, checksumOffset)
    decreases |data| - i
  {
    if i < |data| {
      PaddedSum(data, i + 2, checksumOffset);
    }
  }

  /** A buffer of odd length has the checksum it has when a zero is put behind it. */
  lemma OddIsPadded(data: Data, checksumOffset: nat)
    requires |data| % 2 == 1
    ensures Checksum(data, checksumOffset) == Checksum(data + [0], checksumOffset)
  {
    PaddedSum(data, 0, checksumOffset);
  }

  /** What the folding loop makes of a signed 32-bit sum. */
  function Folded(x: int): (r: nat)
    ensures r < 0x1_0000
  {
    if x > 0 then Fold(x) else x % 0xffff
  }

  /** The checksum as the program computes it, from the 32 bits of the sum. */
  function Checksum(data: Data, checksumOffset: nat): (r: nat)
    ensures r < 0x1_0000
  {
    0xffff - Folded(Int32(WordSum(data, 0, checksumOffset)))
  }

  lemma WordIsOr(hi: nat, lo: nat)
    requires hi < 256 && lo < 256
    ensures BitOr(Shl(hi, 8), lo) == 256 * hi + lo
  {
    assert Pow2(8) == 256 by {
      PowersUsed();
    }
    OrLow(hi, lo, 8);
    assert Shl(hi, 8) == 256 * hi;
    SmallOr(256 * hi, lo, 256 * hi + lo);
  }

  lemma {:induction false} SumBelow(data: Data, i: nat, checksumOffset: nat)
    requires i % 2 == 0 && i <= |data| + 1
    ensures WordSum(data, i, checksumOffset) <= (|data| + 1 - i) / 2 * 0xffff
    decreases |data| - i
  {
    if i < |data| {
      SumBelow(data, i + 2, checksumOffset);
    }
  }

  /** One round of the folding loop. */
  function FoldOnce(sum: int): int {
    BitAnd(sum, 0xffff) + Sar(sum, 16)
  }

  /** What one round makes of the signed 32-bit value of the sum. */
  lemma FoldOnceValue(sum: int)
    ensures FoldOnce(sum) == Int32(sum) % 0x1_0000 + Int32(sum) / 0x1_0000
    ensures -0x8000 <= Int32(sum) / 0x1_0000 < 0x8000
  {
    PowersUsed();
    LowWord(Int32(sum), Uint32(sum));
    LowBits(sum, Uint32(sum));
  }

  lemma LowWord(x: int, u: nat)
    requires x == u || x == u - TWO_32
    ensures x % 0x1_0000 == u % 0x1_0000
  {
    var q, r := u / 0x1_0000, u % 0x1_0000;
    DivModUnique(x, 0x1_0000, if x == u then q else q - 0x1_0000, r);
  }

  lemma LowBits(sum: int, u: nat)
    requires u == Uint32(sum)
    ensures BitAnd(sum, 0xffff) == u % 0x1_0000
  {
    PowersUsed();
    AndLow(u, 16);
    assert Uint32(0xffff) == 0xffff;
    Unsigned(u % 0x1_0000);
  }

  /** A round keeps the folded value, and after the first one the sum has 17 bits at most. */
  lemma FoldOnceKeeps(sum: int)
    requires Sar(sum, 16) != 0
    ensures -0x8000 <= FoldOnce(sum) < 0x1_8000 && Int32(FoldOnce(sum)) == FoldOnce(sum)
    ensures Folded(FoldOnce(sum)) == Folded(Int32(sum))
    ensures -0x8000 <= sum < 0x1_8000 ==> 0 <= FoldOnce(sum) < 0x1_0000
  {
    PowersUsed();
    FoldOnceValue(sum);
    var x := Int32(sum);
    FoldedShift(x, x / 0x1_0000, x % 0x1_0000);
    RoundBounds(x, x / 0x1_0000, x % 0x1_0000, FoldOnce(sum));
  }

  lemma RoundBounds(x: int, q: int, r: nat, y: int)
    requires x == 0x1_0000 * q + r && r < 0x1_0000 && q != 0 && -0x8000 <= q < 0x8000 && y == r + q
    ensures -0x8000 <= y < 0x1_8000 && Int32(y) == y
    ensures -0x8000 <= x < 0x1_8000 ==> 0 <= y < 0x1_0000
  {
  }

  lemma FoldedShift(x: int, q: int, r: nat)
    requires x == 0x1_0000 * q + r && r < 0x1_0000 && q != 0 && -0x8000 <= q < 0x8000
    ensures Folded(r + q) == Folded(x)
  {
    if q > 0 {
      FoldShift(r + q, q);
      assert x == r + q + 0xffff * q;
    } else {
      var y := r + q;
      assert x == y + 0xffff * q && y < 0xffff;
      DivModUnique(x, 0xffff, y / 0xffff + q, y % 0xffff);
      if y > 0 {
        DivModUnique(y - 1, 0xffff, 0, y - 1);
        DivModUnique(y, 0xffff, 0, y);
      }
    }
  }

  lemma FoldShift(sum: nat, k: nat)
    requires sum > 0
    ensures Fold(sum + 0xffff * k) == Fold(sum)
  {
    var q, r := (sum - 1) / 0xffff, (sum - 1) % 0xffff;
    assert sum + 0xffff * k - 1 == (q + k) * 0xffff + r;
    DivModUnique(sum + 0xffff * k - 1, 0xffff, q + k, r);
  }

  lemma FoldDone(sum: int)
    requires Sar(sum, 16) == 0
    ensures BitAnd(BitNot(sum), 0xffff) == 0xffff - Folded(Int32(sum))
  {
    assert Pow2(16) == 0x1_0000 by {
      PowersUsed();
    }
    SmallSumDone(sum, Int32(sum));
  }

  lemma SmallSumDone(sum: int, x: nat)
    requires x == Int32(sum) && x < 0x1_0000
    ensures BitAnd(BitNot(sum), 0xffff) == 0xffff - x && Folded(x) == x
  {
    assert Pow2(16) == 0x1_0000 by {
      PowersUsed();
    }
    var u: nat, low: nat := 0xffff_ffff - x, 0xffff - x;
    assert Uint32(BitNot(sum)) == u;
    AndLow(u, 16);
    assert u == 0xffff * 0x1_0000 + low;
    DivModUnique(u, 0x1_0000, 0xffff, low);
    assert Uint32(0xffff) == 0xffff;
    assert And(u, 0xffff) == low;
    Unsigned(low);
  }

  method ReadWord(data: Data, i: nat) returns (word: nat)
    requires i < |data|
    ensures word == Word(data, i)
  {
    var hi: nat, low: nat := data[i], if i + 1 < |data| then data[i + 1] else 0;
    WordIsOr(hi, low);
    return BitOr(Shl(hi, 8), low);
  }

  /** The summing loop of `calculateChecksum`. For up to 65536 bytes the sum stays below 2^31. */
  method SumWords(data: Data, checksumOffset: nat) returns (sum: nat)
    ensures sum == WordSum(data, 0, checksumOffset)
    ensures |data| <= 65536 ==> sum < TWO_31
  {
    sum := 0;
    var i := 0;
    while i < |data|
      invariant i % 2 == 0 && i <= |data| + 1
      invariant sum + WordSum(data, i, checksumOffset) == WordSum(data, 0, checksumOffset)
    {
      if checksumOffset != 0 && i >= checksumOffset && i < checksumOffset + 2 {
        i := i + 2;
        continue;
      }
      var word := ReadWord(data, i);
      sum := sum + word;
      i := i + 2;
    }
    SumBelow(data, 0, checksumOffset);
  }

  /** How many rounds of folding are left at most. */
  function RoundsLeft(sum: int): nat {
    if Sar(sum, 16) == 0 then 0 else if -0x8000 <= sum < 0x1_8000 then 1 else 2
  }

  lemma OneRoundLess(sum: int)
    requires Sar(sum, 16) != 0
    ensures RoundsLeft(FoldOnce(sum)) < RoundsLeft(sum)
  {
    FoldOnceKeeps(sum);
    if -0x8000 <= sum < 0x1_8000 {
      assert Pow2(16) == 0x1_0000 by {
        PowersUsed();
      }
    }
  }

  /** `calculateChecksum`: the folding loop takes at most two rounds, also where the sum exceeds 31 bits. */
  method CalculateChecksum(data: Data, checksumOffset: nat) returns (r: int)
    ensures r == Checksum(data, checksumOffset)
  {
    var sum: int := SumWords(data, checksumOffset);
    ghost var total := sum;
    while Sar(sum, 16) != 0
      invariant Folded(Int32(sum)) == Folded(Int32(total))
      decreases RoundsLeft(sum)
    {
      FoldOnceKeeps(sum);
      OneRoundLess(sum);
      sum := FoldOnce(sum);
    }
    FoldDone(sum);
    return BitAnd(BitNot(sum), 0xffff);
  }

  /** For up to 65536 bytes the checksum is the complement of the one's complement sum. */
  lemma ChecksumIsComplement(data: Data, checksumOffset: nat)
    requires |data| <= 65536
    ensures Checksum(data, checksumOffset) == 0xffff - Fold(WordSum(data, 0, checksumOffset))
  {
    SumBelow(data, 0, checksumOffset);
    assert WordSum(data, 0, checksumOffset) < TWO_31;
  }

  /** One's complement addition of 16-bit words: a carry out of the top comes back in at the bottom. */
  function OnesAdd(a: nat, b: nat): (r: nat)
    requires a < 0x1_0000 && b < 0x1_0000
    ensures r < 0x1_0000
  {
    if a + b < 0x1_0000 then a + b else a + b - 0x1_0000 + 1
  }

  /** The words from `i` on, added with end-around carry one by one. */
  function OnesSum(data: Data, i: nat, checksumOffset: nat): (r: nat)
    ensures r < 0x1_0000
    decreases |data| - i
  {
    if i >= |data| then 0
    else OnesAdd(if Skipped(i, checksumOffset) then 0 else Word(data, i), OnesSum(data, i + 2, checksumOffset))
  }

  lemma FoldAdds(a: nat, rest: nat)
    requires a < 0x1_0000
    ensures Fold(a + rest) == OnesAdd(a, Fold(rest))
  {
    if rest > 0 {
      var k := (rest - 1) / 0xffff;
      assert rest == Fold(rest) + 0xffff * k;
      FoldShift(a + Fold(rest), k);
    }
  }

  /** Summing first and folding afterwards is one's complement addition word by word. */
  lemma {:induction false} FoldIsOnesSum(data: Data, i: nat, checksumOffset: nat)
    ensures Fold(WordSum(data, i, checksumOffset)) == OnesSum(data, i, checksumOffset)
    decreases |data| - i
  {
    if i < |data| {
      FoldIsOnesSum(data, i + 2, checksumOffset);
      FoldAdds(if Skipped(i, checksumOffset) then 0 else Word(data, i), WordSum(data, i + 2, checksumOffset));
    }
  }

  lemma FoldResidue(x: nat)
    ensures Fold(x) % 0xffff == x % 0xffff && (Fold(x) == 0 <==> x == 0)
    ensures (Fold(x) == 0xffff <==> x > 0 && x % 0xffff == 0)
  {
    if x > 0 {
      var q, r := (x - 1) / 0xffff, (x - 1) % 0xffff;
      assert x == q * 0xffff + (r + 1);
      if r + 1 == 0xffff {
        DivModUnique(x, 0xffff, q + 1, 0);
      } else {
        DivModUnique(x, 0xffff, q, r + 1);
        DivModUnique(r + 1, 0xffff, 0, r + 1);
      }
    }
  }

  lemma TurnsAddUp(x: int, turns: nat)
    ensures (x + turns * TWO_32) % 0xffff == (x + turns) % 0xffff
  {
    var y := x + turns;
    assert x + turns * TWO_32 == (y / 0xffff + turns * 0x1_0001) * 0xffff + y % 0xffff;
    DivModUnique(x + turns * TWO_32, 0xffff, y / 0xffff + turns * 0x1_0001, y % 0xffff);
  }

  lemma SameResidue(x: int, turns: nat)
    ensures (x + turns) % 0xffff == x % 0xffff <==> turns % 0xffff == 0
  {
    var a, b := x % 0xffff, turns % 0xffff;
    var q := x / 0xffff + turns / 0xffff;
    assert x + turns == q * 0xffff + (a + b);
    if a + b < 0xffff {
      DivModUnique(x + turns, 0xffff, q, a + b);
    } else {
      DivModUnique(x + turns, 0xffff, q + 1, a + b - 0xffff);
    }
  }

  /**
   For longer buffers the bits of the sum above the 31st are lost, and the checksum is right exactly if
   their number is a multiple of 65535 and zero is not written in its other form.
   */
  lemma ChecksumRightIff(data: Data, checksumOffset: nat, sum: nat, turns: nat)
    requires sum == WordSum(data, 0, checksumOffset) && sum == Int32(sum) + turns * TWO_32
    ensures Checksum(data, checksumOffset) == 0xffff - Fold(sum) <==>
      turns % 0xffff == 0 && (sum > 0 && sum % 0xffff == 0 ==> Int32(sum) > 0)
  {
    var x := Int32(sum);
    TurnsAddUp(x, turns);
    SameResidue(x, turns);
    FoldResidue(sum);
    FoldedResidue(x);
  }

  /** A buffer of bytes 255. */
  function Ones(n: nat): (d: Data)
    ensures |d| == n
  {
    seq(n, _ => 255)
  }

  lemma {:induction false} SumOfOnes(data: Data, i: nat, words: nat)
    requires (forall k :: 0 <= k < |data| ==> data[k] == 255) && |data| == i + 2 * words
    ensures WordSum(data, i, 0) == words * 0xffff
    decreases words
  {
    if words > 0 {
      SumOfOnes(data, i + 2, words - 1);
    }
  }

  /** The shortest even number of bytes for which it is wrong. */
  lemma LongSumIsWrong()
    ensures var data := Ones(65538); Checksum(data, 0) != 0xffff - Fold(WordSum(data, 0, 0))
  {
    var sum: nat := 32769 * 0xffff;
    SumOfOnes(Ones(65538), 0, 32769);
    assert Int32(sum) == sum - TWO_32;
    ChecksumRightIff(Ones(65538), 0, sum, 1);
  }

  lemma FoldedResidue(x: int)
    ensures Folded(x) % 0xffff == x % 0xffff
    ensures Folded(x) == if x > 0 && x % 0xffff == 0 then 0xffff else x % 0xffff
  {
    if x > 0 {
      FoldResidue(x);
    }
  }

  // ---------------------------------------------------------------- what it is for

  /** `data` with a 16-bit value written at `offset`, high byte first. */
  function Write16(data: Data, offset: nat, value: nat): (r: Data)
    requires offset + 2 <= |data| && value < 0x1_0000
    ensures |r| == |data|
  {
    data[offset := value / 256][offset + 1 := value % 256]
  }

  /** The skipped word does not matter; counted instead, it adds what is written there. */
  lemma {:induction false} SumOfWritten(data: Data, offset: nat, value: nat, i: nat)
    requires 0 < offset && offset % 2 == 0 && offset + 2 <= |data| && value < 0x1_0000 && i % 2 == 0
    ensures WordSum(Write16(data, offset, value), i, offset) == WordSum(data, i, offset)
    ensures WordSum(Write16(data, offset, value), i, 0) == WordSum(data, i, offset) + if i <= offset then value else 0
    decreases |data| - i
  {
    if i < |data| {
      SumOfWritten(data, offset, value, i + 2);
    }
  }

  lemma FoldTotal(sum: nat, value: nat)
    requires value < 0x1_0000
    ensures Fold(sum + value) == 0xffff <==>
      sum + value > 0 && (value == 0xffff - Fold(sum) || (Fold(sum) == 0xffff && value == 0xffff) ||
        (Fold(sum) == 0 && value == 0))
  {
    if sum > 0 {
      var k := (sum - 1) / 0xffff;
      assert sum == Fold(sum) + 0xffff * k;
      if Fold(sum) + value > 0 {
        FoldShift(Fold(sum) + value, k);
      }
    }
  }

  lemma WrittenIsZeroIff(data: Data, offset: nat, value: nat)
    requires 0 < offset && offset % 2 == 0 && offset + 2 <= |data| <= 65536 && value < 0x1_0000
    ensures Checksum(Write16(data, offset, value), 0) == 0 <==>
      value == Checksum(data, offset) || (value == 0xffff && Checksum(data, offset) == 0)
  {
    SumOfWritten(data, offset, value, 0);
    ChecksumIsComplement(data, offset);
    ChecksumIsComplement(Write16(data, offset, value), 0);
    FoldTotal(WordSum(data, 0, offset), value);
  }

  /**
   Verification: a buffer of up to 65536 bytes with a value in its checksum field sums to zero exactly when the value is
   its checksum, or is the other zero (0xffff for 0) of one's complement arithmetic.
   */
  lemma WrittenChecksumVerifies(data: Data, offset: nat, value: nat)
    requires 0 < offset && offset % 2 == 0 && offset + 2 <= |data| && value < 0x1_0000
    ensures |data| <= 65536 ==> Checksum(Write16(data, offset, Checksum(data, offset)), 0) == 0
    ensures |data| <= 65536 ==>
      (Checksum(Write16(data, offset, value), 0) == 0 <==>
        value == Checksum(data, offset) || (value == 0xffff && Checksum(data, offset) == 0))
    ensures Checksum(Write16(data, offset, value), offset) == Checksum(data, offset)
  {
    SumOfWritten(data, offset, value, 0);
    if |data| <= 65536 {
      WrittenIsZeroIff(data, offset, value);
      WrittenIsZeroIff(data, offset, Checksum(data, offset));
    }
  }
}
