/**
  Field widths: how many bits a ranged integer takes, computed by counting
  leading zeros (C++ with GCC) or by smearing and population count (C#), and the
  wrapping 32-bit arithmetic of ranged integers.
 */
module Width {
  import opened Bits

  // ---------------------------------------------------------------- reference

  /** The number of bits needed to write x in binary. */
  function BitLength(x: nat): nat {
    if x == 0 then 0 else 1 + BitLength(x / 2)
  }

  lemma {:induction false} BitLengthBounds(x: nat)
    requires x > 0
    ensures 1 <= BitLength(x) && Pow2(BitLength(x) - 1) <= x < Pow2(BitLength(x))
  {
    if x / 2 > 0 {
      BitLengthBounds(x / 2);
    }
  }

  lemma {:induction false} BitLengthAtMost(x: nat, n: nat)
    requires x < Pow2(n)
    ensures BitLength(x) <= n
  {
    if x > 0 {
      BitLengthAtMost(x / 2, n - 1);
    }
  }

  /** The length is the only number of bits whose range holds x and whose lower half does not. */
  lemma BitLengthIs(x: nat, n: nat)
    requires n > 0 && Pow2(n - 1) <= x < Pow2(n)
    ensures BitLength(x) == n
  {
    hide BitLength, Pow2;
    BitLengthBounds(x);
    BitLengthAtMost(x, n);
    Pow2Monotone(Min(BitLength(x), n - 1), n - 1);
  }

  // ---------------------------------------------------------------- C++

  /** Leading zeros of x in an n-bit register, scanning down from the top bit. */
  function LeadingZeros(x: nat, n: nat): nat {
    if n == 0 || x >= Pow2(n - 1) then 0 else 1 + LeadingZeros(x, n - 1)
  }

  lemma {:induction false} LeadingZerosIsWidth(x: nat, n: nat)
    requires 0 < x < Pow2(n)
    ensures LeadingZeros(x, n) + BitLength(x) == n
  {
    BitLengthBounds(x);
    BitLengthAtMost(x, n);
    if x < Pow2(n - 1) {
      LeadingZerosIsWidth(x, n - 1);
    } else if BitLength(x) < n {
      Pow2Monotone(BitLength(x), n - 1);
    }
  }

  /** Conversion of a signed value to 32-bit unsigned. */
  function ToU32(x: int): u32 {
    x % 0x1_0000_0000
  }

  /** Two's complement reading of a 32-bit word. */
  function ToInt32(u: u32): int32 {
    if u < 0x8000_0000 then u else u - 0x1_0000_0000
  }

  /** `bits_required(min, max)`: 32 minus the leading zeros of the wrapped difference. */
  function BitsRequired(min: int32, max: int32): (bits: nat)
    requires min < max
    ensures 1 <= bits <= 32
  {
    SpanIsExact(min, max);
    WidthOfSpan(max - min);
    32 - LeadingZeros(ToU32(ToU32(max) - ToU32(min)), 32)
  }

  /** The wrapping subtraction of the converted bounds is the true span. */
  lemma SpanIsExact(min: int32, max: int32)
    requires min < max
    ensures ToU32(min) != ToU32(max) && ToU32(ToU32(max) - ToU32(min)) == max - min
  {
  }

  lemma WidthOfSpan(x: u32)
    requires x > 0
    ensures 32 - LeadingZeros(x, 32) == BitLength(x)
    ensures 1 <= BitLength(x) <= 32
  {
    hide LeadingZeros, BitLength, Pow2;
    Pow2Literals();
    LeadingZerosIsWidth(x, 32);
    BitLengthBounds(x);
    BitLengthAtMost(x, 32);
  }

  /** The width is the least that holds every offset. */
  lemma WidthIsMinimal(min: int32, max: int32)
    requires min < max
    ensures BitsRequired(min, max) == BitLength(max - min)
    ensures Pow2(BitsRequired(min, max) - 1) <= max - min < Pow2(BitsRequired(min, max))
  {
    hide LeadingZeros, BitLength, Pow2, ToU32;
    SpanIsExact(min, max);
    WidthOfSpan(max - min);
    BitLengthBounds(max - min);
  }

  /** A range from zero takes at most 31 bits. */
  lemma NarrowWidth(max: int32)
    requires max > 0
    ensures BitsRequired(0, max) <= 31
  {
    hide BitsRequired;
    WidthIsMinimal(0, max);
    Pow2Literals();
    assert Pow2(32) == 2 * Pow2(31);
    BitLengthAtMost(max, 31);
  }

  lemma WidthIs(min: int32, max: int32, bits: nat)
    requires min < max && bits > 0 && Pow2(bits - 1) <= max - min < Pow2(bits)
    ensures BitsRequired(min, max) == bits
  {
    hide BitsRequired, BitLength, Pow2;
    WidthIsMinimal(min, max);
    BitLengthIs(max - min, bits);
  }

  /** Widening a range within its width keeps the width. */
  lemma SameWidth(max: int32, more: int32)
    requires 0 < max <= more < Pow2(BitsRequired(0, max))
    ensures BitsRequired(0, more) == BitsRequired(0, max)
  {
    hide BitsRequired, BitLength, Pow2;
    WidthIsMinimal(0, max);
    WidthIs(0, more, BitsRequired(0, max));
  }

  /** The wire word of a ranged integer: `(uint32_t)(value - min)`. */
  function Offset(value: int32, min: int32): u32 {
    ToU32(value - min)
  }

  /** What the reader makes of a wire word: `(int32_t) unsigned_value + min`, wrapping. */
  function FromOffset(u: u32, min: int32): int32 {
    ToInt32(ToU32(ToInt32(u) + min))
  }

  /** In-range values survive, even over spans above 2^31. */
  lemma OffsetRoundTrip(value: int32, min: int32, max: int32)
    requires min < max && min <= value <= max
    ensures Offset(value, min) == value - min < Pow2(BitsRequired(min, max))
    ensures FromOffset(Offset(value, min), min) == value
  {
    hide BitsRequired, Pow2, BitLength;
    WidthIsMinimal(min, max);
  }

  /** The reader's range check accepts a wire word exactly when it is an offset of the range. */
  lemma AcceptedOffsets(u: u32, min: int32, max: int32)
    requires min < max
    ensures min <= FromOffset(u, min) <= max <==> u <= max - min
    ensures u <= max - min ==> FromOffset(u, min) == min + u
  {
  }

  // ---------------------------------------------------------------- C#

  function PairSums(x: bv32): bv32 {
    x - ((x >> 1) & 0x55555555)
  }

  function NibbleSums(a: bv32): bv32 {
    ((a >> 2) & 0x33333333) + (a & 0x33333333)
  }

  function ByteSums(b: bv32): bv32 {
    ((b >> 4) + b) & 0x0f0f0f0f
  }

  function Total(c: bv32): bv32 {
    var d := c + (c >> 8);
    var e := d + (d >> 16);
    e & 0x0000003f
  }

  function PopCount(x: bv32): bv32 {
    Total(ByteSums(NibbleSums(PairSums(x))))
  }

  /** Smear the top one bit downwards, then count what lies below it. */
  function Log2(x: bv32): bv32 {
    var a := x | (x >> 1);
    var b := a | (a >> 2);
    var c := b | (b >> 4);
    var d := c | (c >> 8);
    var e := d | (d >> 16);
    PopCount(e >> 1)
  }

  /** The 32-bit register holding n. */
  function Word(n: nat): bv32 {
    if n == 0 then 0 else (Word(n / 2) << 1) | (if n % 2 == 1 then 1 else 0)
  }

  /** C# `BitsRequired(min, max)` on an unsigned span. */
  function CsBitsRequired(min: u32, max: u32): nat {
    if min == max then 0 else (Log2(Word(ToU32(max - min))) as int) + 1
  }

  // PopCount

  function Bit(x: bv32): nat {
    if x & 1 == 1 then 1 else 0
  }

  function Half(x: bv32): bv32 {
    x >> 1
  }

  function Plus(a: bv32, b: bv32): bv32 {
    a + b
  }

  /** Counting the one bits of the low n bits one at a time. */
  function CountBits(x: bv32, n: nat): nat {
    if n == 0 then 0 else Bit(x) + CountBits(Half(x), n - 1)
  }

  function FourBits(x: bv32): nat {
    Bit(x) + Bit(Half(x)) + Bit(Half(Half(x))) + Bit(Half(Half(Half(x))))
  }

  /** The one bits of the low byte. */
  function EightBits(x: bv32): nat {
    FourBits(x) + FourBits(Half(Half(Half(Half(x)))))
  }

  lemma CountOne(x: bv32, n: nat)
    ensures CountBits(x, n + 1) == Bit(x) + CountBits(Half(x), n)
  {
  }

  lemma CountFour(x: bv32, n: nat)
    ensures CountBits(x, n + 4) == FourBits(x) + CountBits(Half(Half(Half(Half(x)))), n)
  {
    hide CountBits, Bit, Half;
    CountOne(x, n + 3);
    CountOne(Half(x), n + 2);
    CountOne(Half(Half(x)), n + 1);
    CountOne(Half(Half(Half(x))), n);
  }

  lemma CountEight(x: bv32, n: nat, y: bv32)
    requires y == x >> 8
    ensures CountBits(x, n + 8) == EightBits(x) + CountBits(y, n)
  {
    EightHalves(x);
    hide CountBits, FourBits, Half;
    CountFour(x, n + 4);
    CountFour(Half(Half(Half(Half(x)))), n);
  }

  lemma EightHalves(x: bv32)
    ensures Half(Half(Half(Half(Half(Half(Half(Half(x)))))))) == x >> 8
  {
  }

  /** The first three stages: each byte holds its own count. */
  function Counts(x: bv32): bv32 {
    ByteSums(NibbleSums(PairSums(x)))
  }

  function PairsAdded(x: bv32): bv32 {
    (x & 0x55555555) + ((x >> 1) & 0x55555555)
  }

  lemma PairsAdd(x: bv32)
    ensures PairSums(x) == PairsAdded(x)
  {
  }

  lemma PairsAddedShift(x: bv32)
    ensures PairsAdded(x) >> 8 == PairsAdded(x >> 8)
  {
  }

  lemma PairsByByte(x: bv32)
    ensures PairSums(x) >> 8 == PairSums(x >> 8)
    ensures PairSums(x) & 0xff == PairSums(x & 0xff)
  {
    PairsMask(x);
    hide PairSums, PairsAdded;
    PairsAdd(x);
    PairsAdd(x >> 8);
    PairsAddedShift(x);
  }

  lemma PairsMask(x: bv32)
    ensures PairSums(x) & 0xff == PairSums(x & 0xff)
  {
  }

  lemma NibblesByByte(a: bv32)
    ensures NibbleSums(a) >> 8 == NibbleSums(a >> 8)
    ensures NibbleSums(a) & 0xff == NibbleSums(a & 0xff)
    ensures NibbleSums(a) & 0x88888888 == 0
  {
  }

  lemma BytesByByte(b: bv32)
    requires b & 0x88888888 == 0
    ensures ByteSums(b) >> 8 == ByteSums(b >> 8)
    ensures ByteSums(b) & 0xff == ByteSums(b & 0xff)
  {
  }

  /** The stages work on each byte separately. */
  lemma CountsByByte(x: bv32)
    ensures Counts(x) >> 8 == Counts(x >> 8) && Counts(x) & 0xff == Counts(x & 0xff)
  {
    hide PairSums, NibbleSums, ByteSums;
    PairsByByte(x);
    NibblesByByte(PairSums(x));
    BytesByByte(NibbleSums(PairSums(x)));
  }

  lemma CountsOfByte(b: bv32)
    requires b <= 0xff
    ensures Counts(b) <= 8 && Counts(b) as int == EightBits(b)
  {
  }

  lemma EightBitsMasked(x: bv32)
    ensures x & 0xff <= 0xff && EightBits(x & 0xff) == EightBits(x)
  {
  }

  /** The low byte holds its count, and the rest is the count of the other bytes. */
  lemma LowByteCounted(x: bv32)
    ensures Counts(x) & 0xff <= 8 && (Counts(x) & 0xff) as int == EightBits(x)
    ensures Counts(x) >> 8 == Counts(x >> 8)
  {
    hide Counts, EightBits;
    CountsByByte(x);
    EightBitsMasked(x);
    CountsOfByte(x & 0xff);
  }

  lemma AddSmall(a: bv32, b: bv32)
    requires a <= 8 && b <= 24
    ensures Plus(a, b) as int == a as int + b as int
  {
  }

  lemma TotalAdds(c: bv32, c0: bv32, c1: bv32, c2: bv32, c3: bv32)
    requires c & 0xff == c0 <= 8 && (c >> 8) & 0xff == c1 <= 8
    requires (c >> 8 >> 8) & 0xff == c2 <= 8 && (c >> 8 >> 8 >> 8) & 0xff == c3 <= 8
    ensures Total(c) == Plus(c0, Plus(c1, Plus(c2, c3))) && Plus(c2, c3) <= 24 && Plus(c1, Plus(c2, c3)) <= 24
  {
  }

  lemma TotalIsSum(c: bv32, c0: bv32, c1: bv32, c2: bv32, c3: bv32)
    requires c & 0xff == c0 <= 8 && (c >> 8) & 0xff == c1 <= 8
    requires (c >> 8 >> 8) & 0xff == c2 <= 8 && (c >> 8 >> 8 >> 8) & 0xff == c3 <= 8
    ensures Total(c) as int == c0 as int + c1 as int + c2 as int + c3 as int
  {
    hide Total, Plus;
    TotalAdds(c, c0, c1, c2, c3);
    SumOfFour(c0, c1, c2, c3);
  }

  lemma SumOfFour(c0: bv32, c1: bv32, c2: bv32, c3: bv32)
    requires c0 <= 8 && c1 <= 8 && c2 <= 8 && c3 <= 8
    requires Plus(c2, c3) <= 24 && Plus(c1, Plus(c2, c3)) <= 24
    ensures Plus(c0, Plus(c1, Plus(c2, c3))) as int == c0 as int + c1 as int + c2 as int + c3 as int
  {
    hide Plus;
    AddSmall(c2, c3);
    AddSmall(c1, Plus(c2, c3));
    AddSmall(c0, Plus(c1, Plus(c2, c3)));
  }

  lemma PopCountStages(x: bv32)
    ensures PopCount(x) == Total(Counts(x))
  {
    hide PairSums, NibbleSums, ByteSums, Total;
  }

  lemma NothingLeft(x: bv32)
    ensures CountBits(x, 0) == 0
  {
  }

  lemma FourBytes(x: bv32, y: bv32, z: bv32, w: bv32)
    requires y == x >> 8 && z == y >> 8 && w == z >> 8
    ensures CountBits(x, 32) == EightBits(x) + EightBits(y) + EightBits(z) + EightBits(w)
  {
    hide EightBits, CountBits;
    CountEight(x, 24, y);
    CountEight(y, 16, z);
    CountEight(z, 8, w);
    CountEight(w, 0, w >> 8);
    NothingLeft(w >> 8);
  }

  lemma FourCounts(x: bv32, y: bv32, z: bv32, w: bv32)
    requires y == x >> 8 && z == y >> 8 && w == z >> 8
    ensures Total(Counts(x)) as int == EightBits(x) + EightBits(y) + EightBits(z) + EightBits(w)
  {
    hide Counts, EightBits, Total;
    LowByteCounted(x);
    LowByteCounted(y);
    LowByteCounted(z);
    LowByteCounted(w);
    TotalIsSum(Counts(x), Counts(x) & 0xff, Counts(y) & 0xff, Counts(z) & 0xff, Counts(w) & 0xff);
  }

  /** The parallel population count is the count of one bits. */
  lemma PopCountCounts(x: bv32)
    ensures PopCount(x) as int == CountBits(x, 32)
  {
    var y := x >> 8;
    var z := y >> 8;
    PopCountOf(x, y, z, z >> 8);
  }

  lemma PopCountOf(x: bv32, y: bv32, z: bv32, w: bv32)
    requires y == x >> 8 && z == y >> 8 && w == z >> 8
    ensures PopCount(x) as int == CountBits(x, 32)
  {
    hide PopCount, Counts, EightBits, Total, CountBits;
    PopCountStages(x);
    FourCounts(x, y, z, w);
    FourBytes(x, y, z, w);
  }

  // Log2

  lemma Log2Step(x: bv32)
    requires x >= 2
    ensures Log2(x) == Log2(x >> 1) + 1
  {
    if x >= 0x10000 {
      Log2High(x);
    } else {
      Log2Low(x);
    }
  }

  lemma Log2Low(x: bv32)
    requires 2 <= x < 0x10000
    ensures Log2(x) == Log2(x >> 1) + 1
  {
  }

  lemma Log2High(x: bv32)
    requires 0x10000 <= x
    ensures Log2(x) == Log2(x >> 1) + 1
  {
  }

  /** x is below 2^k. */
  ghost predicate Below(x: bv32, k: nat) {
    if k == 0 then x == 0 else Below(x >> 1, k - 1)
  }

  lemma BelowStep(x: bv32, k: nat)
    ensures Below(x, k + 1) == Below(x >> 1, k)
  {
  }

  lemma BelowStep2(x: bv32, k: nat)
    ensures Below(x, k + 2) == Below(x >> 2, k)
  {
    assert x >> 1 >> 1 == x >> 2;
    BelowStep(x, k + 1);
    BelowStep(x >> 1, k);
  }

  lemma BelowStep4(x: bv32, k: nat)
    ensures Below(x, k + 4) == Below(x >> 4, k)
  {
    hide Below;
    assert x >> 2 >> 2 == x >> 4;
    BelowStep2(x, k + 2);
    BelowStep2(x >> 2, k);
  }

  lemma BelowStep8(x: bv32, k: nat)
    ensures Below(x, k + 8) == Below(x >> 8, k)
  {
    hide Below;
    assert x >> 4 >> 4 == x >> 8;
    BelowStep4(x, k + 4);
    BelowStep4(x >> 4, k);
  }

  lemma BelowStep16(x: bv32, k: nat)
    ensures Below(x, k + 16) == Below(x >> 16, k)
  {
    hide Below;
    assert x >> 8 >> 8 == x >> 16;
    BelowStep8(x, k + 8);
    BelowStep8(x >> 8, k);
  }

  lemma BelowSeven(x: bv32)
    requires Below(x, 7)
    ensures x <= 0x7f
  {
    hide Below;
    BelowStep4(x, 3);
    BelowStep2(x >> 4, 1);
    BelowOne(x >> 4 >> 2);
    assert x >> 4 >> 2 <= 1;
  }

  lemma BelowOne(x: bv32)
    ensures Below(x, 1) ==> x <= 1
  {
    BelowStep(x, 0);
    assert x >> 1 == 0 ==> x <= 1;
  }

  lemma BelowFifteen(x: bv32)
    requires Below(x, 15)
    ensures x <= 0x7fff
  {
    hide Below;
    BelowStep8(x, 7);
    BelowSeven(x >> 8);
  }

  /** A number below 2^31 leaves the register's top bit clear. */
  lemma BelowTop(x: bv32)
    requires Below(x, 31)
    ensures x <= 0x7fffffff
  {
    hide Below;
    BelowStep16(x, 15);
    BelowFifteen(x >> 16);
  }

  lemma {:induction false} ZeroBelow(k: nat)
    ensures Below(0, k)
  {
    if k > 0 {
      ZeroBelow(k - 1);
    }
  }

  /** Appending a bit loses nothing while the top bit is clear. */
  lemma AppendBit(x: bv32, b: bv32)
    requires x <= 0x7fffffff && b <= 1
    ensures ((x << 1) | b) >> 1 == x && ((x << 1) | b) & 1 == b
  {
  }

  lemma {:induction false} WordBelow(n: u32, k: nat)
    requires n < Pow2(k)
    ensures Below(Word(n), k)
    decreases n
  {
    if n == 0 {
      ZeroBelow(k);
    } else {
      WordHalf(n);
      WordBelow(n / 2, k - 1);
    }
  }

  /** Halving a number shifts its register; its parity is the register's low bit. */
  lemma {:induction false} WordHalf(n: u32)
    requires n > 0
    ensures Word(n) >> 1 == Word(n / 2)
    ensures Word(n) & 1 == (if n % 2 == 1 then 1 else 0)
    decreases n, 0
  {
    hide Word, Below, Pow2;
    var b: bv32 := if n % 2 == 1 then 1 else 0;
    WordUnfold(n, b);
    HalfRange(n);
    WordBelow(n / 2, 31);
    BelowTop(Word(n / 2));
    AppendBit(Word(n / 2), b);
  }

  lemma WordUnfold(n: u32, b: bv32)
    requires n > 0 && b == (if n % 2 == 1 then 1 else 0)
    ensures Word(n) == (Word(n / 2) << 1) | b
  {
  }

  lemma HalfRange(n: u32)
    ensures n / 2 < Pow2(31)
  {
    Pow2Literals();
    assert Pow2(32) == 2 * Pow2(31);
  }

  lemma {:induction false} WordNonzero(n: u32)
    requires n > 0
    ensures Word(n) != 0
  {
    WordHalf(n);
    if n >= 2 {
      WordNonzero(n / 2);
    }
  }

  lemma Increment(y: bv32)
    requires y <= 0x3f
    ensures (y + 1) as int == y as int + 1
  {
  }

  lemma Log2Halves(n: u32)
    requires n >= 2
    ensures Log2(Word(n)) as int == Log2(Word(n / 2)) as int + 1
  {
    hide Log2, Word;
    WordHalf(n);
    WordNonzero(n / 2);
    Log2Shift(Word(n), Word(n / 2));
  }

  lemma Log2Shift(x: bv32, y: bv32)
    requires y == x >> 1 && y != 0
    ensures Log2(x) as int == Log2(y) as int + 1
  {
    hide Log2;
    ShiftNonzero(x);
    Log2Step(x);
    Log2Bound(y);
    Increment(Log2(y));
  }

  lemma {:induction false} Log2IsWidth(n: u32)
    requires n > 0
    ensures Log2(Word(n)) as int == BitLength(n) - 1
  {
    if n == 1 {
      Log2One();
    } else {
      hide Log2, Word;
      Log2Halves(n);
      Log2IsWidth(n / 2);
    }
  }

  lemma Log2One()
    ensures Log2(Word(1)) == 0
  {
    assert Word(1) == 1;
  }

  lemma ShiftNonzero(x: bv32)
    requires x >> 1 != 0
    ensures x >= 2
  {
  }

  lemma Log2Bound(x: bv32)
    ensures Log2(x) <= 0x3f
  {
    hide ByteSums, NibbleSums, PairSums;
  }

  /** The smear-and-count Log2 is the floor of the base-2 logarithm. */
  lemma Log2IsFloorLog(n: u32)
    requires n > 0
    ensures Pow2(Log2(Word(n)) as int) <= n < 2 * Pow2(Log2(Word(n)) as int)
  {
    hide Log2, Word;
    Log2IsWidth(n);
    BitLengthBounds(n);
  }

  /** The C# and C++ widths agree on every range. */
  lemma WidthsAgree(min: int32, max: int32)
    requires min < max
    ensures CsBitsRequired(ToU32(min), ToU32(max)) == BitsRequired(min, max)
  {
    hide Log2, Word, ToU32, BitLength, LeadingZeros;
    SpanIsExact(min, max);
    Log2IsWidth(max - min);
    WidthOfSpan(max - min);
  }
}
