/**
  32-bit registers as the numbers they hold, and exclusive or on numbers.
  Machine code works on registers; the reference checksum works on numbers.
 */
module Registers {
  import opened Bits

  /** Bitwise exclusive or. */
  function Xor(x: nat, y: nat): nat
    decreases x + y
  {
    if x == 0 && y == 0 then 0
    else (if x % 2 != y % 2 then 1 else 0) + 2 * Xor(x / 2, y / 2)
  }

  lemma {:induction false} XorZero(x: nat)
    ensures Xor(x, 0) == x && Xor(0, x) == x
  {
    if x > 0 {
      XorZero(x / 2);
    }
  }

  lemma {:induction false} XorSelf(x: nat)
    ensures Xor(x, x) == 0
  {
    if x > 0 {
      XorSelf(x / 2);
    }
  }

  lemma {:induction false} XorComm(x: nat, y: nat)
    ensures Xor(x, y) == Xor(y, x)
    decreases x + y
  {
    if x + y > 0 {
      XorComm(x / 2, y / 2);
    }
  }

  lemma XorParts(x: nat, y: nat)
    ensures Xor(x, y) % 2 == (if x % 2 != y % 2 then 1 else 0)
    ensures Xor(x, y) / 2 == Xor(x / 2, y / 2)
  {
    if x != 0 || y != 0 {
      XorUnfolds(x, y);
      hide Xor;
      DivModTwo(Xor(x, y), if x % 2 != y % 2 then 1 else 0, Xor(x / 2, y / 2));
    }
  }

  lemma XorUnfolds(x: nat, y: nat)
    requires x != 0 || y != 0
    ensures Xor(x, y) == (if x % 2 != y % 2 then 1 else 0) + 2 * Xor(x / 2, y / 2)
  {
  }

  lemma DivModTwo(v: nat, low: nat, high: nat)
    requires low < 2 && v == low + 2 * high
    ensures v % 2 == low && v / 2 == high
  {
  }

  lemma {:induction false} XorAssoc(x: nat, y: nat, z: nat)
    ensures Xor(Xor(x, y), z) == Xor(x, Xor(y, z))
    decreases x + y + z
  {
    if x + y + z > 0 {
      XorAssoc(x / 2, y / 2, z / 2);
      hide Xor;
      XorParts(x, y);
      XorParts(y, z);
      XorParts(Xor(x, y), z);
      XorParts(x, Xor(y, z));
    }
  }

  lemma {:induction false} XorBound(x: nat, y: nat, n: nat)
    requires x < Pow2(n) && y < Pow2(n)
    ensures Xor(x, y) < Pow2(n)
    decreases n
  {
    if n > 0 {
      XorBound(x / 2, y / 2, n - 1);
    }
  }

  /** Xor-ing twice with the same number cancels. */
  lemma XorCancel(x: nat, y: nat)
    ensures Xor(Xor(x, y), y) == x
  {
    hide Xor;
    XorAssoc(x, y, y);
    XorSelf(y);
    XorZero(x);
  }

  lemma XorInjective(a: nat, b: nat, y: nat)
    requires Xor(a, y) == Xor(b, y)
    ensures a == b
  {
    hide Xor;
    XorCancel(a, y);
    XorCancel(b, y);
  }

  /** Only equal numbers have a zero difference. */
  lemma XorZeroOnly(a: nat, b: nat)
    requires Xor(a, b) == 0
    ensures a == b
  {
    hide Xor;
    XorSelf(b);
    XorInjective(a, b, b);
  }

  /** (a ^ c) ^ (b ^ d) == (a ^ b) ^ (c ^ d). */
  lemma XorSwap(a: nat, b: nat, c: nat, d: nat)
    ensures Xor(Xor(a, c), Xor(b, d)) == Xor(Xor(a, b), Xor(c, d))
  {
    hide Xor;
    XorAssoc(a, c, Xor(b, d));
    XorAssoc(c, b, d);
    XorComm(c, b);
    XorAssoc(b, c, d);
    XorAssoc(a, b, Xor(c, d));
  }

  // ---------------------------------------------------------------- registers

  /** The number a register holds. */
  function Num(x: bv32): nat
    decreases x
  {
    if x == 0 then 0 else (if x & 1 == 1 then 1 else 0) + 2 * Num(x >> 1)
  }

  lemma NumParts(x: bv32)
    ensures Num(x) % 2 == (if x & 1 == 1 then 1 else 0)
    ensures Num(x) / 2 == Num(x >> 1)
  {
  }

  lemma NumZero()
    ensures Num(0) == 0
  {
  }

  lemma XorBits(x: bv32, y: bv32)
    ensures (x ^ y) >> 1 == (x >> 1) ^ (y >> 1)
    ensures (x ^ y) & 1 == (x & 1) ^ (y & 1)
  {
  }

  lemma LowBitXor(x: bv32, y: bv32)
    ensures ((x & 1) ^ (y & 1) == 1) <==> ((x & 1 == 1) != (y & 1 == 1))
  {
  }

  /** Exclusive or of registers is exclusive or of their numbers. */
  lemma {:induction false} NumXor(x: bv32, y: bv32)
    ensures Num(x ^ y) == Xor(Num(x), Num(y))
    decreases x
  {
    hide Num, Xor;
    if x == 0 {
      XorWithZero(x, y);
      NumZero();
      XorZero(Num(y));
    } else {
      ShiftLess(x);
      NumXor(x >> 1, y >> 1);
      NumXorStep(x, y, x ^ y);
    }
  }

  lemma XorWithZero(x: bv32, y: bv32)
    requires x == 0
    ensures x ^ y == y
  {
  }

  lemma ShiftLess(x: bv32)
    requires x != 0
    ensures x >> 1 < x
  {
  }

  lemma NumXorStep(x: bv32, y: bv32, z: bv32)
    requires z == x ^ y
    requires Num((x >> 1) ^ (y >> 1)) == Xor(Num(x >> 1), Num(y >> 1))
    ensures Num(z) == Xor(Num(x), Num(y))
  {
    hide Num, Xor;
    XorBits(x, y);
    LowBitXor(x, y);
    NumParts(x);
    NumParts(y);
    NumParts(z);
    XorParts(Num(x), Num(y));
  }

  /** Shifting a register divides its number. */
  lemma NumShift2(x: bv32)
    ensures Num(x >> 2) == Num(x) / 4
  {
    hide Num;
    NumParts(x);
    NumParts(x >> 1);
    assert x >> 1 >> 1 == x >> 2;
  }

  lemma NumShift4(x: bv32)
    ensures Num(x >> 4) == Num(x) / 16
  {
    hide Num;
    NumShift2(x);
    NumShift2(x >> 2);
    assert x >> 2 >> 2 == x >> 4;
  }

  lemma NumShift8(x: bv32)
    ensures Num(x >> 8) == Num(x) / 0x100
  {
    hide Num;
    NumShift4(x);
    NumShift4(x >> 4);
    assert x >> 4 >> 4 == x >> 8;
  }

  lemma ByteParity(b: byte)
    ensures ((b as bv32) & 1 == 1) <==> b % 2 == 1
  {
  }

  lemma ByteHalf(b: byte)
    ensures (b as bv32) >> 1 == (b / 2) as bv32
  {
  }

  /** A register loaded with a byte holds it. */
  lemma {:induction false} NumByte(b: byte)
    ensures Num(b as bv32) == b
  {
    if b > 0 {
      ByteParity(b);
      ByteHalf(b);
      NumByte(b / 2);
      NumParts(b as bv32);
    }
  }

  lemma AndBits(x: bv32, y: bv32)
    ensures (x & y) >> 1 == (x >> 1) & (y >> 1)
    ensures ((x & y) & 1 == 1) <==> (x & 1 == 1) && (y & 1 == 1)
  {
  }

  lemma AndParts(x: nat, y: nat)
    ensures And(x, y) % 2 == (if x % 2 == 1 && y % 2 == 1 then 1 else 0)
    ensures And(x, y) / 2 == And(x / 2, y / 2)
  {
    if x == 0 && y == 0 {
    } else {
      var h := And(x / 2, y / 2);
      assert And(x, y) == (if x % 2 == 1 && y % 2 == 1 then 1 else 0) + 2 * h;
    }
  }

  lemma {:induction false} ZeroAnd(y: nat)
    ensures And(0, y) == 0
  {
    if y > 0 {
      ZeroAnd(y / 2);
    }
  }

  /** Masking a register masks its number. */
  lemma {:induction false} NumAnd(x: bv32, y: bv32)
    ensures Num(x & y) == And(Num(x), Num(y))
    decreases x
  {
    hide Num, And;
    if x == 0 {
      AndWithZero(x, y);
      NumZero();
      ZeroAnd(Num(y));
    } else {
      ShiftLess(x);
      NumAnd(x >> 1, y >> 1);
      NumAndStep(x, y, x & y);
    }
  }

  lemma AndWithZero(x: bv32, y: bv32)
    requires x == 0
    ensures x & y == 0
  {
  }

  lemma NumAndStep(x: bv32, y: bv32, z: bv32)
    requires z == x & y
    requires Num((x >> 1) & (y >> 1)) == And(Num(x >> 1), Num(y >> 1))
    ensures Num(z) == And(Num(x), Num(y))
  {
    hide Num, And;
    AndBits(x, y);
    NumParts(x);
    NumParts(y);
    NumParts(z);
    AndParts(Num(x), Num(y));
  }

  lemma {:induction false} LowBits(v: nat, n: nat)
    ensures ValueOf(BitsOf(v, n)) + Shl(Shr(v, n), n) == v
  {
    if n > 0 {
      LowBits(v / 2, n - 1);
      assert BitsOf(v, n)[1..] == BitsOf(v / 2, n - 1);
    }
  }

  lemma LowByte(v: nat)
    ensures And(v, 0xFF) == v % 0x100
  {
    hide And, ValueOf, BitsOf, Shl, Shr;
    Pow2Small();
    AndMask(v, 8);
    LowBits(v, 8);
    ValueBound(BitsOf(v, 8));
    ShlByte(Shr(v, 8));
  }

  lemma NumLowByte(x: bv32)
    ensures Num(x & 0xFF) == Num(x) % 0x100
  {
    hide Num, And;
    NumAnd(x, 0xFF);
    NumByte(0xFF);
    LowByte(Num(x));
  }

  /** `x & 0xFF` used as an index is the number's low byte. */
  lemma LowByteIndex(x: bv32, y: bv32)
    requires y == x & 0xFF
    ensures 0 <= y as int < 0x100
    ensures y as int == Num(x) % 0x100
  {
    hide Num;
    NumLowByte(x);
    MaskedSmall(x);
    SmallIndex(y);
  }

  lemma MaskedSmall(x: bv32)
    ensures x & 0xFF <= 0xFF
  {
  }

  lemma SmallIndex(y: bv32)
    requires y <= 0xFF
    ensures 0 <= y as int < 0x100 && Num(y) == y as int
  {
    hide Num;
    assert 0 <= y as int < 0x100;
    assert (y as int) as bv32 == y;
    NumByte(y as int);
  }
}
