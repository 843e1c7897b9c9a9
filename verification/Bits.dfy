/**
  Fixed-width unsigned integers, the bit operators the packers use on them, and
  the reference model of a message: a sequence of bits, low bit first.

  Machine integers are modelled as bounded mathematical integers. `|` and `&` are
  defined bit by bit, shifts are multiplication and division by a power of two,
  and every operation that can lose bits says so with an explicit modulus.
 */
module Bits {

  type byte = x: int | 0 <= x < 0x100
  type u16 = x: int | 0 <= x < 0x1_0000
  type u32 = x: int | 0 <= x < 0x1_0000_0000
  type u64 = x: int | 0 <= x < 0x1_0000_0000_0000_0000
  type int32 = x: int | -0x8000_0000 <= x < 0x8000_0000

  function Pow2(n: nat): (p: nat)
    ensures p > 0
  {
    if n == 0 then 1 else 2 * Pow2(n - 1)
  }

  function Min(a: int, b: int): int {
    if a <= b then a else b
  }

  // ---------------------------------------------------------------- operators

  /** Bitwise or. */
  function Or(x: nat, y: nat): nat
    decreases x + y
  {
    if x == 0 && y == 0 then 0
    else (if x % 2 == 1 || y % 2 == 1 then 1 else 0) + 2 * Or(x / 2, y / 2)
  }

  /** Bitwise and. */
  function And(x: nat, y: nat): nat
    decreases x + y
  {
    if x == 0 && y == 0 then 0
    else (if x % 2 == 1 && y % 2 == 1 then 1 else 0) + 2 * And(x / 2, y / 2)
  }

  /** `x << s`, without a width. */
  function Shl(x: nat, s: nat): (r: nat)
    ensures r >= x
    decreases s
  {
    if s == 0 then x else 2 * Shl(x, s - 1)
  }

  /** `x << s` in a 64-bit register. */
  function Shl64(x: u64, s: nat): u64 {
    Shl(x, s) % 0x1_0000_0000_0000_0000
  }

  /** `x >> s`. */
  function Shr(x: nat, s: nat): (r: nat)
    ensures r <= x
    decreases s
  {
    if s == 0 then x else Shr(x / 2, s - 1)
  }

  lemma OrZero(y: nat)
    ensures Or(0, y) == y
  {
  }

  lemma AndZero(x: nat)
    ensures And(x, 0) == 0
  {
  }

  /** Or-ing into bits that are still zero is addition. */
  lemma {:induction false} OrDisjoint(x: nat, y: nat, s: nat)
    requires x < Pow2(s)
    ensures Or(x, Shl(y, s)) == x + Shl(y, s)
  {
    if s == 0 {
      OrZero(y);
    } else {
      OrDisjoint(x / 2, y, s - 1);
    }
  }

  /** And-ing with `(1 << n) - 1` keeps the low n bits. */
  lemma {:induction false} AndMask(x: nat, n: nat)
    ensures And(x, Pow2(n) - 1) == ValueOf(BitsOf(x, n))
  {
    if n == 0 {
      AndZero(x);
    } else {
      var m := Pow2(n - 1) - 1;
      assert Pow2(n) - 1 == 2 * m + 1;
      AndMask(x / 2, n - 1);
      assert BitsOf(x, n)[1..] == BitsOf(x / 2, n - 1);
    }
  }

  // ---------------------------------------------------------------- bit strings

  /** The low n bits of v, lowest first. */
  function BitsOf(v: nat, n: nat): (s: seq<bool>)
    ensures |s| == n
  {
    if n == 0 then [] else [v % 2 == 1] + BitsOf(v / 2, n - 1)
  }

  /** The number a bit string spells, lowest bit first. */
  function ValueOf(s: seq<bool>): nat {
    if s == [] then 0 else (if s[0] then 1 else 0) + 2 * ValueOf(s[1..])
  }

  function Zeros(n: nat): (s: seq<bool>)
    ensures |s| == n
  {
    if n == 0 then [] else [false] + Zeros(n - 1)
  }

  lemma {:induction false} ZerosPrefix(a: nat, b: nat)
    requires a <= b
    ensures Zeros(b)[..a] == Zeros(a)
  {
    if a > 0 {
      ZerosPrefix(a - 1, b - 1);
    }
  }

  lemma {:induction false} ValueBound(s: seq<bool>)
    ensures ValueOf(s) < Pow2(|s|)
  {
    if s != [] {
      ValueBound(s[1..]);
    }
  }

  lemma {:induction false} BitsOfValue(s: seq<bool>)
    ensures BitsOf(ValueOf(s), |s|) == s
  {
    if s != [] {
      BitsOfValue(s[1..]);
      assert ValueOf(s) / 2 == ValueOf(s[1..]);
    }
  }

  lemma {:induction false} ValueOfSmall(v: nat, n: nat)
    requires v < Pow2(n)
    ensures ValueOf(BitsOf(v, n)) == v
  {
    if n > 0 {
      ValueOfSmall(v / 2, n - 1);
      assert BitsOf(v, n)[1..] == BitsOf(v / 2, n - 1);
    }
  }

  lemma {:induction false} ValueConcat(a: seq<bool>, b: seq<bool>)
    ensures ValueOf(a + b) == ValueOf(a) + Shl(ValueOf(b), |a|)
  {
    if a == [] {
      assert a + b == b;
    } else {
      assert (a + b)[1..] == a[1..] + b;
      ValueConcat(a[1..], b);
    }
  }

  /** Shifting right drops low bits; masking drops high ones. */
  lemma {:induction false} ValueSplit(s: seq<bool>, k: nat)
    requires k <= |s|
    ensures Shr(ValueOf(s), k) == ValueOf(s[k..])
    ensures BitsOf(ValueOf(s), k) == s[..k]
  {
    if k > 0 {
      ValueSplit(s[1..], k - 1);
      assert ValueOf(s) / 2 == ValueOf(s[1..]);
      assert s[1..][k - 1..] == s[k..];
      assert [s[0]] + s[1..][..k - 1] == s[..k];
    } else {
      assert s[k..] == s;
    }
  }

  /** The low word of a register and what is left after storing it. */
  lemma ValueSplit32(s: seq<bool>)
    requires |s| >= 32
    ensures ValueOf(s[..32]) < 0x1_0000_0000
    ensures ValueOf(s) % 0x1_0000_0000 == ValueOf(s[..32])
    ensures ValueOf(s) / 0x1_0000_0000 == ValueOf(s[32..])
  {
    var lo, hi := s[..32], s[32..];
    assert s == lo + hi;
    ValueConcat(lo, hi);
    ValueBound(lo);
    Pow2Literals();
    ShlWord(ValueOf(hi));
    DivModWord(ValueOf(s), ValueOf(lo), ValueOf(hi));
  }

  lemma DivModWord(v: nat, lo: nat, hi: nat)
    requires lo < 0x1_0000_0000 && v == lo + hi * 0x1_0000_0000
    ensures v % 0x1_0000_0000 == lo && v / 0x1_0000_0000 == hi
  {
  }

  lemma ShlWord(x: nat)
    ensures Shl(x, 32) == x * 0x1_0000_0000
  {
    ShlAdd(x, 8, 8);
    ShlAdd(x, 16, 16);
    ShlAdd(Shl(x, 16), 8, 8);
    ShlByte(x);
    ShlByte(Shl(x, 8));
    ShlByte(Shl(x, 16));
    ShlByte(Shl(Shl(x, 16), 8));
  }

  lemma ShlByte(x: nat)
    ensures Shl(x, 8) == x * 0x100
  {
  }

  lemma {:induction false} ShlAdd(x: nat, a: nat, b: nat)
    ensures Shl(Shl(x, a), b) == Shl(x, a + b)
  {
    if b > 0 {
      ShlAdd(x, a, b - 1);
    }
  }

  lemma {:induction false} ShlZero(n: nat)
    ensures Shl(0, n) == 0
  {
    if n > 0 {
      ShlZero(n - 1);
    }
  }

  lemma {:induction false} ValueZeros(n: nat)
    ensures ValueOf(Zeros(n)) == 0
  {
    if n > 0 {
      ValueZeros(n - 1);
    }
  }

  /** Zero bits on top do not change the value. */
  lemma ValuePadded(s: seq<bool>, n: nat)
    ensures ValueOf(s + Zeros(n)) == ValueOf(s)
  {
    ValueConcat(s, Zeros(n));
    ValueZeros(n);
    ShlZero(|s|);
  }

  lemma BitsOfZero(n: nat)
    ensures BitsOf(0, n) == Zeros(n)
  {
    ValueZeros(n);
    BitsOfValue(Zeros(n));
  }

  /** Only the all-zero string has value zero. */
  lemma ValueZeroOnly(s: seq<bool>)
    requires ValueOf(s) == 0
    ensures s == Zeros(|s|)
  {
    BitsOfValue(s);
    BitsOfZero(|s|);
  }

  /** Equal values of equal width have equal bits. */
  lemma ValueInjective(a: seq<bool>, b: seq<bool>)
    requires |a| == |b| && ValueOf(a) == ValueOf(b)
    ensures a == b
  {
    BitsOfValue(a);
    BitsOfValue(b);
  }

  /** A one-bit field is its bit. */
  lemma SingleBit(b: bool)
    ensures BitsOf(if b then 1 else 0, 1) == [b]
  {
  }

  /** Inside a prefix, slices of the prefix are slices of the whole. */
  lemma PrefixSlice(s: seq<bool>, t: seq<bool>, i: nat, j: nat)
    requires t <= s && i <= j
    ensures j <= |t| ==> s[i..j] == t[i..j]
  {
  }

  lemma Pow2Small()
    ensures Pow2(8) == 0x100 && Pow2(16) == 0x1_0000
  {
    assert Pow2(8) == 0x100;
    assert Pow2(12) == 0x1000;
  }

  lemma Pow2Literals()
    ensures Pow2(8) == 0x100 && Pow2(16) == 0x1_0000 && Pow2(32) == 0x1_0000_0000
  {
    Pow2Small();
    assert Pow2(20) == 0x10_0000;
    assert Pow2(24) == 0x100_0000;
    assert Pow2(28) == 0x1000_0000;
  }

  lemma Pow2Signed()
    ensures Pow2(31) == 0x8000_0000
  {
    Pow2Literals();
    assert Pow2(32) == 2 * Pow2(31);
  }

  lemma {:induction false} Pow2Shl(a: nat, b: nat)
    ensures Pow2(a + b) == Shl(Pow2(a), b)
  {
    if b > 0 {
      Pow2Shl(a, b - 1);
    }
  }

  lemma Pow2Register()
    ensures Pow2(64) == 0x1_0000_0000_0000_0000
  {
    Pow2Literals();
    Pow2Shl(32, 32);
    ShlWord(Pow2(32));
  }

  lemma {:induction false} Pow2Monotone(a: nat, b: nat)
    requires a <= b
    ensures Pow2(a) <= Pow2(b)
  {
    if a < b {
      Pow2Monotone(a, b - 1);
    }
  }

  // ---------------------------------------------------------------- positions

  /** Bits from position n to the next byte boundary. */
  function AlignLen(n: nat): (a: nat)
    ensures a < 8
  {
    if n % 8 == 0 then 0 else 8 - n % 8
  }

  lemma AlignLenAligns(n: nat)
    ensures (n + AlignLen(n)) % 8 == 0
    ensures (8 - n % 8) % 8 == AlignLen(n)
  {
  }

  /** Bits from position n to the next word boundary. */
  function WordLen(n: nat): (a: nat)
    ensures a < 32
  {
    if n % 32 == 0 then 0 else 32 - n % 32
  }

  lemma WordLenAligns(n: nat)
    ensures (n + WordLen(n)) % 32 == 0
    ensures AlignLen(n) <= WordLen(n)
  {
    hide WordLen, AlignLen;
    WordLenReaches(n);
    AlignWithinWord(n);
  }

  lemma WordLenReaches(n: nat)
    ensures (n + WordLen(n)) % 32 == 0
  {
    var q, r := n / 32, n % 32;
    assert n == 32 * q + r;
    assert n + WordLen(n) == 32 * (if r == 0 then q else q + 1);
    WholeWords(if r == 0 then q else q + 1);
  }

  lemma WholeWords(q: nat)
    ensures 32 * q % 32 == 0
  {
  }

  lemma AlignWithinWord(n: nat)
    ensures AlignLen(n) <= WordLen(n)
  {
    assert n % 32 % 8 == n % 8;
  }

  /** Bytes from an aligned position to the next word boundary. */
  function HeadLen(n: nat): (h: nat)
    requires n % 8 == 0
    ensures h < 4
  {
    (4 - n % 32 / 8) % 4
  }

  lemma HeadReachesWord(n: nat)
    requires n % 8 == 0
    ensures (n + 8 * HeadLen(n)) % 32 == 0
  {
  }

  /** Once the head is done, the packers' registers are empty. */
  lemma HeadEmptiesRegister(n: nat, h: nat, w: nat, r: int)
    requires n % 8 == 0 && h == HeadLen(n)
    requires r == n + 8 * h - 32 * w || r == 32 * w - (n + 8 * h)
    requires 0 <= r < 32
    ensures r == 0
  {
    hide HeadLen;
    HeadReachesWord(n);
  }
}
