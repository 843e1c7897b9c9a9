/**
  Byte memory seen as bits, and the little-endian 32-bit words laid over it.
  Bit k of a message is bit k % 8 of byte k / 8.
 */
module Memory {
  import opened Bits

  // ---------------------------------------------------------------- bytes and bits

  /** All bits of a block of memory, byte 0 first, low bit first. */
  function MemBits(m: seq<byte>): (s: seq<bool>)
    ensures |s| == 8 * |m|
  {
    if m == [] then [] else BitsOf(m[0], 8) + MemBits(m[1..])
  }

  /** The whole bytes that a bit string spells. */
  function BytesOf(s: seq<bool>): (m: seq<byte>)
    ensures |m| == |s| / 8
  {
    if |s| < 8 then [] else
      ValueBound(s[..8]);
      Pow2Literals();
      [ValueOf(s[..8])] + BytesOf(s[8..])
  }

  lemma {:induction false} BytesOfMemBits(m: seq<byte>)
    ensures BytesOf(MemBits(m)) == m
  {
    if m != [] {
      var s := MemBits(m);
      assert s[..8] == BitsOf(m[0], 8) && s[8..] == MemBits(m[1..]);
      Pow2Literals();
      ValueOfSmall(m[0], 8);
      BytesOfMemBits(m[1..]);
    }
  }

  lemma {:induction false} MemBitsBytesOf(s: seq<bool>)
    requires |s| % 8 == 0
    ensures MemBits(BytesOf(s)) == s
  {
    if s != [] {
      BitsOfValue(s[..8]);
      MemBitsBytesOf(s[8..]);
      assert BytesOf(s)[1..] == BytesOf(s[8..]);
    }
  }

  lemma MemBitsInjective(a: seq<byte>, b: seq<byte>)
    requires MemBits(a) == MemBits(b)
    ensures a == b
  {
    BytesOfMemBits(a);
    BytesOfMemBits(b);
  }

  lemma {:induction false} MemBitsConcat(a: seq<byte>, b: seq<byte>)
    ensures MemBits(a + b) == MemBits(a) + MemBits(b)
  {
    if a == [] {
      assert a + b == b;
    } else {
      assert (a + b)[1..] == a[1..] + b;
      MemBitsConcat(a[1..], b);
    }
  }

  lemma MemBitsSingle(b: byte)
    ensures MemBits([b]) == BitsOf(b, 8)
  {
  }

  /** Extending a prefix by one byte. */
  lemma MemBitsSnoc(m: seq<byte>, i: nat)
    requires i < |m|
    ensures MemBits(m[..i + 1]) == MemBits(m[..i]) + BitsOf(m[i], 8)
  {
    assert m[..i + 1] == m[..i] + [m[i]];
    MemBitsConcat(m[..i], [m[i]]);
    MemBitsSingle(m[i]);
  }

  lemma MemBitsSplit(m: seq<byte>, i: nat)
    requires i <= |m|
    ensures MemBits(m[..i]) == MemBits(m)[..8 * i]
    ensures MemBits(m[i..]) == MemBits(m)[8 * i..]
  {
    assert m == m[..i] + m[i..];
    MemBitsConcat(m[..i], m[i..]);
  }

  /** Byte slices are bit slices. */
  lemma MemBitsSlice(m: seq<byte>, i: nat, j: nat)
    requires i <= j <= |m|
    ensures MemBits(m[i..j]) == MemBits(m)[8 * i..8 * j]
  {
    MemBitsSplit(m, j);
    MemBitsSplit(m[..j], i);
    assert m[..j][i..] == m[i..j];
  }

  lemma {:induction false} BytesOfConcat(a: seq<bool>, b: seq<bool>, n: nat)
    requires |a| == 8 * n
    ensures BytesOf(a + b) == BytesOf(a) + BytesOf(b)
  {
    if a == [] {
      assert a + b == b;
    } else {
      assert (a + b)[..8] == a[..8] && (a + b)[8..] == a[8..] + b;
      BytesOfConcat(a[8..], b, n - 1);
    }
  }

  // ---------------------------------------------------------------- stores

  /** Memory with a block replaced. */
  function Splice(m: seq<byte>, start: nat, block: seq<byte>): (r: seq<byte>)
    requires start + |block| <= |m|
    ensures |r| == |m|
  {
    m[..start] + block + m[start + |block|..]
  }

  /** Two adjacent stores are one. */
  lemma SpliceTwice(m: seq<byte>, start: nat, a: seq<byte>, b: seq<byte>)
    requires start + |a| + |b| <= |m|
    ensures Splice(Splice(m, start, a), start + |a|, b) == Splice(m, start, a + b)
  {
    assert Splice(m, start, a)[..start + |a|] == m[..start] + a;
  }

  lemma OneByte(s: seq<bool>)
    requires |s| == 8
    ensures ValueOf(s) < 0x100 && BytesOf(s) == [ValueOf(s)]
  {
    ValueBound(s);
    Pow2Small();
    assert s[..8] == s;
  }

  lemma SpliceNothing(m: seq<byte>, start: nat, s: seq<bool>, i: nat)
    requires start <= |m| && i <= |s|
    ensures Splice(m, start, BytesOf(s[i..i])) == m
  {
    assert BytesOf(s[i..i]) == [];
  }

  /** Storing two adjacent runs of the stream stores the joined run. */
  lemma SpliceBits(m: seq<byte>, start: nat, s: seq<bool>, i: nat, j: nat, k: nat, n1: nat, n2: nat)
    requires j == i + 8 * n1 && k == j + 8 * n2 && k <= |s| && start + n1 + n2 <= |m|
    ensures |BytesOf(s[i..j])| == n1 && |BytesOf(s[j..k])| == n2 && |BytesOf(s[i..k])| == n1 + n2
    ensures Splice(Splice(m, start, BytesOf(s[i..j])), start + n1, BytesOf(s[j..k]))
            == Splice(m, start, BytesOf(s[i..k]))
  {
    hide BytesOf, Splice;
    assert s[i..k] == s[i..j] + s[j..k];
    BytesOfConcat(s[i..j], s[j..k], n1);
    SpliceTwice(m, start, BytesOf(s[i..j]), BytesOf(s[j..k]));
  }

  // ---------------------------------------------------------------- words

  /** The low n bytes of a number, low byte first. */
  function LeBytes(w: nat, n: nat): (m: seq<byte>)
    ensures |m| == n
  {
    if n == 0 then [] else [w % 0x100] + LeBytes(w / 0x100, n - 1)
  }

  /** The number stored in a block of bytes, low byte first. */
  function LeNum(m: seq<byte>): nat {
    if m == [] then 0 else m[0] as int + 0x100 * LeNum(m[1..])
  }

  lemma {:induction false} LeNumValue(m: seq<byte>)
    ensures LeNum(m) == ValueOf(MemBits(m))
  {
    if m != [] {
      LeNumValue(m[1..]);
      var low, high := BitsOf(m[0], 8), MemBits(m[1..]);
      ValueConcat(low, high);
      Pow2Literals();
      ValueOfSmall(m[0], 8);
      ShlByte(ValueOf(high));
    }
  }

  lemma DivModByte(v: nat, lo: byte, hi: nat)
    requires v == lo + 0x100 * hi
    ensures v % 0x100 == lo && v / 0x100 == hi
  {
  }

  lemma {:induction false} LeBytesOfNum(m: seq<byte>)
    ensures LeBytes(LeNum(m), |m|) == m
  {
    if m != [] {
      LeBytesOfNum(m[1..]);
      DivModByte(LeNum(m), m[0], LeNum(m[1..]));
    }
  }

  /** A stored value's bits are the value's bits in order. */
  lemma LeBytesOfBits(s: seq<bool>, n: nat)
    requires |s| == 8 * n
    ensures LeBytes(ValueOf(s), n) == BytesOf(s)
  {
    MemBitsBytesOf(s);
    LeNumValue(BytesOf(s));
    LeBytesOfNum(BytesOf(s));
  }

  lemma LeBytesBits(w: nat, n: nat)
    requires w < Pow2(8 * n)
    ensures MemBits(LeBytes(w, n)) == BitsOf(w, 8 * n)
    ensures LeNum(LeBytes(w, n)) == w
  {
    var s := BitsOf(w, 8 * n);
    ValueOfSmall(w, 8 * n);
    LeBytesOfBits(s, n);
    MemBitsBytesOf(s);
    LeNumValue(LeBytes(w, n));
  }

  // ---------------------------------------------------------------- padding

  /** Zero bits up to the next whole byte. */
  function Pad8(s: seq<bool>): (p: seq<bool>)
    ensures |p| == |s| + AlignLen(|s|)
  {
    s + Zeros(AlignLen(|s|))
  }

  /** Zero bits up to the next whole word. */
  function Pad32(s: seq<bool>): (p: seq<bool>)
    ensures |p| == |s| + WordLen(|s|)
  {
    s + Zeros(WordLen(|s|))
  }

  /** Padding only ever touches the last, partial word. */
  lemma PadLast(done: seq<bool>, tail: seq<bool>, n: nat)
    requires |done| == 32 * n && 0 < |tail| < 32
    ensures Pad32(done + tail) == done + (tail + Zeros(32 - |tail|))
  {
    assert |done + tail| % 32 == |tail|;
  }

  /** The memory a packer must leave: the message in whole words, then what was there before. */
  function Image(before: seq<byte>, written: seq<bool>): (m: seq<byte>)
    requires |Pad32(written)| <= 8 * |before|
    ensures |m| == |before|
  {
    var w := BytesOf(Pad32(written));
    w + before[|w|..]
  }

  /** The message proper: the written bits in whole bytes. */
  function Message(written: seq<bool>): (m: seq<byte>)
    ensures |m| == (|written| + 7) / 8
  {
    BytesOf(Pad8(written))
  }

  lemma PadsAgree(s: seq<bool>, a: nat, b: nat, n: nat)
    requires a <= b && |s| + a == 8 * n
    ensures BytesOf(s + Zeros(b))[..n] == BytesOf(s + Zeros(a))
  {
    hide Zeros, BytesOf;
    var p, w := s + Zeros(a), s + Zeros(b);
    ZerosPrefix(a, b);
    assert w == p + w[|p|..];
    BytesOfPrefix(p, w[|p|..], n);
  }

  lemma BytesOfPrefix(a: seq<bool>, b: seq<bool>, n: nat)
    requires |a| == 8 * n
    ensures BytesOf(a + b)[..n] == BytesOf(a)
  {
    hide BytesOf;
    BytesOfConcat(a, b, n);
  }

  /** The bytes a writer reports are the message, whatever the buffer held before. */
  lemma ImagePrefix(before: seq<byte>, written: seq<bool>)
    requires |Pad32(written)| <= 8 * |before|
    ensures |Message(written)| <= |before|
    ensures Image(before, written)[..|Message(written)|] == Message(written)
  {
    hide BytesOf, Zeros, AlignLen, WordLen;
    AlignLenAligns(|written|);
    WordLenAligns(|written|);
    PadsAgree(written, AlignLen(|written|), WordLen(|written|), |Message(written)|);
  }
}
