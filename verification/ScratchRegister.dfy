/**
  The packers' state over plain values, and the arithmetic of their scratch
  register: or-ing a field in, spilling a full word, flushing a partial one.
 */
module ScratchRegister {
  import opened Bits
  import opened Memory

  /**
    What a packer must hold after writing the bits `written` into a buffer that
    contained `before`: whole words are in memory, the rest is in the register.
   */
  ghost predicate Packed(written: seq<bool>, before: seq<byte>, words: nat,
                         scratch: nat, scratchBits: int, wordIndex: nat, mem: seq<byte>)
  {
    && |written| <= 32 * words && 4 * words <= |before|
    && 0 <= scratchBits < 32
    && scratchBits == |written| - 32 * wordIndex
    && scratch == ValueOf(written[32 * wordIndex..])
    && mem == BytesOf(written[..32 * wordIndex]) + before[4 * wordIndex..]
  }

  /** Memory with one word replaced. */
  function WithWord(mem: seq<byte>, i: nat, w: u32): (m: seq<byte>)
    requires 4 * i + 4 <= |mem|
    ensures |m| == |mem|
  {
    Splice(mem, 4 * i, LeBytes(w, 4))
  }

  lemma RegisterFits(n: nat)
    requires n <= 64
    ensures Pow2(n) <= 0x1_0000_0000_0000_0000
  {
    Pow2Monotone(n, 64);
    Pow2Register();
  }

  lemma ModSmall(p: nat, m: nat)
    requires p < m
    ensures p % m == p && p / m == 0
  {
  }

  lemma ShiftExact(y: u64, s: nat)
    requires Shl(y, s) < 0x1_0000_0000_0000_0000
    ensures Shl64(y, s) == Shl(y, s)
  {
    ModSmall(Shl(y, s), 0x1_0000_0000_0000_0000);
  }

  /** Or-ing a shifted value above the register's top bit, with nothing lost. */
  lemma OrShift(x: u64, y: u64, s: nat, v: u64)
    requires x < Pow2(s) && v == x + Shl(y, s)
    ensures Or(x, Shl64(y, s)) == v
  {
    ShiftExact(y, s);
    OrDisjoint(x, y, s);
  }

  /** A string of at most 64 bits fits the register. */
  lemma FitsRegister(s: seq<bool>)
    requires |s| <= 64
    ensures ValueOf(s) < 0x1_0000_0000_0000_0000
  {
    ValueBound(s);
    RegisterFits(|s|);
  }

  lemma FitsWord(s: seq<bool>)
    requires |s| <= 32
    ensures ValueOf(s) < 0x1_0000_0000
  {
    ValueBound(s);
    Pow2Monotone(|s|, 32);
    Pow2Literals();
  }

  /** Or-ing a field above the register's contents appends its bits. */
  lemma RegisterJoin(tail: seq<bool>, field: seq<bool>)
    requires |tail| + |field| <= 64
    ensures ValueOf(tail) < 0x1_0000_0000_0000_0000 && ValueOf(field) < 0x1_0000_0000_0000_0000
    ensures ValueOf(tail + field) < 0x1_0000_0000_0000_0000
    ensures Or(ValueOf(tail), Shl64(ValueOf(field), |tail|)) == ValueOf(tail + field)
  {
    FitsRegister(tail);
    FitsRegister(field);
    FitsRegister(tail + field);
    ValueConcat(tail, field);
    ValueBound(tail);
    OrShift(ValueOf(tail), ValueOf(field), |tail|, ValueOf(tail + field));
  }

  /** Masking, shifting and or-ing appends the value's low bits to the register. */
  lemma RegisterInsert(tail: seq<bool>, value: u32, bits: nat)
    requires |tail| < 32 && 0 < bits <= 32
    ensures And(value, Pow2(bits) - 1) < 0x1_0000_0000
    ensures ValueOf(tail) < 0x1_0000_0000_0000_0000 && ValueOf(tail + BitsOf(value, bits)) < 0x1_0000_0000_0000_0000
    ensures Or(ValueOf(tail), Shl64(And(value, Pow2(bits) - 1), |tail|)) == ValueOf(tail + BitsOf(value, bits))
  {
    AndMask(value, bits);
    FitsWord(BitsOf(value, bits));
    RegisterJoin(tail, BitsOf(value, bits));
  }

  /** Storing the register's low word moves the next 32 written bits to memory. */
  lemma Spill(tail: seq<bool>)
    requires 32 <= |tail| < 64
    ensures ValueOf(tail[32..]) == ValueOf(tail) / 0x1_0000_0000 < 0x1_0000_0000_0000_0000
    ensures LeBytes(ValueOf(tail) % 0x1_0000_0000, 4) == BytesOf(tail[..32])
  {
    ValueSplit32(tail);
    ValueBound(tail[32..]);
    RegisterFits(|tail[32..]|);
    WordBytes(tail[..32]);
  }

  /** As `Packed`, but the register may hold a whole word that is still to be stored. */
  ghost predicate Loaded(written: seq<bool>, before: seq<byte>, words: nat,
                         scratch: nat, scratchBits: int, wordIndex: nat, mem: seq<byte>)
  {
    && |written| <= 32 * words && 4 * words <= |before|
    && 0 <= scratchBits < 64
    && scratchBits == |written| - 32 * wordIndex
    && scratch == ValueOf(written[32 * wordIndex..])
    && mem == BytesOf(written[..32 * wordIndex]) + before[4 * wordIndex..]
  }

  /** Or-ing a field in: the register holds everything not yet stored, plus the field. */
  lemma InsertStep(written: seq<bool>, before: seq<byte>, words: nat,
                   scratch: u64, scratchBits: int, wordIndex: nat, mem: seq<byte>, value: u32, bits: nat)
    requires Packed(written, before, words, scratch, scratchBits, wordIndex, mem)
    requires 0 < bits <= 32 && |written| + bits <= 32 * words
    ensures And(value, Pow2(bits) - 1) < 0x1_0000_0000
    ensures Loaded(written + BitsOf(value, bits), before, words,
                   Or(scratch, Shl64(And(value, Pow2(bits) - 1), scratchBits)), scratchBits + bits, wordIndex, mem)
    ensures Or(scratch, Shl64(And(value, Pow2(bits) - 1), scratchBits)) < 0x1_0000_0000_0000_0000
  {
    hide ValueOf, BytesOf, And, Or, Shl64;
    var tail, field := written[32 * wordIndex..], BitsOf(value, bits);
    RegisterInsert(tail, value, bits);
    assert (written + field)[32 * wordIndex..] == tail + field;
    assert (written + field)[..32 * wordIndex] == written[..32 * wordIndex];
  }

  /** The register filled up: its low word is stored, the rest stays. */
  lemma SpillStep(now: seq<bool>, before: seq<byte>, words: nat,
                  scratch: nat, scratchBits: int, wordIndex: nat, mem: seq<byte>)
    requires Loaded(now, before, words, scratch, scratchBits, wordIndex, mem) && scratchBits >= 32
    ensures 4 * wordIndex + 4 <= |mem| && wordIndex < words
    ensures Packed(now, before, words, scratch / 0x1_0000_0000, scratchBits - 32, wordIndex + 1,
                   WithWord(mem, wordIndex, scratch % 0x1_0000_0000))
  {
    hide ValueOf, BytesOf, WithWord;
    SpillWord(now, now[32 * wordIndex..], now[..32 * wordIndex], before, wordIndex, mem);
  }

  lemma SpillWord(now: seq<bool>, tail: seq<bool>, done: seq<bool>, before: seq<byte>, wordIndex: nat, mem: seq<byte>)
    requires |done| == 32 * wordIndex && now == done + tail && 32 <= |tail| < 64
    requires 4 * wordIndex + 4 <= |before|
    requires mem == BytesOf(done) + before[4 * wordIndex..]
    ensures ValueOf(tail) / 0x1_0000_0000 == ValueOf(now[32 * (wordIndex + 1)..])
    ensures WithWord(mem, wordIndex, ValueOf(tail) % 0x1_0000_0000)
            == BytesOf(now[..32 * (wordIndex + 1)]) + before[4 * (wordIndex + 1)..]
  {
    hide ValueOf, BytesOf, LeBytes;
    Spill(tail);
    assert tail[32..] == now[32 * (wordIndex + 1)..];
    assert now[..32 * (wordIndex + 1)] == done + tail[..32];
    BytesOfConcat(done, tail[..32], 4 * wordIndex);
    assert mem[..4 * wordIndex] == BytesOf(done);
    assert mem[4 * wordIndex + 4..] == before[4 * (wordIndex + 1)..];
  }

  /** Flushing an empty register stores nothing: memory is already the image. */
  lemma FlushNone(written: seq<bool>, before: seq<byte>, words: nat, scratch: nat, wordIndex: nat, mem: seq<byte>)
    requires Packed(written, before, words, scratch, 0, wordIndex, mem)
    ensures |Pad32(written)| <= 8 * |before| && mem == Image(before, written)
  {
    assert written[..32 * wordIndex] == written == Pad32(written);
  }

  /** Flushing a partial word leaves the message zero-padded to a word. */
  lemma FlushStep(written: seq<bool>, before: seq<byte>, words: nat,
                  scratch: nat, scratchBits: int, wordIndex: nat, mem: seq<byte>)
    requires Packed(written, before, words, scratch, scratchBits, wordIndex, mem) && scratchBits != 0
    ensures |Pad32(written)| <= 8 * |before|
    ensures 4 * wordIndex + 4 <= |mem| && scratch < 0x1_0000_0000
    ensures WithWord(mem, wordIndex, scratch) == Image(before, written)
  {
    hide ValueOf, BytesOf, Zeros, WordLen;
    var done, tail := written[..32 * wordIndex], written[32 * wordIndex..];
    var last := tail + Zeros(32 - |tail|);
    assert written == done + tail;
    PadLast(done, tail, wordIndex);
    FlushWord(done, tail, last, before, wordIndex, mem);
    ImageIs(before, written, done + last, wordIndex + 1);
  }

  lemma ImageIs(before: seq<byte>, written: seq<bool>, padded: seq<bool>, n: nat)
    requires Pad32(written) == padded && |padded| == 32 * n && 4 * n <= |before|
    ensures Image(before, written) == BytesOf(padded) + before[4 * n..]
  {
  }

  lemma FlushWord(done: seq<bool>, tail: seq<bool>, last: seq<bool>, before: seq<byte>, wordIndex: nat, mem: seq<byte>)
    requires |done| == 32 * wordIndex && 0 < |tail| < 32 && last == tail + Zeros(32 - |tail|)
    requires 4 * wordIndex + 4 <= |before|
    requires mem == BytesOf(done) + before[4 * wordIndex..]
    ensures ValueOf(tail) < 0x1_0000_0000
    ensures WithWord(mem, wordIndex, ValueOf(tail)) == BytesOf(done + last) + before[4 * (wordIndex + 1)..]
  {
    hide ValueOf, BytesOf, LeBytes;
    PartialWord(tail, last);
    BytesOfConcat(done, last, 4 * wordIndex);
    assert mem[..4 * wordIndex] == BytesOf(done);
    assert mem[4 * wordIndex + 4..] == before[4 * (wordIndex + 1)..];
  }

  lemma PartialWord(tail: seq<bool>, last: seq<bool>)
    requires |tail| < 32 && last == tail + Zeros(32 - |tail|)
    ensures |last| == 32 && ValueOf(tail) < 0x1_0000_0000
    ensures LeBytes(ValueOf(tail), 4) == BytesOf(last)
  {
    FitsWord(tail);
    ValuePadded(tail, 32 - |tail|);
    WordBytes(last);
  }

  lemma WordBytes(s: seq<bool>)
    requires |s| == 32
    ensures LeBytes(ValueOf(s), 4) == BytesOf(s)
  {
    LeBytesOfBits(s, 4);
  }

  /** Copying n whole words from a word boundary. */
  lemma CopyStep(written: seq<bool>, before: seq<byte>, words: nat,
                 scratch: nat, wordIndex: nat, mem: seq<byte>, src: seq<byte>, n: nat)
    requires Packed(written, before, words, scratch, 0, wordIndex, mem)
    requires |src| == 4 * n && |written| + 32 * n <= 32 * words
    ensures Packed(written + MemBits(src), before, words, 0, 0, wordIndex + n,
                   Splice(mem, 4 * wordIndex, src))
  {
    hide BytesOf, MemBits;
    var now := written + MemBits(src);
    assert written[..32 * wordIndex] == written;
    assert now[..32 * (wordIndex + n)] == now;
    BytesOfConcat(written, MemBits(src), 4 * wordIndex);
    BytesOfMemBits(src);
    assert mem[..4 * wordIndex] == BytesOf(written);
  }

  // ---------------------------------------------------------------- reading

  /**
    What an unpacker must hold after consuming `bitsRead` bits of the stream s:
    the register has the part of the last loaded word that is not yet consumed.
   */
  ghost predicate Unpacked(s: seq<bool>, bitsRead: nat, scratch: nat, scratchBits: int, wordIndex: nat)
  {
    && 0 <= scratchBits < 64
    && scratchBits == 32 * wordIndex - bitsRead
    && 32 * wordIndex <= |s|
    && scratch == ValueOf(s[bitsRead..32 * wordIndex])
  }

  /** Loading a word appends its 32 bits to the register. */
  lemma LoadStep(mem: seq<byte>, s: seq<bool>, bitsRead: nat, scratch: u64, scratchBits: int, wordIndex: nat)
    requires s == MemBits(mem) && 4 * wordIndex + 4 <= |mem| && scratchBits < 32
    requires Unpacked(s, bitsRead, scratch, scratchBits, wordIndex)
    ensures LeNum(mem[4 * wordIndex..4 * wordIndex + 4]) < 0x1_0000_0000
    ensures Unpacked(s, bitsRead, Or(scratch, Shl64(LeNum(mem[4 * wordIndex..4 * wordIndex + 4]), scratchBits)),
                     scratchBits + 32, wordIndex + 1)
    ensures Or(scratch, Shl64(LeNum(mem[4 * wordIndex..4 * wordIndex + 4]), scratchBits)) < 0x1_0000_0000_0000_0000
  {
    hide ValueOf, MemBits, LeNum, Or, Shl64;
    var low, mid, high := bitsRead, 32 * wordIndex, 32 * (wordIndex + 1);
    var word := mem[4 * wordIndex..4 * wordIndex + 4];
    WordBits(mem, 4 * wordIndex, mid, high);
    FitsWord(s[mid..high]);
    RegisterJoin(s[low..mid], s[mid..high]);
    assert s[low..mid] + s[mid..high] == s[low..high];
  }

  /** A word of memory is the number spelled by its 32 bits. */
  lemma WordBits(mem: seq<byte>, i: nat, from: nat, to: nat)
    requires i + 4 <= |mem| && from == 8 * i && to == 8 * (i + 4)
    ensures to <= |MemBits(mem)| && LeNum(mem[i..i + 4]) == ValueOf(MemBits(mem)[from..to])
  {
    hide ValueOf, MemBits, LeNum;
    MemBitsSlice(mem, i, i + 4);
    LeNumValue(mem[i..i + 4]);
  }

  /** Masking and shifting takes the next bits off the register. */
  lemma TakeStep(s: seq<bool>, bitsRead: nat, scratch: u64, scratchBits: int, wordIndex: nat, bits: nat)
    requires Unpacked(s, bitsRead, scratch, scratchBits, wordIndex) && bits <= scratchBits && bits <= 32
    ensures And(scratch, Pow2(bits) - 1) == ValueOf(s[bitsRead..bitsRead + bits]) < 0x1_0000_0000
    ensures Unpacked(s, bitsRead + bits, Shr(scratch, bits), scratchBits - bits, wordIndex)
  {
    hide ValueOf, And, Shr;
    var t := s[bitsRead..32 * wordIndex];
    AndMask(scratch, bits);
    ValueSplit(t, bits);
    assert t[..bits] == s[bitsRead..bitsRead + bits];
    assert t[bits..] == s[bitsRead + bits..32 * wordIndex];
    FitsWord(t[..bits]);
  }
}
