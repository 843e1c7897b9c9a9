/**
  The C++ bit packer: values of 1 to 32 bits pass through a 64-bit scratch
  register into little-endian 32-bit words of a caller's buffer.
 */
module BitPacker {
  import opened Bits
  import opened Memory
  import opened ScratchRegister

  class BitWriter {
    const data: array<byte>
    const numWords: nat
    const numBits: nat
    var scratch: u64
    var scratchBits: int
    var bitsWritten: nat
    var wordIndex: nat

    /** Everything written so far, as one bit string. */
    ghost var written: seq<bool>
    /** The buffer's contents when the writer was created. */
    ghost const before: seq<byte>

    ghost predicate Sized()
      reads this, data
    {
      && numBits == 32 * numWords
      && 4 * numWords <= data.Length == |before|
      && bitsWritten == |written| <= numBits
      && scratchBits == bitsWritten - 32 * wordIndex
    }

    /** `written` and `before` determine the whole concrete state. */
    ghost predicate Valid()
      reads this, data
    {
      && Sized() && 0 <= scratchBits < 32
      && Packed(written, before, numWords, scratch, scratchBits, wordIndex, data[..])
    }

    constructor (data: array<byte>, bytes: nat)
      requires bytes % 4 == 0 && bytes <= data.Length
      ensures Valid() && this.data == data && numWords == bytes / 4
      ensures written == [] && before == data[..]
    {
      this.data := data;
      numWords := bytes / 4;
      numBits := bytes / 4 * 32;
      bitsWritten := 0;
      wordIndex := 0;
      scratch := 0;
      scratchBits := 0;
      written := [];
      before := data[..];
    }

    lemma Counts()
      requires Valid()
      ensures bitsWritten == |written| <= numBits
    {
    }

    method WriteBits(value: u32, bits: nat)
      requires Valid() && 0 < bits <= 32 && bitsWritten + bits <= numBits
      modifies this, data
      ensures Valid() && written == old(written) + BitsOf(value, bits)
    {
      InsertStep(written, before, numWords, scratch, scratchBits, wordIndex, data[..], value, bits);
      var masked := And(value, Pow2(bits) - 1);
      scratch := Or(scratch, Shl64(masked, scratchBits));
      scratchBits := scratchBits + bits;
      bitsWritten := bitsWritten + bits;
      written := written + BitsOf(value, bits);
      if scratchBits >= 32 {
        StoreLowWord();
      }
    }

    /** The word store inside `WriteBits`. */
    method StoreLowWord()
      requires Sized() && scratchBits >= 32
      requires Loaded(written, before, numWords, scratch, scratchBits, wordIndex, data[..])
      modifies this, data
      ensures Valid() && written == old(written)
    {
      hide BytesOf, WithWord, ValueOf;
      SpillStep(written, before, numWords, scratch, scratchBits, wordIndex, data[..]);
      assert wordIndex < numWords;
      StoreWord(wordIndex, scratch % 0x1_0000_0000);
      scratch := scratch / 0x1_0000_0000;
      scratchBits := scratchBits - 32;
      wordIndex := wordIndex + 1;
    }

    /** Store one word. The buffer is byte memory, so a word store writes four bytes. */
    method StoreWord(i: nat, w: u32)
      requires 4 * i + 4 <= data.Length
      modifies data
      ensures data[..] == WithWord(old(data[..]), i, w)
    {
      var b := LeBytes(w, 4);
      data[4 * i], data[4 * i + 1], data[4 * i + 2], data[4 * i + 3] := b[0], b[1], b[2], b[3];
    }

    method WriteAlign()
      requires Valid() && bitsWritten + AlignLen(bitsWritten) <= numBits
      modifies this, data
      ensures Valid() && written == old(written) + Zeros(AlignLen(old(bitsWritten)))
    {
      hide Packed;
      var remainderBits := bitsWritten % 8;
      if remainderBits != 0 {
        BitsOfZero(8 - remainderBits);
        WriteBits(0, 8 - remainderBits);
      } else {
        assert written + Zeros(0) == written;
      }
    }

    /** Head bytes up to a word boundary, then whole words copied, then tail bytes. */
    method WriteBytes(src: seq<byte>)
      requires Valid() && bitsWritten % 8 == 0 && bitsWritten + 8 * |src| <= numBits
      modifies this, data
      ensures Valid() && written == old(written) + MemBits(src)
    {
      hide Packed, HeadLen, MemBits;
      var headBytes := HeadLen(bitsWritten);
      if headBytes > |src| {
        headBytes := |src|;
      }
      WriteLoop(src, 0, headBytes);
      assert src[0..headBytes] == src[..headBytes];
      MemBitsSplit(src, headBytes);
      if headBytes == |src| {
        return;
      }
      HeadEmptiesRegister(old(bitsWritten), headBytes, wordIndex, scratchBits);
      FlushBits();
      WriteFromBoundary(src[headBytes..]);
    }

    /** The part of `WriteBytes` after the head: whole words copied, then tail bytes. */
    method WriteFromBoundary(src: seq<byte>)
      requires Valid() && scratchBits == 0 && bitsWritten + 8 * |src| <= numBits
      modifies this, data
      ensures Valid() && written == old(written) + MemBits(src)
    {
      hide Packed, MemBits;
      var copied := |src| / 4;
      if copied > 0 {
        CopyWords(src[..copied * 4], copied);
      }
      var tailBytes := |src| - copied * 4;
      assert 0 <= tailBytes < 4;
      assert written == old(written) + MemBits(src[..copied * 4]);
      WriteLoop(src, copied * 4, tailBytes);
      assert src[copied * 4..copied * 4 + tailBytes] == src[copied * 4..];
      MemBitsSplit(src, copied * 4);
    }

    /** The byte loops of `WriteBytes`: `count` calls of `WriteBits(., 8)`. */
    method WriteLoop(src: seq<byte>, start: nat, count: nat)
      requires Valid() && start + count <= |src| && bitsWritten + 8 * count <= numBits
      modifies this, data
      ensures Valid() && written == old(written) + MemBits(src[start..start + count])
    {
      hide Packed, MemBits;
      ghost var s := src[start..start + count];
      for i := 0 to count
        invariant Valid() && written == old(written) + MemBits(s[..i])
      {
        WriteBits(src[start + i], 8);
        MemBitsSnoc(s, i);
      }
      assert s[..count] == s;
    }

    /** The word copy of `WriteBytes`, from a word boundary. */
    method CopyWords(src: seq<byte>, n: nat)
      requires Valid() && scratchBits == 0 && |src| == 4 * n
      requires bitsWritten + 32 * n <= numBits
      modifies this, data
      ensures Valid() && written == old(written) + MemBits(src)
    {
      hide MemBits, BytesOf, ValueOf;
      CopyStep(written, before, numWords, scratch, wordIndex, data[..], src, n);
      CopyBytes(4 * wordIndex, src);
      bitsWritten := bitsWritten + n * 32;
      wordIndex := wordIndex + n;
      scratch := 0;
      written := written + MemBits(src);
    }

    method CopyBytes(start: nat, src: seq<byte>)
      requires start + |src| <= data.Length
      modifies data
      ensures data[..] == Splice(old(data[..]), start, src)
    {
      forall k | 0 <= k < |src| {
        data[start + k] := src[k];
      }
    }

    /**
      Store the last partial word. With an empty scratch register this changes
      nothing; otherwise it is terminal, because scratchBits is left negative.
     */
    method FlushBits()
      requires Valid()
      modifies this, data
      ensures numBits == 32 * numWords && bitsWritten == |written| && written == old(written)
      ensures |Pad32(written)| <= 8 * |before| && data[..] == Image(before, written)
      ensures old(scratchBits) == 0 ==>
                && Valid() && wordIndex == old(wordIndex) && scratch == old(scratch)
                && scratchBits == 0 && data[..] == old(data[..])
      ensures old(scratchBits) != 0 ==>
                scratchBits == old(scratchBits) - 32 && wordIndex == old(wordIndex) + 1 && scratch == 0
    {
      hide Image, Pad32, WithWord;
      if scratchBits != 0 {
        FlushStep(written, before, numWords, scratch, scratchBits, wordIndex, data[..]);
        assert wordIndex < numWords;
        StoreWord(wordIndex, scratch % 0x1_0000_0000);
        scratch := scratch / 0x1_0000_0000;
        scratchBits := scratchBits - 32;
        wordIndex := wordIndex + 1;
      } else {
        FlushNone(written, before, numWords, scratch, wordIndex, data[..]);
      }
    }

    function GetAlignBits(): (n: nat)
      reads this
      ensures n == AlignLen(bitsWritten)
    {
      (8 - bitsWritten % 8) % 8
    }

    function GetBytesWritten(): nat
      reads this
    {
      (bitsWritten + 7) / 8
    }
  }

  /**
    Two writers that have been given the same bits over the same initial buffer
    are in the same state, whichever of the byte loops and the word copy they took.
   */
  lemma StateDetermined(a: BitWriter, b: BitWriter)
    requires a.Valid() && b.Valid()
    requires a.written == b.written && a.before == b.before
    ensures a.scratch == b.scratch && a.scratchBits == b.scratchBits
    ensures a.wordIndex == b.wordIndex && a.bitsWritten == b.bitsWritten
    ensures a.data[..] == b.data[..]
  {
    assert a.wordIndex == a.bitsWritten / 32 && b.wordIndex == b.bitsWritten / 32;
  }

  /** The block fast path on one writer, and a call of `WriteBits(., 8)` a byte on an equal one: the same result. */
  method BlockIsLoop(a: BitWriter, b: BitWriter, src: seq<byte>)
    requires a.Valid() && b.Valid() && a != b && a.data != b.data
    requires a.written == b.written && a.before == b.before && a.bitsWritten % 8 == 0
    requires a.bitsWritten + 8 * |src| <= a.numBits && b.bitsWritten + 8 * |src| <= b.numBits
    modifies a, a.data, b, b.data
    ensures a.scratch == b.scratch && a.scratchBits == b.scratchBits
    ensures a.wordIndex == b.wordIndex && a.bitsWritten == b.bitsWritten
    ensures a.data[..] == b.data[..]
  {
    hide Packed, MemBits;
    a.WriteBytes(src);
    b.WriteLoop(src, 0, |src|);
    assert src[0..|src|] == src;
    StateDetermined(a, b);
  }
}
