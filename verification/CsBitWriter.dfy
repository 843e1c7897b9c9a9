/** The client's bit packer: the same algorithm over an array of 32-bit words. */
module CsBitPacker {
  import opened Bits
  import opened Memory
  import opened ScratchRegister
  import opened WordArrays

  class BitWriter {
    const data: array<u32>
    const numWords: nat
    const numBits: nat
    var scratch: u64
    var scratchBits: int
    var bitsWritten: nat
    var wordIndex: nat

    ghost var written: seq<bool>
    ghost const before: seq<byte>

    ghost predicate Sized()
      reads this, data
    {
      && numBits == 32 * numWords
      && numWords <= data.Length && |before| == 4 * data.Length
      && bitsWritten == |written| <= numBits
      && scratchBits == bitsWritten - 32 * wordIndex
    }

    ghost predicate Valid()
      reads this, data
    {
      && Sized() && 0 <= scratchBits < 32
      && Packed(written, before, numWords, scratch, scratchBits, wordIndex, UIntArrayToByteArray(data[..]))
    }

    constructor (data: array<u32>, bytes: nat)
      requires bytes % 4 == 0 && bytes / 4 <= data.Length
      ensures Valid() && this.data == data && numWords == bytes / 4
      ensures written == [] && before == UIntArrayToByteArray(data[..])
    {
      this.data := data;
      numWords := bytes / 4;
      numBits := bytes / 4 * 32;
      bitsWritten := 0;
      wordIndex := 0;
      scratch := 0;
      scratchBits := 0;
      written := [];
      before := UIntArrayToByteArray(data[..]);
    }

    method WriteBits(value: u32, bits: nat)
      requires Valid() && 0 < bits <= 32 && bitsWritten + bits <= numBits
      modifies this, data
      ensures Valid() && written == old(written) + BitsOf(value, bits)
    {
      hide UIntArrayToByteArray;
      InsertStep(written, before, numWords, scratch, scratchBits, wordIndex,
                 UIntArrayToByteArray(data[..]), value, bits);
      var masked := And(value, Pow2(bits) - 1);
      scratch := Or(scratch, Shl64(masked, scratchBits));
      scratchBits := scratchBits + bits;
      bitsWritten := bitsWritten + bits;
      written := written + BitsOf(value, bits);
      if scratchBits >= 32 {
        StoreLowWord();
      }
    }

    method StoreLowWord()
      requires Sized() && scratchBits >= 32
      requires Loaded(written, before, numWords, scratch, scratchBits, wordIndex, UIntArrayToByteArray(data[..]))
      modifies this, data
      ensures Valid() && written == old(written)
    {
      hide UIntArrayToByteArray, BytesOf, WithWord, ValueOf;
      SpillStep(written, before, numWords, scratch, scratchBits, wordIndex, UIntArrayToByteArray(data[..]));
      assert wordIndex < numWords;
      StoreWord(wordIndex, scratch % 0x1_0000_0000);
      scratch := scratch / 0x1_0000_0000;
      scratchBits := scratchBits - 32;
      wordIndex := wordIndex + 1;
    }

    method StoreWord(i: nat, w: u32)
      requires i < data.Length
      modifies data
      ensures UIntArrayToByteArray(data[..]) == WithWord(UIntArrayToByteArray(old(data[..])), i, w)
    {
      hide UIntArrayToByteArray, WithWord;
      WordReplaced(data[..], i, w);
      data[i] := w;
      assert data[..] == old(data[..])[i := w];
    }

    method WriteAlign()
      requires Valid() && bitsWritten + AlignLen(bitsWritten) <= numBits
      modifies this, data
      ensures Valid() && written == old(written) + Zeros(AlignLen(old(bitsWritten)))
    {
      hide Packed;
      var remainderBits := bitsWritten % 8;
      if remainderBits != 0 {
        BitsOfZero(8 - remainderBits);
        WriteBits(0, 8 - remainderBits);
      } else {
        assert written + Zeros(0) == written;
      }
    }

    method WriteBytes(src: seq<byte>)
      requires Valid() && bitsWritten % 8 == 0 && bitsWritten + 8 * |src| <= numBits
      modifies this, data
      ensures Valid() && written == old(written) + MemBits(src)
    {
      hide Packed, HeadLen, MemBits;
      var headBytes := HeadLen(bitsWritten);
      if headBytes > |src| {
        headBytes := |src|;
      }
      WriteLoop(src, 0, headBytes);
      assert src[0..headBytes] == src[..headBytes];
      MemBitsSplit(src, headBytes);
      if headBytes == |src| {
        return;
      }
      HeadEmptiesRegister(old(bitsWritten), headBytes, wordIndex, scratchBits);
      FlushBits();
      WriteFromBoundary(src[headBytes..]);
    }

    method WriteFromBoundary(src: seq<byte>)
      requires Valid() && scratchBits == 0 && bitsWritten + 8 * |src| <= numBits
      modifies this, data
      ensures Valid() && written == old(written) + MemBits(src)
    {
      hide Packed, MemBits;
      var copied := |src| / 4;
      if copied > 0 {
        CopyWords(src[..copied * 4], copied);
      }
      var tailBytes := |src| - copied * 4;
      assert 0 <= tailBytes < 4;
      assert written == old(written) + MemBits(src[..copied * 4]);
      WriteLoop(src, copied * 4, tailBytes);
      assert src[copied * 4..copied * 4 + tailBytes] == src[copied * 4..];
      MemBitsSplit(src, copied * 4);
    }

    method WriteLoop(src: seq<byte>, start: nat, count: nat)
      requires Valid() && start + count <= |src| && bitsWritten + 8 * count <= numBits
      modifies this, data
      ensures Valid() && written == old(written) + MemBits(src[start..start + count])
    {
      hide Packed, MemBits;
      ghost var s := src[start..start + count];
      NoBytes(s);
      for i := 0 to count
        invariant Valid() && written == old(written) + MemBits(s[..i])
      {
        WriteBits(src[start + i], 8);
        MemBitsSnoc(s, i);
      }
      assert s[..count] == s;
    }

    /** The block is converted to words and copied into the word array. */
    method CopyWords(src: seq<byte>, n: nat)
      requires Valid() && scratchBits == 0 && |src| == 4 * n
      requires bitsWritten + 32 * n <= numBits
      modifies this, data
      ensures Valid() && written == old(written) + MemBits(src)
    {
      hide MemBits, BytesOf, ValueOf, UIntArrayToByteArray;
      CopyStep(written, before, numWords, scratch, wordIndex, UIntArrayToByteArray(data[..]), src, n);
      var arrData := ByteArrayToUIntArray(src);
      CopyArray(arrData, wordIndex);
      bitsWritten := bitsWritten + n * 32;
      wordIndex := wordIndex + n;
      scratch := 0;
      written := written + MemBits(src);
    }

    /** `Array.Copy(src, 0, m_data, start, src.Length)`. */
    method CopyArray(src: array<u32>, start: nat)
      requires src != data && start + src.Length <= data.Length
      modifies data
      ensures UIntArrayToByteArray(data[..])
              == Splice(UIntArrayToByteArray(old(data[..])), 4 * start, UIntArrayToByteArray(src[..]))
    {
      hide UIntArrayToByteArray, Splice;
      ghost var was, block := data[..], src[..];
      var end := start + src.Length;
      WordsReplaced(was, start, block, end);
      forall k | 0 <= k < src.Length {
        data[start + k] := src[k];
      }
      assert src[..] == block && data[..] == was[..start] + block + was[end..];
    }

    /** As in C++, except that the register count is reset to zero. */
    method FlushBits()
      requires Valid()
      modifies this, data
      ensures numBits == 32 * numWords && bitsWritten == |written| && written == old(written)
      ensures |Pad32(written)| <= 8 * |before| && UIntArrayToByteArray(data[..]) == Image(before, written)
      ensures old(scratchBits) == 0 ==>
                && Valid() && wordIndex == old(wordIndex) && scratch == old(scratch)
                && scratchBits == 0 && data[..] == old(data[..])
      ensures old(scratchBits) != 0 ==>
                scratchBits == 0 && wordIndex == old(wordIndex) + 1 && scratch == 0
    {
      hide Image, Pad32, WithWord, UIntArrayToByteArray;
      if scratchBits != 0 {
        FlushStep(written, before, numWords, scratch, scratchBits, wordIndex, UIntArrayToByteArray(data[..]));
        assert wordIndex < numWords;
        StoreWord(wordIndex, scratch % 0x1_0000_0000);
        scratch := scratch / 0x1_0000_0000;
        scratchBits := 0;
        wordIndex := wordIndex + 1;
      } else {
        FlushNone(written, before, numWords, scratch, wordIndex, UIntArrayToByteArray(data[..]));
      }
    }

    lemma Counts()
      requires Valid()
      ensures bitsWritten == |written| <= numBits
    {
    }

    function GetBytesWritten(): nat
      reads this
    {
      (bitsWritten + 7) / 8
    }
  }

  lemma NoBytes(s: seq<byte>)
    ensures MemBits(s[..0]) == []
  {
  }
}
