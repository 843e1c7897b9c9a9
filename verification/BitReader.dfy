/** The C++ bit unpacker, the packer's inverse. */
module BitUnpacker {
  import opened Bits
  import opened Memory
  import opened ScratchRegister

  class BitReader {
    const data: array<byte>
    const numBits: nat
    const numBytes: nat
    /** A debug-only field of the source: the number of words that may be loaded. */
    const numWords: nat
    var scratch: u64
    var scratchBits: int
    var bitsRead: nat
    var wordIndex: nat

    /** The backing store as one bit string. Only its first numBits bits may be read. */
    ghost const stream: seq<bool>

    /**
      The reader loads whole words, so the store is rounded up to a word; the
      register never holds a whole unread word.
     */
    ghost predicate Valid()
      reads this, data
    {
      && numBits == 8 * numBytes
      && numBytes <= 4 * numWords <= data.Length
      && stream == MemBits(data[..])
      && bitsRead <= numBits
      && 0 <= scratchBits < 32
      && scratchBits == 32 * wordIndex - bitsRead
      && wordIndex <= numWords
      && Unpacked(stream, bitsRead, scratch, scratchBits, wordIndex)
    }

    constructor (data: array<byte>, bytes: nat)
      requires 4 * ((bytes + 3) / 4) <= data.Length
      ensures Valid() && this.data == data && numBytes == bytes && bitsRead == 0
    {
      this.data := data;
      numBytes := bytes;
      numWords := (bytes + 3) / 4;
      numBits := bytes * 8;
      bitsRead := 0;
      scratch := 0;
      scratchBits := 0;
      wordIndex := 0;
      stream := MemBits(data[..]);
    }

    lemma Sizes()
      requires Valid()
      ensures numBits == 8 * numBytes && bitsRead <= numBits <= |stream|
    {
    }

    predicate WouldOverflow(bits: nat)
      reads this
    {
      bitsRead + bits > numBits
    }

    /** A word is loaded only from inside the store, even on arbitrary input. */
    method ReadBits(bits: nat) returns (output: u32)
      requires Valid() && 0 < bits <= 32 && bitsRead + bits <= numBits
      modifies this
      ensures Valid() && bitsRead == old(bitsRead) + bits
      ensures bitsRead <= |stream| && output == ValueOf(stream[old(bitsRead)..bitsRead])
    {
      hide MemBits, ValueOf, And, Or, Shr, LeNum;
      if scratchBits < bits {
        assert wordIndex < numWords;
        LoadStep(data[..], stream, bitsRead, scratch, scratchBits, wordIndex);
        assert data[..][4 * wordIndex..4 * wordIndex + 4] == data[4 * wordIndex..4 * wordIndex + 4];
        scratch := Or(scratch, Shl64(LeNum(data[4 * wordIndex..4 * wordIndex + 4]), scratchBits));
        scratchBits := scratchBits + 32;
        wordIndex := wordIndex + 1;
      }
      assert scratchBits >= bits;
      TakeStep(stream, bitsRead, scratch, scratchBits, wordIndex, bits);
      output := And(scratch, Pow2(bits) - 1);
      scratch := Shr(scratch, bits);
      scratchBits := scratchBits - bits;
      bitsRead := bitsRead + bits;
    }

    method ReadAlign() returns (ok: bool)
      requires Valid() && bitsRead + AlignLen(bitsRead) <= numBits
      modifies this
      ensures Valid() && bitsRead == old(bitsRead) + AlignLen(old(bitsRead)) <= |stream|
      ensures ok <==> stream[old(bitsRead)..bitsRead] == Zeros(bitsRead - old(bitsRead))
    {
      hide Unpacked;
      var remainderBits := bitsRead % 8;
      if remainderBits != 0 {
        var value := ReadBits(8 - remainderBits);
        AlignLenAligns(old(bitsRead));
        assert bitsRead % 8 == 0;
        ValueZeros(8 - remainderBits);
        if value != 0 {
          return false;
        }
        ValueZeroOnly(stream[old(bitsRead)..bitsRead]);
      }
      return true;
    }

    /** Head bytes up to a word boundary, then whole words copied, then tail bytes. */
    method ReadBytes(dst: array<byte>, bytes: nat)
      requires Valid() && bitsRead % 8 == 0 && bitsRead + 8 * bytes <= numBits
      requires dst != data && bytes <= dst.Length
      modifies this, dst
      ensures Valid() && bitsRead == old(bitsRead) + 8 * bytes <= |stream|
      ensures dst[..] == Splice(old(dst[..]), 0, BytesOf(stream[old(bitsRead)..bitsRead]))
    {
      hide Unpacked, HeadLen, MemBits, BytesOf, Splice;
      var headBytes := HeadLen(bitsRead);
      if headBytes > bytes {
        headBytes := bytes;
      }
      ghost var from, old0 := bitsRead, dst[..];
      ReadLoop(dst, 0, headBytes);
      if headBytes == bytes {
        return;
      }
      HeadEmptiesRegister(from, headBytes, wordIndex, scratchBits);
      ReadFromBoundary(dst, headBytes, bytes - headBytes);
      SpliceBits(old0, 0, stream, from, from + 8 * headBytes, bitsRead, headBytes, bytes - headBytes);
    }

    /** The part of `ReadBytes` after the head: whole words copied, then tail bytes. */
    method ReadFromBoundary(dst: array<byte>, start: nat, bytes: nat)
      requires Valid() && scratchBits == 0 && bitsRead + 8 * bytes <= numBits
      requires dst != data && start + bytes <= dst.Length
      modifies this, dst
      ensures Valid() && bitsRead == old(bitsRead) + 8 * bytes <= |stream|
      ensures dst[..] == Splice(old(dst[..]), start, BytesOf(stream[old(bitsRead)..bitsRead]))
    {
      hide Unpacked, BytesOf, MemBits, Splice;
      var copied := bytes / 4;
      ghost var from, old0 := bitsRead, dst[..];
      if copied > 0 {
        CopyWords(dst, start, copied);
      } else {
        SpliceNothing(old0, start, stream, from);
      }
      var tailBytes := bytes - copied * 4;
      assert 0 <= tailBytes < 4;
      ReadLoop(dst, start + copied * 4, tailBytes);
      SpliceBits(old0, start, stream, from, from + 32 * copied, bitsRead, copied * 4, tailBytes);
    }

    /** The byte loops of `ReadBytes`: `count` calls of `ReadBits(8)`. */
    method ReadLoop(dst: array<byte>, start: nat, count: nat)
      requires Valid() && bitsRead + 8 * count <= numBits
      requires dst != data && start + count <= dst.Length
      modifies this, dst
      ensures Valid() && bitsRead == old(bitsRead) + 8 * count <= |stream|
      ensures dst[..] == Splice(old(dst[..]), start, BytesOf(stream[old(bitsRead)..bitsRead]))
    {
      hide Unpacked, BytesOf, MemBits, Splice;
      ghost var from, old0 := bitsRead, dst[..];
      SpliceNothing(old0, start, stream, from);
      for i := 0 to count
        invariant Valid() && bitsRead == from + 8 * i <= |stream|
        invariant dst[..] == Splice(old0, start, BytesOf(stream[from..bitsRead]))
      {
        ghost var mid := bitsRead;
        var b := ReadBits(8);
        OneByte(stream[mid..bitsRead]);
        StoreBlock(dst, start + i, [b]);
        SpliceBits(old0, start, stream, from, mid, bitsRead, i, 1);
      }
    }

    /** The word copy of `ReadBytes`, from a word boundary; the register is already empty. */
    method CopyWords(dst: array<byte>, start: nat, n: nat)
      requires Valid() && scratchBits == 0 && bitsRead + 32 * n <= numBits
      requires dst != data && start + 4 * n <= dst.Length
      modifies this, dst
      ensures Valid() && scratchBits == 0 && bitsRead == old(bitsRead) + 32 * n <= |stream|
      ensures dst[..] == Splice(old(dst[..]), start, BytesOf(stream[old(bitsRead)..bitsRead]))
    {
      hide BytesOf, MemBits, Splice;
      assert stream[bitsRead..32 * wordIndex] == [] && scratch == 0;
      var src := data[4 * wordIndex..4 * (wordIndex + n)];
      StoreBlock(dst, start, src);
      assert data[..][4 * wordIndex..4 * (wordIndex + n)] == src;
      MemBitsSlice(data[..], 4 * wordIndex, 4 * (wordIndex + n));
      BytesOfMemBits(src);
      bitsRead := bitsRead + n * 32;
      wordIndex := wordIndex + n;
      scratchBits := 0;
      assert stream[bitsRead..32 * wordIndex] == [];
    }

    static method StoreBlock(dst: array<byte>, start: nat, block: seq<byte>)
      requires start + |block| <= dst.Length
      modifies dst
      ensures dst[..] == Splice(old(dst[..]), start, block)
    {
      forall k | 0 <= k < |block| {
        dst[start + k] := block[k];
      }
    }

    function GetAlignBits(): (n: nat)
      reads this
      ensures n == AlignLen(bitsRead)
    {
      (8 - bitsRead % 8) % 8
    }
  }

  /**
    Two readers of the same store that have consumed the same number of bits are in
    the same state, whichever of the byte loops and the word copy they took.
   */
  lemma StateDetermined(a: BitReader, b: BitReader)
    requires a.Valid() && b.Valid()
    requires a.stream == b.stream && a.bitsRead == b.bitsRead
    ensures a.scratch == b.scratch && a.scratchBits == b.scratchBits && a.wordIndex == b.wordIndex
  {
    assert a.wordIndex == (a.bitsRead + 31) / 32 && b.wordIndex == (b.bitsRead + 31) / 32;
  }

  /** The block read on one reader, and a call of `ReadBits(8)` a byte on an equal one: the same result. */
  method BlockIsLoop(a: BitReader, b: BitReader, toA: array<byte>, toB: array<byte>, bytes: nat)
    requires a.Valid() && b.Valid() && a != b && toA != toB && toA[..] == toB[..]
    requires toA != a.data && toA != b.data && toB != a.data && toB != b.data
    requires a.stream == b.stream && a.bitsRead == b.bitsRead && a.bitsRead % 8 == 0
    requires a.bitsRead + 8 * bytes <= Min(a.numBits, b.numBits) && bytes <= toA.Length
    modifies a, toA, b, toB
    ensures a.scratch == b.scratch && a.scratchBits == b.scratchBits
    ensures a.wordIndex == b.wordIndex && a.bitsRead == b.bitsRead
    ensures toA[..] == toB[..]
  {
    hide Unpacked, BytesOf, MemBits, Splice;
    assert toA.Length == |toA[..]| == |toB[..]| == toB.Length;
    a.ReadBytes(toA, bytes);
    b.ReadLoop(toB, 0, bytes);
    StateDetermined(a, b);
  }
}
