/** The client's bit unpacker: the same algorithm over an array of 32-bit words. */
module CsBitUnpacker {
  import opened Bits
  import opened Memory
  import opened ScratchRegister
  import opened WordArrays

  class BitReader {
    const data: array<u32>
    const numBits: nat
    const numBytes: nat
    const numWords: nat
    var scratch: u64
    var scratchBits: int
    var bitsRead: nat
    var wordIndex: nat

    /** The word array as one bit string. Only its first numBits bits may be read. */
    ghost const stream: seq<bool>

    ghost predicate Valid()
      reads this, data
    {
      && numBits == 8 * numBytes
      && numBytes <= 4 * numWords <= 4 * data.Length
      && stream == MemBits(UIntArrayToByteArray(data[..]))
      && bitsRead <= numBits
      && 0 <= scratchBits < 32
      && scratchBits == 32 * wordIndex - bitsRead
      && wordIndex <= numWords
      && Unpacked(stream, bitsRead, scratch, scratchBits, wordIndex)
    }

    constructor (data: array<u32>, bytes: nat)
      requires (bytes + 3) / 4 <= data.Length
      ensures Valid() && this.data == data && numBytes == bytes && bitsRead == 0
    {
      this.data := data;
      numBytes := bytes;
      numWords := (bytes + 3) / 4;
      numBits := bytes * 8;
      bitsRead := 0;
      scratch := 0;
      scratchBits := 0;
      wordIndex := 0;
      stream := MemBits(UIntArrayToByteArray(data[..]));
    }

    lemma Sizes()
      requires Valid()
      ensures numBits == 8 * numBytes && bitsRead <= numBits <= |stream|
    {
    }

    predicate WouldOverflow(bits: nat)
      reads this
    {
      bitsRead + bits > numBits
    }

    method ReadBits(bits: nat) returns (output: u32)
      requires Valid() && 0 < bits <= 32 && bitsRead + bits <= numBits
      modifies this
      ensures Valid() && bitsRead == old(bitsRead) + bits
      ensures bitsRead <= |stream| && output == ValueOf(stream[old(bitsRead)..bitsRead])
    {
      hide MemBits, ValueOf, And, Or, Shr, LeNum, UIntArrayToByteArray;
      if scratchBits < bits {
        assert wordIndex < numWords;
        LoadStep(UIntArrayToByteArray(data[..]), stream, bitsRead, scratch, scratchBits, wordIndex);
        WordAt(data[..], wordIndex);
        scratch := Or(scratch, Shl64(data[wordIndex], scratchBits));
        scratchBits := scratchBits + 32;
        wordIndex := wordIndex + 1;
      }
      assert scratchBits >= bits;
      TakeStep(stream, bitsRead, scratch, scratchBits, wordIndex, bits);
      output := And(scratch, Pow2(bits) - 1);
      scratch := Shr(scratch, bits);
      scratchBits := scratchBits - bits;
      bitsRead := bitsRead + bits;
    }

    method ReadAlign() returns (ok: bool)
      requires Valid() && bitsRead + AlignLen(bitsRead) <= numBits
      modifies this
      ensures Valid() && bitsRead == old(bitsRead) + AlignLen(old(bitsRead)) <= |stream|
      ensures ok <==> stream[old(bitsRead)..bitsRead] == Zeros(bitsRead - old(bitsRead))
    {
      hide Unpacked, UIntArrayToByteArray;
      var remainderBits := bitsRead % 8;
      if remainderBits != 0 {
        var value := ReadBits(8 - remainderBits);
        AlignLenAligns(old(bitsRead));
        assert bitsRead % 8 == 0;
        ValueZeros(8 - remainderBits);
        if value != 0 {
          return false;
        }
        ValueZeroOnly(stream[old(bitsRead)..bitsRead]);
      }
      return true;
    }

    method ReadBytes(dst: array<byte>, bytes: nat)
      requires Valid() && bitsRead % 8 == 0 && bitsRead + 8 * bytes <= numBits && bytes <= dst.Length
      modifies this, dst
      ensures Valid() && bitsRead == old(bitsRead) + 8 * bytes <= |stream|
      ensures dst[..] == Splice(old(dst[..]), 0, BytesOf(stream[old(bitsRead)..bitsRead]))
    {
      hide Unpacked, HeadLen, MemBits, BytesOf, Splice, UIntArrayToByteArray;
      var headBytes := HeadLen(bitsRead);
      if headBytes > bytes {
        headBytes := bytes;
      }
      ghost var from, old0 := bitsRead, dst[..];
      ReadLoop(dst, 0, headBytes);
      if headBytes == bytes {
        return;
      }
      HeadEmptiesRegister(from, headBytes, wordIndex, scratchBits);
      ReadFromBoundary(dst, headBytes, bytes - headBytes);
      SpliceBits(old0, 0, stream, from, from + 8 * headBytes, bitsRead, headBytes, bytes - headBytes);
    }

    method ReadFromBoundary(dst: array<byte>, start: nat, bytes: nat)
      requires Valid() && scratchBits == 0 && bitsRead + 8 * bytes <= numBits && start + bytes <= dst.Length
      modifies this, dst
      ensures Valid() && bitsRead == old(bitsRead) + 8 * bytes <= |stream|
      ensures dst[..] == Splice(old(dst[..]), start, BytesOf(stream[old(bitsRead)..bitsRead]))
    {
      hide Unpacked, BytesOf, MemBits, Splice, UIntArrayToByteArray;
      var copied := bytes / 4;
      ghost var from, old0 := bitsRead, dst[..];
      if copied > 0 {
        CopyWords(dst, start, copied);
      } else {
        SpliceNothing(old0, start, stream, from);
      }
      var tailBytes := bytes - copied * 4;
      assert 0 <= tailBytes < 4;
      ReadLoop(dst, start + copied * 4, tailBytes);
      SpliceBits(old0, start, stream, from, from + 32 * copied, bitsRead, copied * 4, tailBytes);
    }

    method ReadLoop(dst: array<byte>, start: nat, count: nat)
      requires Valid() && bitsRead + 8 * count <= numBits && start + count <= dst.Length
      modifies this, dst
      ensures Valid() && bitsRead == old(bitsRead) + 8 * count <= |stream|
      ensures dst[..] == Splice(old(dst[..]), start, BytesOf(stream[old(bitsRead)..bitsRead]))
    {
      hide Unpacked, BytesOf, MemBits, Splice, UIntArrayToByteArray;
      ghost var from, old0 := bitsRead, dst[..];
      SpliceNothing(old0, start, stream, from);
      for i := 0 to count
        invariant Valid() && bitsRead == from + 8 * i <= |stream|
        invariant dst[..] == Splice(old0, start, BytesOf(stream[from..bitsRead]))
      {
        ghost var mid := bitsRead;
        var b := ReadBits(8);
        OneByte(stream[mid..bitsRead]);
        StoreBlock(dst, start + i, [b]);
        SpliceBits(old0, start, stream, from, mid, bitsRead, i, 1);
      }
    }

    /** The words are copied out of the array and converted to bytes. */
    method CopyWords(dst: array<byte>, start: nat, n: nat)
      requires Valid() && scratchBits == 0 && bitsRead + 32 * n <= numBits && start + 4 * n <= dst.Length
      modifies this, dst
      ensures Valid() && scratchBits == 0 && bitsRead == old(bitsRead) + 32 * n <= |stream|
      ensures dst[..] == Splice(old(dst[..]), start, BytesOf(stream[old(bitsRead)..bitsRead]))
    {
      hide BytesOf, MemBits, UIntArrayToByteArray, Splice;
      assert stream[bitsRead..32 * wordIndex] == [] && scratch == 0;
      var arrData := data[wordIndex..wordIndex + n];
      StoreBlock(dst, start, UIntArrayToByteArray(arrData));
      UIntArraySlice(data[..], wordIndex, wordIndex + n, arrData);
      MemBitsSlice(UIntArrayToByteArray(data[..]), 4 * wordIndex, 4 * (wordIndex + n));
      BytesOfMemBits(UIntArrayToByteArray(arrData));
      bitsRead := bitsRead + n * 32;
      wordIndex := wordIndex + n;
      scratchBits := 0;
      assert stream[bitsRead..32 * wordIndex] == [];
    }

    static method StoreBlock(dst: array<byte>, start: nat, block: seq<byte>)
      requires start + |block| <= dst.Length
      modifies dst
      ensures dst[..] == Splice(old(dst[..]), start, block)
    {
      forall k | 0 <= k < |block| {
        dst[start + k] := block[k];
      }
    }

    function GetAlignBits(): (n: nat)
      reads this
      ensures n == AlignLen(bitsRead)
    {
      (8 - bitsRead % 8) % 8
    }
  }
}
