/**
  The client's streams. A write stream copies the caller's bytes into words and
  packs into those; a read stream unpacks words and reports failures, which the
  serialization extensions above it mostly ignore.
 */
module CsStreams {
  import opened Bits
  import opened Memory
  import opened Width
  import opened Schema
  import opened WordArrays
  import opened CsBitPacker
  import opened CsBitUnpacker

  const PROTOCOL2_ERROR_NONE := 0
  const PROTOCOL2_ERROR_STREAM_OVERFLOW := 8

  class WriteStream {
    const writer: BitWriter

    ghost predicate Valid()
      reads this, writer, writer.data
    {
      writer.Valid()
    }

    ghost predicate Room(n: nat)
      reads writer
    {
      writer.bitsWritten + n <= writer.numBits
    }

    constructor (buffer: seq<byte>, bytes: nat)
      requires |buffer| % 4 == 0 && bytes % 4 == 0 && bytes <= |buffer|
      ensures Valid() && fresh(writer) && fresh(writer.data)
      ensures writer.numBits == 8 * bytes && writer.written == [] && writer.before == buffer
    {
      var words := ByteArrayToUIntArray(buffer);
      writer := new BitWriter(words, bytes);
    }

    method SerializeInteger(value: int32, min: int32, max: int32) returns (ok: bool)
      requires Valid() && min < max && min <= value <= max && Room(BitsRequired(min, max))
      modifies writer, writer.data
      ensures Valid() && ok
      ensures writer.written == old(writer.written) + BitsOf(Offset(value, min), BitsRequired(min, max))
    {
      hide CsBitsRequired, BitsRequired;
      WidthsAgree(min, max);
      var bits := CsBitsRequired(ToU32(min), ToU32(max));
      writer.WriteBits(Offset(value, min), bits);
      ok := true;
    }

    method SerializeBits(value: u32, bits: nat) returns (ok: bool)
      requires Valid() && 0 < bits <= 32 && Room(bits)
      modifies writer, writer.data
      ensures Valid() && ok && writer.written == old(writer.written) + BitsOf(value, bits)
    {
      writer.WriteBits(value, bits);
      ok := true;
    }

    method SerializeAlign() returns (ok: bool)
      requires Valid() && Room(AlignLen(writer.bitsWritten))
      modifies writer, writer.data
      ensures Valid() && ok
      ensures writer.written == old(writer.written) + Zeros(AlignLen(old(writer.bitsWritten)))
    {
      writer.WriteAlign();
      ok := true;
    }

    method SerializeBytes(src: seq<byte>) returns (ok: bool)
      requires Valid() && Room(AlignLen(writer.bitsWritten) + 8 * |src|)
      modifies writer, writer.data
      ensures Valid() && ok
      ensures writer.written == old(writer.written) + (Zeros(AlignLen(old(writer.bitsWritten))) + MemBits(src))
    {
      hide AlignLen, Zeros, MemBits;
      AlignLenAligns(writer.bitsWritten);
      ok := SerializeAlign();
      if !ok {
        return;
      }
      writer.WriteBytes(src);
    }

    method Flush()
      requires Valid()
      modifies writer, writer.data
      ensures writer.written == old(writer.written) && writer.bitsWritten == |writer.written|
      ensures |Pad32(writer.written)| <= 8 * |writer.before|
      ensures UIntArrayToByteArray(writer.data[..]) == Image(writer.before, writer.written)
    {
      writer.FlushBits();
    }

    /** A new byte array with the words' bytes. */
    function GetData(): seq<byte>
      reads this, writer, writer.data
    {
      UIntArrayToByteArray(writer.data[..])
    }

    function GetBytesProcessed(): nat
      reads this, writer
    {
      writer.GetBytesWritten()
    }
  }

  class ReadStream {
    const reader: BitReader
    var error: int
    var bitsRead: nat

    ghost predicate Valid()
      reads this, reader, reader.data
    {
      reader.Valid() && bitsRead <= reader.bitsRead
    }

    /** The bits the reader has consumed and the stream has not counted. */
    ghost function Lag(): int
      reads this, reader
    {
      reader.bitsRead - bitsRead
    }

    ghost predicate InSync()
      reads this, reader
    {
      bitsRead == reader.bitsRead
    }

    /** The bits the caller handed over. */
    ghost function Input(): (s: seq<bool>)
      requires reader.Valid()
      reads reader, reader.data
      ensures |s| == reader.numBits
    {
      reader.stream[..reader.numBits]
    }

    constructor (buffer: seq<byte>, bytes: nat)
      requires |buffer| % 4 == 0 && bytes <= |buffer|
      ensures Valid() && InSync() && reader.bitsRead == 0 && fresh(reader) && fresh(reader.data)
      ensures error == PROTOCOL2_ERROR_NONE && reader.numBytes == bytes && Input() == MemBits(buffer[..bytes])
    {
      error := PROTOCOL2_ERROR_NONE;
      bitsRead := 0;
      var words := ByteArrayToUIntArray(buffer);
      reader := new BitReader(words, bytes);
      new;
      MemBitsSplit(buffer, bytes);
    }

    /** A failed read leaves the caller's variable, here `initial`, as it was. */
    method SerializeBits(initial: u32, bits: nat) returns (ok: bool, value: u32)
      requires Valid() && 0 < bits <= 32
      modifies this, reader
      ensures Valid() && Input() == old(Input()) && Lag() == old(Lag())
      ensures ok <==> old(reader.bitsRead) + bits <= |Input()|
      ensures ok ==> reader.bitsRead == old(reader.bitsRead) + bits && error == old(error)
                     && value == ValueOf(Input()[old(reader.bitsRead)..reader.bitsRead])
      ensures !ok ==> reader.bitsRead == old(reader.bitsRead) && error == PROTOCOL2_ERROR_STREAM_OVERFLOW
                      && error != PROTOCOL2_ERROR_NONE && value == initial
    {
      if reader.WouldOverflow(bits) {
        error := PROTOCOL2_ERROR_STREAM_OVERFLOW;
        return false, initial;
      }
      PrefixSlice(reader.stream, reader.stream[..reader.numBits], reader.bitsRead, reader.bitsRead + bits);
      value := reader.ReadBits(bits);
      bitsRead := bitsRead + bits;
      ok := true;
    }

    method SerializeInteger(initial: int32, min: int32, max: int32) returns (ok: bool, value: int32)
      requires Valid() && min < max
      modifies this, reader
      ensures Valid() && Input() == old(Input()) && Lag() == old(Lag())
      ensures ok <==> old(reader.bitsRead) + BitsRequired(min, max) <= |Input()|
      ensures ok ==> reader.bitsRead == old(reader.bitsRead) + BitsRequired(min, max) && error == old(error)
      ensures ok ==> var u := ValueOf(Input()[old(reader.bitsRead)..reader.bitsRead]);
                     u < 0x1_0000_0000 && value == FromOffset(u, min)
      ensures !ok ==> reader.bitsRead == old(reader.bitsRead) && error == PROTOCOL2_ERROR_STREAM_OVERFLOW
                      && error != PROTOCOL2_ERROR_NONE && value == initial
    {
      hide BitsRequired, CsBitsRequired, FromOffset;
      WidthsAgree(min, max);
      var bits := CsBitsRequired(ToU32(min), ToU32(max));
      if reader.WouldOverflow(bits) {
        error := PROTOCOL2_ERROR_STREAM_OVERFLOW;
        return false, initial;
      }
      PrefixSlice(reader.stream, reader.stream[..reader.numBits], reader.bitsRead, reader.bitsRead + bits);
      var unsignedValue := reader.ReadBits(bits);
      value := FromOffset(unsignedValue, min);
      bitsRead := bitsRead + bits;
      ok := true;
    }

    /**
      The input is whole bytes, so the padding always fits and the overflow check
      never fires. A bad padding has moved the reader, but is not counted.
     */
    method SerializeAlign() returns (ok: bool)
      requires Valid()
      modifies this, reader
      ensures Valid() && Input() == old(Input()) && error == old(error)
      ensures reader.bitsRead == old(reader.bitsRead) + AlignLen(old(reader.bitsRead)) <= |Input()|
      ensures ok <==> Input()[old(reader.bitsRead)..reader.bitsRead] == Zeros(AlignLen(old(reader.bitsRead)))
      ensures ok <==> TakeAlign(Input(), old(reader.bitsRead)).Got?
      ensures Lag() == old(Lag()) + (if ok then 0 else AlignLen(old(reader.bitsRead)))
      ensures InSync() <==> old(InSync()) && ok
    {
      hide AlignLen, Zeros;
      ghost var s, from := Input(), reader.bitsRead;
      PaddingFits(s, from);
      PaddingNotEmpty(s, from);
      var alignBits := reader.GetAlignBits();
      var overflow := reader.WouldOverflow(alignBits);
      error := if overflow then PROTOCOL2_ERROR_STREAM_OVERFLOW else error;
      if overflow {
        return false;
      }
      PrefixSlice(reader.stream, reader.stream[..reader.numBits], from, from + alignBits);
      var padded := reader.ReadAlign();
      if !padded {
        return false;
      }
      bitsRead := bitsRead + alignBits;
      ok := true;
    }

    /** The block read of `SerializeBytes`, once aligned. */
    method ReadBlock(dst: array<byte>, bytes: nat) returns (ok: bool)
      requires Valid() && reader.bitsRead % 8 == 0 && bytes <= dst.Length
      modifies this, reader, dst
      ensures Valid() && Input() == old(Input()) && Lag() == old(Lag())
      ensures var from := old(reader.bitsRead); var to := from + 8 * bytes;
              if to > |Input()| then
                && !ok && error == PROTOCOL2_ERROR_STREAM_OVERFLOW != PROTOCOL2_ERROR_NONE
                && reader.bitsRead == from && dst[..] == old(dst[..])
              else
                ok && error == old(error) && reader.bitsRead == to
                && dst[..] == Splice(old(dst[..]), 0, BytesOf(Input()[from..to]))
    {
      hide BytesOf, Splice;
      if reader.WouldOverflow(bytes * 8) {
        error := PROTOCOL2_ERROR_STREAM_OVERFLOW;
        return false;
      }
      PrefixSlice(reader.stream, reader.stream[..reader.numBits], reader.bitsRead, reader.bitsRead + bytes * 8);
      reader.ReadBytes(dst, bytes);
      bitsRead := bitsRead + bytes * 8;
      ok := true;
    }

    method SerializeBytes(dst: array<byte>, bytes: nat) returns (ok: bool)
      requires Valid() && bytes <= dst.Length
      modifies this, reader, dst
      ensures Valid() && Input() == old(Input())
      ensures Lag() == old(Lag()) + Uncounted(Bytes(bytes), Input(), old(reader.bitsRead))
      ensures InSync() <==> old(InSync()) && !Decode(Bytes(bytes), Input(), old(reader.bitsRead)).BadPadding?
      ensures var from := old(reader.bitsRead); var mid := from + AlignLen(from); var to := mid + 8 * bytes;
              && mid <= |Input()|
              && if Input()[from..mid] != Zeros(mid - from) then
                   !ok && error == old(error) && reader.bitsRead == mid && dst[..] == old(dst[..])
                 else if to > |Input()| then
                   && !ok && error == PROTOCOL2_ERROR_STREAM_OVERFLOW != PROTOCOL2_ERROR_NONE && reader.bitsRead == mid
                   && dst[..] == old(dst[..])
                 else
                   && ok && error == old(error) && reader.bitsRead == to
                   && dst[..] == Splice(old(dst[..]), 0, BytesOf(Input()[mid..to]))
    {
      hide AlignLen, Zeros, BytesOf, Splice, TakeAlign, Decode, Uncounted;
      ghost var s, from := Input(), reader.bitsRead;
      PaddingFits(s, from);
      AlignOutcomes(s, from);
      BlockPadding(s, from, bytes);
      ok := SerializeAlign();
      if !ok {
        return;
      }
      AlignLenAligns(from);
      ok := ReadBlock(dst, bytes);
    }
  }
}
