/**
  The C++ streams: a write stream over a packer, a read stream over an unpacker,
  a measure stream that only counts, and the serialize calls that run a schema
  over each of them.
 */
module Streams {
  import opened Bits
  import opened Memory
  import opened Width
  import opened Schema
  import opened BitPacker
  import opened BitUnpacker

  const ERROR_NONE := 0
  const ERROR_STREAM_OVERFLOW := 8

  class WriteStream {
    const writer: BitWriter
    var error: int

    ghost predicate Valid()
      reads this, writer, writer.data
    {
      writer.Valid() && error == ERROR_NONE
    }

    /** There is room for n more bits: what every write call asserts. */
    ghost predicate Room(n: nat)
      reads writer
    {
      writer.bitsWritten + n <= writer.numBits
    }

    constructor (buffer: array<byte>, bytes: nat)
      requires bytes % 4 == 0 && bytes <= buffer.Length
      ensures Valid() && writer.data == buffer && fresh(writer)
      ensures writer.numBits == 8 * bytes && writer.written == [] && writer.before == buffer[..]
    {
      error := ERROR_NONE;
      writer := new BitWriter(buffer, bytes);
    }

    method SerializeInteger(value: int32, min: int32, max: int32) returns (ok: bool)
      requires Valid() && min < max && min <= value <= max && Room(BitsRequired(min, max))
      modifies writer, writer.data
      ensures Valid() && ok
      ensures writer.written == old(writer.written) + BitsOf(Offset(value, min), BitsRequired(min, max))
    {
      var bits := BitsRequired(min, max);
      writer.WriteBits(Offset(value, min), bits);
      ok := true;
    }

    method SerializeBits(value: u32, bits: nat) returns (ok: bool)
      requires Valid() && 0 < bits <= 32 && Room(bits)
      modifies writer, writer.data
      ensures Valid() && ok && writer.written == old(writer.written) + BitsOf(value, bits)
    {
      writer.WriteBits(value, bits);
      ok := true;
    }

    method SerializeAlign() returns (ok: bool)
      requires Valid() && Room(AlignLen(writer.bitsWritten))
      modifies writer, writer.data
      ensures Valid() && ok
      ensures writer.written == old(writer.written) + Zeros(AlignLen(old(writer.bitsWritten)))
    {
      writer.WriteAlign();
      ok := true;
    }

    method SerializeBytes(src: seq<byte>) returns (ok: bool)
      requires Valid() && Room(AlignLen(writer.bitsWritten) + 8 * |src|)
      modifies writer, writer.data
      ensures Valid() && ok
      ensures writer.written == old(writer.written) + (Zeros(AlignLen(old(writer.bitsWritten))) + MemBits(src))
    {
      hide AlignLen, Zeros, MemBits;
      AlignLenAligns(writer.bitsWritten);
      ok := SerializeAlign();
      if !ok {
        return;
      }
      writer.WriteBytes(src);
    }

    /** One serialize macro, writing. */
    method Serialize(op: Op, v: Val) returns (ok: bool)
      requires Valid() && OpOk(op) && Fits(op, v) && Room(|Encode(op, v, writer.bitsWritten)|)
      modifies writer, writer.data
      ensures Valid() && ok
      ensures writer.written == old(writer.written) + Encode(op, v, old(writer.bitsWritten))
    {
      hide AlignLen, Zeros, MemBits, BitsOf, BitsRequired, Offset;
      match op
      case Int(min, max) => ok := SerializeInteger(v.i, min, max);
      case UBits(n) => ok := SerializeBits(v.u, n);
      case Bool =>
        SingleBit(v.b);
        ok := SerializeBits(if v.b then 1 else 0, 1);
      case UInt64 =>
        ok := SerializeBits(v.w % 0x1_0000_0000, 32);
        ok := SerializeBits(v.w / 0x1_0000_0000, 32);
      case Bytes(_) => ok := SerializeBytes(v.m);
      case Align => ok := SerializeAlign();
    }

    /** An object's `SerializeWrite`: its serialize calls in order, stopping at a failure. */
    method SerializeAll(ops: seq<Op>, vs: seq<Val>) returns (ok: bool)
      requires Valid() && AllOk(ops) && AllFit(ops, vs)
      requires Room(|EncodeAll(ops, vs, writer.bitsWritten)|)
      modifies writer, writer.data
      ensures Valid() && ok
      ensures writer.written == old(writer.written) + EncodeAll(ops, vs, old(writer.bitsWritten))
    {
      hide Encode, Fits;
      ghost var start := writer.written;
      ghost var all := EncodeAll(ops, vs, writer.bitsWritten);
      var i := 0;
      ok := true;
      while i < |ops|
        invariant 0 <= i <= |ops| && ok && Valid()
        invariant writer.written + EncodeAll(ops[i..], vs[i..], writer.bitsWritten) == start + all
      {
        ghost var pos, soFar := writer.bitsWritten, writer.written;
        EncodeHead(ops[i..], vs[i..], pos, Encode(ops[i], vs[i], pos));
        assert ops[i..][1..] == ops[i + 1..] && vs[i..][1..] == vs[i + 1..];
        ok := Serialize(ops[i], vs[i]);
        if !ok {
          return;
        }
        i := i + 1;
      }
    }

    method Flush()
      requires Valid()
      modifies writer, writer.data
      ensures writer.written == old(writer.written)
      ensures |Pad32(writer.written)| <= 8 * |writer.before|
      ensures writer.data[..] == Image(writer.before, writer.written)
      ensures writer.bitsWritten == |writer.written| && error == ERROR_NONE
    {
      writer.FlushBits();
    }

    function GetBytesProcessed(): nat
      reads this, writer
    {
      writer.GetBytesWritten()
    }
  }

  class ReadStream {
    const reader: BitReader
    var error: int
    var bitsRead: nat

    ghost predicate Valid()
      reads this, reader, reader.data
    {
      reader.Valid() && bitsRead <= reader.bitsRead
    }

    /** The bits the reader has consumed and the stream has not counted. */
    ghost function Lag(): int
      reads this, reader
    {
      reader.bitsRead - bitsRead
    }

    /** The stream's own count agrees with the reader's. A failed padding check is what breaks this. */
    ghost predicate InSync()
      reads this, reader
    {
      bitsRead == reader.bitsRead
    }

    /** The bits the caller handed over. */
    ghost function Input(): (s: seq<bool>)
      requires reader.Valid()
      reads reader, reader.data
      ensures |s| == reader.numBits && s == MemBits(reader.data[..])[..reader.numBits]
    {
      reader.stream[..reader.numBits]
    }

    constructor (buffer: array<byte>, bytes: nat)
      requires 4 * ((bytes + 3) / 4) <= buffer.Length
      ensures Valid() && InSync() && reader.data == buffer && reader.bitsRead == 0 && fresh(reader)
      ensures error == ERROR_NONE && reader.numBytes == bytes && Input() == MemBits(buffer[..bytes])
    {
      error := ERROR_NONE;
      bitsRead := 0;
      reader := new BitReader(buffer, bytes);
      new;
      MemBitsSplit(buffer[..], bytes);
      assert buffer[..][..bytes] == buffer[..bytes];
    }

    method SerializeBits(bits: nat) returns (ok: bool, value: u32)
      requires Valid() && 0 < bits <= 32
      modifies this, reader
      ensures Valid() && Input() == old(Input()) && Lag() == old(Lag())
      ensures ok <==> old(reader.bitsRead) + bits <= |Input()|
      ensures ok ==> reader.bitsRead == old(reader.bitsRead) + bits && error == old(error)
                     && value == ValueOf(Input()[old(reader.bitsRead)..old(reader.bitsRead) + bits])
      ensures !ok ==> reader.bitsRead == old(reader.bitsRead) && error == ERROR_STREAM_OVERFLOW != ERROR_NONE
    {
      if reader.WouldOverflow(bits) {
        error := ERROR_STREAM_OVERFLOW;
        return false, 0;
      }
      PrefixSlice(reader.stream, reader.stream[..reader.numBits], reader.bitsRead, reader.bitsRead + bits);
      value := reader.ReadBits(bits);
      bitsRead := bitsRead + bits;
      ok := true;
    }

    method SerializeInteger(min: int32, max: int32) returns (ok: bool, value: int32)
      requires Valid() && min < max
      modifies this, reader
      ensures Valid() && Input() == old(Input()) && Lag() == old(Lag())
      ensures ok <==> old(reader.bitsRead) + BitsRequired(min, max) <= |Input()|
      ensures ok ==> reader.bitsRead == old(reader.bitsRead) + BitsRequired(min, max) && error == old(error)
      ensures ok ==> var u := ValueOf(Input()[old(reader.bitsRead)..reader.bitsRead]);
                     u < 0x1_0000_0000 && value == FromOffset(u, min)
      ensures !ok ==> reader.bitsRead == old(reader.bitsRead) && error == ERROR_STREAM_OVERFLOW != ERROR_NONE
    {
      hide BitsRequired, FromOffset;
      var bits := BitsRequired(min, max);
      if reader.WouldOverflow(bits) {
        error := ERROR_STREAM_OVERFLOW;
        return false, 0;
      }
      PrefixSlice(reader.stream, reader.stream[..reader.numBits], reader.bitsRead, reader.bitsRead + bits);
      var unsignedValue := reader.ReadBits(bits);
      value := FromOffset(unsignedValue, min);
      bitsRead := bitsRead + bits;
      ok := true;
    }

    /**
      The input is whole bytes, so the padding always fits and the overflow check
      never fires. A bad padding has moved the reader, but is not counted.
     */
    method SerializeAlign() returns (ok: bool)
      requires Valid()
      modifies this, reader
      ensures Valid() && Input() == old(Input()) && error == old(error)
      ensures reader.bitsRead == old(reader.bitsRead) + AlignLen(old(reader.bitsRead)) <= |Input()|
      ensures ok <==> Input()[old(reader.bitsRead)..reader.bitsRead] == Zeros(AlignLen(old(reader.bitsRead)))
      ensures ok <==> TakeAlign(Input(), old(reader.bitsRead)).Got?
      ensures Lag() == old(Lag()) + (if ok then 0 else AlignLen(old(reader.bitsRead)))
      ensures InSync() <==> old(InSync()) && ok
    {
      hide AlignLen, Zeros;
      ghost var s, from := Input(), reader.bitsRead;
      PaddingFits(s, from);
      PaddingNotEmpty(s, from);
      var alignBits := reader.GetAlignBits();
      var overflow := reader.WouldOverflow(alignBits);
      error := if overflow then ERROR_STREAM_OVERFLOW else error;
      if overflow {
        return false;
      }
      PrefixSlice(reader.stream, reader.stream[..reader.numBits], from, from + alignBits);
      var padded := reader.ReadAlign();
      if !padded {
        return false;
      }
      bitsRead := bitsRead + alignBits;
      ok := true;
    }

    method SerializeBytes(dst: array<byte>, bytes: nat) returns (ok: bool)
      requires Valid() && dst != reader.data && bytes <= dst.Length
      modifies this, reader, dst
      ensures Valid() && Input() == old(Input())
      ensures reader.bitsRead == Stand(Bytes(bytes), Input(), old(reader.bitsRead))
      ensures Lag() == old(Lag()) + Uncounted(Bytes(bytes), Input(), old(reader.bitsRead))
      ensures InSync() <==> old(InSync()) && !Decode(Bytes(bytes), Input(), old(reader.bitsRead)).BadPadding?
      ensures match Decode(Bytes(bytes), Input(), old(reader.bitsRead))
              case Got(v, p) => ok && reader.bitsRead == p && error == old(error)
                                && v.VBytes? && dst[..] == v.m + old(dst[bytes..])
              case Overflow => !ok && error == ERROR_STREAM_OVERFLOW && dst[..] == old(dst[..])
              case _ => !ok && error == old(error) && dst[..] == old(dst[..])
    {
      hide AlignLen, Zeros, BytesOf;
      ghost var s, pos := Input(), reader.bitsRead;
      PaddingFits(s, pos);
      PaddingNotEmpty(s, pos);
      ok := SerializeAlign();
      if !ok {
        return;
      }
      AlignLenAligns(pos);
      ok := ReadBlock(dst, bytes);
    }

    /** The block read of `SerializeBytes`, once aligned. */
    method ReadBlock(dst: array<byte>, bytes: nat) returns (ok: bool)
      requires Valid() && reader.bitsRead % 8 == 0 && dst != reader.data && bytes <= dst.Length
      modifies this, reader, dst
      ensures Valid() && Input() == old(Input()) && Lag() == old(Lag()) && (InSync() <==> old(InSync()))
      ensures match TakeBytes(Input(), old(reader.bitsRead), bytes)
              case Got(v, p) => v.VBytes? && ok && reader.bitsRead == p && error == old(error)
                                && dst[..] == v.m + old(dst[bytes..])
              case _ => !ok && error == ERROR_STREAM_OVERFLOW && reader.bitsRead == old(reader.bitsRead)
                        && dst[..] == old(dst[..])
    {
      hide BytesOf, Splice, BitUnpacker.BitReader.Valid;
      reader.Sizes();
      if reader.WouldOverflow(bytes * 8) {
        error := ERROR_STREAM_OVERFLOW;
        return false;
      }
      ghost var from, to := reader.bitsRead, reader.bitsRead + bytes * 8;
      PrefixSlice(reader.stream, reader.stream[..reader.numBits], from, to);
      reader.ReadBytes(dst, bytes);
      bitsRead := bitsRead + bytes * 8;
      SpliceFront(old(dst[..]), reader.stream[from..to], dst[..], bytes);
      assert old(dst[..])[bytes..] == old(dst[bytes..]);
      ok := true;
    }

    /** One serialize macro, reading. */
    method Deserialize(op: Op) returns (ok: bool, v: Val)
      requires Valid() && OpOk(op)
      modifies this, reader
      ensures Valid() && Input() == old(Input())
      ensures reader.bitsRead == Stand(op, Input(), old(reader.bitsRead))
      ensures Lag() == old(Lag()) + Uncounted(op, Input(), old(reader.bitsRead))
      ensures InSync() <==> old(InSync()) && !Decode(op, Input(), old(reader.bitsRead)).BadPadding?
      ensures match Decode(op, Input(), old(reader.bitsRead))
              case Got(w, p) => ok && v == w && reader.bitsRead == p && error == old(error)
              case Overflow => !ok && error == ERROR_STREAM_OVERFLOW != ERROR_NONE
              case _ => !ok && error == old(error)
    {
      hide AlignLen, Zeros, BytesOf, BitsRequired, FromOffset, ValueOf, MemBits, BitUnpacker.BitReader.Valid;
      v := VNone;
      ghost var s, pos := Input(), reader.bitsRead;
      match op
      case Int(min, max) =>
        var value;
        ok, value := SerializeInteger(min, max);
        if ok {
          v := VInt(value);
          ok := min <= value <= max;
        }
      case UBits(n) =>
        var value;
        ok, value := SerializeBits(n);
        v := VBits(value);
      case Bool =>
        var value;
        ok, value := SerializeBits(1);
        if ok {
          OneBit(s, pos);
          v := VBool(value != 0);
        }
      case UInt64 => ok, v := DeserializeLong();
      case Bytes(n) =>
        var dst := new byte[n];
        ok := SerializeBytes(dst, n);
        v := VBytes(dst[..]);
      case Align =>
        reader.Sizes();
        PaddingFits(s, pos);
        ok := SerializeAlign();
    }

    /** `serialize_uint64`: the low word, then the high one. */
    method DeserializeLong() returns (ok: bool, v: Val)
      requires Valid()
      modifies this, reader
      ensures Valid() && Input() == old(Input()) && Lag() == old(Lag())
      ensures reader.bitsRead == Stand(UInt64, Input(), old(reader.bitsRead))
      ensures match Decode(UInt64, Input(), old(reader.bitsRead))
              case Got(w, p) => ok && v == w && error == old(error)
              case _ => !ok && error == ERROR_STREAM_OVERFLOW
    {
      hide ValueOf, MemBits, BitUnpacker.BitReader.Valid;
      v := VNone;
      var lo, hi;
      ok, lo := SerializeBits(32);
      if ok {
        ok, hi := SerializeBits(32);
        if ok {
          v := VLong(hi as int * 0x1_0000_0000 + lo);
        }
      }
    }

    /** An object's `SerializeRead`. */
    method DeserializeAll(ops: seq<Op>) returns (ok: bool, vs: seq<Val>)
      requires Valid() && AllOk(ops)
      modifies this, reader
      ensures Valid() && Input() == old(Input())
      ensures reader.bitsRead == StandAll(ops, Input(), old(reader.bitsRead))
      ensures Lag() == old(Lag()) + UncountedAll(ops, Input(), old(reader.bitsRead))
      ensures InSync() <==> old(InSync()) && !DecodeAll(ops, Input(), old(reader.bitsRead)).BadPadding?
      ensures match DecodeAll(ops, Input(), old(reader.bitsRead))
              case Got(ws, p) => ok && vs == ws && reader.bitsRead == p && error == old(error)
              case Overflow => !ok && error == ERROR_STREAM_OVERFLOW != ERROR_NONE
              case _ => !ok && error == old(error)
    {
      hide Decode, Reached, Stand, Uncounted, StandAll, UncountedAll, DecodeAll, BitUnpacker.BitReader.Valid;
      ghost var s, from, lag := Input(), reader.bitsRead, Lag();
      ghost var whole := DecodeAll(ops, s, from);
      var i := 0;
      ok := true;
      vs := [];
      StandAllAgrees(ops, s, from);
      DecodeDone(ops, s, from, whole);
      while i < |ops|
        invariant 0 <= i <= |ops| && Valid() && Input() == s && error == old(error)
        invariant ok && Reached(vs, ops[i..], s, reader.bitsRead, whole)
        invariant StandAll(ops[i..], s, reader.bitsRead) == StandAll(ops, s, from)
        invariant Lag() + UncountedAll(ops[i..], s, reader.bitsRead) == lag + UncountedAll(ops, s, from)
      {
        ghost var pos := reader.bitsRead;
        var v;
        DecodeHead(vs, ops[i..], s, pos, whole);
        StandHead(ops[i..], s, pos);
        assert ops[i..][1..] == ops[i + 1..];
        ok, v := Deserialize(ops[i]);
        if !ok {
          return;
        }
        vs := vs + [v];
        i := i + 1;
      }
      DecodeEnd(vs, ops[i..], s, reader.bitsRead, whole);
      StandEnd(ops[i..], s, reader.bitsRead);
    }
  }

  /**
    A caller that goes on reading whatever fails; every read call of a stream is the
    state change of one of these. Over any input and any sequence of calls the reader
    stays within its bounds, and the stream's count agrees with the reader's exactly
    as long as no call has failed its padding check.
   */
  method ReadRun(stream: ReadStream, ops: seq<Op>) returns (oks: seq<bool>)
    requires stream.Valid() && AllOk(ops)
    modifies stream, stream.reader
    ensures stream.Valid() && stream.Input() == old(stream.Input())
    ensures stream.reader.bitsRead == StandRun(ops, stream.Input(), old(stream.reader.bitsRead)) <= |stream.Input()|
    ensures oks == SuccessRun(ops, stream.Input(), old(stream.reader.bitsRead))
    ensures stream.Lag() == old(stream.Lag()) + UncountedRun(ops, stream.Input(), old(stream.reader.bitsRead))
    ensures stream.InSync() <==>
              old(stream.InSync()) && !PaddingFails(ops, stream.Input(), old(stream.reader.bitsRead))
  {
    hide Decode, Stand, Uncounted, BitUnpacker.BitReader.Valid;
    ghost var s, from, lag := stream.Input(), stream.reader.bitsRead, stream.Lag();
    oks := [];
    assert ops[0..] == ops;
    for i := 0 to |ops|
      invariant stream.Valid() && stream.Input() == s
      invariant StandRun(ops[i..], s, stream.reader.bitsRead) == StandRun(ops, s, from)
      invariant oks + SuccessRun(ops[i..], s, stream.reader.bitsRead) == SuccessRun(ops, s, from)
      invariant stream.Lag() + UncountedRun(ops[i..], s, stream.reader.bitsRead) == lag + UncountedRun(ops, s, from)
    {
      assert ops[i..][1..] == ops[i + 1..];
      ghost var pos := stream.reader.bitsRead;
      var ok, _ := stream.Deserialize(ops[i]);
      assert SuccessRun(ops[i..], s, pos) == [ok] + SuccessRun(ops[i + 1..], s, stream.reader.bitsRead);
      oks := oks + [ok];
    }
    stream.reader.Sizes();
    RunCounts(ops, s, from);
  }

  class MeasureStream {
    var bitsWritten: nat

    constructor ()
      ensures bitsWritten == 0
    {
      bitsWritten := 0;
    }

    /** One serialize macro, measuring: alignment is taken to cost the worst case, 7 bits. */
    method SerializeMeasure(op: Op) returns (ok: bool)
      requires OpOk(op)
      modifies this
      ensures ok && bitsWritten == old(bitsWritten) + Measure(op)
    {
      hide BitsRequired;
      ok := true;
      match op
      case Int(min, max) => bitsWritten := bitsWritten + BitsRequired(min, max);
      case UBits(n) => bitsWritten := bitsWritten + n;
      case Bool => bitsWritten := bitsWritten + 1;
      case UInt64 =>
        bitsWritten := bitsWritten + 32;
        bitsWritten := bitsWritten + 32;
      case Bytes(n) =>
        SerializeAlign();
        bitsWritten := bitsWritten + n * 8;
      case Align => SerializeAlign();
    }

    method SerializeAlign()
      modifies this
      ensures bitsWritten == old(bitsWritten) + 7
    {
      bitsWritten := bitsWritten + 7;
    }

    method SerializeAll(ops: seq<Op>) returns (ok: bool)
      requires AllOk(ops)
      modifies this
      ensures ok && bitsWritten == old(bitsWritten) + MeasureAll(ops)
    {
      hide Measure;
      ok := true;
      for i := 0 to |ops|
        invariant ok && bitsWritten + MeasureAll(ops[i..]) == old(bitsWritten) + MeasureAll(ops)
      {
        assert ops[i..][1..] == ops[i + 1..];
        ok := SerializeMeasure(ops[i]);
      }
    }
  }

  // ---------------------------------------------------------------- loop reasoning

  /** Having read vs and standing at pos, the remaining calls decide the outcome `whole`. */
  ghost predicate Reached(vs: seq<Val>, rest: seq<Op>, s: seq<bool>, pos: nat, whole: Outcome<seq<Val>>) {
    && AllOk(rest)
    && match DecodeAll(rest, s, pos)
       case Got(ws, p) => whole == Got(vs + ws, p)
       case Overflow => whole == Overflow
       case BadPadding => whole == BadPadding
       case OutOfRange => whole == OutOfRange
  }

  lemma DecodeDone(ops: seq<Op>, s: seq<bool>, pos: nat, whole: Outcome<seq<Val>>)
    requires AllOk(ops) && whole == DecodeAll(ops, s, pos)
    ensures Reached([], ops[0..], s, pos, whole)
  {
    hide DecodeAll;
    assert ops[0..] == ops;
    if whole.Got? {
      assert [] + whole.value == whole.value;
    }
  }

  lemma DecodeHead(vs: seq<Val>, rest: seq<Op>, s: seq<bool>, pos: nat, whole: Outcome<seq<Val>>)
    requires rest != [] && Reached(vs, rest, s, pos, whole)
    ensures AllOk(rest) && OpOk(rest[0])
    ensures match Decode(rest[0], s, pos)
            case Got(v, p) => Reached(vs + [v], rest[1..], s, p, whole)
            case Overflow => whole == Overflow
            case BadPadding => whole == BadPadding
            case OutOfRange => whole == OutOfRange
  {
    hide Decode;
    var d := Decode(rest[0], s, pos);
    if d.Got? {
      var t := DecodeAll(rest[1..], s, d.pos);
      if t.Got? {
        assert vs + ([d.value] + t.value) == vs + [d.value] + t.value;
      }
    }
  }

  lemma DecodeEnd(vs: seq<Val>, rest: seq<Op>, s: seq<bool>, pos: nat, whole: Outcome<seq<Val>>)
    requires rest == [] && Reached(vs, rest, s, pos, whole)
    ensures whole == Got(vs, pos)
  {
    assert vs + [] == vs;
  }

  lemma StandHead(ops: seq<Op>, s: seq<bool>, pos: nat)
    requires AllOk(ops) && ops != []
    ensures Decode(ops[0], s, pos).Got? ==>
              var p := Stand(ops[0], s, pos);
              && p == Decode(ops[0], s, pos).pos && Uncounted(ops[0], s, pos) == 0
              && StandAll(ops, s, pos) == StandAll(ops[1..], s, p)
              && UncountedAll(ops, s, pos) == UncountedAll(ops[1..], s, p)
    ensures !Decode(ops[0], s, pos).Got? ==>
              && StandAll(ops, s, pos) == Stand(ops[0], s, pos)
              && UncountedAll(ops, s, pos) == Uncounted(ops[0], s, pos)
  {
    hide Decode, Stand;
    StandAgrees(ops[0], s, pos);
  }

  lemma StandEnd(ops: seq<Op>, s: seq<bool>, pos: nat)
    requires ops == []
    ensures StandAll(ops, s, pos) == pos && UncountedAll(ops, s, pos) == 0
  {
  }

  lemma SpliceFront(m: seq<byte>, t: seq<bool>, r: seq<byte>, n: nat)
    requires |t| == 8 * n && n <= |m| && r == Splice(m, 0, BytesOf(t))
    ensures r == BytesOf(t) + m[n..]
  {
    hide BytesOf;
  }

  lemma OneBit(s: seq<bool>, pos: nat)
    requires pos < |s|
    ensures ValueOf(s[pos..pos + 1]) == if s[pos] then 1 else 0
  {
    assert s[pos..pos + 1] == [s[pos]];
  }
}
