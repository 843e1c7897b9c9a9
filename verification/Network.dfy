/** Writing and reading one framed packet over the streams. */
module Network {
  import opened Bits
  import opened Memory
  import opened Registers
  import opened Width
  import opened Schema
  import opened Crc32
  import opened Packets
  import opened Framing
  import opened ErrorCodes
  import opened Streams

  /** `*((uint32_t*) p) = w`: a word store at any byte offset. */
  method StoreU32(buffer: array<byte>, start: nat, w: u32)
    requires start + 4 <= buffer.Length
    modifies buffer
    ensures buffer[..] == Splice(old(buffer[..]), start, LeBytes(w, 4))
  {
    var b := LeBytes(w, 4);
    buffer[start], buffer[start + 1], buffer[start + 2], buffer[start + 3] := b[0], b[1], b[2], b[3];
  }

  /** The buffer after a write: the stream's words, with the checksum patched in unless raw. */
  ghost function Written(info: PacketInfo, n: int32, header: Header, p: Packet, before: seq<byte>): (m: seq<byte>)
    requires Writable(n, header, p) && |Pad32(StreamBits(info, n, header, p))| <= 8 * |before|
    ensures |m| == |before|
  {
    hide BodyOps, BodyVals, EncodeAll;
    var s := StreamBits(info, n, header, p);
    ImagePrefix(before, s);
    if info.rawFormat then Image(before, s)
    else
      FieldFits(info, s);
      Splice(Image(before, s), info.prefixBytes, LeBytes(FrameCrc(info, Message(s)), 4))
  }

  /** The reported bytes of the written buffer are the frame, whatever the buffer held before. */
  lemma WrittenIsFrame(info: PacketInfo, n: int32, header: Header, p: Packet, before: seq<byte>)
    requires Writable(n, header, p) && |Pad32(StreamBits(info, n, header, p))| <= 8 * |before|
    ensures var f := Frame(info, n, header, p);
            |f| <= |before| && Written(info, n, header, p, before)[..|f|] == f
  {
    hide BodyOps, BodyVals, EncodeAll, Image, Message, FrameCrc, LeBytes;
    var s := StreamBits(info, n, header, p);
    ImagePrefix(before, s);
    if !info.rawFormat {
      FieldFits(info, s);
      SplicePrefix(Image(before, s), info.prefixBytes, LeBytes(FrameCrc(info, Message(s)), 4), |Message(s)|);
    }
  }

  lemma SplicePrefix(m: seq<byte>, start: nat, block: seq<byte>, k: nat)
    requires start + |block| <= k <= |m|
    ensures Splice(m, start, block)[..k] == Splice(m[..k], start, block)
  {
  }

  /** Zero bytes reserved for the caller, then a zero checksum field. */
  method WriteLead(stream: WriteStream, info: PacketInfo)
    requires stream.Valid() && stream.writer.written == [] && stream.Room(LeadBits(info))
    modifies stream.writer, stream.writer.data
    ensures stream.Valid() && stream.writer.written == Zeros(LeadBits(info))
  {
    hide Zeros;
    NoZeros();
    for i := 0 to info.prefixBytes
      invariant stream.Valid() && stream.writer.written == Zeros(8 * i)
    {
      BitsOfZero(8);
      ZerosSplit(8 * i, 8);
      var _ := stream.SerializeBits(0, 8);
    }
    if !info.rawFormat {
      BitsOfZero(32);
      ZerosSplit(8 * info.prefixBytes, 32);
      var _ := stream.SerializeBits(0, 32);
    }
  }

  lemma NoZeros()
    ensures Zeros(0) == []
  {
  }

  /** Header, type and fields. */
  method WriteBody(stream: WriteStream, n: int32, header: Header, p: Packet) returns (ok: bool)
    requires stream.Valid() && Writable(n, header, p)
    requires stream.Room(|EncodeAll(BodyOps(n, header, p), BodyVals(n, header, p), stream.writer.bitsWritten)|)
    modifies stream.writer, stream.writer.data
    ensures ok && stream.Valid()
    ensures stream.writer.written == old(stream.writer.written)
              + EncodeAll(BodyOps(n, header, p), BodyVals(n, header, p), old(stream.writer.bitsWritten))
  {
    hide SchemaOf, Fields, EncodeAll, TypeOps, TypeVals, AllFit, BodyOps, BodyVals, TypeOf, InRange;
    hide BitPacker.BitWriter.Valid;
    ghost var w, pos := stream.writer.written, stream.writer.bitsWritten;
    var packetType := TypeOf(p);
    stream.writer.Counts();
    BodySplits(n, header, p, pos);
    ghost var h := EncodeAll(header.ops, header.vals, pos);
    ghost var e := EncodeAll(TypeOps(n), TypeVals(n, packetType), pos + |h|);
    ghost var f := EncodeAll(SchemaOf(packetType), Fields(p), pos + |h| + |e|);
    Joined(w, h, e, f);
    ok := stream.SerializeAll(header.ops, header.vals);
    if !ok {
      return;
    }
    stream.writer.Counts();
    assert stream.writer.written == w + h && stream.writer.bitsWritten == pos + |h|;
    WriteType(stream, n, packetType, e);
    stream.writer.Counts();
    assert stream.writer.written == w + h + e && stream.writer.bitsWritten == pos + |h| + |e|;
    ok := stream.SerializeAll(SchemaOf(packetType), Fields(p));
  }

  /** The packet type, when there is more than one. */
  method WriteType(stream: WriteStream, n: int32, t: int32, ghost e: seq<bool>)
    requires stream.Valid() && n > 0 && 0 <= t && (n > 1 ==> t < n) && stream.Room(|e|)
    requires AllFit(TypeOps(n), TypeVals(n, t))
    requires e == EncodeAll(TypeOps(n), TypeVals(n, t), stream.writer.bitsWritten)
    modifies stream.writer, stream.writer.data
    ensures stream.Valid() && stream.writer.written == old(stream.writer.written) + e
  {
    hide EncodeAll, TypeOps, TypeVals, AllFit, BitsOf, BitsRequired, Offset;
    TypeEncoding(n, t, stream.writer.bitsWritten);
    if n > 1 {
      var _ := stream.SerializeInteger(t, 0, n - 1);
    }
  }

  lemma Joined(w: seq<bool>, h: seq<bool>, e: seq<bool>, f: seq<bool>)
    ensures w + (h + e + f) == w + h + e + f
    ensures w + h + [] == w + h
  {
  }

  /** The source's `WritePacket`: the number of bytes written. */
  method WritePacket(info: PacketInfo, p: Packet, buffer: array<byte>, bufferSize: nat, header: Header, n: int32)
    returns (bytes: int)
    requires Writable(n, header, p) && info.protocolId != 0
    requires 0 < bufferSize <= buffer.Length && bufferSize % 4 == 0
    requires |StreamBits(info, n, header, p)| <= 8 * bufferSize
    modifies buffer
    ensures |Pad32(StreamBits(info, n, header, p))| <= 8 * buffer.Length
    ensures buffer[..] == Written(info, n, header, p, old(buffer[..]))
    ensures bytes == |Frame(info, n, header, p)| <= buffer.Length && buffer[..bytes] == Frame(info, n, header, p)
  {
    hide BodyOps, BodyVals, EncodeAll, Zeros, Image, Message, FrameCrc, LeBytes, Frame, Written, Pad32, Writable;
    ghost var before := buffer[..];
    var stream := new WriteStream(buffer, bufferSize);
    WriteLead(stream, info);
    var ok := WriteBody(stream, n, header, p);
    bytes := 0;
    if !ok {
      return;
    }
    stream.Flush();
    ghost var s := StreamBits(info, n, header, p);
    assert stream.writer.written == s;
    ImagePrefix(before, s);
    assert buffer[..][..|Message(s)|] == Message(s);
    bytes := stream.GetBytesProcessed();
    MessageLength(s);
    assert buffer[..bytes] == Message(s);
    FieldFitsUnlessRaw(info, s);
    if !info.rawFormat {
      PatchCrc(info, buffer, bytes);
    }
    if stream.error != ERROR_NONE {
      bytes := 0;
    }
    WrittenUnfold(info, n, header, p, before, s);
    WrittenIsFrame(info, n, header, p, before);
    FrameLength(info, n, header, p, s);
    assert buffer[..bytes] == buffer[..][..bytes];
  }

  /** Checksum the message with its field still zero, and store the result into the field. */
  method PatchCrc(info: PacketInfo, buffer: array<byte>, bytes: nat)
    requires info.prefixBytes + 4 <= bytes <= buffer.Length
    modifies buffer
    ensures buffer[..] == Splice(old(buffer[..]), info.prefixBytes, LeBytes(FrameCrc(info, old(buffer[..bytes])), 4))
  {
    hide LeBytes, FrameCrc, Num, Crc, Splice;
    var crc32 := CalculateCrc32(LeBytes(info.protocolId, 4), 0);
    NumZero();
    crc32 := CalculateCrc32(buffer[info.prefixBytes..bytes], crc32);
    assert buffer[info.prefixBytes..bytes] == buffer[..bytes][info.prefixBytes..];
    PatchedCrc(info, buffer[..bytes], crc32);
    StoreU32(buffer, info.prefixBytes, Num(crc32));
  }

  lemma FieldFitsUnlessRaw(info: PacketInfo, s: seq<bool>)
    requires |s| >= LeadBits(info)
    ensures !info.rawFormat ==> info.prefixBytes + 4 <= |Message(s)|
  {
  }

  lemma MessageLength(s: seq<bool>)
    ensures |Message(s)| == (|s| + 7) / 8
  {
  }

  lemma PatchedCrc(info: PacketInfo, body: seq<byte>, crc: bv32)
    requires info.prefixBytes <= |body|
    requires Num(crc) == Crc(body[info.prefixBytes..], Crc(LeBytes(info.protocolId, 4), 0))
    ensures Num(crc) == FrameCrc(info, body)
  {
    hide Crc, Num;
  }

  lemma WrittenUnfold(info: PacketInfo, n: int32, header: Header, p: Packet, before: seq<byte>, s: seq<bool>)
    requires Writable(n, header, p) && s == StreamBits(info, n, header, p) && |Pad32(s)| <= 8 * |before|
    ensures info.rawFormat ==> Written(info, n, header, p, before) == Image(before, s)
    ensures !info.rawFormat ==>
              && info.prefixBytes + 4 <= |Message(s)| <= |before|
              && Written(info, n, header, p, before)
                 == Splice(Image(before, s), info.prefixBytes, LeBytes(FrameCrc(info, Message(s)), 4))
  {
    hide BodyOps, BodyVals, EncodeAll, Image, Message, FrameCrc, LeBytes, Splice;
    ImagePrefix(before, s);
    if !info.rawFormat {
      FieldFits(info, s);
    }
  }

  lemma FrameLength(info: PacketInfo, n: int32, header: Header, p: Packet, s: seq<bool>)
    requires Writable(n, header, p) && s == StreamBits(info, n, header, p)
    ensures |Frame(info, n, header, p)| == |Message(s)|
  {
    hide BodyOps, BodyVals, EncodeAll, Message, FrameCrc, LeBytes;
  }

  // ---------------------------------------------------------------- reading

  /** Skip the caller's prefix, ignoring failures as the source does. */
  method SkipPrefix(stream: ReadStream, prefixBytes: nat)
    requires stream.Valid() && stream.reader.bitsRead == 0 && stream.error == ERROR_NONE
    modifies stream, stream.reader
    ensures stream.Valid() && stream.Input() == old(stream.Input())
    ensures stream.reader.bitsRead == 8 * Min(prefixBytes, stream.reader.numBytes)
    ensures stream.error == if prefixBytes > stream.reader.numBytes then ERROR_STREAM_OVERFLOW else ERROR_NONE
  {
    hide BitUnpacker.BitReader.Valid;
    stream.reader.Sizes();
    for i := 0 to prefixBytes
      invariant stream.Valid() && stream.Input() == old(stream.Input())
      invariant stream.reader.bitsRead == 8 * Min(i, stream.reader.numBytes)
      invariant stream.error == if i > stream.reader.numBytes then ERROR_STREAM_OVERFLOW else ERROR_NONE
    {
      var _, _ := stream.SerializeBits(8);
    }
  }

  /** Read the checksum field and compare it with the checksum of everything after it. */
  method CheckCrc(stream: ReadStream, info: PacketInfo, buffer: array<byte>, bufferSize: nat) returns (ok: bool)
    requires stream.Valid() && stream.reader.data == buffer && bufferSize <= buffer.Length
    requires stream.reader.bitsRead == 8 * info.prefixBytes && info.prefixBytes + 4 <= bufferSize
    requires stream.Input() == MemBits(buffer[..bufferSize])
    modifies stream, stream.reader
    ensures stream.Valid() && stream.Input() == old(stream.Input())
    ensures stream.reader.bitsRead == old(stream.reader.bitsRead) + 32 && stream.error == old(stream.error)
    ensures ok <==> Expected(info, buffer[..bufferSize]) == Received(info, buffer[..bufferSize])
  {
    hide BitUnpacker.BitReader.Valid, MemBits, LeBytes, Crc, Num, LeNum, ValueOf;
    ghost var m := buffer[..bufferSize];
    var p := info.prefixBytes;
    var _, readCrc32 := stream.SerializeBits(32);
    FieldValue(m, p, stream.Input());

    var crc32 := CalculateCrc32(LeBytes(info.protocolId, 4), 0);
    NumZero();
    crc32 := CalculateCrc32([0, 0, 0, 0], crc32);
    crc32 := CalculateCrc32(buffer[p + 4..bufferSize], crc32);
    assert buffer[p + 4..bufferSize] == m[p + 4..];
    ok := Num(crc32) == readCrc32;
  }

  lemma FieldValue(m: seq<byte>, p: nat, s: seq<bool>)
    requires p + 4 <= |m| && s == MemBits(m)
    ensures ValueOf(s[8 * p..8 * p + 32]) == LeNum(m[p..p + 4])
  {
    hide MemBits, LeNum, ValueOf;
    MemBitsSlice(m, p, p + 4);
    LeNumValue(m[p..p + 4]);
    assert 8 * (p + 4) == 8 * p + 32;
  }

  /** The type field, read without a range check. */
  method ReadTypeField(stream: ReadStream, n: int32) returns (ok: bool, packetType: int32)
    requires stream.Valid() && n > 0
    modifies stream, stream.reader
    ensures stream.Valid() && stream.Input() == old(stream.Input())
    ensures match ReadType(n, stream.Input(), old(stream.reader.bitsRead))
            case Got(t, p) => ok && packetType == t && stream.reader.bitsRead == p && stream.error == old(stream.error)
            case _ => !ok
  {
    hide BitUnpacker.BitReader.Valid, BitsRequired, FromOffset, ValueOf;
    ok, packetType := true, 0;
    if n > 1 {
      ok, packetType := stream.SerializeInteger(0, n - 1);
    }
  }

  /** A length passed as a 64-bit unsigned size: a negative one wraps. */
  function SizeOf(length: int32): u64 {
    length % 0x1_0000_0000_0000_0000
  }

  /**
    Why a datagram must reach the end of its checksum field: the bytes checksummed
    after the field, with their length converted to a size, lie inside the datagram
    exactly then.
   */
  lemma ChecksummedInside(prefixBytes: int32, bufferSize: int32)
    requires 0 <= prefixBytes < 0x4000_0000 && 0 < bufferSize
    ensures prefixBytes + 4 + SizeOf(bufferSize - 4 - prefixBytes) <= bufferSize <==> prefixBytes + 4 <= bufferSize
  {
    var length := bufferSize - 4 - prefixBytes;
    if length < 0 {
      WrapsUp(length);
    }
  }

  lemma WrapsUp(length: int32)
    requires length < 0
    ensures SizeOf(length) == 0x1_0000_0000_0000_0000 + length
  {
  }

  /** The source's `ReadPacket` on arbitrary bytes, with its error codes. */
  method ReadPacket(info: PacketInfo, buffer: array<byte>, bufferSize: nat, headerOps: seq<Op>, n: int32)
    returns (r: ReadResult)
    requires n > 0 && AllOk(headerOps) && info.protocolId != 0 && 0 < bufferSize
    requires 4 * ((bufferSize + 3) / 4) <= buffer.Length
    requires Framed(info, buffer[..bufferSize])
    ensures r == Read(info, n, buffer[..bufferSize], headerOps)
    ensures Reported(info, n, buffer[..bufferSize], headerOps, r)
  {
    hide BitUnpacker.BitReader.Valid, MemBits, Expected, Received, ReadBody, Reported;
    ghost var m := buffer[..bufferSize];
    CodesExact(info, n, m, headerOps);
    var stream := new ReadStream(buffer, bufferSize);
    SkipPrefix(stream, info.prefixBytes);
    if !info.rawFormat {
      var ok := CheckCrc(stream, info, buffer, bufferSize);
      if !ok {
        return Rejected(ERROR_CRC32_MISMATCH);
      }
    }
    r := ReadBodyFrom(stream, headerOps, n, info.rawFormat && info.prefixBytes > bufferSize);
  }

  /** Header, type and fields; every failure has its own code. */
  method ReadBodyFrom(stream: ReadStream, headerOps: seq<Op>, n: int32, ghost failed: bool) returns (r: ReadResult)
    requires stream.Valid() && n > 0 && AllOk(headerOps)
    requires stream.error == if failed then ERROR_STREAM_OVERFLOW else ERROR_NONE
    modifies stream, stream.reader
    ensures r == ReadBody(n, old(stream.Input()), old(stream.reader.bitsRead), headerOps, failed)
  {
    hide BitUnpacker.BitReader.Valid, DecodeAll, SchemaOf, ReadType, FromFields;
    var ok, header := stream.DeserializeAll(headerOps);
    if !ok {
      return Rejected(ERROR_SERIALIZE_HEADER_FAILED);
    }
    var packetType;
    ok, packetType := ReadTypeField(stream, n);
    if !ok {
      return Rejected(ERROR_INVALID_PACKET_TYPE);
    }
    if !Known(packetType) {
      return Rejected(ERROR_CREATE_PACKET_FAILED);
    }
    ghost var pos := stream.reader.bitsRead;
    var fields;
    ok, fields := stream.DeserializeAll(SchemaOf(packetType));
    if !ok {
      return Rejected(ERROR_SERIALIZE_PACKET_FAILED);
    }
    if stream.error != ERROR_NONE {
      return Rejected(stream.error);
    }
    DecodedFits(SchemaOf(packetType), stream.Input(), pos);
    r := Accepted(FromFields(packetType, fields), header);
  }
}
