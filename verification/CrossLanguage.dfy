/**
  The server's and the client's streams against each other: both write the same
  bytes, and either reads what the other wrote.
 */
module CrossLanguage {
  import opened Bits
  import opened Memory
  import opened Schema
  import BitPacker
  import BitUnpacker
  import CsBitPacker
  import CsBitUnpacker
  import Server = Streams
  import Client = CsStreams
  import Extension = SerializationExtension

  /** The server's bytes for a list of serialize calls, over a buffer that held `before`. */
  method WriteOnServer(ops: seq<Op>, vs: seq<Val>, before: seq<byte>) returns (buffer: seq<byte>, bytes: nat)
    requires AllOk(ops) && AllFit(ops, vs) && |before| % 4 == 0 && |EncodeAll(ops, vs, 0)| <= 8 * |before|
    ensures var w := EncodeAll(ops, vs, 0);
            && |Pad32(w)| <= 8 * |before| && buffer == Image(before, w) && bytes == |Message(w)| <= |buffer|
  {
    hide EncodeAll, AllFit, Image, Pad32, BitPacker.BitWriter.Valid;
    var data := new byte[|before|](i requires 0 <= i < |before| => before[i]);
    assert data[..] == before;
    var stream := new Server.WriteStream(data, |before|);
    stream.writer.Counts();
    var ok := stream.SerializeAll(ops, vs);
    stream.Flush();
    assert stream.writer.written == EncodeAll(ops, vs, 0);
    ImagePrefix(before, stream.writer.written);
    buffer, bytes := data[..], stream.GetBytesProcessed();
  }

  method WriteOnClient(ops: seq<Op>, vs: seq<Val>, before: seq<byte>) returns (buffer: seq<byte>, bytes: nat)
    requires AllOk(ops) && AllFit(ops, vs) && |before| % 4 == 0 && |EncodeAll(ops, vs, 0)| <= 8 * |before|
    ensures var w := EncodeAll(ops, vs, 0);
            && |Pad32(w)| <= 8 * |before| && buffer == Image(before, w) && bytes == |Message(w)| <= |buffer|
  {
    hide EncodeAll, AllFit, Image, Pad32, CsBitPacker.BitWriter.Valid;
    var stream := new Client.WriteStream(before, |before|);
    stream.writer.Counts();
    Extension.SerializeAll(stream, ops, vs);
    stream.Flush();
    assert stream.writer.written == EncodeAll(ops, vs, 0);
    ImagePrefix(before, stream.writer.written);
    buffer, bytes := stream.GetData(), stream.GetBytesProcessed();
  }

  method ReadOnServer(ops: seq<Op>, buffer: seq<byte>, bytes: nat) returns (ok: bool, vs: seq<Val>)
    requires AllOk(ops) && |buffer| % 4 == 0 && bytes <= |buffer|
    ensures ok == DecodeAll(ops, MemBits(buffer[..bytes]), 0).Got?
    ensures ok ==> vs == DecodeAll(ops, MemBits(buffer[..bytes]), 0).value
  {
    hide DecodeAll, MemBits, BitUnpacker.BitReader.Valid;
    var data := new byte[|buffer|](i requires 0 <= i < |buffer| => buffer[i]);
    assert data[..] == buffer && data[..bytes] == buffer[..bytes];
    var stream := new Server.ReadStream(data, bytes);
    ok, vs := stream.DeserializeAll(ops);
  }

  method ReadOnClient(ops: seq<Op>, buffer: seq<byte>, bytes: nat) returns (error: int, vs: seq<Val>)
    requires AllOk(ops) && |buffer| % 4 == 0 && bytes <= |buffer|
    ensures var r := Extension.LenientAll(ops, MemBits(buffer[..bytes]), 0);
            && vs == r.value
            && error == (if r.overflowed then Client.PROTOCOL2_ERROR_STREAM_OVERFLOW else Client.PROTOCOL2_ERROR_NONE)
            && (error != Client.PROTOCOL2_ERROR_NONE <==> r.overflowed)
  {
    hide Extension.LenientAll, MemBits, CsBitUnpacker.BitReader.Valid;
    var stream := new Client.ReadStream(buffer, bytes);
    vs := Extension.DeserializeAll(stream, ops);
    error := stream.error;
  }

  /** On arbitrary bytes: what the server's reader accepts, the client's reader returns, without an error. */
  method ReadOnBoth(ops: seq<Op>, buffer: seq<byte>, bytes: nat)
    returns (ok: bool, server: seq<Val>, error: int, client: seq<Val>)
    requires AllOk(ops) && |buffer| % 4 == 0 && bytes <= |buffer|
    ensures ok ==> server == client && error == Client.PROTOCOL2_ERROR_NONE
  {
    hide Extension.LenientAll, DecodeAll, MemBits;
    ok, server := ReadOnServer(ops, buffer, bytes);
    error, client := ReadOnClient(ops, buffer, bytes);
    if ok {
      Extension.StrictIsLenient(ops, MemBits(buffer[..bytes]), 0);
    }
  }

  /** Reading a written message back, from the store it was written into. */
  lemma MessageReadsBack(ops: seq<Op>, vs: seq<Val>, before: seq<byte>, buffer: seq<byte>, bytes: nat)
    requires AllOk(ops) && AllFit(ops, vs) && |Pad32(EncodeAll(ops, vs, 0))| <= 8 * |before|
    requires buffer == Image(before, EncodeAll(ops, vs, 0))
    requires bytes == |Message(EncodeAll(ops, vs, 0))| <= |buffer|
    ensures DecodeAll(ops, MemBits(buffer[..bytes]), 0) == Got(WireAll(ops, vs), |EncodeAll(ops, vs, 0)|)
    ensures Extension.LenientAll(ops, MemBits(buffer[..bytes]), 0)
            == Extension.Lenient(WireAll(ops, vs), |EncodeAll(ops, vs, 0)|, false)
  {
    hide EncodeAll, DecodeAll, WireAll, AllFit, Image, Pad32, BytesOf, MemBits, Zeros, Extension.LenientAll;
    var w := EncodeAll(ops, vs, 0);
    ImagePrefix(before, w);
    AlignLenAligns(|w|);
    MemBitsBytesOf(Pad8(w));
    assert Pad8(w)[0..0 + |w|] == w;
    RoundTripAll(ops, vs, Pad8(w), 0);
    Extension.StrictIsLenient(ops, Pad8(w), 0);
  }

  /**
    For every list of integer, bit, flag, 64-bit, block and align calls, over any
    initial buffer: the two writers leave identical bytes and report the same
    length, and each side reads the other's message as the values written.
   */
  method Exchange(ops: seq<Op>, vs: seq<Val>, before: seq<byte>)
    returns (toClient: seq<byte>, toServer: seq<byte>, bytes: nat, ok: bool, onServer: seq<Val>, onClient: seq<Val>)
    requires AllOk(ops) && AllFit(ops, vs) && |before| % 4 == 0 && |EncodeAll(ops, vs, 0)| <= 8 * |before|
    ensures |Pad32(EncodeAll(ops, vs, 0))| <= 8 * |before|
    ensures toClient == toServer == Image(before, EncodeAll(ops, vs, 0))
    ensures bytes == (|EncodeAll(ops, vs, 0)| + 7) / 8
    ensures ok && onServer == onClient == WireAll(ops, vs)
  {
    hide EncodeAll, DecodeAll, WireAll, AllFit, Image, Pad32, MemBits, Message, Extension.LenientAll;
    var size;
    toClient, bytes := WriteOnServer(ops, vs, before);
    toServer, size := WriteOnClient(ops, vs, before);
    MessageReadsBack(ops, vs, before, toClient, bytes);
    ok, onServer := ReadOnServer(ops, toServer, size);
    var error;
    error, onClient := ReadOnClient(ops, toClient, bytes);
  }
}
