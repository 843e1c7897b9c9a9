/**
  The client's strings. The length written is the number of characters, and that
  many bytes of the encoded text follow, so text that needs more bytes is cut.
 */
module CsStringField {
  import opened Bits
  import opened Memory
  import opened Width
  import opened Schema
  import opened CsStreams
  import opened SerializationExtension
  import CsBitPacker
  import CsBitUnpacker
  import StringField

  const MAX_LENGTH: int32 := 0x7fff_ffff

  /** The client's length field fills its width, so what is read is always a length. */
  lemma LengthInRange(s: seq<bool>, pos: nat)
    ensures StaysInRange(0, 0x7fff_ffff, s, pos)
  {
    hide BitsRequired, StaysInRange;
    StringField.FullWidth();
    Pow2Literals();
    assert Pow2(32) == 2 * Pow2(31);
    FullRange(0, 0x7fff_ffff, s, pos);
  }

  /** What reading a string yields on arbitrary bits. */
  function LenientString(s: seq<bool>, pos: nat): Lenient<seq<byte>> {
    LengthInRange(s, pos);
    var l := LenientDecode(Int(0, 0x7fff_ffff), s, pos);
    var r := LenientBytes(s, l.pos, l.value.i);
    Lenient(r.value, r.pos, l.overflowed || r.overflowed)
  }

  /** A string that cannot be read comes back as zero bytes: none when its length is missing. */
  lemma ZeroString(s: seq<bool>, pos: nat)
    ensures pos + 31 > |s| ==> LenientString(s, pos).value == [] && LenientString(s, pos).overflowed
    ensures !StringField.DecodeString(0x7fff_ffff, s, pos).Got? ==>
              var r := LenientString(s, pos);
              ZeroBytes(r.value, if pos + 31 > |s| then 0 else ValueOf(s[pos..pos + 31]))
  {
    hide BitsRequired, ValueOf, BytesOf, Zeros, AlignLen, FromOffset;
    StringField.FullWidth();
    LengthInRange(s, pos);
    if pos + 31 <= |s| {
      LengthIsNumber(s, pos);
      var d := Decode(Int(0, 0x7fff_ffff), s, pos);
      ZeroOnFailure(Bytes(d.value.i), s, d.pos);
    }
  }

  lemma LengthIsNumber(s: seq<bool>, pos: nat)
    requires pos + 31 <= |s| && BitsRequired(0, 0x7fff_ffff) == 31
    ensures var n := ValueOf(s[pos..pos + 31]);
            && n < 0x8000_0000 && Decode(Int(0, 0x7fff_ffff), s, pos) == Got(VInt(n), pos + 31)
            && LenientDecode(Int(0, 0x7fff_ffff), s, pos) == Lenient(VInt(n), pos + 31, false)
  {
    hide BitsRequired, ValueOf, Pow2;
    ValueBound(s[pos..pos + 31]);
    Pow2Signed();
  }

  /** What C++ reads with a 31-bit length the client reads too. */
  lemma StrictStringIsLenient(s: seq<bool>, pos: nat)
    requires StringField.DecodeString(0x7fff_ffff, s, pos).Got?
    ensures var r := StringField.DecodeString(0x7fff_ffff, s, pos);
            LenientString(s, pos) == Lenient(r.value, r.pos, false)
  {
    hide Decode, LenientBytes;
    StringField.IntRead(0x7fff_ffff, s, pos);
    OneCallAgrees(Int(0, 0x7fff_ffff), s, pos);
    var d := Decode(Int(0, 0x7fff_ffff), s, pos);
    StringField.BytesRead(d.value.i, s, d.pos);
    OneCallAgrees(Bytes(d.value.i), s, d.pos);
  }

  /** The bytes read back are as many of the encoded bytes as there are characters: all, if each takes one. */
  lemma ClientStringRoundTrip(chars: nat, encoded: seq<byte>, s: seq<bool>, pos: nat)
    requires chars <= 0x7fff_ffff && chars <= |encoded|
    requires At(s, pos, StringField.EncodeString(0x7fff_ffff, encoded[..chars], pos))
    ensures LenientString(s, pos)
            == Lenient(encoded[..chars], pos + |StringField.EncodeString(0x7fff_ffff, encoded[..chars], pos)|, false)
    ensures LenientString(s, pos).value == encoded <==> chars == |encoded|
  {
    hide StringField.EncodeString, StringField.DecodeString, LenientString, At;
    StringField.StringRoundTrip(0x7fff_ffff, encoded[..chars], s, pos);
    StrictStringIsLenient(s, pos);
  }

  /** `SerializeString` of a string of so many characters, encoded so. */
  method SerializeString(stream: WriteStream, chars: int32, encoded: seq<byte>) returns (ok: bool)
    requires stream.Valid() && 0 <= chars <= |encoded|
    requires stream.Room(|StringField.EncodeString(0x7fff_ffff, encoded[..chars], stream.writer.bitsWritten)|)
    modifies stream.writer, stream.writer.data
    ensures stream.Valid() && ok
    ensures stream.writer.written
            == old(stream.writer.written)
               + StringField.EncodeString(0x7fff_ffff, encoded[..chars], old(stream.writer.bitsWritten))
  {
    hide StringField.EncodeString, CsBitPacker.BitWriter.Valid, BitsRequired, AlignLen, Zeros, MemBits, BitsOf;
    hide Encode, Offset;
    var text := encoded[..chars];
    ghost var w, pos := stream.writer.written, stream.writer.bitsWritten;
    stream.writer.Counts();
    StringField.StringParts(0x7fff_ffff, text, pos);
    ghost var e := Encode(Int(0, 0x7fff_ffff), VInt(chars), pos);
    ghost var f := Encode(Bytes(|text|), VBytes(text), pos + |e|);
    PartsAre(chars, text, pos, pos + |e|);
    var _ := SerializeInt(stream, chars, 0, MAX_LENGTH);
    stream.writer.Counts();
    assert stream.writer.written == w + e && stream.writer.bitsWritten == pos + |e|;
    var _ := stream.SerializeBytes(text);
    assert w + e + f == w + (e + f);
    ok := true;
  }

  /** The bits of a length and of a block. */
  lemma PartsAre(chars: int32, text: seq<byte>, pos: nat, p: nat)
    requires 0 <= chars
    ensures Encode(Int(0, 0x7fff_ffff), VInt(chars), pos) == BitsOf(Offset(chars, 0), BitsRequired(0, 0x7fff_ffff))
    ensures Encode(Bytes(|text|), VBytes(text), p) == Zeros(AlignLen(p)) + MemBits(text)
  {
    hide BitsRequired, AlignLen, Zeros, MemBits, BitsOf, Offset;
  }

  /** `DeserializeString`: a length and that many bytes, zeros if they cannot be read. */
  method DeserializeString(stream: ReadStream) returns (val: seq<byte>)
    requires stream.Valid()
    modifies stream, stream.reader
    ensures stream.Valid() && stream.Input() == old(stream.Input())
    ensures var r := LenientString(stream.Input(), old(stream.reader.bitsRead));
            && val == r.value && stream.reader.bitsRead == r.pos
            && stream.error == if r.overflowed then PROTOCOL2_ERROR_STREAM_OVERFLOW else old(stream.error)
    ensures var mid := LenientDecode(Int(0, 0x7fff_ffff), stream.Input(), old(stream.reader.bitsRead)).pos;
            stream.Lag() == old(stream.Lag()) + Uncounted(Bytes(|val|), stream.Input(), mid)
  {
    hide CsBitUnpacker.BitReader.Valid, LenientBytes, BitsRequired, FromOffset, ValueOf, LenientTake;
    ghost var s, pos := stream.Input(), stream.reader.bitsRead;
    LengthInRange(s, pos);
    var length := DeserializeInt(stream, 0, MAX_LENGTH);
    var dst := new byte[length](_ => 0);
    assert dst[..] == Blank(length);
    var _ := DeserializeBytes(stream, dst, length);
    val := dst[..];
  }
}
