/**
  Strings: a ranged length, then the characters as an aligned block. C++ sizes the
  length field by the caller's buffer, the client always by 31 bits.
 */
module StringField {
  import opened Bits
  import opened Memory
  import opened Width
  import opened Schema
  import opened Streams
  import BitPacker
  import BitUnpacker

  /** `strlen`: the characters before the first NUL. */
  function StrLen(m: seq<byte>): (n: nat)
    ensures n <= |m| && (n < |m| ==> m[n] == 0)
    ensures forall i :: 0 <= i < n ==> m[i] != 0
  {
    if m == [] || m[0] == 0 then 0 else 1 + StrLen(m[1..])
  }

  function StringOps(max: int32, length: nat): (ops: seq<Op>)
    requires max > 0
    ensures AllOk(ops)
  {
    [Int(0, max), Bytes(length)]
  }

  function StringVals(text: seq<byte>): seq<Val>
    requires |text| < 0x8000_0000
  {
    [VInt(|text|), VBytes(text)]
  }

  /** The bits of a string whose length field ranges up to max. */
  function EncodeString(max: int32, text: seq<byte>, pos: nat): seq<bool>
    requires |text| <= max && max > 0
  {
    EncodeAll(StringOps(max, |text|), StringVals(text), pos)
  }

  /** The characters read, to which the reader appends a NUL. */
  function DecodeString(max: int32, s: seq<bool>, pos: nat): Outcome<seq<byte>>
    requires max > 0
  {
    match Decode(Int(0, max), s, pos)
    case Got(v, p) =>
      IntRead(max, s, pos);
      (match Decode(Bytes(v.i), s, p)
       case Got(w, q) => (BytesRead(v.i, s, p); Got(w.m, q))
       case Overflow => Overflow
       case BadPadding => BadPadding
       case OutOfRange => OutOfRange)
    case Overflow => Overflow
    case BadPadding => BadPadding
    case OutOfRange => OutOfRange
  }

  lemma IntRead(max: int32, s: seq<bool>, pos: nat)
    requires max > 0 && Decode(Int(0, max), s, pos).Got?
    ensures var v := Decode(Int(0, max), s, pos).value; v.VInt? && 0 <= v.i <= max
    ensures Decode(Int(0, max), s, pos).pos == pos + BitsRequired(0, max) <= |s|
  {
    hide BitsRequired, FromOffset, ValueOf;
  }

  lemma BytesRead(n: nat, s: seq<bool>, pos: nat)
    requires Decode(Bytes(n), s, pos).Got?
    ensures var v := Decode(Bytes(n), s, pos).value; v.VBytes? && |v.m| == n
    ensures Decode(Bytes(n), s, pos).pos == pos + AlignLen(pos) + 8 * n <= |s|
  {
    hide BytesOf, Zeros, AlignLen;
  }

  /** Where the reader stands after reading a string, whatever the outcome. */
  function StandString(max: int32, s: seq<bool>, pos: nat): nat
    requires max > 0
  {
    match Decode(Int(0, max), s, pos)
    case Got(v, p) =>
      IntRead(max, s, pos);
      Stand(Bytes(v.i), s, p)
    case _ => Stand(Int(0, max), s, pos)
  }

  /** The bits read but not counted by the stream. */
  function UncountedString(max: int32, s: seq<bool>, pos: nat): nat
    requires max > 0
  {
    match Decode(Int(0, max), s, pos)
    case Got(v, p) =>
      IntRead(max, s, pos);
      Uncounted(Bytes(v.i), s, p)
    case _ => 0
  }

  /** Reading the length never fails on padding. */
  lemma LengthCounted(max: int32, s: seq<bool>, pos: nat)
    requires max > 0
    ensures Uncounted(Int(0, max), s, pos) == 0
    ensures Decode(Int(0, max), s, pos).Got? ==> Stand(Int(0, max), s, pos) == Decode(Int(0, max), s, pos).pos
  {
    hide BitsRequired, ValueOf, FromOffset;
  }

  lemma StringCounted(max: int32, s: seq<bool>, pos: nat)
    requires max > 0
    ensures DecodeString(max, s, pos).BadPadding? <==> UncountedString(max, s, pos) > 0
    ensures DecodeString(max, s, pos).Got? ==> StandString(max, s, pos) == DecodeString(max, s, pos).pos
  {
    hide Decode, Stand, Uncounted;
    LengthCounted(max, s, pos);
    StandAgrees(Int(0, max), s, pos);
    var d := Decode(Int(0, max), s, pos);
    if d.Got? {
      IntRead(max, s, pos);
      StandAgrees(Bytes(d.value.i), s, d.pos);
    }
  }

  // ---------------------------------------------------------------- round trip

  /** A string read back is the string written; as a C string too, if it has no NUL. */
  lemma StringRoundTrip(max: int32, text: seq<byte>, s: seq<bool>, pos: nat)
    requires |text| <= max && max > 0 && At(s, pos, EncodeString(max, text, pos))
    ensures DecodeString(max, s, pos) == Got(text, pos + |EncodeString(max, text, pos)|)
    ensures 0 !in text ==> StrLen(text + [0]) == |text|
  {
    hide Encode, Decode, At, AllFit;
    var e := Encode(Int(0, max), VInt(|text|), pos);
    StringParts(max, text, pos);
    AtConcat(s, pos, e, Encode(Bytes(|text|), VBytes(text), pos + |e|), pos + |e|);
    RoundTrip(Int(0, max), VInt(|text|), s, pos);
    RoundTrip(Bytes(|text|), VBytes(text), s, pos + |e|);
    if 0 !in text {
      Terminated(text);
    }
  }

  lemma {:induction false} Terminated(text: seq<byte>)
    requires 0 !in text
    ensures StrLen(text + [0]) == |text|
  {
    if text != [] {
      assert (text + [0])[1..] == text[1..] + [0];
      Terminated(text[1..]);
    }
  }

  lemma StringParts(max: int32, text: seq<byte>, pos: nat)
    requires |text| <= max && max > 0
    ensures Fits(Int(0, max), VInt(|text|)) && Fits(Bytes(|text|), VBytes(text))
    ensures AllFit(StringOps(max, |text|), StringVals(text))
    ensures var e := Encode(Int(0, max), VInt(|text|), pos);
            EncodeString(max, text, pos) == e + Encode(Bytes(|text|), VBytes(text), pos + |e|)
  {
    hide Encode;
    var ops, vs := StringOps(max, |text|), StringVals(text);
    var e := Encode(Int(0, max), VInt(|text|), pos);
    var f := Encode(Bytes(|text|), VBytes(text), pos + |e|);
    assert ops[1..] == [Bytes(|text|)] && vs[1..] == [VBytes(text)];
    EncodeHead(ops, vs, pos, e);
    EncodeHead(ops[1..], vs[1..], pos + |e|, f);
    assert EncodeAll(ops[1..][1..], vs[1..][1..], pos + |e| + |f|) == [];
    assert e + (f + []) == e + f;
  }

  lemma StringLength(max: int32, text: seq<byte>, pos: nat)
    requires |text| <= max && max > 0
    ensures var w := BitsRequired(0, max);
            |EncodeString(max, text, pos)| == w + AlignLen(pos + w) + 8 * |text|
  {
    hide BitsRequired, AlignLen, EncodeString;
    StringParts(max, text, pos);
    var e := Encode(Int(0, max), VInt(|text|), pos);
    assert |e| == BitsRequired(0, max);
    BlockLength(text, pos + |e|, pos + BitsRequired(0, max));
  }

  lemma BlockLength(text: seq<byte>, p: nat, q: nat)
    requires p == q
    ensures |Encode(Bytes(|text|), VBytes(text), p)| == AlignLen(q) + 8 * |text|
  {
  }

  // ---------------------------------------------------------------- canonical form

  /** The characters read, written again, are the bits consumed. */
  lemma CharactersCanonical(max: int32, s: seq<bool>, pos: nat)
    requires max > 0 && pos <= |s| && DecodeString(max, s, pos).Got?
    ensures var r := DecodeString(max, s, pos);
            |r.value| <= max && pos <= r.pos <= |s| && EncodeString(max, r.value, pos) == s[pos..r.pos]
  {
    hide Encode, Decode, EncodeString;
    IntRead(max, s, pos);
    var d := Decode(Int(0, max), s, pos);
    BytesRead(d.value.i, s, d.pos);
    var r := Decode(Bytes(d.value.i), s, d.pos);
    Canonical(Int(0, max), s, pos);
    Canonical(Bytes(d.value.i), s, d.pos);
    StringParts(max, r.value.m, pos);
    assert s[pos..d.pos] + s[d.pos..r.pos] == s[pos..r.pos];
  }

  /**
    But what is written again is the C string in the buffer, up to its first NUL,
    and the writer demands two bytes of room where the reader takes one. So on
    arbitrary input re-writing reproduces the bits exactly when there is no NUL
    among the characters and the string leaves that room.
   */
  lemma StringCanonicalIff(max: int32, s: seq<bool>, pos: nat)
    requires max > 0 && pos <= |s| && DecodeString(max, s, pos).Got?
    ensures var r := DecodeString(max, s, pos); var text := r.value[..StrLen(r.value)];
            && |text| <= |r.value| <= max && pos <= r.pos <= |s|
            && (|text| < max && EncodeString(max, text, pos) == s[pos..r.pos]
                <==> 0 !in r.value && |r.value| < max)
  {
    hide Decode, EncodeString, DecodeString;
    CharactersCanonical(max, s, pos);
    var r := DecodeString(max, s, pos);
    var n := StrLen(r.value);
    StringLength(max, r.value, pos);
    StringLength(max, r.value[..n], pos);
    if n == |r.value| {
      assert r.value[..n] == r.value;
    } else {
      assert r.value[n] == 0 && |EncodeString(max, r.value[..n], pos)| < r.pos - pos;
    }
  }

  /** One NUL is read back as one character, which is written again as none. */
  lemma NulIsLost(max: int32)
    requires max > 0
    ensures var s := EncodeString(max, [0], 0);
            && DecodeString(max, s, 0) == Got([0], |s|)
            && StrLen([0]) == 0 && EncodeString(max, [], 0) != s
  {
    hide EncodeString, DecodeString, BitsRequired;
    var s := EncodeString(max, [0], 0);
    assert s[0..0 + |s|] == s;
    StringRoundTrip(max, [0], s, 0);
    StringLength(max, [0], 0);
    StringLength(max, [], 0);
  }

  // ---------------------------------------------------------------- the two languages

  /**
    The server's wire form of a string and the client's, whose length may be any
    nonnegative 32-bit integer, are the same exactly when
    both length fields end in the same byte, that is, when alignment hides the
    difference of their widths.
   */
  lemma StringFormsAgree(max: int32, text: seq<byte>, pos: nat)
    requires max > 0 && |text| <= max
    ensures EncodeString(max, text, pos) == EncodeString(0x7fff_ffff, text, pos)
            <==> BitsRequired(0, max) + AlignLen(pos + BitsRequired(0, max)) == 31 + AlignLen(pos + 31)
  {
    hide BitsRequired, AlignLen, EncodeString;
    FullWidth();
    StringLength(max, text, pos);
    StringLength(0x7fff_ffff, text, pos);
    var w := BitsRequired(0, max);
    if w + AlignLen(pos + w) == 31 + AlignLen(pos + 31) {
      NarrowWidth(max);
      FormIs(max, text, pos, w, AlignLen(pos + w));
      FormIs(0x7fff_ffff, text, pos, 31, AlignLen(pos + 31));
      OffsetRoundTrip(|text|, 0, max);
      PaddedField(|text|, w, AlignLen(pos + w), 31, AlignLen(pos + 31));
    }
  }

  /** They differ, for instance, for a server buffer of 101 bytes at the start of a message: 7 bits against 31. */
  lemma StringFormsDiffer(text: seq<byte>)
    requires |text| <= 100
    ensures EncodeString(100, text, 0) != EncodeString(0x7fff_ffff, text, 0)
  {
    hide BitsRequired, EncodeString;
    assert Pow2(6) == 64 && Pow2(7) == 128;
    WidthIs(0, 100, 7);
    StringFormsAgree(100, text, 0);
  }

  lemma FullWidth()
    ensures BitsRequired(0, 0x7fff_ffff) == 31
  {
    hide BitsRequired;
    var b := BitsRequired(0, 0x7fff_ffff);
    NarrowWidth(0x7fff_ffff);
    WidthIsMinimal(0, 0x7fff_ffff);
    Pow2Monotone(Min(b, 30), 30);
    Pow2Literals();
    assert Pow2(32) == 2 * Pow2(31) && Pow2(31) == 2 * Pow2(30);
  }

  /** A length field and its padding, then the characters. */
  lemma FormIs(max: int32, text: seq<byte>, pos: nat, w: nat, a: nat)
    requires max > 0 && |text| <= max && w == BitsRequired(0, max) && a == AlignLen(pos + w)
    ensures EncodeString(max, text, pos) == BitsOf(|text|, w) + Zeros(a) + MemBits(text)
  {
    hide BitsRequired, AlignLen, EncodeString, BitsOf, Zeros, MemBits;
    StringParts(max, text, pos);
    assert Offset(|text|, 0) == |text|;
  }

  /** Padding a narrow field or a wide one up to the same bit gives the same bits. */
  lemma PaddedField(v: nat, w: nat, a: nat, w': nat, a': nat)
    requires w <= w' && w + a == w' + a' && v < Pow2(w)
    ensures BitsOf(v, w) + Zeros(a) == BitsOf(v, w') + Zeros(a')
  {
    hide BitsOf, Zeros, ValueOf, Pow2;
    Pow2Monotone(w, w');
    ValueOfSmall(v, w);
    ValueOfSmall(v, w');
    ValuePadded(BitsOf(v, w), a);
    ValuePadded(BitsOf(v, w'), a');
    ValueInjective(BitsOf(v, w) + Zeros(a), BitsOf(v, w') + Zeros(a'));
  }

  // ---------------------------------------------------------------- the serialize calls

  method SerializeString(stream: WriteStream, str: seq<byte>, bufferSize: int32) returns (ok: bool)
    requires stream.Valid() && StrLen(str) < bufferSize - 1
    requires stream.Room(|EncodeString(bufferSize - 1, str[..StrLen(str)], stream.writer.bitsWritten)|)
    modifies stream.writer, stream.writer.data
    ensures stream.Valid() && ok
    ensures stream.writer.written
            == old(stream.writer.written)
               + EncodeString(bufferSize - 1, str[..StrLen(str)], old(stream.writer.bitsWritten))
  {
    hide Encode, EncodeString, BitPacker.BitWriter.Valid;
    var length := StrLen(str);
    var text := str[..length];
    ghost var w, pos := stream.writer.written, stream.writer.bitsWritten;
    stream.writer.Counts();
    StringParts(bufferSize - 1, text, pos);
    ok := stream.Serialize(Int(0, bufferSize - 1), VInt(length));
    stream.writer.Counts();
    if !ok {
      return;
    }
    ok := stream.Serialize(Bytes(length), VBytes(text));
    stream.writer.Counts();
    assert w + (Encode(Int(0, bufferSize - 1), VInt(length), pos)
                + Encode(Bytes(length), VBytes(text), pos + |Encode(Int(0, bufferSize - 1), VInt(length), pos)|))
           == stream.writer.written;
  }

  /** The length is checked before it is used, so the terminating NUL is stored inside the buffer. */
  method DeserializeString(stream: ReadStream, str: array<byte>, bufferSize: int32) returns (ok: bool)
    requires stream.Valid() && 1 < bufferSize <= str.Length && str != stream.reader.data
    modifies stream, stream.reader, str
    ensures stream.Valid() && stream.Input() == old(stream.Input())
    ensures stream.reader.bitsRead == StandString(bufferSize - 1, stream.Input(), old(stream.reader.bitsRead))
    ensures stream.Lag() == old(stream.Lag())
              + UncountedString(bufferSize - 1, stream.Input(), old(stream.reader.bitsRead))
    ensures stream.InSync() <==>
              && old(stream.InSync())
              && !DecodeString(bufferSize - 1, stream.Input(), old(stream.reader.bitsRead)).BadPadding?
    ensures match DecodeString(bufferSize - 1, stream.Input(), old(stream.reader.bitsRead))
            case Got(text, p) =>
              && ok && stream.reader.bitsRead == p && stream.error == old(stream.error)
              && |text| < bufferSize && str[..|text|] == text && str[|text|] == 0
            case Overflow => !ok && stream.error == ERROR_STREAM_OVERFLOW
            case _ => !ok && stream.error == old(stream.error)
  {
    hide Decode, Stand, Uncounted, BitUnpacker.BitReader.Valid;
    ghost var s, pos := stream.Input(), stream.reader.bitsRead;
    LengthCounted(bufferSize - 1, s, pos);
    StringCounted(bufferSize - 1, s, pos);
    var v;
    ok, v := stream.Deserialize(Int(0, bufferSize - 1));
    if !ok {
      return;
    }
    IntRead(bufferSize - 1, s, pos);
    var length := v.i;
    if Decode(Bytes(length), s, stream.reader.bitsRead).Got? {
      BytesRead(length, s, stream.reader.bitsRead);
    }
    ok := stream.SerializeBytes(str, length);
    if !ok {
      return;
    }
    str[length] := 0;
  }
}
