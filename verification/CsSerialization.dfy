/**
  The client's serialization extensions. Writing agrees with the C++ macros;
  reading returns a value whatever happens, and this module says which.
 */
module SerializationExtension {
  import opened Bits
  import opened Memory
  import opened Width
  import opened Schema
  import opened CsStreams

  // ---------------------------------------------------------------- what a lenient read yields

  /** The value returned, where the reader then stands, and whether the stream's error was set. */
  datatype Lenient<T> = Lenient(value: T, pos: nat, overflowed: bool)

  /** A field of n bits: zero, and no progress, if it does not fit. */
  function LenientTake(s: seq<bool>, pos: nat, n: nat): (r: Lenient<u32>)
    requires n <= 32
  {
    if pos + n > |s| then Lenient(0, pos, true) else
    TakeFits(s, pos, n);
    Lenient(ValueOf(s[pos..pos + n]), pos + n, false)
  }

  function LenientAlign(s: seq<bool>, pos: nat): Lenient<bool> {
    var to := pos + AlignLen(pos);
    if to > |s| then Lenient(false, pos, true) else Lenient(s[pos..to] == Zeros(to - pos), to, false)
  }

  /** Block reads report failure; the destination, here n zero bytes, is then untouched. */
  function LenientBytes(s: seq<bool>, pos: nat, n: nat): Lenient<seq<byte>> {
    var a := LenientAlign(s, pos);
    if !a.value then Lenient(Blank(n), a.pos, a.overflowed)
    else if a.pos + 8 * n > |s| then Lenient(Blank(n), a.pos, true)
    else Lenient(BytesOf(s[a.pos..a.pos + 8 * n]), a.pos + 8 * n, false)
  }

  function Blank(n: nat): (m: seq<byte>)
    ensures |m| == n && forall i :: 0 <= i < n ==> m[i] == 0
  {
    seq(n, _ => 0)
  }

  /** What one extension call returns on arbitrary bits. Ranges are not checked. */
  function LenientDecode(op: Op, s: seq<bool>, pos: nat): Lenient<Val>
    requires OpOk(op)
  {
    match op
    case Int(min, max) =>
      var r := LenientTake(s, pos, BitsRequired(min, max));
      Lenient(VInt(if r.overflowed then 0 else FromOffset(r.value, min)), r.pos, r.overflowed)
    case UBits(n) =>
      var r := LenientTake(s, pos, n);
      Lenient(VBits(r.value), r.pos, r.overflowed)
    case Bool =>
      var r := LenientTake(s, pos, 1);
      Lenient(VBool(r.value > 0), r.pos, r.overflowed)
    case UInt64 =>
      var lo := LenientTake(s, pos, 32);
      var hi := LenientTake(s, lo.pos, 32);
      Lenient(VLong(hi.value * 0x1_0000_0000 + lo.value), hi.pos, lo.overflowed || hi.overflowed)
    case Bytes(n) =>
      var r := LenientBytes(s, pos, n);
      Lenient(VBytes(r.value), r.pos, r.overflowed)
    case Align =>
      var r := LenientAlign(s, pos);
      Lenient(VNone, r.pos, r.overflowed)
  }

  /** A block of this many bytes, all zero. */
  ghost predicate ZeroBytes(m: seq<byte>, n: nat) {
    |m| == n && forall i :: 0 <= i < n ==> m[i] == 0
  }

  /**
    What a call returns when its bits are not all there: zero, false, the low word
    alone, or zero bytes; a block whose padding is bad comes back as zero bytes too.
   */
  lemma ZeroOnFailure(op: Op, s: seq<bool>, pos: nat)
    requires OpOk(op)
    ensures var r := LenientDecode(op, s, pos);
            match op
            case Int(min, max) => pos + BitsRequired(min, max) > |s| ==> r == Lenient(VInt(0), pos, true)
            case UBits(n) => pos + n > |s| ==> r == Lenient(VBits(0), pos, true)
            case Bool => pos + 1 > |s| ==> r == Lenient(VBool(false), pos, true)
            case UInt64 =>
              && (pos + 32 > |s| ==> r == Lenient(VLong(0), pos, true))
              && (pos + 32 <= |s| < pos + 64 ==> r.value.VLong? && r.pos == pos + 32 && r.overflowed
                                                 && r.value.w == ValueOf(s[pos..pos + 32]))
            case Bytes(n) => !Decode(op, s, pos).Got? ==> r.value.VBytes? && ZeroBytes(r.value.m, n)
            case Align => r.value == VNone
  {
    hide BitsRequired, ValueOf, BytesOf, Zeros, AlignLen, FromOffset;
  }

  function LenientAll(ops: seq<Op>, s: seq<bool>, pos: nat): Lenient<seq<Val>>
    requires AllOk(ops)
  {
    if ops == [] then Lenient([], pos, false) else
      var r := LenientDecode(ops[0], s, pos);
      var t := LenientAll(ops[1..], s, r.pos);
      Lenient([r.value] + t.value, t.pos, r.overflowed || t.overflowed)
  }

  // ---------------------------------------------------------------- agreement with the strict reader

  /**
    The two readers agree on one call exactly as follows: whatever C++ accepts the
    client returns, overflow is the same event in both, and the client's only other
    leniency is a bad padding or an out-of-range integer, which it lets through.
   */
  lemma OneCallAgrees(op: Op, s: seq<bool>, pos: nat)
    requires OpOk(op)
    ensures var l := LenientDecode(op, s, pos);
            match Decode(op, s, pos)
            case Got(v, p) => l == Lenient(v, p, false)
            case Overflow => l.overflowed
            case BadPadding =>
              !l.overflowed && l.pos == pos + AlignLen(pos) && (op.Align? || op.Bytes?) && !LenientAlign(s, pos).value
            case OutOfRange =>
              !l.overflowed && l.value.VInt? && op.Int? && !(op.min <= l.value.i <= op.max)
              && l.pos == pos + BitsRequired(op.min, op.max)
  {
    hide BitsRequired, ValueOf, BytesOf, Zeros, AlignLen, FromOffset;
    match op
    case Int(min, max) =>
    case UBits(n) =>
    case Bool => BoolAgrees(s, pos);
    case UInt64 => LongAgrees(s, pos);
    case Bytes(n) =>
    case Align =>
  }

  lemma BoolAgrees(s: seq<bool>, pos: nat)
    ensures pos + 1 <= |s| ==> LenientDecode(Bool, s, pos) == Lenient(VBool(s[pos]), pos + 1, false)
    ensures pos + 1 > |s| ==> LenientDecode(Bool, s, pos).overflowed
  {
    if pos + 1 <= |s| {
      assert s[pos..pos + 1] == [s[pos]];
      assert ValueOf([s[pos]]) == if s[pos] then 1 else 0;
    }
  }

  lemma LongAgrees(s: seq<bool>, pos: nat)
    ensures pos + 64 > |s| ==> LenientDecode(UInt64, s, pos).overflowed
    ensures pos + 64 <= |s| ==>
              && Decode(UInt64, s, pos).Got?
              && LenientDecode(UInt64, s, pos) == Lenient(Decode(UInt64, s, pos).value, pos + 64, false)
  {
    hide ValueOf;
    if pos + 64 <= |s| {
      SecondWord(s, pos, pos + 32, pos + 64);
    }
  }

  lemma SecondWord(s: seq<bool>, pos: nat, mid: nat, end: nat)
    requires mid == pos + 32 && end == mid + 32 <= |s|
    ensures LenientTake(s, pos, 32).pos == mid && LenientTake(s, mid, 32).pos == end
    ensures LenientTake(s, mid, 32).value == ValueOf(s[mid..end]) < 0x1_0000_0000
  {
    hide ValueOf;
    TakeFits(s, mid, 32);
  }

  /** What the strict reader accepts, the lenient reader returns, with the same bits consumed. */
  lemma {:induction false} StrictIsLenient(ops: seq<Op>, s: seq<bool>, pos: nat)
    requires AllOk(ops) && DecodeAll(ops, s, pos).Got?
    ensures LenientAll(ops, s, pos) == Lenient(DecodeAll(ops, s, pos).value, DecodeAll(ops, s, pos).pos, false)
  {
    hide Decode, LenientDecode;
    if ops != [] {
      OneCallAgrees(ops[0], s, pos);
      StrictIsLenient(ops[1..], s, Decode(ops[0], s, pos).pos);
    }
  }

  /** What C++ checks of a call: it fits, its integer is in range, its padding is zero. */
  predicate Intact(op: Op, s: seq<bool>, pos: nat)
    requires OpOk(op)
  {
    var l := LenientDecode(op, s, pos);
    && !l.overflowed
    && (op.Int? ==> op.min <= l.value.i <= op.max)
    && (op.Align? || op.Bytes? ==> LenientAlign(s, pos).value)
  }

  predicate AllIntact(ops: seq<Op>, s: seq<bool>, pos: nat)
    requires AllOk(ops)
  {
    ops == [] || (Intact(ops[0], s, pos) && AllIntact(ops[1..], s, LenientDecode(ops[0], s, pos).pos))
  }

  lemma AcceptedIffIntact(op: Op, s: seq<bool>, pos: nat)
    requires OpOk(op)
    ensures Decode(op, s, pos).Got? <==> Intact(op, s, pos)
  {
    hide BitsRequired, ValueOf, BytesOf, Zeros, AlignLen, FromOffset, LenientTake;
    OneCallAgrees(op, s, pos);
    if op.Int? {
      IntAccepted(op.min, op.max, s, pos);
    }
  }

  lemma IntAccepted(min: int32, max: int32, s: seq<bool>, pos: nat)
    requires min < max
    ensures Decode(Int(min, max), s, pos).Got? <==> Intact(Int(min, max), s, pos)
  {
    hide BitsRequired, ValueOf, FromOffset;
  }

  /**
    On arbitrary bits and any schema: C++ accepts exactly when, in the client's own
    reading, nothing overflowed, every integer is in its range and every padding is zero.
   */
  lemma {:induction false} AcceptedIffAllIntact(ops: seq<Op>, s: seq<bool>, pos: nat)
    requires AllOk(ops)
    ensures DecodeAll(ops, s, pos).Got? <==> AllIntact(ops, s, pos)
  {
    hide Decode, LenientDecode, Intact;
    if ops != [] {
      AcceptedIffIntact(ops[0], s, pos);
      OneCallAgrees(ops[0], s, pos);
      if Decode(ops[0], s, pos).Got? {
        AcceptedIffAllIntact(ops[1..], s, Decode(ops[0], s, pos).pos);
      }
    }
  }

  /** On bit fields, flags and 64-bit values, as the handshake's are, an intact stream error is enough. */
  lemma {:induction false} LenientIsStrict(ops: seq<Op>, s: seq<bool>, pos: nat)
    requires AllOk(ops) && forall i :: 0 <= i < |ops| ==> ops[i].UBits? || ops[i].Bool? || ops[i].UInt64?
    ensures DecodeAll(ops, s, pos).Got? <==> !LenientAll(ops, s, pos).overflowed
  {
    hide LenientDecode;
    if ops != [] {
      OneCallAgrees(ops[0], s, pos);
      var d := Decode(ops[0], s, pos);
      if d.Got? {
        LenientIsStrict(ops[1..], s, d.pos);
      }
    }
  }

  /** Both readers stand at the same place after a call, whatever became of it. */
  lemma StandIsLenient(op: Op, s: seq<bool>, pos: nat)
    requires OpOk(op) && |s| % 8 == 0 && pos <= |s|
    ensures Stand(op, s, pos) == LenientDecode(op, s, pos).pos <= |s|
  {
    hide BitsRequired, ValueOf, BytesOf, Zeros, AlignLen, FromOffset;
    PaddingFits(s, pos);
  }

  // ---------------------------------------------------------------- ranges

  /** Whether `DeserializeInt` returns a value of its range. */
  predicate StaysInRange(min: int32, max: int32, s: seq<bool>, pos: nat)
    requires min < max
  {
    min <= LenientDecode(Int(min, max), s, pos).value.i <= max
  }

  /**
    Nothing checks the range of what `DeserializeInt` returns. On a given input it
    is in range exactly if the wire word is at most max-min or, when the field does
    not fit and zero is returned, if zero happens to be in the range.
   */
  lemma DeserializedInRange(min: int32, max: int32, s: seq<bool>, pos: nat)
    requires min < max
    ensures var r := LenientTake(s, pos, BitsRequired(min, max));
            StaysInRange(min, max, s, pos) <==> if r.overflowed then min <= 0 <= max else r.value <= max - min
  {
    hide BitsRequired, FromOffset, LenientTake;
    var r := LenientTake(s, pos, BitsRequired(min, max));
    if !r.overflowed {
      AcceptedOffsets(r.value, min, max);
    }
  }

  /** It is in range on every input exactly if the range fills its width and contains zero. */
  lemma AlwaysInRange(min: int32, max: int32)
    requires min < max
    ensures (forall s: seq<bool>, pos: nat :: StaysInRange(min, max, s, pos))
            <==> max - min == Pow2(BitsRequired(min, max)) - 1 && min <= 0 <= max
  {
    hide BitsRequired, Pow2, StaysInRange;
    WidthIsMinimal(min, max);
    EscapesByOverflow(min, max);
    if max - min == Pow2(BitsRequired(min, max)) - 1 && min <= 0 <= max {
      forall s: seq<bool>, pos: nat
        ensures StaysInRange(min, max, s, pos)
      {
        FullRange(min, max, s, pos);
      }
    } else if max - min + 1 < Pow2(BitsRequired(min, max)) {
      EscapesByWord(min, max);
    }
  }

  lemma FullRange(min: int32, max: int32, s: seq<bool>, pos: nat)
    requires min < max && max - min == Pow2(BitsRequired(min, max)) - 1 && min <= 0 <= max
    ensures StaysInRange(min, max, s, pos)
  {
    hide BitsRequired, Pow2, StaysInRange, ValueOf;
    var n := BitsRequired(min, max);
    DeserializedInRange(min, max, s, pos);
    if pos + n <= |s| {
      ValueBound(s[pos..pos + n]);
    }
  }

  /** One way out of the range: the first wire word above it. C++ rejects it. */
  lemma EscapesByWord(min: int32, max: int32)
    requires min < max && max - min + 1 < Pow2(BitsRequired(min, max))
    ensures var s := BitsOf(max - min + 1, BitsRequired(min, max));
            Decode(Int(min, max), s, 0) == OutOfRange && !StaysInRange(min, max, s, 0)
  {
    hide BitsRequired, Pow2, FromOffset, ValueOf, BitsOf;
    var n := BitsRequired(min, max);
    var s := BitsOf(max - min + 1, n);
    assert s[0..0 + n] == s;
    ValueOfSmall(max - min + 1, n);
    TakeFits(s, 0, n);
    AcceptedOffsets(max - min + 1, min, max);
  }

  /** The other way: an input that ends too early, read as zero. C++ reports the overflow. */
  lemma EscapesByOverflow(min: int32, max: int32)
    requires min < max
    ensures Decode(Int(min, max), [], 0) == Overflow
    ensures LenientDecode(Int(min, max), [], 0).value == VInt(0)
    ensures StaysInRange(min, max, [], 0) <==> min <= 0 <= max
  {
    hide BitsRequired, FromOffset;
  }

  // ---------------------------------------------------------------- the extension methods

  method SerializeInt(stream: WriteStream, value: int32, min: int32, max: int32) returns (ok: bool)
    requires stream.Valid() && min < max && min <= value <= max && stream.Room(BitsRequired(min, max))
    modifies stream.writer, stream.writer.data
    ensures stream.Valid() && ok
    ensures stream.writer.written
            == old(stream.writer.written) + BitsOf(Offset(value, min), BitsRequired(min, max))
  {
    ok := stream.SerializeInteger(value, min, max);
  }

  /** The result of the stream's read is dropped and the range is not checked. */
  method DeserializeInt(stream: ReadStream, min: int32, max: int32) returns (value: int32)
    requires stream.Valid() && min < max
    modifies stream, stream.reader
    ensures stream.Valid() && stream.Input() == old(stream.Input()) && stream.Lag() == old(stream.Lag())
    ensures var r := LenientDecode(Int(min, max), stream.Input(), old(stream.reader.bitsRead));
            && r.value == VInt(value) && stream.reader.bitsRead == r.pos
            && stream.error == if r.overflowed then PROTOCOL2_ERROR_STREAM_OVERFLOW else old(stream.error)
  {
    hide BitsRequired, FromOffset, ValueOf;
    hide CsBitUnpacker.BitReader.Valid;
    var _, read := stream.SerializeInteger(0, min, max);
    value := read;
  }

  /** The value goes through a signed parameter; its bits do not change. */
  method SerializeBits(stream: WriteStream, value: int32, bits: nat) returns (ok: bool)
    requires stream.Valid() && 0 < bits <= 32 && stream.Room(bits)
    modifies stream.writer, stream.writer.data
    ensures stream.Valid() && ok
    ensures stream.writer.written == old(stream.writer.written) + BitsOf(ToU32(value), bits)
  {
    ok := stream.SerializeBits(ToU32(value), bits);
  }

  method DeserializeBits(stream: ReadStream, bits: nat) returns (value: u32)
    requires stream.Valid() && 0 < bits <= 32
    modifies stream, stream.reader
    ensures stream.Valid() && stream.Input() == old(stream.Input()) && stream.Lag() == old(stream.Lag())
    ensures var r := LenientTake(stream.Input(), old(stream.reader.bitsRead), bits);
            && r.value == value && stream.reader.bitsRead == r.pos
            && stream.error == if r.overflowed then PROTOCOL2_ERROR_STREAM_OVERFLOW else old(stream.error)
    ensures old(stream.reader.bitsRead) + bits > |stream.Input()| ==>
              value == 0 && stream.error != PROTOCOL2_ERROR_NONE
  {
    hide CsBitUnpacker.BitReader.Valid, ValueOf;
    var _, read := stream.SerializeBits(0, bits);
    value := read;
  }

  method SerializeUInt64(stream: WriteStream, value: u64) returns (ok: bool)
    requires stream.Valid() && stream.Room(64)
    modifies stream.writer, stream.writer.data
    ensures stream.Valid() && ok
    ensures stream.writer.written
            == old(stream.writer.written) + (BitsOf(value % 0x1_0000_0000, 32) + BitsOf(value / 0x1_0000_0000, 32))
  {
    hide BitsOf;
    var low: u32, high: u32 := value % 0x1_0000_0000, value / 0x1_0000_0000;
    SignedAndBack(low);
    SignedAndBack(high);
    var _ := SerializeBits(stream, ToInt32(low), 32);
    var _ := SerializeBits(stream, ToInt32(high), 32);
    ok := true;
  }

  lemma SignedAndBack(u: u32)
    ensures ToU32(ToInt32(u)) == u
  {
  }

  method DeserializeUInt64(stream: ReadStream) returns (value: u64)
    requires stream.Valid()
    modifies stream, stream.reader
    ensures stream.Valid() && stream.Input() == old(stream.Input()) && stream.Lag() == old(stream.Lag())
    ensures var r := LenientDecode(UInt64, stream.Input(), old(stream.reader.bitsRead));
            && r.value == VLong(value) && stream.reader.bitsRead == r.pos
            && stream.error == if r.overflowed then PROTOCOL2_ERROR_STREAM_OVERFLOW else old(stream.error)
  {
    hide CsBitUnpacker.BitReader.Valid, LenientTake;
    var low := DeserializeBits(stream, 32);
    var high := DeserializeBits(stream, 32);
    value := high as int * 0x1_0000_0000 + low;
  }

  method DeserializeBytes(stream: ReadStream, dst: array<byte>, bytes: nat) returns (ok: bool)
    requires stream.Valid() && dst.Length == bytes && dst[..] == Blank(bytes)
    modifies stream, stream.reader, dst
    ensures stream.Valid() && stream.Input() == old(stream.Input())
    ensures stream.Lag() == old(stream.Lag()) + Uncounted(Bytes(bytes), stream.Input(), old(stream.reader.bitsRead))
    ensures var r := LenientBytes(stream.Input(), old(stream.reader.bitsRead), bytes);
            && dst[..] == r.value && stream.reader.bitsRead == r.pos
            && stream.error == if r.overflowed then PROTOCOL2_ERROR_STREAM_OVERFLOW else old(stream.error)
  {
    hide CsBitUnpacker.BitReader.Valid, AlignLen, BytesOf, Zeros, Splice;
    ghost var from := stream.reader.bitsRead;
    SpliceWhole(dst[..], stream.Input(), from + AlignLen(from), bytes);
    ok := stream.SerializeBytes(dst, bytes);
  }

  lemma SpliceWhole(m: seq<byte>, s: seq<bool>, pos: nat, n: nat)
    requires |m| == n
    ensures pos + 8 * n <= |s| ==> Splice(m, 0, BytesOf(s[pos..pos + 8 * n])) == BytesOf(s[pos..pos + 8 * n])
  {
    hide BytesOf;
  }

  /** One extension call, writing. */
  method Serialize(stream: WriteStream, op: Op, v: Val)
    requires stream.Valid() && OpOk(op) && Fits(op, v)
    requires stream.Room(|Encode(op, v, stream.writer.bitsWritten)|)
    modifies stream.writer, stream.writer.data
    ensures stream.Valid()
    ensures stream.writer.written == old(stream.writer.written) + Encode(op, v, old(stream.writer.bitsWritten))
  {
    hide AlignLen, Zeros, MemBits, BitsOf, BitsRequired, Offset, ToInt32, ToU32;
    match op
    case Int(min, max) =>
      var _ := SerializeInt(stream, v.i, min, max);
    case UBits(n) =>
      SignedAndBack(v.u);
      var _ := SerializeBits(stream, ToInt32(v.u), n);
    case Bool =>
      SingleBit(v.b);
      var _ := stream.SerializeBits(if v.b then 1 else 0, 1);
    case UInt64 =>
      var _ := SerializeUInt64(stream, v.w);
    case Bytes(_) =>
      var _ := stream.SerializeBytes(v.m);
    case Align =>
      var _ := stream.SerializeAlign();
  }

  /** An object's `SerializeWrite`. */
  method SerializeAll(stream: WriteStream, ops: seq<Op>, vs: seq<Val>)
    requires stream.Valid() && AllOk(ops) && AllFit(ops, vs)
    requires stream.Room(|EncodeAll(ops, vs, stream.writer.bitsWritten)|)
    modifies stream.writer, stream.writer.data
    ensures stream.Valid()
    ensures stream.writer.written
            == old(stream.writer.written) + EncodeAll(ops, vs, old(stream.writer.bitsWritten))
  {
    hide Encode, Fits, CsBitPacker.BitWriter.Valid;
    ghost var start := stream.writer.written;
    stream.writer.Counts();
    ghost var all := EncodeAll(ops, vs, stream.writer.bitsWritten);
    for i := 0 to |ops|
      invariant stream.Valid()
      invariant stream.writer.written + EncodeAll(ops[i..], vs[i..], stream.writer.bitsWritten) == start + all
    {
      stream.writer.Counts();
      ghost var pos := stream.writer.bitsWritten;
      EncodeHead(ops[i..], vs[i..], pos, Encode(ops[i], vs[i], pos));
      assert ops[i..][1..] == ops[i + 1..] && vs[i..][1..] == vs[i + 1..];
      Serialize(stream, ops[i], vs[i]);
      stream.writer.Counts();
    }
  }

  /** One extension call, reading. */
  method Deserialize(stream: ReadStream, op: Op) returns (v: Val)
    requires stream.Valid() && OpOk(op)
    modifies stream, stream.reader
    ensures stream.Valid() && stream.Input() == old(stream.Input())
    ensures stream.Lag() == old(stream.Lag()) + Uncounted(op, stream.Input(), old(stream.reader.bitsRead))
    ensures stream.InSync() <==>
              old(stream.InSync()) && !Decode(op, stream.Input(), old(stream.reader.bitsRead)).BadPadding?
    ensures var r := LenientDecode(op, stream.Input(), old(stream.reader.bitsRead));
            && v == r.value && stream.reader.bitsRead == r.pos
            && stream.error == if r.overflowed then PROTOCOL2_ERROR_STREAM_OVERFLOW else old(stream.error)
  {
    hide CsBitUnpacker.BitReader.Valid, AlignLen, Zeros, BytesOf, BitsRequired, FromOffset, ValueOf;
    match op
    case Int(min, max) =>
      var value := DeserializeInt(stream, min, max);
      v := VInt(value);
    case UBits(n) =>
      var value := DeserializeBits(stream, n);
      v := VBits(value);
    case Bool =>
      var value := DeserializeBits(stream, 1);
      v := VBool(value > 0);
    case UInt64 =>
      var value := DeserializeUInt64(stream);
      v := VLong(value);
    case Bytes(n) =>
      var dst := new byte[n](_ => 0);
      assert dst[..] == Blank(n);
      var _ := DeserializeBytes(stream, dst, n);
      v := VBytes(dst[..]);
    case Align =>
      var _ := stream.SerializeAlign();
      v := VNone;
  }

  /**
    An object's `SerializeRead`: every call is made, whatever the earlier ones did.
    The stream's count agrees with the reader's as long as no padding was bad.
   */
  method DeserializeAll(stream: ReadStream, ops: seq<Op>) returns (vs: seq<Val>)
    requires stream.Valid() && AllOk(ops)
    modifies stream, stream.reader
    ensures stream.Valid() && stream.Input() == old(stream.Input())
    ensures var r := LenientAll(ops, stream.Input(), old(stream.reader.bitsRead));
            && vs == r.value && stream.reader.bitsRead == r.pos
            && stream.error == (if r.overflowed then PROTOCOL2_ERROR_STREAM_OVERFLOW else old(stream.error))
            && (old(stream.error) == PROTOCOL2_ERROR_NONE ==> (stream.error != PROTOCOL2_ERROR_NONE <==> r.overflowed))
    ensures stream.Lag() == old(stream.Lag()) + UncountedRun(ops, stream.Input(), old(stream.reader.bitsRead))
    ensures stream.InSync() <==>
              old(stream.InSync()) && !PaddingFails(ops, stream.Input(), old(stream.reader.bitsRead))
  {
    hide LenientDecode, Decode, Stand, Uncounted, CsBitUnpacker.BitReader.Valid;
    ghost var s, from, lag := stream.Input(), stream.reader.bitsRead, stream.Lag();
    ghost var whole := LenientAll(ops, s, from);
    vs := [];
    LenientStart(ops, s, from);
    assert ops[0..] == ops;
    for i := 0 to |ops|
      invariant stream.Valid() && stream.Input() == s
      invariant LenientAfter(vs, ops[i..], s, stream.reader.bitsRead,
                             stream.error, old(stream.error), whole)
      invariant stream.Lag() + UncountedRun(ops[i..], s, stream.reader.bitsRead) == lag + UncountedRun(ops, s, from)
    {
      ghost var pos := stream.reader.bitsRead;
      stream.reader.Sizes();
      StandIsLenient(ops[i], s, pos);
      LenientStep(vs, ops[i..], s, pos, stream.error, old(stream.error), whole);
      assert ops[i..][1..] == ops[i + 1..];
      var v := Deserialize(stream, ops[i]);
      vs := vs + [v];
    }
    LenientEnd(vs, ops[|ops|..], s, stream.reader.bitsRead, stream.error, old(stream.error), whole);
    RunCounts(ops, s, from);
  }

  /** Having returned vs, with the stream's error now `error`, the remaining calls complete `whole`. */
  ghost predicate LenientAfter(vs: seq<Val>, rest: seq<Op>, s: seq<bool>, pos: nat, error: int, error0: int,
                               whole: Lenient<seq<Val>>)
  {
    && AllOk(rest)
    && var t := LenientAll(rest, s, pos);
       && whole.value == vs + t.value && whole.pos == t.pos
       && (error == PROTOCOL2_ERROR_STREAM_OVERFLOW || error == error0)
       && (whole.overflowed ==> t.overflowed || error == PROTOCOL2_ERROR_STREAM_OVERFLOW)
       && (!whole.overflowed ==> !t.overflowed && error == error0)
  }

  lemma LenientStart(ops: seq<Op>, s: seq<bool>, pos: nat)
    requires AllOk(ops)
    ensures forall error :: LenientAfter([], ops[0..], s, pos, error, error, LenientAll(ops, s, pos))
  {
    hide LenientAll;
    assert ops[0..] == ops;
    assert [] + LenientAll(ops, s, pos).value == LenientAll(ops, s, pos).value;
  }

  lemma LenientStep(vs: seq<Val>, rest: seq<Op>, s: seq<bool>, pos: nat, error: int, error0: int,
                    whole: Lenient<seq<Val>>)
    requires rest != [] && LenientAfter(vs, rest, s, pos, error, error0, whole)
    ensures OpOk(rest[0])
    ensures var r := LenientDecode(rest[0], s, pos);
            LenientAfter(vs + [r.value], rest[1..], s, r.pos,
                         if r.overflowed then PROTOCOL2_ERROR_STREAM_OVERFLOW else error, error0, whole)
  {
    hide LenientDecode;
    var r := LenientDecode(rest[0], s, pos);
    var t := LenientAll(rest[1..], s, r.pos);
    assert vs + ([r.value] + t.value) == vs + [r.value] + t.value;
  }

  lemma LenientEnd(vs: seq<Val>, rest: seq<Op>, s: seq<bool>, pos: nat, error: int, error0: int,
                   whole: Lenient<seq<Val>>)
    requires rest == [] && LenientAfter(vs, rest, s, pos, error, error0, whole)
    ensures vs == whole.value && pos == whole.pos
    ensures error == if whole.overflowed then PROTOCOL2_ERROR_STREAM_OVERFLOW else error0
  {
    assert vs + [] == vs;
  }
}
