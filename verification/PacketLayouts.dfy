/** The wire layout of every packet type, in literal terms: what the factory's schemas and fields amount to. */
module PacketLayouts {
  import opened Bits
  import opened Memory
  import opened Width
  import opened Schema
  import opened Packets

  /**
    A packet's fields on the wire. Test packets are offsets from their ranges' ends,
    in 5 and 6, in 4, and in 8 bits; the others are whole bytes, low byte first.
   */
  function FieldBits(p: Packet): seq<bool>
    requires InRange(p)
  {
    match p
    case TestPacketA(a, b, c) => BitsOf(a + 10, 5) + BitsOf(b + 20, 6) + BitsOf(c + 30, 6)
    case TestPacketB(x, y) => BitsOf(x + 5, 4) + BitsOf(y + 5, 4)
    case TestPacketC(data) => MemBits(data)
    case ConnectionStartReq(cmd, sid, uid) => MemBits([cmd] + LeBytes(sid, 2) + LeBytes(uid, 8))
    case ConnectionStartRsp(cmd, sid) => MemBits([cmd] + LeBytes(sid, 2))
    case ConnectionStopReq(cmd, sid, reason) => MemBits([cmd] + LeBytes(sid, 2) + [reason])
    case ConnectionStopRsp(cmd, sid, reason) => MemBits([cmd] + LeBytes(sid, 2) + [reason])
    case ConnectionHeartBeat(cmd, sid) => MemBits([cmd] + LeBytes(sid, 2))
  }

  function TypeNumber(p: Packet): int {
    match p
    case TestPacketA(_, _, _) => 0
    case TestPacketB(_, _) => 1
    case TestPacketC(_) => 2
    case ConnectionStartReq(_, _, _) => 101
    case ConnectionStartRsp(_, _) => 102
    case ConnectionStopReq(_, _, _) => 103
    case ConnectionStopRsp(_, _, _) => 104
    case ConnectionHeartBeat(_, _) => 105
  }

  // ---------------------------------------------------------------- short schemas

  lemma EncodeNone(ops: seq<Op>, vs: seq<Val>, pos: nat)
    requires ops == [] && vs == []
    ensures EncodeAll(ops, vs, pos) == []
  {
  }

  /** A call whose bits do not depend on the position. */
  ghost predicate Writes(op: Op, v: Val, e: seq<bool>) {
    OpOk(op) && Fits(op, v) && forall pos: nat :: Encode(op, v, pos) == e
  }

  lemma EncodeTwo(ops: seq<Op>, vs: seq<Val>, pos: nat, e: seq<bool>, f: seq<bool>)
    requires |ops| == |vs| == 2 && Writes(ops[0], vs[0], e) && Writes(ops[1], vs[1], f)
    ensures AllOk(ops) && AllFit(ops, vs) && EncodeAll(ops, vs, pos) == e + f
  {
    hide Encode, Fits, OpOk, EncodeAll;
    EncodeHead(ops, vs, pos, e);
    EncodeHead(ops[1..], vs[1..], pos + |e|, f);
    EncodeNone(ops[1..][1..], vs[1..][1..], pos + |e| + |f|);
    assert e + (f + []) == e + f;
  }

  lemma EncodeThree(ops: seq<Op>, vs: seq<Val>, pos: nat, e: seq<bool>, f: seq<bool>, g: seq<bool>)
    requires |ops| == |vs| == 3
    requires Writes(ops[0], vs[0], e) && Writes(ops[1], vs[1], f) && Writes(ops[2], vs[2], g)
    ensures AllOk(ops) && AllFit(ops, vs) && EncodeAll(ops, vs, pos) == e + f + g
  {
    hide Encode, Fits, OpOk, EncodeAll;
    EncodeTwo(ops[1..], vs[1..], pos + |e|, f, g);
    EncodeHead(ops, vs, pos, e);
    assert e + (f + g) == e + f + g;
  }

  lemma WritesInt(min: int32, max: int32, i: int32, bits: nat)
    requires min < max && min <= i <= max && bits > 0 && Pow2(bits - 1) <= max - min < Pow2(bits)
    ensures Writes(Int(min, max), VInt(i), BitsOf(i - min, bits))
  {
    hide BitsRequired, BitsOf, Pow2;
    WidthIs(min, max, bits);
    OffsetRoundTrip(i, min, max);
  }

  lemma WritesBits(u: u32, n: nat)
    requires 0 < n <= 32
    ensures Writes(UBits(n), VBits(u), BitsOf(u, n))
  {
    hide BitsOf;
  }

  lemma WritesLong(w: u64)
    ensures Writes(UInt64, VLong(w), MemBits(LeBytes(w, 8)))
  {
    hide BitsOf, MemBits, LeBytes;
    LongBits(w);
  }

  /** The two words of a 64-bit value are its eight bytes. */
  lemma LongBits(uid: u64)
    ensures MemBits(LeBytes(uid, 8)) == BitsOf(uid % 0x1_0000_0000, 32) + BitsOf(uid / 0x1_0000_0000, 32)
  {
    hide LeBytes, BitsOf, MemBits, ValueOf;
    var s := BitsOf(uid % 0x1_0000_0000, 32) + BitsOf(uid / 0x1_0000_0000, 32);
    LongNumber(uid);
    LeBytesOfBits(s, 8);
    MemBitsBytesOf(s);
  }

  /** A command byte and a session id. */
  lemma HeaderBits(cmd: byte, sid: u16)
    ensures MemBits([cmd] + LeBytes(sid, 2)) == BitsOf(cmd, 8) + BitsOf(sid, 16)
  {
    hide LeBytes, BitsOf, MemBits, Pow2;
    MemBitsConcat([cmd], LeBytes(sid, 2));
    MemBitsSingle(cmd);
    Pow2Literals();
    LeBytesBits(sid, 2);
  }

  // ---------------------------------------------------------------- the layouts

  lemma SmallPowers()
    ensures Pow2(3) == 8 && Pow2(4) == 16 && Pow2(5) == 32 && Pow2(6) == 64 && Pow2(7) == 128 && Pow2(8) == 256
  {
    Pow2Small();
  }

  lemma LayoutA(p: Packet, pos: nat)
    requires p.TestPacketA? && InRange(p)
    ensures AllFit(SchemaOf(0), Fields(p)) && EncodeAll(SchemaOf(0), Fields(p), pos) == FieldBits(p)
  {
    hide EncodeAll, BitsOf, Pow2, Writes;
    SmallPowers();
    WritesInt(-10, 10, p.a, 5);
    WritesInt(-20, 20, p.b, 6);
    WritesInt(-30, 30, p.c, 6);
    EncodeThree(SchemaOf(0), Fields(p), pos, BitsOf(p.a + 10, 5), BitsOf(p.b + 20, 6), BitsOf(p.c + 30, 6));
  }

  lemma LayoutB(p: Packet, pos: nat)
    requires p.TestPacketB? && InRange(p)
    ensures AllFit(SchemaOf(1), Fields(p)) && EncodeAll(SchemaOf(1), Fields(p), pos) == FieldBits(p)
  {
    hide EncodeAll, BitsOf, Pow2, Writes;
    SmallPowers();
    WritesInt(-5, 5, p.x, 4);
    WritesInt(-5, 5, p.y, 4);
    EncodeTwo(SchemaOf(1), Fields(p), pos, BitsOf(p.x + 5, 4), BitsOf(p.y + 5, 4));
  }

  /** A run of byte-sized integers is its bytes. */
  lemma {:induction false} LayoutBytes(ops: seq<Op>, vs: seq<Val>, m: seq<byte>, pos: nat)
    requires |ops| == |vs| == |m|
    requires forall i :: 0 <= i < |m| ==> ops[i] == Int(0, 255) && vs[i] == VInt(m[i])
    ensures AllOk(ops) && AllFit(ops, vs) && EncodeAll(ops, vs, pos) == MemBits(m)
  {
    hide Encode, BitsOf, Pow2;
    if m == [] {
      EncodeNone(ops, vs, pos);
    } else {
      SmallPowers();
      WritesInt(0, 255, m[0], 8);
      LayoutBytes(ops[1..], vs[1..], m[1..], pos + 8);
      EncodeHead(ops, vs, pos, BitsOf(m[0], 8));
    }
  }

  lemma LayoutShort(ops: seq<Op>, vs: seq<Val>, cmd: byte, sid: u16, pos: nat)
    requires ops == [UBits(8), UBits(16)] && vs == [VBits(cmd), VBits(sid)]
    ensures AllOk(ops) && AllFit(ops, vs) && EncodeAll(ops, vs, pos) == MemBits([cmd] + LeBytes(sid, 2))
  {
    hide EncodeAll, BitsOf, MemBits, LeBytes, Writes;
    HeaderBits(cmd, sid);
    WritesBits(cmd, 8);
    WritesBits(sid, 16);
    EncodeTwo(ops, vs, pos, BitsOf(cmd, 8), BitsOf(sid, 16));
  }

  lemma LayoutLong(ops: seq<Op>, vs: seq<Val>, cmd: byte, sid: u16, rest: seq<byte>, pos: nat)
    requires |ops| == |vs| == 3 && ops[..2] == [UBits(8), UBits(16)] && vs[..2] == [VBits(cmd), VBits(sid)]
    requires Writes(ops[2], vs[2], MemBits(rest))
    ensures AllOk(ops) && AllFit(ops, vs) && EncodeAll(ops, vs, pos) == MemBits([cmd] + LeBytes(sid, 2) + rest)
  {
    hide EncodeAll, BitsOf, MemBits, LeBytes, Writes;
    assert ops[0] == ops[..2][0] && ops[1] == ops[..2][1] && vs[0] == vs[..2][0] && vs[1] == vs[..2][1];
    HeaderBits(cmd, sid);
    WritesBits(cmd, 8);
    WritesBits(sid, 16);
    EncodeThree(ops, vs, pos, BitsOf(cmd, 8), BitsOf(sid, 16), MemBits(rest));
    MemBitsConcat([cmd] + LeBytes(sid, 2), rest);
  }

  lemma LayoutStop(ops: seq<Op>, vs: seq<Val>, cmd: byte, sid: u16, reason: byte, pos: nat)
    requires ops == [UBits(8), UBits(16), UBits(8)] && vs == [VBits(cmd), VBits(sid), VBits(reason)]
    ensures AllOk(ops) && AllFit(ops, vs)
    ensures EncodeAll(ops, vs, pos) == MemBits([cmd] + LeBytes(sid, 2) + [reason])
  {
    hide EncodeAll, BitsOf, MemBits, LeBytes, Writes;
    MemBitsSingle(reason);
    WritesBits(reason, 8);
    LayoutLong(ops, vs, cmd, sid, [reason], pos);
  }

  lemma LayoutStart(ops: seq<Op>, vs: seq<Val>, cmd: byte, sid: u16, uid: u64, pos: nat)
    requires ops == [UBits(8), UBits(16), UInt64] && vs == [VBits(cmd), VBits(sid), VLong(uid)]
    ensures AllOk(ops) && AllFit(ops, vs)
    ensures EncodeAll(ops, vs, pos) == MemBits([cmd] + LeBytes(sid, 2) + LeBytes(uid, 8))
  {
    hide EncodeAll, BitsOf, MemBits, LeBytes, Writes;
    WritesLong(uid);
    LayoutLong(ops, vs, cmd, sid, LeBytes(uid, 8), pos);
  }

  /** Every packet has its type number, and its fields are serialized in this layout, wherever they stand. */
  lemma PacketLayout(p: Packet, pos: nat)
    requires InRange(p)
    ensures TypeOf(p) == TypeNumber(p) && Known(TypeOf(p)) && AllFit(SchemaOf(TypeOf(p)), Fields(p))
    ensures EncodeAll(SchemaOf(TypeOf(p)), Fields(p), pos) == FieldBits(p)
  {
    hide EncodeAll, BitsOf, MemBits, LeBytes, AllFit;
    match p
    case TestPacketA(_, _, _) => LayoutA(p, pos);
    case TestPacketB(_, _) => LayoutB(p, pos);
    case TestPacketC(data) => LayoutBytes(SchemaOf(2), Fields(p), data, pos);
    case ConnectionStartReq(cmd, sid, uid) => LayoutStart(SchemaOf(101), Fields(p), cmd, sid, uid, pos);
    case ConnectionStartRsp(cmd, sid) => LayoutShort(SchemaOf(102), Fields(p), cmd, sid, pos);
    case ConnectionStopReq(cmd, sid, reason) => LayoutStop(SchemaOf(103), Fields(p), cmd, sid, reason, pos);
    case ConnectionStopRsp(cmd, sid, reason) => LayoutStop(SchemaOf(104), Fields(p), cmd, sid, reason, pos);
    case ConnectionHeartBeat(cmd, sid) => LayoutShort(SchemaOf(105), Fields(p), cmd, sid, pos);
  }

  // ---------------------------------------------------------------- packets as bytes

  lemma WholeBytes(m: seq<byte>, w: seq<bool>)
    requires w == MemBits(m)
    ensures Message(w) == m
  {
    hide MemBits, BytesOf;
    BytesOfMemBits(m);
    assert Pad8(w) == w;
  }

  /** The bytes of the fields alone: a number of at most 24 bits for the narrow test packets. */
  lemma PacketBytes(p: Packet)
    requires InRange(p)
    ensures match p
            case TestPacketA(a, b, c) =>
              Message(FieldBits(p)) == LeBytes(a + 10 + 0x20 * (b + 20) + 0x800 * (c + 30), 3)
            case TestPacketB(x, y) => Message(FieldBits(p)) == [x + 5 + 0x10 * (y + 5)]
            case TestPacketC(data) => Message(FieldBits(p)) == data
            case ConnectionStartReq(cmd, sid, uid) =>
              Message(FieldBits(p)) == [cmd] + LeBytes(sid, 2) + LeBytes(uid, 8)
            case ConnectionStartRsp(cmd, sid) => Message(FieldBits(p)) == [cmd] + LeBytes(sid, 2)
            case ConnectionStopReq(cmd, sid, reason) => Message(FieldBits(p)) == [cmd] + LeBytes(sid, 2) + [reason]
            case ConnectionStopRsp(cmd, sid, reason) => Message(FieldBits(p)) == [cmd] + LeBytes(sid, 2) + [reason]
            case ConnectionHeartBeat(cmd, sid) => Message(FieldBits(p)) == [cmd] + LeBytes(sid, 2)
  {
    hide BitsOf, MemBits, LeBytes, Message;
    match p
    case TestPacketA(a, b, c) => BytesA(a + 10, b + 20, c + 30);
    case TestPacketB(x, y) => BytesB(x + 5, y + 5);
    case TestPacketC(data) => WholeBytes(data, FieldBits(p));
    case ConnectionStartReq(cmd, sid, uid) => WholeBytes([cmd] + LeBytes(sid, 2) + LeBytes(uid, 8), FieldBits(p));
    case ConnectionStartRsp(cmd, sid) => WholeBytes([cmd] + LeBytes(sid, 2), FieldBits(p));
    case ConnectionStopReq(cmd, sid, reason) => WholeBytes([cmd] + LeBytes(sid, 2) + [reason], FieldBits(p));
    case ConnectionStopRsp(cmd, sid, reason) => WholeBytes([cmd] + LeBytes(sid, 2) + [reason], FieldBits(p));
    case ConnectionHeartBeat(cmd, sid) => WholeBytes([cmd] + LeBytes(sid, 2), FieldBits(p));
  }

  lemma MessageNumber(s: seq<bool>, n: nat)
    requires n == (|s| + 7) / 8
    ensures Message(s) == LeBytes(ValueOf(s), n)
  {
    hide LeBytes, BytesOf, ValueOf, AlignLen, Zeros;
    AlignLenAligns(|s|);
    ValuePadded(s, AlignLen(|s|));
    LeBytesOfBits(Pad8(s), n);
  }

  lemma Shifts(x: nat)
    ensures Shl(x, 4) == 0x10 * x && Shl(x, 5) == 0x20 * x && Shl(x, 11) == 0x800 * x
  {
    ShlByte(x);
    ShlAdd(x, 8, 3);
    assert Shl(Shl(x, 8), 3) == 8 * Shl(x, 8);
  }

  lemma BytesA(a: nat, b: nat, c: nat)
    requires a < 32 && b < 64 && c < 64
    ensures Message(BitsOf(a, 5) + BitsOf(b, 6) + BitsOf(c, 6)) == LeBytes(a + 0x20 * b + 0x800 * c, 3)
  {
    hide BitsOf, LeBytes, ValueOf, Shl, Pow2, Message;
    var s := BitsOf(a, 5) + BitsOf(b, 6);
    SmallPowers();
    ValueOfSmall(a, 5);
    ValueOfSmall(b, 6);
    ValueOfSmall(c, 6);
    ValueConcat(BitsOf(a, 5), BitsOf(b, 6));
    ValueConcat(s, BitsOf(c, 6));
    Shifts(b);
    Shifts(c);
    MessageNumber(s + BitsOf(c, 6), 3);
  }

  lemma BytesB(x: nat, y: nat)
    requires x < 16 && y < 16
    ensures Message(BitsOf(x, 4) + BitsOf(y, 4)) == [x + 0x10 * y]
  {
    hide BitsOf, ValueOf, Shl, Pow2, Message;
    var s := BitsOf(x, 4) + BitsOf(y, 4);
    SmallPowers();
    ValueOfSmall(x, 4);
    ValueOfSmall(y, 4);
    ValueConcat(BitsOf(x, 4), BitsOf(y, 4));
    Shifts(y);
    MessageNumber(s, 1);
    assert LeBytes(x + 0x10 * y, 1) == [x + 0x10 * y];
  }
}
