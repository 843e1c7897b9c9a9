/** The packet types the factory knows: their fields, schemas and type numbers. */
module Packets {
  import opened Bits
  import opened Width
  import opened Schema

  const TEST_PACKET_A := 0
  const TEST_PACKET_B := 1
  const TEST_PACKET_C := 2
  const RUDP_CMD_CONNECTION_START_REQ := 101
  const RUDP_CMD_CONNECTION_START_RSP := 102
  const RUDP_CMD_CONNECTION_STOP_REQ := 103
  const RUDP_CMD_CONNECTION_STOP_RSP := 104
  const RUDP_CMD_HEARTBEAT := 105

  datatype Packet =
    | TestPacketA(a: int32, b: int32, c: int32)
    | TestPacketB(x: int32, y: int32)
    | TestPacketC(data: seq<byte>)
    | ConnectionStartReq(cmd: byte, sid: u16, uid: u64)
    | ConnectionStartRsp(cmd: byte, sid: u16)
    | ConnectionStopReq(cmd: byte, sid: u16, reason: byte)
    | ConnectionStopRsp(cmd: byte, sid: u16, reason: byte)
    | ConnectionHeartBeat(cmd: byte, sid: u16)

  function TypeOf(p: Packet): (t: int32)
    ensures 0 <= t <= 105
  {
    match p
    case TestPacketA(_, _, _) => 0
    case TestPacketB(_, _) => 1
    case TestPacketC(_) => 2
    case ConnectionStartReq(_, _, _) => 101
    case ConnectionStartRsp(_, _) => 102
    case ConnectionStopReq(_, _, _) => 103
    case ConnectionStopRsp(_, _, _) => 104
    case ConnectionHeartBeat(_, _) => 105
  }

  /** `CreatePacket`: whether the factory has a packet of this type. */
  predicate Known(t: int) {
    t in {0, 1, 2, 101, 102, 103, 104, 105}
  }

  /** The serialize calls of a packet type. */
  function SchemaOf(t: int): (ops: seq<Op>)
    requires Known(t)
    ensures AllOk(ops)
  {
    match t
    case 0 => [Int(-10, 10), Int(-20, 20), Int(-30, 30)]
    case 1 => [Int(-5, 5), Int(-5, 5)]
    case 2 => seq(16, _ => Int(0, 255))
    case 101 => [UBits(8), UBits(16), UInt64]
    case 102 => [UBits(8), UBits(16)]
    case 103 => [UBits(8), UBits(16), UBits(8)]
    case 104 => [UBits(8), UBits(16), UBits(8)]
    case _ => [UBits(8), UBits(16)]
  }

  /** The field values a packet serializes. */
  function Fields(p: Packet): seq<Val> {
    match p
    case TestPacketA(a, b, c) => [VInt(a), VInt(b), VInt(c)]
    case TestPacketB(x, y) => [VInt(x), VInt(y)]
    case TestPacketC(data) => seq(|data|, i requires 0 <= i < |data| => VInt(data[i]))
    case ConnectionStartReq(cmd, sid, uid) => [VBits(cmd), VBits(sid), VLong(uid)]
    case ConnectionStartRsp(cmd, sid) => [VBits(cmd), VBits(sid)]
    case ConnectionStopReq(cmd, sid, reason) => [VBits(cmd), VBits(sid), VBits(reason)]
    case ConnectionStopRsp(cmd, sid, reason) => [VBits(cmd), VBits(sid), VBits(reason)]
    case ConnectionHeartBeat(cmd, sid) => [VBits(cmd), VBits(sid)]
  }

  /** The ranges the serialize calls assert; the other fields are bounded by their types. */
  predicate InRange(p: Packet) {
    match p
    case TestPacketA(a, b, c) => -10 <= a <= 10 && -20 <= b <= 20 && -30 <= c <= 30
    case TestPacketB(x, y) => -5 <= x <= 5 && -5 <= y <= 5
    case TestPacketC(data) => |data| == 16
    case _ => true
  }

  /** The packet object after its fields have been read. Narrow fields truncate, as assignment does. */
  function FromFields(t: int, vs: seq<Val>): Packet
    requires Known(t) && AllFit(SchemaOf(t), vs)
  {
    match t
    case 0 => TestPacketA(vs[0].i, vs[1].i, vs[2].i)
    case 1 => TestPacketB(vs[0].i, vs[1].i)
    case 2 => TestPacketC(seq(16, k requires 0 <= k < 16 => assert Fits(SchemaOf(2)[k], vs[k]); vs[k].i % 0x100))
    case 101 => ConnectionStartReq(vs[0].u % 0x100, vs[1].u % 0x1_0000, vs[2].w)
    case 102 => ConnectionStartRsp(vs[0].u % 0x100, vs[1].u % 0x1_0000)
    case 103 => ConnectionStopReq(vs[0].u % 0x100, vs[1].u % 0x1_0000, vs[2].u % 0x100)
    case 104 => ConnectionStopRsp(vs[0].u % 0x100, vs[1].u % 0x1_0000, vs[2].u % 0x100)
    case _ => ConnectionHeartBeat(vs[0].u % 0x100, vs[1].u % 0x1_0000)
  }

  /** The fields are in range and need no masking. */
  predicate Exact(ops: seq<Op>, vs: seq<Val>) {
    && AllFit(ops, vs)
    && forall i :: 0 <= i < |ops| && ops[i].UBits? ==>
         ops[i].n <= 16 && vs[i].u < (if ops[i].n == 8 then 0x100 else 0x1_0000)
  }

  lemma FieldsExact(p: Packet)
    requires InRange(p)
    ensures Known(TypeOf(p)) && Exact(SchemaOf(TypeOf(p)), Fields(p))
  {
  }

  lemma FromFieldsInverts(p: Packet)
    requires InRange(p) && AllFit(SchemaOf(TypeOf(p)), Fields(p))
    ensures FromFields(TypeOf(p), Fields(p)) == p
  {
  }

  lemma WidthsAre8Or16(t: int, i: nat)
    requires Known(t) && i < |SchemaOf(t)| && SchemaOf(t)[i].UBits?
    ensures SchemaOf(t)[i].n == 8 || SchemaOf(t)[i].n == 16
  {
  }

  lemma ExactOnWire(t: int, vs: seq<Val>)
    requires Known(t) && Exact(SchemaOf(t), vs)
    ensures WireAll(SchemaOf(t), vs) == vs
  {
    hide SchemaOf, WireAll, Fits, Pow2;
    var ops := SchemaOf(t);
    Pow2Small();
    forall i | 0 <= i < |ops| && ops[i].UBits?
      ensures vs[i].VBits? && vs[i].u < Pow2(ops[i].n)
    {
      FitsBits(ops[i], vs[i]);
      WidthsAre8Or16(t, i);
    }
    WireExact(ops, vs);
  }

  lemma FitsBits(op: Op, v: Val)
    requires Fits(op, v) && op.UBits?
    ensures v.VBits?
  {
  }

  /** An in-range packet's fields fit its schema, survive the wire unchanged, and rebuild the packet. */
  lemma FieldsFit(p: Packet)
    requires InRange(p)
    ensures Known(TypeOf(p)) && AllFit(SchemaOf(TypeOf(p)), Fields(p))
    ensures WireAll(SchemaOf(TypeOf(p)), Fields(p)) == Fields(p)
    ensures FromFields(TypeOf(p), Fields(p)) == p
  {
    hide TypeOf, SchemaOf, Fields, FromFields, WireAll, InRange, AllFit;
    FieldsExact(p);
    ExactOnWire(TypeOf(p), Fields(p));
    FromFieldsInverts(p);
  }

  lemma {:induction false} WireAt(ops: seq<Op>, vs: seq<Val>, i: nat)
    requires AllOk(ops) && AllFit(ops, vs) && i < |ops|
    ensures |WireAll(ops, vs)| == |ops| && WireAll(ops, vs)[i] == Wire(ops[i], vs[i])
  {
    hide Wire, Fits;
    if |ops| > 1 {
      WireAt(ops[1..], vs[1..], if i == 0 then 0 else i - 1);
    }
  }

  /** A field that comes back unchanged was within its width. */
  lemma UnmaskedSmall(op: Op, v: Val)
    requires OpOk(op) && Fits(op, v) && Wire(op, v) == v && op.UBits? && (op.n == 8 || op.n == 16)
    ensures v.VBits? && v.u < (if op.n == 8 then 0x100 else 0x1_0000)
  {
    hide ValueOf, BitsOf, Pow2;
    Pow2Small();
    ValueBound(BitsOf(v.u, op.n));
  }

  lemma DecodedExact(t: int, vs: seq<Val>)
    requires Known(t) && AllFit(SchemaOf(t), vs) && WireAll(SchemaOf(t), vs) == vs
    ensures Exact(SchemaOf(t), vs)
  {
    hide SchemaOf, WireAll, Wire, Fits;
    var ops := SchemaOf(t);
    forall i | 0 <= i < |ops| && ops[i].UBits?
      ensures vs[i].VBits? && ops[i].n <= 16 && vs[i].u < (if ops[i].n == 8 then 0x100 else 0x1_0000)
    {
      WireAt(ops, vs, i);
      WidthsAre8Or16(t, i);
      UnmaskedSmall(ops[i], vs[i]);
    }
  }

  /** Whatever was decoded is an in-range packet whose fields are the decoded ones. */
  lemma DecodedInRange(t: int, vs: seq<Val>)
    requires Known(t) && Exact(SchemaOf(t), vs)
    ensures var p := FromFields(t, vs);
            InRange(p) && TypeOf(p) == t && Fields(p) == vs
  {
    match t
    case 0 => Triple(vs);
    case 1 => Pair(vs);
    case 2 => DecodedC(vs);
    case 101 => Triple(vs);
    case 102 => Pair(vs);
    case 103 => Triple(vs);
    case 104 => Triple(vs);
    case _ => Pair(vs);
  }

  lemma Pair(vs: seq<Val>)
    requires |vs| == 2
    ensures vs == [vs[0], vs[1]]
  {
  }

  lemma Triple(vs: seq<Val>)
    requires |vs| == 3
    ensures vs == [vs[0], vs[1], vs[2]]
  {
  }

  lemma DecodedC(vs: seq<Val>)
    requires AllFit(SchemaOf(2), vs)
    ensures Fields(FromFields(2, vs)) == vs
  {
    forall k | 0 <= k < 16
      ensures vs[k].VInt? && 0 <= vs[k].i <= 255
    {
      assert Fits(SchemaOf(2)[k], vs[k]);
    }
  }
}
