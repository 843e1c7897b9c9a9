/**
  The start handshake, bytes to bytes: which session table and which replies a
  sequence of arriving datagrams produces, and what the users can rely on.
 */
module Handshake {
  import opened Bits
  import opened Endpoints
  import opened Memory
  import opened Schema
  import opened Packets
  import opened PacketLayouts
  import opened SessionTable
  import Extension = SerializationExtension

  const MAX_PKG_LENGTH := 500

  /** A datagram, and what the request object's uid field happens to hold before it is read. */
  datatype Arrival = Arrival(from: Address, data: seq<byte>, stale: u64)

  datatype State = State(table: Table, sent: seq<Datagram>)

  const INITIAL := State(EMPTY, [])

  /** What fits the server's receive buffer. */
  function Seen(data: seq<byte>): (m: seq<byte>)
    ensures |m| == Min(|data|, 500)
  {
    data[..Min(|data|, MAX_PKG_LENGTH)]
  }

  /** The serialized form of a packet's fields alone, as the handshake sends them. */
  function Plain(p: Packet): seq<byte>
    requires InRange(p)
  {
    FieldsFit(p);
    Message(EncodeAll(SchemaOf(TypeOf(p)), Fields(p), 0))
  }

  function ReplyBytes(sid: u16): seq<byte> {
    Plain(ConnectionStartRsp(102, sid))
  }

  /** The uid a request carries; the result of reading is ignored, so a short one leaves the field as it was. */
  function RequestUid(m: seq<byte>, stale: u64): u64 {
    match DecodeAll(SchemaOf(101), MemBits(m), 0)
    case Got(vs, _) =>
      RequestFields(MemBits(m));
      vs[2].w
    case _ => stale
  }

  lemma RequestFields(s: seq<bool>)
    ensures DecodeAll(SchemaOf(101), s, 0).Got? <==> |s| >= 88
    ensures DecodeAll(SchemaOf(101), s, 0).Got? ==>
              var vs := DecodeAll(SchemaOf(101), s, 0).value; |vs| == 3 && vs[2].VLong?
  {
    hide ValueOf, DecodeAll;
    var ops := SchemaOf(101);
    assert ops[1..] == [UBits(16), UInt64] && ops[1..][1..] == [UInt64] && ops[1..][1..][1..] == [];
    DecodeCons(ops, s, 0);
    if |s| >= 8 {
      DecodeCons(ops[1..], s, 8);
      if |s| >= 24 {
        DecodeCons(ops[1..][1..], s, 24);
        if |s| >= 88 {
          DecodeNil(ops[1..][1..][1..], s, 88);
        }
      }
    }
  }

  lemma DecodeCons(ops: seq<Op>, s: seq<bool>, pos: nat)
    requires AllOk(ops) && ops != []
    ensures var d := Decode(ops[0], s, pos);
            DecodeAll(ops, s, pos).Got? <==> d.Got? && DecodeAll(ops[1..], s, d.pos).Got?
    ensures DecodeAll(ops, s, pos).Got? ==>
              var d := Decode(ops[0], s, pos);
              DecodeAll(ops, s, pos).value == [d.value] + DecodeAll(ops[1..], s, d.pos).value
  {
    hide Decode;
  }

  lemma DecodeNil(ops: seq<Op>, s: seq<bool>, pos: nat)
    requires ops == []
    ensures DecodeAll(ops, s, pos) == Got([], pos)
  {
  }

  predicate IsStart(a: Arrival) {
    a.data != [] && a.data[0] == RUDP_CMD_CONNECTION_START_REQ
  }

  /** `ProcessStart`: a new session for the user, its peer set, and its id sent back. */
  function Start(st: State, from: Address, uid: u64): State {
    NextRegistered(st.table, uid);
    State(WithPeer(Produce(st.table, uid), Next(st.table), from),
          st.sent + [Datagram(from, ReplyBytes(Next(st.table)))])
  }

  lemma NextRegistered(t: Table, uid: u64)
    ensures var r := Produce(t, uid);
            Next(t) in r.bySid && r.bySid[Next(t)] == Entry(uid, NoAddress) && r.gen == t.gen + 1
  {
  }

  /** Dispatch on the first byte: only start requests have an effect. */
  function Handle(st: State, a: Arrival): State {
    if IsStart(a) then Start(st, a.from, RequestUid(Seen(a.data), a.stale)) else st
  }

  function Serve(st: State, arrivals: seq<Arrival>): State {
    if arrivals == [] then st
    else Handle(Serve(st, arrivals[..|arrivals| - 1]), arrivals[|arrivals| - 1])
  }

  /** The start requests among the arrivals: their users and their senders, in order. */
  function Uids(arrivals: seq<Arrival>): seq<u64> {
    if arrivals == [] then [] else
      var a := arrivals[|arrivals| - 1];
      Uids(arrivals[..|arrivals| - 1]) + (if IsStart(a) then [RequestUid(Seen(a.data), a.stale)] else [])
  }

  function Senders(arrivals: seq<Arrival>): (s: seq<Address>)
    ensures |s| == |Uids(arrivals)|
  {
    if arrivals == [] then [] else
      var a := arrivals[|arrivals| - 1];
      Senders(arrivals[..|arrivals| - 1]) + (if IsStart(a) then [a.from] else [])
  }

  // ---------------------------------------------------------------- bytes

  /** A message reads back from the front of any buffer, by either side's reader. */
  lemma PlainReadsBack(p: Packet, rest: seq<byte>)
    requires InRange(p)
    ensures Known(TypeOf(p)) && DecodeAll(SchemaOf(TypeOf(p)), MemBits(Plain(p) + rest), 0).Got?
    ensures DecodeAll(SchemaOf(TypeOf(p)), MemBits(Plain(p) + rest), 0).value == Fields(p)
    ensures Extension.LenientAll(SchemaOf(TypeOf(p)), MemBits(Plain(p) + rest), 0).value == Fields(p)
  {
    hide SchemaOf, Fields, TypeOf, EncodeAll, DecodeAll, WireAll, AllFit, MemBits, BytesOf, Zeros, InRange;
    hide Extension.LenientAll;
    FieldsFit(p);
    var ops := SchemaOf(TypeOf(p));
    var w := EncodeAll(ops, Fields(p), 0);
    MemBitsConcat(Plain(p), rest);
    AlignLenAligns(|w|);
    MemBitsBytesOf(Pad8(w));
    var s := MemBits(Plain(p) + rest);
    assert s[0..0 + |w|] == w;
    RoundTripAll(ops, Fields(p), s, 0);
    Extension.StrictIsLenient(ops, s, 0);
  }

  /** Alone, a packet is the bytes of its layout. */
  lemma PlainBits(p: Packet)
    requires InRange(p)
    ensures Plain(p) == Message(FieldBits(p))
  {
    hide SchemaOf, Fields, TypeOf, EncodeAll, FieldBits, InRange, Message;
    FieldsFit(p);
    PacketLayout(p, 0);
  }

  /** The client's request is command, session id and user id, low byte first; the reply command and session id. */
  lemma WireForms(cmd: byte, sid: u16, uid: u64)
    ensures Plain(ConnectionStartReq(cmd, sid, uid)) == [cmd] + LeBytes(sid, 2) + LeBytes(uid, 8)
    ensures ReplyBytes(sid) == [102] + LeBytes(sid, 2)
  {
    hide LeBytes, BitsOf, MemBits, Plain, Message, FieldBits;
    PlainBits(ConnectionStartReq(cmd, sid, uid));
    PlainBits(ConnectionStartRsp(102, sid));
    PacketBytes(ConnectionStartReq(cmd, sid, uid));
    PacketBytes(ConnectionStartRsp(102, sid));
  }

  lemma ReplyBits(sid: u16)
    ensures AllFit(SchemaOf(102), Fields(ConnectionStartRsp(102, sid)))
    ensures EncodeAll(SchemaOf(102), Fields(ConnectionStartRsp(102, sid)), 0) == MemBits([102] + LeBytes(sid, 2))
  {
    hide LeBytes, MemBits, EncodeAll, AllFit;
    PacketLayout(ConnectionStartRsp(102, sid), 0);
  }

  lemma RequestBits(cmd: byte, sid: u16, uid: u64)
    ensures AllFit(SchemaOf(101), Fields(ConnectionStartReq(cmd, sid, uid)))
    ensures EncodeAll(SchemaOf(101), Fields(ConnectionStartReq(cmd, sid, uid)), 0)
            == MemBits([cmd] + LeBytes(sid, 2) + LeBytes(uid, 8))
  {
    hide LeBytes, MemBits, EncodeAll, AllFit;
    PacketLayout(ConnectionStartReq(cmd, sid, uid), 0);
  }

  /** Dispatch agrees with decoding: the first byte is the decoded command. */
  lemma DispatchAgrees(m: seq<byte>)
    requires m != []
    ensures Decode(UBits(8), MemBits(m), 0) == Got(VBits(m[0]), 8)
  {
    hide ValueOf, BitsOf, Pow2;
    assert m == [m[0]] + m[1..];
    MemBitsConcat([m[0]], m[1..]);
    MemBitsSingle(m[0]);
    assert MemBits(m)[0..0 + 8] == BitsOf(m[0], 8);
    Pow2Small();
    ValueOfSmall(m[0], 8);
  }

  /** A client's request, with whatever follows it in its buffer, is a start request for its user. */
  lemma RequestReceived(sid: u16, uid: u64, rest: seq<byte>, from: Address, stale: u64)
    ensures var a := Arrival(from, Plain(ConnectionStartReq(101, sid, uid)) + rest, stale);
            IsStart(a) && RequestUid(Seen(a.data), stale) == uid
  {
    hide LeBytes, MemBits, Plain, DecodeAll, Extension.LenientAll;
    var m := Plain(ConnectionStartReq(101, sid, uid));
    WireForms(101, sid, uid);
    var data := m + rest;
    assert |m| == 11 && data[0] == 101;
    var tail := rest[..Min(|rest|, 489)];
    assert Seen(data) == m + tail;
    PlainReadsBack(ConnectionStartReq(101, sid, uid), tail);
  }

  /**
    The user id served, on arbitrary bytes: eight bytes of the datagram, low byte
    first; a datagram shorter than 11 bytes is served all the same, for a user id
    that was never sent.
   */
  lemma UidServed(m: seq<byte>, stale: u64)
    ensures RequestUid(m, stale) == if |m| < 11 then stale else LeNum(m[3..11])
  {
    hide DecodeAll, MemBits, LeNum;
    RequestFields(MemBits(m));
    if |m| >= 11 {
      LongRequest(m, stale, m[1..3], m[3..11]);
    }
  }

  /**
    Which arrivals are served: those whose first byte is 101, however short, each for
    the user id its bytes spell or, below 11 bytes, for the one never sent.
   */
  lemma StartRequests(arrivals: seq<Arrival>, a: Arrival)
    ensures var starts := a.data != [] && a.data[0] == 101;
            && Uids(arrivals + [a])
               == Uids(arrivals) + (if !starts then [] else [if |a.data| < 11 then a.stale else LeNum(a.data[3..11])])
            && Senders(arrivals + [a]) == Senders(arrivals) + (if starts then [a.from] else [])
  {
    hide RequestUid, LeNum;
    var m := Seen(a.data);
    assert (arrivals + [a])[..|arrivals|] == arrivals;
    UidServed(m, a.stale);
    assert |a.data| >= 11 ==> m[3..11] == a.data[3..11];
  }

  lemma LongRequest(m: seq<byte>, stale: u64, sid: seq<byte>, uid: seq<byte>)
    requires |m| >= 11 && sid == m[1..3] && uid == m[3..11]
    ensures RequestUid(m, stale) == LeNum(uid)
  {
    hide DecodeAll, MemBits, LeNum, LeBytes, Plain, Extension.LenientAll;
    NumBounds(sid, uid);
    WireForms(m[0], LeNum(sid), LeNum(uid));
    LeBytesOfNum(sid);
    LeBytesOfNum(uid);
    assert [m[0]] + sid + uid + m[11..] == m;
    PlainReadsBack(ConnectionStartReq(m[0], LeNum(sid), LeNum(uid)), m[11..]);
  }

  lemma NumBounds(sid: seq<byte>, uid: seq<byte>)
    requires |sid| == 2 && |uid| == 8
    ensures LeNum(sid) < 0x1_0000 && LeNum(uid) < 0x1_0000_0000_0000_0000
  {
    hide LeNum, MemBits, ValueOf, Pow2;
    LeNumValue(sid);
    LeNumValue(uid);
    ValueBound(MemBits(sid));
    ValueBound(MemBits(uid));
    Pow2Small();
    Pow2Register();
  }
}
