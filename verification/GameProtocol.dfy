/** The client's side of the handshake, and the two sides together. */
module GameProtocol {
  import opened Bits
  import opened Endpoints
  import opened Memory
  import opened Schema
  import opened Packets
  import opened SessionTable
  import opened Handshake
  import opened HandshakeRuns
  import opened ServerLoop
  import CsBitPacker
  import CsBitUnpacker
  import Client = CsStreams
  import Extension = SerializationExtension

  const BUFFER_SIZE_CLIENT := 1024

  /** The request, written into a zeroed buffer of which the whole is sent. */
  method WriteStartRequest(cmd: byte, sid: u16, uid: u64) returns (data: seq<byte>)
    ensures |data| == BUFFER_SIZE_CLIENT && data[..11] == Plain(ConnectionStartReq(cmd, sid, uid))
  {
    hide EncodeAll, SchemaOf, Fields, Image, Pad32, AllFit, LeBytes, CsBitPacker.BitWriter.Valid;
    var p := ConnectionStartReq(cmd, sid, uid);
    RequestFits(cmd, sid, uid);
    var writeStream := new Client.WriteStream(seq(BUFFER_SIZE_CLIENT, _ => 0), BUFFER_SIZE_CLIENT);
    writeStream.writer.Counts();
    Extension.SerializeAll(writeStream, SchemaOf(101), Fields(p));
    writeStream.Flush();
    assert writeStream.writer.written == EncodeAll(SchemaOf(101), Fields(p), 0);
    ImagePrefix(writeStream.writer.before, writeStream.writer.written);
    data := writeStream.GetData();
  }

  lemma RequestFits(cmd: byte, sid: u16, uid: u64)
    ensures var p := ConnectionStartReq(cmd, sid, uid);
            && TypeOf(p) == 101 && AllFit(SchemaOf(101), Fields(p))
            && |EncodeAll(SchemaOf(101), Fields(p), 0)| == 88
            && Plain(p) == Message(EncodeAll(SchemaOf(101), Fields(p), 0))
            && |Plain(p)| == 11
  {
    hide MemBits, EncodeAll;
    RequestBits(cmd, sid, uid);
  }

  /** The response, read from a receive buffer of the client's size; narrow fields truncate. */
  method ReadStartResponse(buffer: seq<byte>) returns (cmd: byte, sid: u16)
    requires |buffer| == BUFFER_SIZE_CLIENT
    ensures ClientReads(buffer) == [VBits(cmd), VBits(sid)]
  {
    hide MemBits, CsBitUnpacker.BitReader.Valid, Extension.LenientTake;
    var readStream := new Client.ReadStream(buffer, BUFFER_SIZE_CLIENT);
    assert buffer[..BUFFER_SIZE_CLIENT] == buffer;
    var first := Extension.DeserializeBits(readStream, 8);
    var second := Extension.DeserializeBits(readStream, 16);
    ResponseRead(MemBits(buffer), first, second);
    cmd, sid := first % 0x100, second % 0x1_0000;
  }

  lemma ResponseRead(s: seq<bool>, first: u32, second: u32)
    requires |s| >= 24
    requires first == Extension.LenientTake(s, 0, 8).value
    requires second == Extension.LenientTake(s, Extension.LenientTake(s, 0, 8).pos, 16).value
    ensures first < 0x100 && second < 0x1_0000
    ensures Extension.LenientAll(SchemaOf(102), s, 0).value == [VBits(first), VBits(second)]
  {
    hide ValueOf, Pow2;
    Pow2Small();
    ValueBound(s[0..8]);
    ValueBound(s[8..24]);
    var ops := SchemaOf(102);
    assert ops[1..] == [UBits(16)] && ops[1..][1..] == [];
    assert Extension.LenientAll(ops[1..][1..], s, 24).value == [];
    assert Extension.LenientAll(ops[1..], s, 8).value == [VBits(second)];
  }

  /**
    One handshake, bytes to bytes, with an idle server in any state: the client's
    request is served, and the session id the client decodes from the reply is the
    id under which the server now holds that user's session, with the client's
    address as its peer. Every earlier reply stays sent.
   */
  method StartSession(server: Server, from: Address, uid: u64, stale: u64) returns (cmd: byte, sid: u16)
    requires server.Valid() && server.inbox == []
    modifies server, server.sessions
    ensures server.Valid() && server.inbox == [] && cmd == RUDP_CMD_CONNECTION_START_RSP
    ensures server.Abs() == Start(old(server.Abs()), from, uid)
    ensures Find(server.Abs().table, uid) == Some(sid)
    ensures sid in server.Abs().table.bySid && server.Abs().table.bySid[sid] == Entry(uid, from)
  {
    hide Start, Plain, RequestUid, Seen, IsStart, ClientReads, Extension.LenientAll;
    var request := WriteStartRequest(101, 0, uid);
    RequestReceived(0, uid, request[11..], from, stale);
    assert Plain(ConnectionStartReq(101, 0, uid)) + request[11..] == request;
    server.inbox := [Arrival(from, request, stale)];
    OneServed(server.Abs(), Arrival(from, request, stale), uid);
    server.ReceivePackets();
    StartReplies(old(server.Abs()), from, uid);
    var reply := server.sent[|server.sent| - 1];
    var buffer := reply.data + seq(BUFFER_SIZE_CLIENT - |reply.data|, _ => 0);
    ReplyReads(Next(old(server.Abs()).table), buffer[|reply.data|..]);
    assert reply.data + buffer[|reply.data|..] == buffer;
    cmd, sid := ReadStartResponse(buffer);
  }

  lemma OneServed(st: State, a: Arrival, uid: u64)
    requires IsStart(a) && RequestUid(Seen(a.data), a.stale) == uid
    ensures Batch([a]) == 1 && [a][..1] == [a] && Serve(st, [a]) == Start(st, a.from, uid)
  {
    hide RequestUid, Seen, Start;
    assert Batch([a][1..]) == 0;
    assert [a][..0] == [];
  }

  lemma StartReplies(st: State, from: Address, uid: u64)
    ensures var r := Start(st, from, uid); var sid := Next(st.table);
            && r.sent == st.sent + [Datagram(from, ReplyBytes(sid))] && |ReplyBytes(sid)| == 3
            && Find(r.table, uid) == Some(sid)
            && sid in r.table.bySid && r.table.bySid[sid] == Entry(uid, from)
  {
    hide LeBytes, Plain, ReplyBytes;
    WireForms(102, Next(st.table), 0);
  }

  /** A client program's run: every request is delivered to a new server and answered. */
  method StartSessions(rs: seq<Request>) returns (server: Server)
    ensures fresh(server) && server.Valid() && server.Abs() == Serve(INITIAL, AllArriving(rs))
    ensures |server.sent| == |rs|
    ensures AllRenewed(Uids(AllArriving(rs))) ==>
              && Inverse(server.Abs().table)
              && forall i :: 0 <= i < |rs| ==>
                   rs[i].uid in Uids(AllArriving(rs)) && Served(server.Abs(), AllArriving(rs), rs[i].uid)
  {
    hide Serve, Uids, Served, Inverse, Senders, AllRenewed, Arriving;
    server := new Server();
    var arrivals := AllArriving(rs);
    server.inbox := arrivals;
    NoneEmpty(rs);
    server.ReceivePackets();
    ServeIsRun(arrivals);
    ClientsServed(rs);
    if AllRenewed(Uids(arrivals)) {
      HandshakeRun(arrivals);
    }
  }

  lemma {:induction false} NoneEmpty(rs: seq<Request>)
    ensures var a := AllArriving(rs); Batch(a) == |a| && a[..|a|] == a
  {
    hide Arriving, Plain, IsStart;
    var a := AllArriving(rs);
    if Batch(a) < |a| {
      ArrivingServed(rs[Batch(a)]);
      StartNotEmpty(a[Batch(a)]);
    }
  }

  lemma StartNotEmpty(a: Arrival)
    requires IsStart(a)
    ensures a.data != []
  {
  }
}
