/** The server's receive loop and its start handler, over the C++ streams and the session manager. */
module ServerLoop {
  import opened Bits
  import opened Endpoints
  import opened Memory
  import opened Schema
  import opened Packets
  import opened SessionTable
  import opened Sessions
  import opened Handshake
  import BitPacker
  import BitUnpacker
  import Streams

  const BUFFER_SIZE := 512

  class Server {
    const sessions: SessionManager
    /** The socket: datagrams not yet received, and datagrams sent. */
    var inbox: seq<Arrival>
    var sent: seq<Datagram>

    ghost predicate Valid()
      reads this, sessions, sessions.sessionMap.Values
    {
      sessions.Valid()
    }

    ghost function Abs(): State
      reads this, sessions, sessions.sessionMap.Values
    {
      State(sessions.Abs(), sent)
    }

    constructor ()
      ensures Valid() && Abs() == INITIAL && inbox == [] && fresh(sessions)
    {
      inbox, sent := [], [];
      sessions := new SessionManager();
    }

    /** The socket's receive: zero bytes when nothing is waiting; a long datagram is cut to the buffer. */
    method ReceivePacket(msg: array<byte>) returns (from: Address, n: nat, stale: u64)
      requires msg.Length == MAX_PKG_LENGTH
      modifies this`inbox, msg
      ensures old(inbox) == [] ==> n == 0 && inbox == []
      ensures old(inbox) != [] ==>
                && inbox == old(inbox)[1..] && from == old(inbox)[0].from && stale == old(inbox)[0].stale
                && n == |Seen(old(inbox)[0].data)| && msg[..n] == Seen(old(inbox)[0].data)
    {
      if inbox == [] {
        return NoAddress, 0, 0;
      }
      var a := inbox[0];
      inbox := inbox[1..];
      var m := Seen(a.data);
      forall k | 0 <= k < |m| {
        msg[k] := m[k];
      }
      return a.from, |m|, a.stale;
    }

    /** Receive until the socket has nothing, or has an empty datagram, which looks the same. */
    method ReceivePackets()
      requires Valid()
      modifies this, sessions
      ensures Valid() && Abs() == Serve(old(Abs()), old(inbox)[..Batch(old(inbox))])
      ensures inbox == old(inbox)[Min(Batch(old(inbox)) + 1, |old(inbox)|)..]
    {
      hide Start, RequestUid, Seen;
      var msg := new byte[MAX_PKG_LENGTH](_ => 0);
      ghost var all, i := inbox, 0;
      while true
        invariant Valid() && 0 <= i <= Batch(all) && inbox == all[i..]
        invariant Abs() == Serve(old(Abs()), all[..i])
        invariant fresh(msg) && msg.Length == MAX_PKG_LENGTH
        decreases |inbox|
      {
        var busy := false;
        BatchAt(all, i);
        var from, n, stale := ReceivePacket(msg);
        if n > 0 {
          busy := true;
          assert msg[..n] == Seen(all[i].data);
          Dispatch(from, msg, n, stale);
          assert all[..i + 1][..i] == all[..i];
          i := i + 1;
        }
        if !busy {
          break;
        }
      }
    }

    /** Only start requests are handled; the other commands have no effect. */
    method Dispatch(from: Address, msg: array<byte>, n: nat, stale: u64)
      requires Valid() && 0 < n <= msg.Length == MAX_PKG_LENGTH
      modifies this`sent, sessions
      ensures Valid() && Abs() == if msg[0] == RUDP_CMD_CONNECTION_START_REQ
                                  then Start(old(Abs()), from, RequestUid(msg[..n], stale)) else old(Abs())
    {
      hide Start, RequestUid;
      var cmd := msg[0];
      if cmd == RUDP_CMD_CONNECTION_START_REQ {
        ProcessStart(from, msg, n, stale);
      }
    }

    /** A session already held is looked up, but always replaced. */
    method ProcessStart(from: Address, buffer: array<byte>, len: nat, stale: u64)
      requires Valid() && 4 * ((len + 3) / 4) <= buffer.Length
      modifies this`sent, sessions
      ensures Valid() && Abs() == Start(old(Abs()), from, RequestUid(buffer[..len], stale))
    {
      hide RequestUid, ReplyBytes, Produce, WithPeer;
      var uid := ReadUid(buffer, len, stale);
      var held := sessions.GetSessionByUid(uid);
      NextRegistered(sessions.Abs(), uid);
      var peer, sid := Establish(uid, from);
      var data := WriteReply(sid);
      sent := sent + [Datagram(peer, data)];
    }

    /** The session part of `ProcessStart`. */
    method Establish(uid: u64, from: Address) returns (peer: Address, sid: u16)
      requires Valid()
      modifies sessions
      ensures Valid() && sid == Next(old(sessions.Abs())) && peer == from
      ensures sid in Produce(old(sessions.Abs()), uid).bySid
      ensures sessions.Abs() == WithPeer(Produce(old(sessions.Abs()), uid), sid, from)
    {
      hide Produce, WithPeer;
      NextRegistered(sessions.Abs(), uid);
      var s := sessions.ProduceSession(uid);
      sessions.SetPeer(s, from);
      return s.peer, s.sid;
    }

    /** Decode the request; on failure its uid is what it was before. */
    static method ReadUid(buffer: array<byte>, len: nat, stale: u64) returns (uid: u64)
      requires 4 * ((len + 3) / 4) <= buffer.Length
      ensures uid == RequestUid(buffer[..len], stale)
    {
      hide DecodeAll, SchemaOf, MemBits, BitUnpacker.BitReader.Valid;
      var readStream := new Streams.ReadStream(buffer, len);
      RequestFields(MemBits(buffer[..len]));
      var ok, vs := readStream.DeserializeAll(SchemaOf(101));
      uid := if ok then vs[2].w else stale;
    }

    /** The reply: serialized into a stack buffer, of which the written bytes are sent. */
    static method WriteReply(sid: u16) returns (data: seq<byte>)
      ensures data == ReplyBytes(sid)
    {
      hide EncodeAll, SchemaOf, Fields, InRange, TypeOf, WireAll, AllFit, Image, Pad32, BitPacker.BitWriter.Valid;
      var buffer := new byte[BUFFER_SIZE](_ => 0);
      var rsp := ConnectionStartRsp(102, sid);
      ReplyFits(sid);
      var writeStream := new Streams.WriteStream(buffer, BUFFER_SIZE);
      writeStream.writer.Counts();
      var ok := writeStream.SerializeAll(SchemaOf(102), Fields(rsp));
      writeStream.Flush();
      assert writeStream.writer.written == EncodeAll(SchemaOf(102), Fields(rsp), 0);
      ImagePrefix(writeStream.writer.before, writeStream.writer.written);
      var bytes := writeStream.GetBytesProcessed();
      data := buffer[..bytes];
      assert data == buffer[..][..bytes];
    }
  }

  /** How many datagrams one call handles: those before the first empty one. */
  function Batch(inbox: seq<Arrival>): (n: nat)
    ensures n <= |inbox|
    ensures forall i :: 0 <= i < n ==> inbox[i].data != []
    ensures n < |inbox| ==> inbox[n].data == []
  {
    if inbox == [] || inbox[0].data == [] then 0 else 1 + Batch(inbox[1..])
  }

  lemma BatchAt(inbox: seq<Arrival>, i: nat)
    requires i <= Batch(inbox)
    ensures i < |inbox| ==> (i < Batch(inbox) <==> inbox[i].data != [])
    ensures i < |inbox| ==> (Seen(inbox[i].data) == [] <==> inbox[i].data == [])
    ensures i < |inbox| && inbox[i].data != [] ==> Seen(inbox[i].data)[0] == inbox[i].data[0]
  {
  }

  lemma ReplyFits(sid: u16)
    ensures var p := ConnectionStartRsp(102, sid);
            && InRange(p) && TypeOf(p) == 102 && AllFit(SchemaOf(102), Fields(p))
            && |EncodeAll(SchemaOf(102), Fields(p), 0)| == 24
            && ReplyBytes(sid) == Message(EncodeAll(SchemaOf(102), Fields(p), 0))
  {
    hide MemBits, EncodeAll;
    ReplyBits(sid);
  }
}
