/** Two socket interfaces whose packet processors frame: every packet fits, and arrives in order. */
module FramedDelivery {
  import opened Bits
  import opened Width
  import opened Memory
  import opened Schema
  import opened Packets
  import opened PacketLayouts
  import opened Framing
  import opened FrameLayout
  import opened PacketProcessing
  import Endpoints
  import opened SocketQueues
  import opened Delivery

  /** No packet's fields take more than 16 bytes. */
  lemma FieldSizes(p: Packet)
    requires InRange(p)
    ensures |FieldBits(p)| <= 128
  {
  }

  /** With one prefix byte and no header a frame takes at most 25 bytes. */
  lemma FrameBound(info: PacketInfo, n: int32, p: Packet)
    requires Writable(n, NO_HEADER, p) && info.prefixBytes == 1
    ensures |StreamBits(info, n, NO_HEADER, p)| <= 200
  {
    hide BodyOps, BodyVals, FieldBits, BitLength, BitsOf, InRange, TypeOf, TypeNumber, Zeros;
    BodyBits(n, NO_HEADER, p, LeadBits(info));
    FieldSizes(p);
    if n > 1 {
      NarrowLength(n - 1);
    }
  }

  lemma NarrowLength(x: int32)
    requires x > 0
    ensures BitLength(x) <= 31
  {
    hide BitLength, Pow2;
    Pow2Signed();
    BitLengthAtMost(x, 31);
  }

  /**
    A processor with room for 25 bytes writes exactly the packets that meet the
    source's assertions: fields in range and, when types are sent, a type below their
    number.
   */
  lemma WritesIffWritable(c: Config, protocolId: u32, n: int32, maxPacketSize: nat, p: Packet)
    requires n > 0 && maxPacketSize >= 25 && Speaks(c, protocolId, n, maxPacketSize)
    ensures c.write(p).Some? <==> InRange(p) && (n > 1 ==> TypeOf(p) < n)
    ensures c.write(p).Some? ==> IsFrame(PacketInfo(false, 1, protocolId), n, NO_HEADER, p, c.write(p).value)
  {
    hide StreamBits, Frame, InRange, TypeOf, IsFrame;
    var info := PacketInfo(false, 1, protocolId);
    if Writable(n, NO_HEADER, p) {
      FrameBound(info, n, p);
      FrameMeets(info, n, NO_HEADER, p);
    }
  }

  /** Every packet accepted for sending so far meets those assertions. */
  ghost predicate AllSendable(n: int32, es: seq<Entry>) {
    forall e :: e in es ==> InRange(e.packet) && (n > 1 ==> TypeOf(e.packet) < n)
  }

  lemma {:induction false} WrittenAll(c: Config, es: seq<Entry>)
    requires forall e :: e in es ==> c.write(e.packet).Some?
    ensures |Written(c, es)| == |es|
  {
    if es != [] {
      WrittenAll(c, es[..|es| - 1]);
    }
  }

  lemma NoWriteFailures(c: Config, st: State, protocolId: u32, n: int32, maxPacketSize: nat)
    requires n > 0 && maxPacketSize >= 25 && Speaks(c, protocolId, n, maxPacketSize)
    requires Inv(c, st) && AllSendable(n, st.history.accepted)
    ensures st.counters.writePacketFailures == 0
  {
    hide Speaks, Written, ReceiveInv, InRange, TypeOf;
    var es := st.history.processed;
    forall e | e in es
      ensures c.write(e.packet).Some?
    {
      assert e in st.history.accepted;
      WritesIffWritable(c, protocolId, n, maxPacketSize, e.packet);
    }
    WrittenAll(c, es);
  }

  /**
    One protocol, several packet types, room for 25 bytes, sendable packets, and a
    network that so far neither loses nor reorders: without receive overflow the
    application gets the packets that were sent, in order, and no read or write fails.
   */
  lemma FramedInOrder(a: Config, sa: State, b: Config, sb: State, from: Endpoints.Address,
                      protocolId: u32, n: int32, maxPacketSize: nat)
    requires n > 1 && maxPacketSize >= 25
    requires Speaks(a, protocolId, n, maxPacketSize) && Speaks(b, protocolId, n, maxPacketSize)
    requires Inv(a, sa) && Inv(b, sb) && AllSendable(n, sa.history.accepted)
    requires InOrder(b, sa.outbox, sb.history.taken, from) && sb.counters.receiveQueueOverflow == 0
    ensures sa.counters.writePacketFailures == 0 && sb.counters.readPacketFailures == 0
    ensures |sb.history.delivered + sb.receiveQueue| == |sb.history.taken| <= |sa.history.accepted|
    ensures forall i :: 0 <= i < |sb.history.delivered + sb.receiveQueue| ==>
              (sb.history.delivered + sb.receiveQueue)[i] == Entry(from, sa.history.accepted[i].packet)
  {
    hide Inv, Speaks, Compatible, AllSendable, InOrder;
    NoWriteFailures(a, sa, protocolId, n, maxPacketSize);
    SameProtocol(a, b, protocolId, n, maxPacketSize);
    InOrderDelivery(a, sa, b, sb, from);
  }
}
