/** The socket interface: the methods that move packets between the queues and the socket. */
module SocketInterfaces {
  import opened Bits
  import opened Endpoints
  import opened Packets
  import opened SocketQueues
  import opened QueueRuns

  class SocketInterface {
    const config: Config
    var sendQueue: seq<Entry>
    var receiveQueue: seq<Entry>
    var counters: Counters
    /** The socket: datagrams not yet received, and datagrams sent. */
    var inbox: seq<Datagram>
    var outbox: seq<Datagram>
    ghost var history: History

    ghost function Abs(): State
      reads this
    {
      State(sendQueue, receiveQueue, counters, inbox, outbox, history)
    }

    constructor (config: Config)
      requires config.sendLimit > 0 && config.receiveLimit > 0
      ensures Abs() == INITIAL && this.config == config
    {
      this.config := config;
      sendQueue, receiveQueue, counters := [], [], NO_COUNTS;
      inbox, outbox := [], [];
      history := History([], [], [], [], []);
    }

    /** The socket's error is set once, when it is created. */
    predicate IsError() {
      config.error
    }

    method SendPacket(address: Address, packet: Packet)
      modifies this
      ensures Abs() == SocketQueues.SendPacket(config, old(Abs()), Entry(address, packet))
      ensures config.error ==> Abs() == old(Abs())
      ensures !config.error && |old(sendQueue)| < config.sendLimit ==>
                && sendQueue == old(sendQueue) + [Entry(address, packet)]
                && counters == old(counters).(packetsSent := old(counters).packetsSent + 1)
      ensures !config.error && |old(sendQueue)| >= config.sendLimit ==>
                && sendQueue == old(sendQueue)
                && counters == old(counters).(sendQueueOverflow := old(counters).sendQueueOverflow + 1)
    {
      if IsError() {
        return;
      }
      var entry := Entry(address, packet);
      if |sendQueue| >= config.sendLimit {
        counters := counters.(sendQueueOverflow := counters.sendQueueOverflow + 1);
        return;
      }
      sendQueue := sendQueue + [entry];
      counters := counters.(packetsSent := counters.packetsSent + 1);
      history := history.(accepted := history.accepted + [entry]);
    }

    method ReceivePacket() returns (packet: Option<Packet>, from: Address)
      modifies this
      ensures Abs() == SocketQueues.ReceivePacket(config, old(Abs()))
      ensures packet == None <==> config.error || old(receiveQueue) == []
      ensures packet == None ==> Abs() == old(Abs())
      ensures packet.Some? ==>
                && Entry(from, packet.value) == old(receiveQueue)[0] && receiveQueue == old(receiveQueue)[1..]
                && counters == old(counters).(packetsReceived := old(counters).packetsReceived + 1)
                && history == old(history).(delivered := old(history).delivered + [old(receiveQueue)[0]])
    {
      if IsError() || receiveQueue == [] {
        return None, NoAddress;
      }
      var entry := receiveQueue[0];
      receiveQueue := receiveQueue[1..];
      counters := counters.(packetsReceived := counters.packetsReceived + 1);
      history := history.(delivered := history.delivered + [entry]);
      return Some(entry.packet), entry.address;
    }

    method WritePackets()
      modifies this
      ensures Abs() == SocketQueues.WritePackets(config, old(Abs())) && WroteAll(config, old(Abs()), Abs())
    {
      hide WroteAll;
      WriteOutcome(config, Abs());
      while sendQueue != []
        invariant SocketQueues.WritePackets(config, Abs()) == SocketQueues.WritePackets(config, old(Abs()))
        decreases |sendQueue|
      {
        ghost var st := Abs();
        var entry := sendQueue[0];
        sendQueue := sendQueue[1..];
        history := history.(processed := history.processed + [entry]);
        var packetData := config.write(entry.packet);
        if packetData == None {
          counters := counters.(writePacketFailures := counters.writePacketFailures + 1);
        } else {
          outbox := outbox + [Datagram(entry.address, packetData.value)];
          counters := counters.(packetsWritten := counters.packetsWritten + 1,
                                unencryptedPacketsWritten := counters.unencryptedPacketsWritten + 1);
        }
        assert Abs() == WriteOne(config, st);
      }
    }

    /** A datagram taken from the socket when the receive queue is full is counted and lost. */
    method ReadPackets()
      modifies this
      ensures Abs() == SocketQueues.ReadPackets(config, old(Abs()))
      ensures |old(receiveQueue)| <= config.receiveLimit ==> exists k :: ReadTo(config, old(Abs()), k, Abs())
    {
      hide ReadTo;
      ReadReaches(config, Abs());
      while true
        invariant SocketQueues.ReadPackets(config, Abs()) == SocketQueues.ReadPackets(config, old(Abs()))
        decreases |inbox|
      {
        ghost var st := Abs();
        if inbox == [] {
          break;
        }
        var d := Datagram(inbox[0].address, Cut(config, inbox[0].data));
        inbox := inbox[1..];
        if d.data == [] {
          break;
        }
        history := history.(taken := history.taken + [d]);
        if |receiveQueue| == config.receiveLimit {
          counters := counters.(receiveQueueOverflow := counters.receiveQueueOverflow + 1);
          assert Abs() == Overflow(st.(inbox := inbox), d);
          break;
        }
        history := history.(admitted := history.admitted + [d]);
        var packet := config.read(d.data);
        if packet == None {
          counters := counters.(readPacketFailures := counters.readPacketFailures + 1);
        } else {
          receiveQueue := receiveQueue + [Entry(d.address, packet.value)];
          counters := counters.(packetsRead := counters.packetsRead + 1,
                                unencryptedPacketsRead := counters.unencryptedPacketsRead + 1);
        }
        assert Abs() == Admit(config, st.(inbox := inbox), d);
      }
    }
  }

  /**
    A program driving the interface: whatever it does, the laws hold of the object,
    and the packets handed to it are the delivered ones.
   */
  method Drive(config: Config, events: seq<Event>) returns (s: SocketInterface, received: seq<Entry>)
    requires config.sendLimit > 0 && config.receiveLimit > 0
    ensures fresh(s) && s.config == config && s.Abs() == Run(config, events) && Inv(config, s.Abs())
    ensures received == s.history.delivered && |received| == s.counters.packetsReceived
    ensures received + s.receiveQueue == Decoded(config, s.history.admitted)
  {
    hide SendPacket, WritePackets, ReadPackets, Inv, Decoded, ReadTo;
    s := new SocketInterface(config);
    received := [];
    for i := 0 to |events|
      invariant fresh(s) && s.config == config && s.Abs() == Run(config, events[..i])
      invariant received == s.history.delivered
    {
      assert events[..i + 1][..i] == events[..i];
      DeliveredKept(config, s.Abs());
      match events[i]
      case Sending(e) => s.SendPacket(e.address, e.packet);
      case Writing => s.WritePackets();
      case Reading => s.ReadPackets();
      case Receiving =>
        var packet, from := s.ReceivePacket();
        if packet.Some? {
          received := received + [Entry(from, packet.value)];
        }
      case Arriving(d) => s.inbox := s.inbox + [d];
    }
    assert events[..|events|] == events;
    RunKeeps(config, events);
    Received(config, s.Abs());
  }

  lemma Received(c: Config, st: State)
    requires Inv(c, st)
    ensures st.counters.packetsReceived == |st.history.delivered|
    ensures st.history.delivered + st.receiveQueue == Decoded(c, st.history.admitted)
  {
    hide Decoded;
  }
}
