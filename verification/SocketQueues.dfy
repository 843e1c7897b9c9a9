/**
  The socket interface as a state machine: two bounded queues between the packet
  processor and the socket, and the counters. The packet processor enters as two
  functions, so the laws here hold for any of them, failing ones included.
 */
module SocketQueues {
  import opened Bits
  import opened Endpoints
  import opened Packets

  datatype Entry = Entry(address: Address, packet: Packet)

  /** The fixed part: queue limits, the socket's error flag, and the packet processor. */
  datatype Config = Config(sendLimit: nat, receiveLimit: nat, maxPacketSize: nat, error: bool,
                           write: Packet -> Option<seq<byte>>, read: seq<byte> -> Option<Packet>)

  datatype Counters = Counters(
    packetsSent: nat, packetsReceived: nat, packetsRead: nat, packetsWritten: nat,
    sendQueueOverflow: nat, receiveQueueOverflow: nat,
    readPacketFailures: nat, writePacketFailures: nat,
    unencryptedPacketsRead: nat, unencryptedPacketsWritten: nat)

  const NO_COUNTS := Counters(0, 0, 0, 0, 0, 0, 0, 0, 0, 0)

  /** What has happened so far, for stating laws about it. */
  datatype History = History(
    accepted: seq<Entry>, processed: seq<Entry>,
    taken: seq<Datagram>, admitted: seq<Datagram>, delivered: seq<Entry>)

  datatype State = State(sendQueue: seq<Entry>, receiveQueue: seq<Entry>, counters: Counters,
                         inbox: seq<Datagram>, outbox: seq<Datagram>, history: History)

  const INITIAL := State([], [], NO_COUNTS, [], [], History([], [], [], [], []))

  // ---------------------------------------------------------------- steps

  function SendPacket(c: Config, st: State, e: Entry): State {
    if c.error then st
    else if |st.sendQueue| >= c.sendLimit then
      st.(counters := st.counters.(sendQueueOverflow := st.counters.sendQueueOverflow + 1))
    else
      st.(sendQueue := st.sendQueue + [e],
          counters := st.counters.(packetsSent := st.counters.packetsSent + 1),
          history := st.history.(accepted := st.history.accepted + [e]))
  }

  /** One round of `WritePackets`: a packet that cannot be written is dropped and counted. */
  function WriteOne(c: Config, st: State): State
    requires st.sendQueue != []
  {
    var e := st.sendQueue[0];
    var popped := st.(sendQueue := st.sendQueue[1..],
                      history := st.history.(processed := st.history.processed + [e]));
    match c.write(e.packet)
    case None =>
      popped.(counters := st.counters.(writePacketFailures := st.counters.writePacketFailures + 1))
    case Some(data) =>
      popped.(outbox := st.outbox + [Datagram(e.address, data)],
              counters := st.counters.(packetsWritten := st.counters.packetsWritten + 1,
                                       unencryptedPacketsWritten := st.counters.unencryptedPacketsWritten + 1))
  }

  function WritePackets(c: Config, st: State): State
    decreases |st.sendQueue|
  {
    if st.sendQueue == [] then st else WritePackets(c, WriteOne(c, st))
  }

  /** The socket cuts a datagram to the receive buffer. */
  function Cut(c: Config, data: seq<byte>): seq<byte> {
    data[..Min(|data|, c.maxPacketSize)]
  }

  /** Reading one datagram into the receive queue. */
  function Admit(c: Config, st: State, d: Datagram): State {
    var took := st.(history := st.history.(taken := st.history.taken + [d],
                                           admitted := st.history.admitted + [d]));
    match c.read(d.data)
    case None =>
      took.(counters := st.counters.(readPacketFailures := st.counters.readPacketFailures + 1))
    case Some(p) =>
      took.(receiveQueue := st.receiveQueue + [Entry(d.address, p)],
            counters := st.counters.(packetsRead := st.counters.packetsRead + 1,
                                     unencryptedPacketsRead := st.counters.unencryptedPacketsRead + 1))
  }

  /** A datagram that arrives while the receive queue is full has already left the socket, and is lost. */
  function Overflow(st: State, d: Datagram): State {
    st.(counters := st.counters.(receiveQueueOverflow := st.counters.receiveQueueOverflow + 1),
        history := st.history.(taken := st.history.taken + [d]))
  }

  /** Read until the socket has nothing, or has an empty datagram, or the queue is full. */
  function ReadPackets(c: Config, st: State): State
    decreases |st.inbox|
  {
    if st.inbox == [] then st else
      var rest := st.(inbox := st.inbox[1..]);
      var d := Datagram(st.inbox[0].address, Cut(c, st.inbox[0].data));
      if d.data == [] then rest
      else if |st.receiveQueue| == c.receiveLimit then Overflow(rest, d)
      else ReadPackets(c, Admit(c, rest, d))
  }

  /** The application takes the oldest packet; on a socket error it gets none. */
  function ReceivePacket(c: Config, st: State): State {
    if c.error || st.receiveQueue == [] then st
    else
      st.(receiveQueue := st.receiveQueue[1..],
          counters := st.counters.(packetsReceived := st.counters.packetsReceived + 1),
          history := st.history.(delivered := st.history.delivered + [st.receiveQueue[0]]))
  }

  function Arrive(st: State, d: Datagram): State {
    st.(inbox := st.inbox + [d])
  }

  // ---------------------------------------------------------------- the invariant

  /** The datagrams that the written ones among these entries become. */
  function Written(c: Config, es: seq<Entry>): seq<Datagram> {
    if es == [] then [] else
      var e := es[|es| - 1];
      Written(c, es[..|es| - 1]) +
      (match c.write(e.packet) case None => [] case Some(data) => [Datagram(e.address, data)])
  }

  /** The entries that the readable ones among these datagrams become. */
  function Decoded(c: Config, ds: seq<Datagram>): seq<Entry> {
    if ds == [] then [] else
      var d := ds[|ds| - 1];
      Decoded(c, ds[..|ds| - 1]) +
      (match c.read(d.data) case None => [] case Some(p) => [Entry(d.address, p)])
  }

  /** b with some elements left out. */
  ghost predicate Subsequence<T>(a: seq<T>, b: seq<T>) {
    a == [] ||
    (b != [] &&
     (Subsequence(a, b[..|b| - 1]) ||
      (a[|a| - 1] == b[|b| - 1] && Subsequence(a[..|a| - 1], b[..|b| - 1]))))
  }

  /** Sending: what is queued and what the socket was given account for every accepted packet, in order. */
  ghost predicate SendInv(c: Config, st: State) {
    var h, k := st.history, st.counters;
    && |st.sendQueue| <= c.sendLimit
    && h.accepted == h.processed + st.sendQueue
    && st.outbox == Written(c, h.processed)
    && k.packetsSent == |h.accepted|
    && k.packetsWritten == k.unencryptedPacketsWritten == |st.outbox|
    && k.packetsSent == |st.sendQueue| + k.packetsWritten + k.writePacketFailures
    && (c.error ==> h.accepted == [])
  }

  /** Receiving: what is queued and what the application was given account for every readable datagram, in order. */
  ghost predicate ReceiveInv(c: Config, st: State) {
    var h, k := st.history, st.counters;
    && |st.receiveQueue| <= c.receiveLimit
    && h.delivered + st.receiveQueue == Decoded(c, h.admitted)
    && Subsequence(h.admitted, h.taken)
    && k.packetsReceived == |h.delivered|
    && k.packetsRead == k.unencryptedPacketsRead == |st.receiveQueue| + k.packetsReceived
    && |h.admitted| == k.packetsRead + k.readPacketFailures
    && |h.taken| == k.packetsRead + k.readPacketFailures + k.receiveQueueOverflow
    && (c.error ==> h.delivered == [])
  }

  ghost predicate Inv(c: Config, st: State) {
    SendInv(c, st) && ReceiveInv(c, st)
  }

  // ---------------------------------------------------------------- preservation

  lemma WriteOneKeeps(c: Config, st: State)
    requires Inv(c, st) && st.sendQueue != []
    ensures Inv(c, WriteOne(c, st))
  {
    hide ReceiveInv;
    var e, p := st.sendQueue[0], st.history.processed;
    assert (p + [e])[..|p|] == p;
    assert p + [e] + st.sendQueue[1..] == p + st.sendQueue;
    ReceiveFrame(c, st, WriteOne(c, st));
  }

  /** Sending steps do not touch what the receiving law is about, nor the other way round. */
  lemma ReceiveFrame(c: Config, st: State, r: State)
    requires r.receiveQueue == st.receiveQueue && r.history.admitted == st.history.admitted
    requires r.history.taken == st.history.taken && r.history.delivered == st.history.delivered
    requires r.counters.packetsReceived == st.counters.packetsReceived
    requires r.counters.packetsRead == st.counters.packetsRead
    requires r.counters.unencryptedPacketsRead == st.counters.unencryptedPacketsRead
    requires r.counters.readPacketFailures == st.counters.readPacketFailures
    requires r.counters.receiveQueueOverflow == st.counters.receiveQueueOverflow
    ensures ReceiveInv(c, r) == ReceiveInv(c, st)
  {
  }

  lemma SendFrame(c: Config, st: State, r: State)
    requires r.sendQueue == st.sendQueue && r.outbox == st.outbox
    requires r.history.accepted == st.history.accepted && r.history.processed == st.history.processed
    requires r.counters.packetsSent == st.counters.packetsSent
    requires r.counters.packetsWritten == st.counters.packetsWritten
    requires r.counters.unencryptedPacketsWritten == st.counters.unencryptedPacketsWritten
    requires r.counters.writePacketFailures == st.counters.writePacketFailures
    ensures SendInv(c, r) == SendInv(c, st)
  {
  }

  lemma SendKeeps(c: Config, st: State, e: Entry)
    requires Inv(c, st)
    ensures Inv(c, SendPacket(c, st, e))
  {
    hide ReceiveInv, Written;
    ReceiveFrame(c, st, SendPacket(c, st, e));
    assert st.history.processed + st.sendQueue + [e] == st.history.processed + (st.sendQueue + [e]);
  }

  /** Writing empties the queue: every accepted packet has then been processed. */
  lemma {:induction false} WriteKeeps(c: Config, st: State)
    requires Inv(c, st)
    ensures Inv(c, WritePackets(c, st)) && WritePackets(c, st).sendQueue == []
    ensures WritePackets(c, st).history.accepted == st.history.accepted
    decreases |st.sendQueue|
  {
    hide Inv, WriteOne;
    if st.sendQueue != [] {
      WriteOneKeeps(c, st);
      WriteOneShrinks(c, st);
      WriteKeeps(c, WriteOne(c, st));
    }
  }

  lemma WriteOneShrinks(c: Config, st: State)
    requires st.sendQueue != []
    ensures WriteOne(c, st).sendQueue == st.sendQueue[1..]
    ensures WriteOne(c, st).history.accepted == st.history.accepted
  {
  }

  lemma {:induction false} SubsequenceSnoc<T>(a: seq<T>, b: seq<T>, x: T)
    requires Subsequence(a, b)
    ensures Subsequence(a, b + [x]) && Subsequence(a + [x], b + [x])
  {
    assert (b + [x])[..|b|] == b && (a + [x])[..|a|] == a;
  }

  lemma AdmitKeeps(c: Config, st: State, d: Datagram)
    requires Inv(c, st) && |st.receiveQueue| < c.receiveLimit
    ensures Inv(c, Admit(c, st, d))
  {
    hide SendInv, Subsequence;
    var h := st.history;
    assert (h.admitted + [d])[..|h.admitted|] == h.admitted;
    SubsequenceSnoc(h.admitted, h.taken, d);
    SendFrame(c, st, Admit(c, st, d));
  }

  lemma OverflowKeeps(c: Config, st: State, d: Datagram)
    requires Inv(c, st)
    ensures Inv(c, Overflow(st, d))
  {
    hide SendInv, Subsequence, Decoded;
    SubsequenceSnoc(st.history.admitted, st.history.taken, d);
    SendFrame(c, st, Overflow(st, d));
  }

  lemma InboxKeeps(c: Config, st: State, inbox: seq<Datagram>)
    requires Inv(c, st)
    ensures Inv(c, st.(inbox := inbox))
  {
    hide SendInv, ReceiveInv;
    SendFrame(c, st, st.(inbox := inbox));
    ReceiveFrame(c, st, st.(inbox := inbox));
  }

  lemma {:induction false} ReadKeeps(c: Config, st: State)
    requires Inv(c, st)
    ensures Inv(c, ReadPackets(c, st))
    decreases |st.inbox|
  {
    hide Inv, Admit, Overflow, Cut;
    if st.inbox != [] {
      var rest := st.(inbox := st.inbox[1..]);
      var d := Datagram(st.inbox[0].address, Cut(c, st.inbox[0].data));
      InboxKeeps(c, st, st.inbox[1..]);
      if d.data == [] {
      } else if |st.receiveQueue| == c.receiveLimit {
        OverflowKeeps(c, rest, d);
      } else {
        QueueBounded(c, st);
        AdmitKeeps(c, rest, d);
        AdmitInbox(c, rest, d);
        ReadKeeps(c, Admit(c, rest, d));
      }
    }
  }

  lemma QueueBounded(c: Config, st: State)
    requires Inv(c, st)
    ensures |st.sendQueue| <= c.sendLimit && |st.receiveQueue| <= c.receiveLimit
  {
  }

  lemma AdmitInbox(c: Config, st: State, d: Datagram)
    ensures Admit(c, st, d).inbox == st.inbox
  {
  }

  lemma ReceiveKeeps(c: Config, st: State)
    requires Inv(c, st)
    ensures Inv(c, ReceivePacket(c, st))
  {
    hide SendInv, Subsequence, Decoded;
    SendFrame(c, st, ReceivePacket(c, st));
    if st.receiveQueue != [] {
      assert st.history.delivered + [st.receiveQueue[0]] + st.receiveQueue[1..]
             == st.history.delivered + st.receiveQueue;
    }
  }

  // ---------------------------------------------------------------- runs

  datatype Event =
    | Sending(e: Entry)
    | Writing
    | Reading
    | Receiving
    | Arriving(d: Datagram)

  function Step(c: Config, st: State, ev: Event): State {
    match ev
    case Sending(e) => SendPacket(c, st, e)
    case Writing => WritePackets(c, st)
    case Reading => ReadPackets(c, st)
    case Receiving => ReceivePacket(c, st)
    case Arriving(d) => Arrive(st, d)
  }

  function Run(c: Config, events: seq<Event>): State {
    if events == [] then INITIAL else Step(c, Run(c, events[..|events| - 1]), events[|events| - 1])
  }

  /** Conservation, order and bounds hold after every run. */
  lemma {:induction false} RunKeeps(c: Config, events: seq<Event>)
    ensures Inv(c, Run(c, events))
  {
    hide Inv, SendPacket, WritePackets, ReadPackets, ReceivePacket;
    if events == [] {
      InitialOk(c);
    } else {
      var st := Run(c, events[..|events| - 1]);
      RunKeeps(c, events[..|events| - 1]);
      match events[|events| - 1]
      case Sending(e) => SendKeeps(c, st, e);
      case Writing => WriteKeeps(c, st);
      case Reading => ReadKeeps(c, st);
      case Receiving => ReceiveKeeps(c, st);
      case Arriving(d) => InboxKeeps(c, st, st.inbox + [d]);
    }
  }

  lemma InitialOk(c: Config)
    ensures Inv(c, INITIAL)
  {
  }

  /** The counters' laws spelled out, for any run. */
  lemma Conservation(c: Config, events: seq<Event>)
    ensures var st := Run(c, events); var k := st.counters;
            && k.packetsSent == |st.sendQueue| + k.packetsWritten + k.writePacketFailures
            && k.packetsRead == |st.receiveQueue| + k.packetsReceived
            && |st.history.taken| == k.packetsRead + k.readPacketFailures + k.receiveQueueOverflow
            && |st.sendQueue| <= c.sendLimit && |st.receiveQueue| <= c.receiveLimit
  {
    hide Run, Written, Decoded, Subsequence;
    RunKeeps(c, events);
  }

  lemma {:induction false} SubsequenceLonger<T>(a: seq<T>, b: seq<T>, more: seq<T>)
    requires Subsequence(a, b)
    ensures Subsequence(a, b + more)
    decreases |more|
  {
    if more == [] {
      assert b + more == b;
    } else {
      var m := more[..|more| - 1];
      SubsequenceLonger(a, b, m);
      SubsequenceSnoc(a, b + m, more[|more| - 1]);
      assert b + more == b + m + [more[|more| - 1]];
    }
  }

  /** Leaving the failures out of the attempts gives the datagrams written. */
  lemma {:induction false} WrittenInOrder(c: Config, es: seq<Entry>)
    ensures Subsequence(Written(c, es), Attempts(c, es)) && |Attempts(c, es)| == |es|
    ensures forall i :: 0 <= i < |es| && c.write(es[i].packet).Some? ==>
              Attempts(c, es)[i] == Datagram(es[i].address, c.write(es[i].packet).value)
  {
    hide Subsequence;
    if es == [] {
      NothingIsSubsequence<Datagram>([]);
    } else {
      var w, e := es[..|es| - 1], es[|es| - 1];
      WrittenInOrder(c, w);
      SubsequenceSnoc(Written(c, w), Attempts(c, w), Attempt(c, e));
      assert Written(c, w) + [] == Written(c, w);
    }
  }

  lemma NothingIsSubsequence<T>(b: seq<T>)
    ensures Subsequence([], b)
  {
  }

  /** The datagram an entry becomes; an unwritable one is a placeholder that is never sent. */
  function Attempt(c: Config, e: Entry): Datagram {
    match c.write(e.packet)
    case None => Datagram(e.address, [])
    case Some(data) => Datagram(e.address, data)
  }

  function Attempts(c: Config, es: seq<Entry>): seq<Datagram> {
    if es == [] then [] else Attempts(c, es[..|es| - 1]) + [Attempt(c, es[|es| - 1])]
  }

  /** In any run, socket writes are an in-order subsequence of the accepted sends. */
  lemma WritesFollowSends(c: Config, events: seq<Event>)
    ensures Subsequence(Run(c, events).outbox, Attempts(c, Run(c, events).history.accepted))
  {
    hide Run, Subsequence, Written, Attempts, ReceiveInv;
    var st := Run(c, events);
    RunKeeps(c, events);
    WrittenInOrder(c, st.history.processed);
    AttemptsConcat(c, st.history.processed, st.sendQueue);
    SubsequenceLonger(st.outbox, Attempts(c, st.history.processed), Attempts(c, st.sendQueue));
  }

  lemma {:induction false} AttemptsConcat(c: Config, a: seq<Entry>, b: seq<Entry>)
    ensures Attempts(c, a + b) == Attempts(c, a) + Attempts(c, b)
  {
    hide Attempt;
    if b == [] {
      assert a + b == a;
    } else {
      assert (a + b)[..|a + b| - 1] == a + b[..|b| - 1];
      AttemptsConcat(c, a, b[..|b| - 1]);
    }
  }
}
