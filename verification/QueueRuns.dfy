/**
  What the socket interface's steps amount to: how far one read goes, what one write
  sends, and which packets a whole run accepts, all said without the steps themselves.
 */
module QueueRuns {
  import opened Bits
  import opened Endpoints
  import opened SocketQueues

  // ---------------------------------------------------------------- one read

  /** The datagrams waiting before the first that arrives empty. */
  function Waiting(c: Config, inbox: seq<Datagram>): (n: nat)
    ensures n <= |inbox|
    ensures forall i :: 0 <= i < n ==> Cut(c, inbox[i].data) != []
    ensures n < |inbox| ==> Cut(c, inbox[n].data) == []
  {
    if inbox == [] || Cut(c, inbox[0].data) == [] then 0 else 1 + Waiting(c, inbox[1..])
  }

  /** Datagrams as the receive buffer cuts them. */
  function Arrived(c: Config, ds: seq<Datagram>): (r: seq<Datagram>)
    ensures |r| == |ds|
  {
    seq(|ds|, i requires 0 <= i < |ds| => Datagram(ds[i].address, Cut(c, ds[i].data)))
  }

  /**
    A read hands the first k waiting datagrams to the packet processor: all of them,
    or as many as it takes to fill the receive queue; the next one is then lost.
    Nothing else changes.
   */
  ghost predicate ReadTo(c: Config, st: State, k: nat, r: State) {
    ReadFrom(c, st, Arrived(c, st.inbox[..Waiting(c, st.inbox)]), k, r)
  }

  ghost predicate ReadFrom(c: Config, st: State, ds: seq<Datagram>, k: nat, r: State) {
    && k <= |ds|
    && HasRoom(c, |st.receiveQueue|, ds, k)
    && (k < |ds| ==> |st.receiveQueue| + |Decoded(c, ds[..k])| == c.receiveLimit)
    && Hands(c, st, Decoded(c, ds[..k]), ds[..k], ds[..Min(k + 1, |ds|)],
             st.inbox[Min(k + 1, |st.inbox|)..], if k < |ds| then 1 else 0, r)
  }

  /** The queue, of this length before, is not full when any of the first k datagrams is read. */
  ghost predicate HasRoom(c: Config, queued: nat, ds: seq<Datagram>, k: nat)
    requires k <= |ds|
  {
    forall j :: 0 <= j < k ==> queued + |Decoded(c, ds[..j])| < c.receiveLimit
  }

  /** The state after these datagrams were taken and these entries read, so many lost to overflow. */
  ghost predicate Hands(c: Config, st: State, read: seq<Entry>, admitted: seq<Datagram>, taken: seq<Datagram>,
                        inbox: seq<Datagram>, lost: nat, r: State)
  {
    var k := st.counters;
    && r.counters.readPacketFailures + |read| == k.readPacketFailures + |admitted|
    && r == st.(
         inbox := inbox,
         receiveQueue := st.receiveQueue + read,
         counters := k.(packetsRead := k.packetsRead + |read|,
                        unencryptedPacketsRead := k.unencryptedPacketsRead + |read|,
                        readPacketFailures := r.counters.readPacketFailures,
                        receiveQueueOverflow := k.receiveQueueOverflow + lost),
         history := st.history.(taken := st.history.taken + taken, admitted := st.history.admitted + admitted))
  }

  lemma {:induction false} DecodedConcat(c: Config, a: seq<Datagram>, b: seq<Datagram>)
    ensures Decoded(c, a + b) == Decoded(c, a) + Decoded(c, b)
  {
    if b == [] {
      assert a + b == a;
    } else {
      assert (a + b)[..|a + b| - 1] == a + b[..|b| - 1];
      DecodedConcat(c, a, b[..|b| - 1]);
    }
  }

  lemma DecodedOne(c: Config, d: Datagram)
    ensures Decoded(c, [d]) == match c.read(d.data) case None => [] case Some(p) => [Entry(d.address, p)]
  {
    assert [d][..0] == [];
  }

  /** The first waiting datagram, and those after it. */
  lemma WaitingHead(c: Config, inbox: seq<Datagram>, d: Datagram)
    requires inbox != [] && d == Datagram(inbox[0].address, Cut(c, inbox[0].data)) && d.data != []
    ensures var n := Waiting(c, inbox[1..]);
            && Waiting(c, inbox) == n + 1
            && Arrived(c, inbox[..n + 1]) == [d] + Arrived(c, inbox[1..][..n])
  {
    hide Cut;
  }

  lemma AdmitHands(c: Config, st: State, d: Datagram)
    ensures Hands(c, st, Decoded(c, [d]), [d], [d], st.inbox, 0, Admit(c, st, d))
  {
    DecodedOne(c, d);
    assert st.receiveQueue + [] == st.receiveQueue;
  }

  lemma HandsTwice(c: Config, st: State, d: Datagram, mid: State, read: seq<Entry>, admitted: seq<Datagram>,
                   taken: seq<Datagram>, inbox: seq<Datagram>, lost: nat, r: State)
    requires Hands(c, st, Decoded(c, [d]), [d], [d], mid.inbox, 0, mid)
    requires Hands(c, mid, read, admitted, taken, inbox, lost, r)
    ensures Hands(c, st, Decoded(c, [d]) + read, [d] + admitted, [d] + taken, inbox, lost, r)
  {
    hide Decoded;
    assert st.receiveQueue + (Decoded(c, [d]) + read) == st.receiveQueue + Decoded(c, [d]) + read;
    assert st.history.taken + ([d] + taken) == st.history.taken + [d] + taken;
    assert st.history.admitted + ([d] + admitted) == st.history.admitted + [d] + admitted;
  }

  lemma ReadNothing(c: Config, st: State, k: nat, r: State)
    requires |st.receiveQueue| <= c.receiveLimit && k == 0
    requires Waiting(c, st.inbox) == 0 && r == st.(inbox := st.inbox[Min(1, |st.inbox|)..])
    ensures ReadTo(c, st, k, r)
  {
    hide Waiting, Cut, Arrived, Decoded, Hands;
    var ds := Arrived(c, st.inbox[..0]);
    NoneDecoded(c, ds);
    assert ds[..0] == [];
    NothingHands(c, st, r);
  }

  lemma NothingHands(c: Config, st: State, r: State)
    requires r == st.(inbox := r.inbox)
    ensures Hands(c, st, [], [], [], r.inbox, 0, r)
  {
    assert st.receiveQueue + [] == st.receiveQueue;
    assert st.history.taken + [] == st.history.taken && st.history.admitted + [] == st.history.admitted;
  }

  lemma ReadFull(c: Config, st: State, d: Datagram, k: nat)
    requires st.inbox != [] && d == Datagram(st.inbox[0].address, Cut(c, st.inbox[0].data)) && d.data != []
    requires |st.receiveQueue| == c.receiveLimit && k == 0
    ensures ReadTo(c, st, k, Overflow(st.(inbox := st.inbox[1..]), d))
  {
    hide Waiting, Cut, Arrived;
    WaitingHead(c, st.inbox, d);
    var n := Waiting(c, st.inbox);
    var ds := Arrived(c, st.inbox[..n]);
    assert ds[..1] == [d] && ds[..0] == [];
    assert st.receiveQueue + [] == st.receiveQueue && st.history.admitted + [] == st.history.admitted;
  }

  lemma ReadOneMore(c: Config, st: State, d: Datagram, mid: State, k: nat, r: State)
    requires st.inbox != [] && d == Datagram(st.inbox[0].address, Cut(c, st.inbox[0].data)) && d.data != []
    requires |st.receiveQueue| < c.receiveLimit
    requires mid == Admit(c, st.(inbox := st.inbox[1..]), d) && ReadTo(c, mid, k, r)
    ensures ReadTo(c, st, k + 1, r)
  {
    hide Waiting, Cut, Arrived, Decoded, Admit, Hands, ReadFrom;
    WaitingHead(c, st.inbox, d);
    AdmitHands(c, st.(inbox := st.inbox[1..]), d);
    AdmitHandsFrom(c, st, d, mid);
    var es := Arrived(c, mid.inbox[..Waiting(c, mid.inbox)]);
    ReadFromMore(c, st, d, mid, [d] + es, es, k, r);
  }

  lemma ReadFromMore(c: Config, st: State, d: Datagram, mid: State, ds: seq<Datagram>, es: seq<Datagram>,
                     k: nat, r: State)
    requires st.inbox != [] && mid.inbox == st.inbox[1..] && |st.receiveQueue| < c.receiveLimit
    requires Hands(c, st, Decoded(c, [d]), [d], [d], mid.inbox, 0, mid)
    requires mid.receiveQueue == st.receiveQueue + Decoded(c, [d])
    requires ds == [d] + es && ReadFrom(c, mid, es, k, r)
    ensures ReadFrom(c, st, ds, k + 1, r)
  {
    hide Decoded, Hands, HasRoom;
    StillRoom(c, st, d, mid, ds, es, k);
    DecodedConcat(c, [d], es[..k]);
    assert ds[..k + 1] == [d] + es[..k];
    var t := Min(k + 1, |es|);
    assert ds[..t + 1] == [d] + es[..t];
    var rest := mid.inbox[Min(k + 1, |mid.inbox|)..];
    assert rest == st.inbox[Min(k + 2, |st.inbox|)..];
    HandsTwice(c, st, d, mid, Decoded(c, es[..k]), es[..k], es[..t], rest, if k < |es| then 1 else 0, r);
  }

  /** Room before each of the first k datagrams, then before each of the first k + 1. */
  lemma StillRoom(c: Config, st: State, d: Datagram, mid: State, ds: seq<Datagram>, es: seq<Datagram>, k: nat)
    requires k <= |es| && ds == [d] + es && |st.receiveQueue| < c.receiveLimit
    requires mid.receiveQueue == st.receiveQueue + Decoded(c, [d])
    requires HasRoom(c, |mid.receiveQueue|, es, k)
    ensures HasRoom(c, |st.receiveQueue|, ds, k + 1)
  {
    hide Decoded;
    NoneDecoded(c, ds);
    forall j | 0 < j < k + 1
      ensures |st.receiveQueue| + |Decoded(c, ds[..j])| < c.receiveLimit
    {
      assert ds[..j] == [d] + es[..j - 1];
      DecodedConcat(c, [d], es[..j - 1]);
    }
  }

  lemma NoneDecoded(c: Config, ds: seq<Datagram>)
    ensures Decoded(c, ds[..0]) == []
  {
  }

  lemma AdmitHandsFrom(c: Config, st: State, d: Datagram, mid: State)
    requires st.inbox != []
    requires Hands(c, st.(inbox := st.inbox[1..]), Decoded(c, [d]), [d], [d], st.inbox[1..], 0, mid)
    ensures mid.inbox == st.inbox[1..] && Hands(c, st, Decoded(c, [d]), [d], [d], mid.inbox, 0, mid)
    ensures mid.receiveQueue == st.receiveQueue + Decoded(c, [d])
  {
    hide Decoded;
  }

  /** Every read is of this form. */
  lemma {:induction false} ReadStops(c: Config, st: State) returns (k: nat)
    requires |st.receiveQueue| <= c.receiveLimit
    ensures ReadTo(c, st, k, ReadPackets(c, st))
    decreases |st.inbox|
  {
    hide ReadTo, Cut, Admit, Overflow, Decoded;
    k := 0;
    if st.inbox == [] {
      ReadNothing(c, st, k, st);
    } else {
      var rest := st.(inbox := st.inbox[1..]);
      var d := Datagram(st.inbox[0].address, Cut(c, st.inbox[0].data));
      if d.data == [] {
        ReadNothing(c, st, k, rest);
      } else if |st.receiveQueue| == c.receiveLimit {
        ReadFull(c, st, d, k);
      } else {
        var mid := Admit(c, rest, d);
        AdmitSizes(c, rest, d);
        k := ReadStops(c, mid);
        ReadOneMore(c, st, d, mid, k, ReadPackets(c, mid));
        k := k + 1;
      }
    }
  }

  lemma ReadReaches(c: Config, st: State)
    ensures |st.receiveQueue| <= c.receiveLimit ==> exists k :: ReadTo(c, st, k, ReadPackets(c, st))
  {
    hide ReadTo, ReadPackets;
    if |st.receiveQueue| <= c.receiveLimit {
      var _ := ReadStops(c, st);
    }
  }

  lemma AdmitSizes(c: Config, st: State, d: Datagram)
    ensures Admit(c, st, d).inbox == st.inbox && |Admit(c, st, d).receiveQueue| <= |st.receiveQueue| + 1
  {
  }

  /**
    After a read, either what is left in the socket is what follows its first empty
    datagram, or the receive queue is full and one more overflow was counted. The
    second happens exactly when the datagrams before the last one waiting suffice to
    fill the queue. Unreadable datagrams do not stop the read.
   */
  lemma ReadOutcome(c: Config, st: State)
    requires |st.receiveQueue| <= c.receiveLimit
    ensures var r, n := ReadPackets(c, st), Waiting(c, st.inbox);
            var ds := Arrived(c, st.inbox[..n]);
            if n > 0 && |st.receiveQueue| + |Decoded(c, ds[..n - 1])| >= c.receiveLimit then
              && r.counters.receiveQueueOverflow == st.counters.receiveQueueOverflow + 1
              && |r.receiveQueue| == c.receiveLimit && r.receiveQueue <= st.receiveQueue + Decoded(c, ds)
            else
              && r.counters.receiveQueueOverflow == st.counters.receiveQueueOverflow
              && r.inbox == st.inbox[Min(n + 1, |st.inbox|)..]
              && r.receiveQueue == st.receiveQueue + Decoded(c, ds)
  {
    hide Waiting, Arrived, Decoded, ReadPackets;
    var n := Waiting(c, st.inbox);
    var ds := Arrived(c, st.inbox[..n]);
    var k := ReadStops(c, st);
    assert ds[..n] == ds;
    if k < n {
      assert ds[..n - 1] == ds[..k] + ds[k..n - 1] && ds == ds[..k] + ds[k..];
      DecodedConcat(c, ds[..k], ds[k..n - 1]);
      DecodedConcat(c, ds[..k], ds[k..]);
      Longer(st.receiveQueue, Decoded(c, ds[..k]), Decoded(c, ds[k..]));
    }
  }

  lemma Longer(q: seq<Entry>, a: seq<Entry>, b: seq<Entry>)
    ensures q + a <= q + (a + b)
  {
    assert q + (a + b) == q + a + b;
  }

  // ---------------------------------------------------------------- one write

  /** A write gives the socket a datagram for every queued packet that can be written, and counts the others. */
  ghost predicate WroteAll(c: Config, st: State, r: State) {
    var k, w := st.counters, Written(c, st.sendQueue);
    && r.counters.writePacketFailures + |w| == k.writePacketFailures + |st.sendQueue|
    && r == st.(
         sendQueue := [],
         outbox := st.outbox + w,
         counters := k.(packetsWritten := k.packetsWritten + |w|,
                        unencryptedPacketsWritten := k.unencryptedPacketsWritten + |w|,
                        writePacketFailures := r.counters.writePacketFailures),
         history := st.history.(processed := st.history.processed + st.sendQueue))
  }

  lemma {:induction false} WrittenConcat(c: Config, a: seq<Entry>, b: seq<Entry>)
    ensures Written(c, a + b) == Written(c, a) + Written(c, b)
  {
    if b == [] {
      assert a + b == a;
    } else {
      assert (a + b)[..|a + b| - 1] == a + b[..|b| - 1];
      WrittenConcat(c, a, b[..|b| - 1]);
    }
  }

  lemma WriteOneWrites(c: Config, st: State)
    requires st.sendQueue != []
    ensures var r, k, w := WriteOne(c, st), st.counters, Written(c, st.sendQueue[..1]);
            && r.counters.writePacketFailures + |w| == k.writePacketFailures + 1
            && r == st.(
                 sendQueue := st.sendQueue[1..],
                 outbox := st.outbox + w,
                 counters := k.(packetsWritten := k.packetsWritten + |w|,
                                unencryptedPacketsWritten := k.unencryptedPacketsWritten + |w|,
                                writePacketFailures := r.counters.writePacketFailures),
                 history := st.history.(processed := st.history.processed + st.sendQueue[..1]))
  {
    assert st.sendQueue[..1][..0] == [];
    assert st.sendQueue[..1] == [st.sendQueue[0]] && st.outbox + [] == st.outbox;
  }

  lemma {:induction false} WriteOutcome(c: Config, st: State)
    ensures WroteAll(c, st, WritePackets(c, st))
    decreases |st.sendQueue|
  {
    hide WriteOne, Written;
    var q := st.sendQueue;
    if q == [] {
      NoneWritten(c);
      assert st.outbox + [] == st.outbox && st.history.processed + [] == st.history.processed;
    } else {
      var mid := WriteOne(c, st);
      WriteOneWrites(c, st);
      WriteOutcome(c, mid);
      WrittenConcat(c, q[..1], q[1..]);
      WriteTwice(st.outbox, Written(c, q[..1]), Written(c, q[1..]));
      WriteTwice(st.history.processed, q[..1], q[1..]);
      assert q[..1] + q[1..] == q;
    }
  }

  lemma NoneWritten(c: Config)
    ensures Written(c, []) == []
  {
  }

  lemma WriteTwice<T>(q: seq<T>, a: seq<T>, b: seq<T>)
    ensures q + a + b == q + (a + b)
  {
  }

  // ---------------------------------------------------------------- sends over a run

  /** The entries offered for sending since the last write. */
  function SentSince(events: seq<Event>): seq<Entry> {
    if events == [] then [] else
      match events[|events| - 1]
      case Sending(e) => SentSince(events[..|events| - 1]) + [e]
      case Writing => []
      case _ => SentSince(events[..|events| - 1])
  }

  /** Of the entries offered between two writes, the first `limit`. */
  function FirstSends(limit: nat, events: seq<Event>): seq<Entry> {
    if events == [] then [] else
      var before := events[..|events| - 1];
      match events[|events| - 1]
      case Sending(e) => FirstSends(limit, before) + (if |SentSince(before)| < limit then [e] else [])
      case _ => FirstSends(limit, before)
  }

  function Sends(events: seq<Event>): nat {
    if events == [] then 0 else Sends(events[..|events| - 1]) + (if events[|events| - 1].Sending? then 1 else 0)
  }

  /** What sending is about. */
  ghost predicate SameSends(st: State, r: State) {
    && r.history.accepted == st.history.accepted
    && r.counters.packetsSent == st.counters.packetsSent
    && r.counters.sendQueueOverflow == st.counters.sendQueueOverflow
  }

  lemma {:induction false} ReadSends(c: Config, st: State)
    ensures SameSends(st, ReadPackets(c, st)) && ReadPackets(c, st).sendQueue == st.sendQueue
    decreases |st.inbox|
  {
    hide Admit, Cut;
    if st.inbox != [] {
      var rest := st.(inbox := st.inbox[1..]);
      var d := Datagram(st.inbox[0].address, Cut(c, st.inbox[0].data));
      AdmitSends(c, rest, d);
      if d.data != [] && |st.receiveQueue| != c.receiveLimit {
        ReadSends(c, Admit(c, rest, d));
      }
    }
  }

  lemma AdmitSends(c: Config, st: State, d: Datagram)
    ensures var r := Admit(c, st, d); SameSends(st, r) && r.sendQueue == st.sendQueue && r.inbox == st.inbox
  {
  }

  /**
    Over any run without a socket error, between two writes the first `sendLimit`
    entries offered are accepted, in order, and exactly the others overflow: the
    queue holds those offered since the last write, and every send is counted once.
    On a socket error nothing is accepted or counted.
   */
  lemma {:induction false} SendsAccepted(c: Config, events: seq<Event>)
    ensures var st, offered := Run(c, events), SentSince(events);
            if c.error then
              st.sendQueue == [] && st.history.accepted == []
              && st.counters.packetsSent == 0 && st.counters.sendQueueOverflow == 0
            else
              && st.sendQueue == offered[..Min(|offered|, c.sendLimit)]
              && st.history.accepted == FirstSends(c.sendLimit, events)
              && st.counters.packetsSent == |FirstSends(c.sendLimit, events)|
              && st.counters.packetsSent + st.counters.sendQueueOverflow == Sends(events)
  {
    hide WritePackets, ReadPackets, Written;
    if events != [] {
      var before := events[..|events| - 1];
      var st := Run(c, before);
      SendsAccepted(c, before);
      match events[|events| - 1]
      case Sending(e) =>
        var offered := SentSince(before);
        assert |offered| < c.sendLimit ==>
            offered[..|offered|] == offered && (offered + [e])[..|offered| + 1] == offered + [e];
        assert |offered| >= c.sendLimit ==> (offered + [e])[..c.sendLimit] == offered[..c.sendLimit];
        assert FirstSends(c.sendLimit, before) + [] == FirstSends(c.sendLimit, before);
      case Writing => WriteOutcome(c, st);
      case Reading => ReadSends(c, st);
      case Receiving =>
      case Arriving(d) =>
    }
  }

  // ---------------------------------------------------------------- what is handed out

  /** Only receiving hands anything out. */
  lemma DeliveredKept(c: Config, st: State)
    ensures WritePackets(c, st).history.delivered == st.history.delivered
    ensures ReadPackets(c, st).history.delivered == st.history.delivered
    ensures forall e :: SendPacket(c, st, e).history.delivered == st.history.delivered
  {
    hide WritePackets, ReadPackets, Written;
    WriteOutcome(c, st);
    ReadDelivers(c, st);
  }

  lemma {:induction false} ReadDelivers(c: Config, st: State)
    ensures ReadPackets(c, st).history.delivered == st.history.delivered
    decreases |st.inbox|
  {
    if st.inbox != [] {
      var d := Datagram(st.inbox[0].address, Cut(c, st.inbox[0].data));
      if d.data != [] && |st.receiveQueue| != c.receiveLimit {
        ReadDelivers(c, Admit(c, st.(inbox := st.inbox[1..]), d));
      }
    }
  }

  // ---------------------------------------------------------------- what arrives

  /** The datagrams of a run, in order of arrival. */
  function Arrivals(events: seq<Event>): seq<Datagram> {
    if events == [] then [] else
      Arrivals(events[..|events| - 1])
      + (match events[|events| - 1] case Arriving(d) => [d] case _ => [])
  }

  /** Those that are not empty when received, as received. */
  function Heard(c: Config, ds: seq<Datagram>): seq<Datagram> {
    if ds == [] then [] else
      var d := ds[|ds| - 1];
      Heard(c, ds[..|ds| - 1]) + (if Cut(c, d.data) == [] then [] else [Datagram(d.address, Cut(c, d.data))])
  }

  lemma {:induction false} HeardConcat(c: Config, a: seq<Datagram>, b: seq<Datagram>)
    ensures Heard(c, a + b) == Heard(c, a) + Heard(c, b)
  {
    hide Cut;
    if b == [] {
      assert a + b == a;
    } else {
      assert (a + b)[..|a + b| - 1] == a + b[..|b| - 1];
      HeardConcat(c, a, b[..|b| - 1]);
    }
  }

  lemma {:induction false} HeardWaiting(c: Config, ds: seq<Datagram>)
    requires forall i :: 0 <= i < |ds| ==> Cut(c, ds[i].data) != []
    ensures Heard(c, ds) == Arrived(c, ds)
  {
    hide Cut;
    if ds != [] {
      HeardWaiting(c, ds[..|ds| - 1]);
    }
  }

  lemma HeardEmpty(c: Config, d: Datagram)
    requires Cut(c, d.data) == []
    ensures Heard(c, [d]) == []
  {
    assert [d][..0] == [];
  }

  lemma ReadHeard(c: Config, st: State, k: nat, r: State)
    requires ReadTo(c, st, k, r)
    ensures r.history.taken + Heard(c, r.inbox) == st.history.taken + Heard(c, st.inbox)
  {
    hide Cut, Heard, Arrived, Decoded;
    var box, n := st.inbox, Waiting(c, st.inbox);
    var j, t := Min(k + 1, |box|), Min(k + 1, n);
    var ds := Arrived(c, box[..n]);
    HeardWaiting(c, box[..t]);
    ArrivedPrefix(c, box, n, t);
    if t < j {
      assert box[..j] == box[..t] + [box[t]];
      HeardConcat(c, box[..t], [box[t]]);
      HeardEmpty(c, box[t]);
    }
    assert box == box[..j] + box[j..];
    HeardConcat(c, box[..j], box[j..]);
    HandsTaken(c, st, Decoded(c, ds[..k]), ds[..k], ds[..t], box[j..], if k < n then 1 else 0, r);
    assert st.history.taken + (ds[..t] + Heard(c, box[j..])) == st.history.taken + ds[..t] + Heard(c, box[j..]);
  }

  lemma ArrivedPrefix(c: Config, box: seq<Datagram>, n: nat, t: nat)
    requires t <= n <= |box|
    ensures Arrived(c, box[..n])[..t] == Arrived(c, box[..t])
  {
    hide Cut;
  }

  lemma HandsTaken(c: Config, st: State, read: seq<Entry>, admitted: seq<Datagram>, taken: seq<Datagram>,
                   inbox: seq<Datagram>, lost: nat, r: State)
    requires Hands(c, st, read, admitted, taken, inbox, lost, r)
    ensures r.inbox == inbox && r.history.taken == st.history.taken + taken
  {
  }

  /**
    Over any run, what was taken from the socket and what still waits there is what
    arrived, in order, but for empty datagrams: nothing else is skipped.
   */
  lemma {:induction false} NothingSkipped(c: Config, events: seq<Event>)
    ensures Run(c, events).history.taken + Heard(c, Run(c, events).inbox) == Heard(c, Arrivals(events))
  {
    hide WritePackets, ReadPackets, Heard, ReadTo, Written, Inv, Cut;
    if events == [] {
      NoneHeard(c);
    } else {
      var before := events[..|events| - 1];
      var st := Run(c, before);
      NothingSkipped(c, before);
      RunKeeps(c, before);
      QueueBounded(c, st);
      assert Arrivals(before) + [] == Arrivals(before);
      match events[|events| - 1]
      case Sending(e) =>
      case Writing => WriteOutcome(c, st);
      case Reading =>
        var k := ReadStops(c, st);
        ReadHeard(c, st, k, ReadPackets(c, st));
      case Receiving =>
      case Arriving(d) =>
        HeardConcat(c, Arrivals(before), [d]);
        HeardConcat(c, st.inbox, [d]);
        WriteTwice(st.history.taken, Heard(c, st.inbox), Heard(c, [d]));
    }
  }

  lemma NoneHeard(c: Config)
    ensures Heard(c, []) == []
  {
  }
}
