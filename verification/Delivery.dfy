/** Two socket interfaces and the network between them. */
module Delivery {
  import opened Bits
  import opened Memory
  import opened Schema
  import opened Packets
  import opened Framing
  import opened Endpoints
  import opened SocketQueues
  import opened FrameCanonical
  import opened PacketProcessing

  // ---------------------------------------------------------------- any packet processor

  /** Whatever a writes, b reads back, and it fits b's receive buffer. */
  ghost predicate Compatible(a: Config, b: Config) {
    forall p :: a.write(p).Some? ==>
      b.read(a.write(p).value) == Some(p) && 0 < |a.write(p).value| <= b.maxPacketSize
  }

  lemma {:induction false} SubsequenceFull<T>(a: seq<T>, b: seq<T>)
    requires Subsequence(a, b)
    ensures |a| <= |b| && (|a| == |b| ==> a == b)
  {
    if a != [] {
      var c := b[..|b| - 1];
      if Subsequence(a, c) {
        SubsequenceFull(a, c);
      } else {
        SubsequenceFull(a[..|a| - 1], c);
      }
    }
  }

  /** Without failures, the i-th datagram written is the i-th entry's. */
  lemma {:induction false} WrittenEach(c: Config, es: seq<Entry>)
    ensures |Written(c, es)| <= |es|
    ensures |Written(c, es)| == |es| ==>
              forall i :: 0 <= i < |es| ==>
                c.write(es[i].packet).Some? &&
                Written(c, es)[i] == Datagram(es[i].address, c.write(es[i].packet).value)
  {
    if es != [] {
      WrittenEach(c, es[..|es| - 1]);
    }
  }

  /** If every datagram is readable, the i-th entry decoded is the i-th datagram's. */
  lemma {:induction false} DecodedEach(c: Config, ds: seq<Datagram>)
    requires forall i :: 0 <= i < |ds| ==> c.read(ds[i].data).Some?
    ensures |Decoded(c, ds)| == |ds|
    ensures forall i :: 0 <= i < |ds| ==> Decoded(c, ds)[i] == Entry(ds[i].address, c.read(ds[i].data).value)
  {
    if ds != [] {
      DecodedEach(c, ds[..|ds| - 1]);
    }
  }

  /** The network so far has delivered what was sent, in order; the receiver's buffer may cut it. */
  ghost predicate InOrder(c: Config, sent: seq<Datagram>, taken: seq<Datagram>, from: Address) {
    |taken| <= |sent| && forall i :: 0 <= i < |taken| ==> taken[i] == Datagram(from, Cut(c, sent[i].data))
  }

  /** A buffer that is large enough cuts nothing. */
  lemma CutNothing(c: Config, data: seq<byte>)
    requires |data| <= c.maxPacketSize
    ensures Cut(c, data) == data
  {
  }

  lemma NothingLost(c: Config, st: State)
    requires Inv(c, st) && st.counters.receiveQueueOverflow == 0
    ensures st.history.admitted == st.history.taken
  {
    hide SendInv, Decoded, Subsequence;
    SubsequenceFull(st.history.admitted, st.history.taken);
  }

  lemma NothingFailed(c: Config, st: State)
    requires Inv(c, st) && st.counters.writePacketFailures == 0
    ensures |st.history.processed| == |st.outbox| && st.outbox == Written(c, st.history.processed)
    ensures st.history.accepted == st.history.processed + st.sendQueue
  {
    hide ReceiveInv, Written;
  }

  /**
    Over a network that neither loses nor reorders, with no queue overflow and no
    write failure, the application receives the packets that were sent, in order,
    and nothing is misread.
   */
  lemma InOrderDelivery(a: Config, sa: State, b: Config, sb: State, from: Address)
    requires Inv(a, sa) && Inv(b, sb) && Compatible(a, b)
    requires InOrder(b, sa.outbox, sb.history.taken, from)
    requires sa.counters.writePacketFailures == 0 && sb.counters.receiveQueueOverflow == 0
    ensures sb.counters.readPacketFailures == 0
    ensures |sb.history.delivered + sb.receiveQueue| == |sb.history.taken| <= |sa.history.accepted|
    ensures forall i :: 0 <= i < |sb.history.delivered + sb.receiveQueue| ==>
              (sb.history.delivered + sb.receiveQueue)[i] == Entry(from, sa.history.accepted[i].packet)
  {
    hide Inv, Written, Decoded;
    NothingLost(b, sb);
    NothingFailed(a, sa);
    WrittenEach(a, sa.history.processed);
    forall i | 0 <= i < |sb.history.taken|
      ensures sb.history.taken[i].data == sa.outbox[i].data
    {
      CutNothing(b, sa.outbox[i].data);
    }
    DecodedEach(b, sb.history.taken);
    Balanced(b, sb);
  }

  lemma Balanced(c: Config, st: State)
    requires Inv(c, st)
    ensures st.history.delivered + st.receiveQueue == Decoded(c, st.history.admitted)
    ensures |st.history.admitted| == |Decoded(c, st.history.admitted)| + st.counters.readPacketFailures
  {
    hide SendInv, Decoded;
    assert |st.history.delivered + st.receiveQueue| == |st.history.delivered| + |st.receiveQueue|;
  }

  /** The network may lose, repeat and reorder, but not invent; the receiver's buffer may cut. */
  ghost predicate NothingInvented(c: Config, sent: seq<Datagram>, taken: seq<Datagram>) {
    forall d :: d in taken ==> exists s :: s in sent && d.data == Cut(c, s.data)
  }

  /** Of what a writes, cut or not, b reads back the packet or nothing. */
  ghost predicate Faithful(a: Config, b: Config) {
    forall p :: a.write(p).Some? ==>
      b.read(Cut(b, a.write(p).value)) == None || b.read(Cut(b, a.write(p).value)) == Some(p)
  }

  lemma CompatibleFaithful(a: Config, b: Config)
    requires Compatible(a, b)
    ensures Faithful(a, b)
  {
    forall p | a.write(p).Some?
      ensures b.read(Cut(b, a.write(p).value)) == Some(p)
    {
      CutNothing(b, a.write(p).value);
    }
  }

  lemma {:induction false} WrittenFrom(c: Config, es: seq<Entry>, d: Datagram)
    requires d in Written(c, es)
    ensures exists e :: e in es && c.write(e.packet) == Some(d.data)
  {
    var w, e := es[..|es| - 1], es[|es| - 1];
    if d in Written(c, w) {
      WrittenFrom(c, w, d);
    } else {
      assert e in es;
    }
  }

  lemma {:induction false} SubsequenceIn<T>(a: seq<T>, b: seq<T>, x: T)
    requires Subsequence(a, b) && x in a
    ensures x in b
  {
    var c := b[..|b| - 1];
    if Subsequence(a, c) {
      SubsequenceIn(a, c, x);
    } else if x in a[..|a| - 1] {
      SubsequenceIn(a[..|a| - 1], c, x);
    }
  }

  /** This packet is among those accepted for sending. */
  ghost predicate WasSent(accepted: seq<Entry>, p: Packet) {
    exists e :: e in accepted && e.packet == p
  }

  /** If every datagram read yields nothing or a packet with some property, so does every entry. */
  lemma {:induction false} DecodedOnly(c: Config, ds: seq<Datagram>, sent: seq<Entry>)
    requires forall i :: 0 <= i < |ds| && c.read(ds[i].data).Some? ==> WasSent(sent, c.read(ds[i].data).value)
    ensures forall i :: 0 <= i < |Decoded(c, ds)| ==> WasSent(sent, Decoded(c, ds)[i].packet)
  {
    hide WasSent;
    if ds != [] {
      DecodedOnly(c, ds[..|ds| - 1], sent);
    }
  }

  /** Over any network that does not invent datagrams, every packet received is one that was sent. */
  lemma NoForgery(a: Config, sa: State, b: Config, sb: State)
    requires Inv(a, sa) && Inv(b, sb) && Faithful(a, b)
    requires NothingInvented(b, sa.outbox, sb.history.taken)
    ensures forall i :: 0 <= i < |sb.history.delivered + sb.receiveQueue| ==>
              WasSent(sa.history.accepted, (sb.history.delivered + sb.receiveQueue)[i].packet)
  {
    hide Inv, Decoded, Written, Subsequence, WasSent, Faithful, Cut;
    var ds := sb.history.admitted;
    forall i | 0 <= i < |ds| && b.read(ds[i].data).Some?
      ensures WasSent(sa.history.accepted, b.read(ds[i].data).value)
    {
      Genuine(a, sa, b, sb, ds[i]);
    }
    DecodedOnly(b, ds, sa.history.accepted);
    Balanced(b, sb);
  }

  lemma Genuine(a: Config, sa: State, b: Config, sb: State, d: Datagram)
    requires Inv(a, sa) && Inv(b, sb) && Faithful(a, b)
    requires NothingInvented(b, sa.outbox, sb.history.taken) && d in sb.history.admitted
    ensures b.read(d.data).Some? ==> WasSent(sa.history.accepted, b.read(d.data).value)
  {
    hide Written, Decoded, Cut;
    SubsequenceIn(sb.history.admitted, sb.history.taken, d);
    var s :| s in sa.outbox && d.data == Cut(b, s.data);
    WrittenFrom(a, sa.history.processed, s);
    var e :| e in sa.history.processed && a.write(e.packet) == Some(s.data);
    assert e in sa.history.accepted;
  }

  /** And if nothing is cut, none is misread. */
  lemma NoneMisread(a: Config, sa: State, b: Config, sb: State)
    requires Inv(a, sa) && Inv(b, sb) && Compatible(a, b)
    requires NothingInvented(b, sa.outbox, sb.history.taken)
    ensures sb.counters.readPacketFailures == 0
  {
    hide Inv, Decoded, Written, Subsequence, Compatible, Cut;
    var ds := sb.history.admitted;
    forall i | 0 <= i < |ds|
      ensures b.read(ds[i].data).Some?
    {
      Readable(a, sa, b, sb, ds[i]);
    }
    DecodedEach(b, ds);
    Balanced(b, sb);
  }

  lemma Readable(a: Config, sa: State, b: Config, sb: State, d: Datagram)
    requires Inv(a, sa) && Inv(b, sb) && Compatible(a, b)
    requires NothingInvented(b, sa.outbox, sb.history.taken) && d in sb.history.admitted
    ensures b.read(d.data).Some?
  {
    hide Written, Decoded;
    SubsequenceIn(sb.history.admitted, sb.history.taken, d);
    var s :| s in sa.outbox && d.data == Cut(b, s.data);
    WrittenFrom(a, sa.history.processed, s);
    var e :| e in sa.history.processed && a.write(e.packet) == Some(s.data);
    CutNothing(b, s.data);
  }

  // ---------------------------------------------------------------- lossy networks that keep the order

  /** The contents of datagrams, as a receiver's buffer cuts them. */
  function CutData(c: Config, ds: seq<Datagram>): seq<seq<byte>> {
    if ds == [] then [] else CutData(c, ds[..|ds| - 1]) + [Cut(c, ds[|ds| - 1].data)]
  }

  function DataOf(ds: seq<Datagram>): seq<seq<byte>> {
    if ds == [] then [] else DataOf(ds[..|ds| - 1]) + [ds[|ds| - 1].data]
  }

  function PacketsOf(es: seq<Entry>): seq<Packet> {
    if es == [] then [] else PacketsOf(es[..|es| - 1]) + [es[|es| - 1].packet]
  }

  /** The packets that the readable ones among these contents become. */
  function ReadOf(c: Config, datas: seq<seq<byte>>): seq<Packet> {
    if datas == [] then [] else
      ReadOf(c, datas[..|datas| - 1]) +
      (match c.read(datas[|datas| - 1]) case None => [] case Some(p) => [p])
  }

  lemma {:induction false} SubsequenceTransitive<T>(a: seq<T>, b: seq<T>, c: seq<T>)
    requires Subsequence(a, b) && Subsequence(b, c)
    ensures Subsequence(a, c)
    decreases |c|
  {
    if a != [] {
      var a', b', c' := a[..|a| - 1], b[..|b| - 1], c[..|c| - 1];
      if Subsequence(b, c') {
        SubsequenceTransitive(a, b, c');
      } else if Subsequence(a, b') {
        SubsequenceTransitive(a, b', c');
      } else {
        SubsequenceTransitive(a', b', c');
      }
    }
  }

  /** Leaving out datagrams leaves out their contents. */
  lemma {:induction false} DataSubsequence(a: seq<Datagram>, b: seq<Datagram>)
    requires Subsequence(a, b)
    ensures Subsequence(DataOf(a), DataOf(b))
    decreases |b|
  {
    if a != [] {
      var a', b' := a[..|a| - 1], b[..|b| - 1];
      if Subsequence(a, b') {
        DataSubsequence(a, b');
        SubsequenceSnoc(DataOf(a), DataOf(b'), b[|b| - 1].data);
      } else {
        DataSubsequence(a', b');
        SubsequenceSnoc(DataOf(a'), DataOf(b'), b[|b| - 1].data);
      }
    }
  }

  /** And their packets. */
  lemma {:induction false} ReadSubsequence(c: Config, a: seq<seq<byte>>, b: seq<seq<byte>>)
    requires Subsequence(a, b)
    ensures Subsequence(ReadOf(c, a), ReadOf(c, b))
    decreases |b|
  {
    if a != [] {
      var a', b', x := a[..|a| - 1], b[..|b| - 1], b[|b| - 1];
      if Subsequence(a, b') {
        ReadSubsequence(c, a, b');
        ReadSnoc(c, ReadOf(c, a), b', x);
      } else {
        ReadSubsequence(c, a', b');
        ReadSnoc(c, ReadOf(c, a'), b', x);
      }
    }
  }

  lemma ReadSnoc(c: Config, r: seq<Packet>, b: seq<seq<byte>>, x: seq<byte>)
    requires Subsequence(r, ReadOf(c, b))
    ensures Subsequence(r, ReadOf(c, b + [x]))
    ensures Subsequence(r + (match c.read(x) case None => [] case Some(p) => [p]), ReadOf(c, b + [x]))
  {
    hide Subsequence;
    assert (b + [x])[..|b|] == b;
    match c.read(x)
    case None => assert r + [] == r && ReadOf(c, b) + [] == ReadOf(c, b);
    case Some(p) => SubsequenceSnoc(r, ReadOf(c, b), p);
  }

  lemma {:induction false} DecodedPackets(c: Config, ds: seq<Datagram>)
    ensures PacketsOf(Decoded(c, ds)) == ReadOf(c, DataOf(ds))
  {
    if ds != [] {
      var w, d := ds[..|ds| - 1], ds[|ds| - 1];
      DecodedPackets(c, w);
      assert DataOf(ds)[..|DataOf(w)|] == DataOf(w);
      match c.read(d.data)
      case None => assert Decoded(c, w) + [] == Decoded(c, w);
      case Some(p) => assert (Decoded(c, w) + [Entry(d.address, p)])[..|Decoded(c, w)|] == Decoded(c, w);
    }
  }

  /** What a faithful receiver reads of what was written is a subsequence of the packets. */
  lemma {:induction false} ReadBackInOrder(a: Config, b: Config, es: seq<Entry>)
    requires Faithful(a, b)
    ensures Subsequence(ReadOf(b, CutData(b, Written(a, es))), PacketsOf(es))
  {
    hide Subsequence, Cut;
    if es == [] {
      NothingIsSubsequence<Packet>([]);
    } else {
      var w, e := es[..|es| - 1], es[|es| - 1];
      ReadBackInOrder(a, b, w);
      var soFar := ReadOf(b, CutData(b, Written(a, w)));
      SubsequenceSnoc(soFar, PacketsOf(w), e.packet);
      match a.write(e.packet)
      case None => assert Written(a, w) + [] == Written(a, w);
      case Some(data) => OneMore(b, Written(a, w), Datagram(e.address, data));
    }
  }

  lemma OneMore(b: Config, ds: seq<Datagram>, d: Datagram)
    ensures ReadOf(b, CutData(b, ds + [d]))
            == ReadOf(b, CutData(b, ds)) + (match b.read(Cut(b, d.data)) case None => [] case Some(p) => [p])
    ensures ReadOf(b, CutData(b, ds)) + [] == ReadOf(b, CutData(b, ds))
  {
    hide Cut;
    assert (ds + [d])[..|ds|] == ds;
    assert (CutData(b, ds) + [Cut(b, d.data)])[..|CutData(b, ds)|] == CutData(b, ds);
  }

  lemma {:induction false} PacketsConcat(a: seq<Entry>, b: seq<Entry>)
    ensures PacketsOf(a + b) == PacketsOf(a) + PacketsOf(b)
  {
    if b == [] {
      assert a + b == a;
    } else {
      assert (a + b)[..|a + b| - 1] == a + b[..|b| - 1];
      PacketsConcat(a, b[..|b| - 1]);
    }
  }

  /**
    Over a network that may lose but keeps the order, with failures and overflow on
    both sides: the packets delivered and queued are an in-order subsequence of those
    accepted for sending.
   */
  lemma InOrderWithLoss(a: Config, sa: State, b: Config, sb: State)
    requires Inv(a, sa) && Inv(b, sb) && Faithful(a, b)
    requires Subsequence(DataOf(sb.history.taken), CutData(b, sa.outbox))
    ensures Subsequence(PacketsOf(sb.history.delivered + sb.receiveQueue), PacketsOf(sa.history.accepted))
  {
    hide Inv, Subsequence, Decoded, Written, Faithful, ReadOf, CutData, DataOf, PacketsOf;
    var datas, sent := DataOf(sb.history.admitted), CutData(b, sa.outbox);
    InvFacts(a, sa, b, sb);
    DataSubsequence(sb.history.admitted, sb.history.taken);
    SubsequenceTransitive(datas, DataOf(sb.history.taken), sent);
    ReadSubsequence(b, datas, sent);
    DecodedPackets(b, sb.history.admitted);
    ReadBackInOrder(a, b, sa.history.processed);
    SubsequenceTransitive(ReadOf(b, datas), ReadOf(b, sent), PacketsOf(sa.history.processed));
    PacketsConcat(sa.history.processed, sa.sendQueue);
    SubsequenceLonger(ReadOf(b, datas), PacketsOf(sa.history.processed), PacketsOf(sa.sendQueue));
  }

  lemma InvFacts(a: Config, sa: State, b: Config, sb: State)
    requires Inv(a, sa) && Inv(b, sb)
    ensures sa.outbox == Written(a, sa.history.processed)
    ensures sa.history.accepted == sa.history.processed + sa.sendQueue
    ensures sb.history.delivered + sb.receiveQueue == Decoded(b, sb.history.admitted)
    ensures Subsequence(sb.history.admitted, sb.history.taken)
  {
    hide Written, Decoded, Subsequence;
  }

  // ---------------------------------------------------------------- the framed packets

  /** A socket interface whose packet processor speaks this protocol. */
  ghost predicate Speaks(c: Config, protocolId: u32, n: int32, maxPacketSize: nat)
    requires n > 0
  {
    var info := PacketInfo(false, 1, protocolId);
    && c.maxPacketSize == maxPacketSize
    && c.write == Framer(info, n, maxPacketSize) && c.read == Unframer(info, n)
  }

  /** Same protocol, same buffer size, more than one packet type: everything written is read back. */
  lemma SameProtocol(a: Config, b: Config, protocolId: u32, n: int32, maxPacketSize: nat)
    requires n > 1 && Speaks(a, protocolId, n, maxPacketSize) && Speaks(b, protocolId, n, maxPacketSize)
    ensures Compatible(a, b)
  {
    hide Writable, StreamBits, Frame, Framed, Read;
    var info := PacketInfo(false, 1, protocolId);
    forall p | a.write(p).Some?
      ensures b.read(a.write(p).value) == Some(p) && 0 < |a.write(p).value| <= b.maxPacketSize
    {
      FramedRoundTrip(info, n, NO_HEADER, p);
      FrameSize(info, n, NO_HEADER, p, maxPacketSize);
      FrameHoldsField(info, n, NO_HEADER, p);
    }
  }

  /** One protocol over a network that invents nothing: what arrives was sent, and all of it is readable. */
  lemma OneProtocol(a: Config, sa: State, b: Config, sb: State, protocolId: u32, n: int32, maxPacketSize: nat)
    requires n > 1 && Speaks(a, protocolId, n, maxPacketSize) && Speaks(b, protocolId, n, maxPacketSize)
    requires Inv(a, sa) && Inv(b, sb) && NothingInvented(b, sa.outbox, sb.history.taken)
    ensures sb.counters.readPacketFailures == 0
    ensures forall i :: 0 <= i < |sb.history.delivered + sb.receiveQueue| ==>
              WasSent(sa.history.accepted, (sb.history.delivered + sb.receiveQueue)[i].packet)
  {
    hide Inv, Speaks, Compatible, Faithful, NothingInvented, WasSent;
    SameProtocol(a, b, protocolId, n, maxPacketSize);
    CompatibleFaithful(a, b);
    NoForgery(a, sa, b, sb);
    NoneMisread(a, sa, b, sb);
  }

  /** With the same packet types nothing is ever misread, whatever the protocol ids and the buffer sizes. */
  lemma SameTypesFaithful(a: Config, b: Config, p: u32, q: u32, n: int32, max: nat, max': nat)
    requires n > 1 && Speaks(a, p, n, max) && Speaks(b, q, n, max')
    ensures Faithful(a, b)
  {
    hide Cut;
    forall x | a.write(x).Some?
      ensures b.read(Cut(b, a.write(x).value)) == None || b.read(Cut(b, a.write(x).value)) == Some(x)
    {
      FrameOrNothing(a, b, p, q, n, max, max', x);
    }
  }

  lemma FrameOrNothing(a: Config, b: Config, p: u32, q: u32, n: int32, max: nat, max': nat, x: Packet)
    requires n > 1 && Speaks(a, p, n, max) && Speaks(b, q, n, max') && a.write(x).Some?
    ensures b.read(Cut(b, a.write(x).value)) == None || b.read(Cut(b, a.write(x).value)) == Some(x)
    ensures p != q ==> b.read(Cut(b, a.write(x).value)) == None
  {
    hide Writable, StreamBits, Frame, Framed, Read;
    var info, other, m := PacketInfo(false, 1, p), PacketInfo(false, 1, q), a.write(x).value;
    if |m| > max' {
      assert Cut(b, m) == m[..max'];
      if Framed(other, m[..max']) {
        CutFrameRejected(info, other, n, NO_HEADER, x, max');
      }
    } else {
      CutNothing(b, m);
      FramedRoundTrip(info, n, NO_HEADER, x);
      if p != q {
        WrongProtocolRejected(info, other, n, NO_HEADER, x, n, []);
      }
    }
  }

  /** Everything sent so far fits the receiver's buffer. */
  ghost predicate NothingCut(c: Config, sent: seq<Datagram>) {
    forall o :: o in sent ==> |o.data| <= c.maxPacketSize
  }

  lemma LargerBufferCutsNothing(a: Config, sa: State, p: u32, n: int32, max: nat, b: Config)
    requires n > 0 && Speaks(a, p, n, max) && Inv(a, sa) && max <= b.maxPacketSize
    ensures NothingCut(b, sa.outbox)
  {
    hide Writable, StreamBits, Frame, Written, ReceiveInv;
    forall o | o in sa.outbox
      ensures |o.data| <= b.maxPacketSize
    {
      WrittenFrom(a, sa.history.processed, o);
      var e :| e in sa.history.processed && a.write(e.packet) == Some(o.data);
      FrameSize(PacketInfo(false, 1, p), n, NO_HEADER, e.packet, max);
    }
  }

  /**
    Different protocols: nothing is ever received, and every datagram read is counted
    as a failure. Either nothing sent is longer than the receiver's buffer, or both
    sides know the same packet types: then a frame cut short is not taken for another
    packet. Without either it may be, as `CutWitness.CutFrameAccepted` shows.
   */
  lemma ForeignProtocol(a: Config, sa: State, p: u32, n: int32, max: nat,
                        b: Config, sb: State, q: u32, n': int32, max': nat)
    requires p != q && n > 0 && n' > 0 && Speaks(a, p, n, max) && Speaks(b, q, n', max')
    requires NothingCut(b, sa.outbox) || (n == n' && n > 1)
    requires Inv(a, sa) && Inv(b, sb) && NothingInvented(b, sa.outbox, sb.history.taken)
    ensures sb.history.delivered == [] && sb.receiveQueue == []
    ensures sb.counters.readPacketFailures == |sb.history.admitted|
  {
    hide Inv, Decoded, Written, Subsequence, Speaks, Cut, NothingCut;
    var ds := sb.history.admitted;
    forall i | 0 <= i < |ds|
      ensures b.read(ds[i].data) == None
    {
      Foreign(a, sa, p, n, max, b, sb, q, n', max', ds[i]);
    }
    DecodedNone(b, ds);
    Balanced(b, sb);
    assert |sb.history.delivered + sb.receiveQueue| == 0;
  }

  lemma {:induction false} DecodedNone(c: Config, ds: seq<Datagram>)
    requires forall i :: 0 <= i < |ds| ==> c.read(ds[i].data) == None
    ensures Decoded(c, ds) == []
  {
    if ds != [] {
      DecodedNone(c, ds[..|ds| - 1]);
    }
  }

  lemma Foreign(a: Config, sa: State, p: u32, n: int32, max: nat, b: Config, sb: State, q: u32, n': int32, max': nat,
                d: Datagram)
    requires p != q && n > 0 && n' > 0 && Speaks(a, p, n, max) && Speaks(b, q, n', max')
    requires NothingCut(b, sa.outbox) || (n == n' && n > 1)
    requires Inv(a, sa) && Inv(b, sb) && NothingInvented(b, sa.outbox, sb.history.taken)
    requires d in sb.history.admitted
    ensures b.read(d.data) == None
  {
    hide Written, Decoded, Speaks, Cut;
    SubsequenceIn(sb.history.admitted, sb.history.taken, d);
    var o :| o in sa.outbox && d.data == Cut(b, o.data);
    WrittenFrom(a, sa.history.processed, o);
    var e :| e in sa.history.processed && a.write(e.packet) == Some(o.data);
    if |o.data| <= b.maxPacketSize {
      WholeForeign(a, p, n, max, b, q, n', max', e.packet);
    } else {
      FrameOrNothing(a, b, p, q, n, max, max', e.packet);
    }
  }

  lemma WholeForeign(a: Config, p: u32, n: int32, max: nat, b: Config, q: u32, n': int32, max': nat, x: Packet)
    requires p != q && n > 0 && n' > 0 && Speaks(a, p, n, max) && Speaks(b, q, n', max')
    requires a.write(x).Some? && |a.write(x).value| <= b.maxPacketSize
    ensures b.read(Cut(b, a.write(x).value)) == None
  {
    hide Writable, StreamBits, Frame, Framed, Read;
    var info := PacketInfo(false, 1, p);
    CutNothing(b, a.write(x).value);
    WrongProtocolRejected(info, PacketInfo(false, 1, q), n, NO_HEADER, x, n', []);
  }
}
