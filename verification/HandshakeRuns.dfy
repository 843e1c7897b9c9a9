/** What holds of the server after any run of datagrams. */
module HandshakeRuns {
  import opened Bits
  import opened Endpoints
  import opened Memory
  import opened Schema
  import opened Packets
  import opened SessionTable
  import opened Handshake
  import Extension = SerializationExtension

  /** The table without its peers. */
  function Strip(t: Table): Table {
    t.(bySid := map sid | sid in t.bySid :: Entry(t.bySid[sid].uid, NoAddress))
  }

  lemma StripInverse(t: Table)
    ensures Inverse(Strip(t)) <==> Inverse(t)
  {
    assert forall sid :: sid in t.bySid <==> sid in Strip(t).bySid;
    assert forall sid :: sid in t.bySid ==> Strip(t).bySid[sid].uid == t.bySid[sid].uid;
  }

  lemma StripProduce(t: Table, uid: u64)
    ensures Strip(Produce(t, uid)) == Produce(Strip(t), uid)
  {
    hide Find, Destroy, Strip;
    var found := Find(t, uid);
    StripFind(t, uid);
    var u := if found.Some? then Destroy(t, found.value) else t;
    if found.Some? {
      StripDestroy(t, found.value);
    }
    StripInsert(u, Next(u), uid);
    StripKeeps(u);
  }

  lemma StripKeeps(t: Table)
    ensures Strip(t).byUid == t.byUid && Strip(t).gen == t.gen
  {
  }

  lemma StripFind(t: Table, uid: u64)
    ensures Find(Strip(t), uid) == Find(t, uid)
  {
  }

  lemma StripDestroy(t: Table, sid: u16)
    ensures Strip(Destroy(t, sid)) == Destroy(Strip(t), sid)
  {
    assert Strip(Destroy(t, sid)).bySid == Destroy(Strip(t), sid).bySid;
  }

  lemma StripInsert(u: Table, sid: u16, uid: u64)
    ensures var e := Entry(uid, NoAddress);
            Strip(Table(u.bySid[sid := e], u.byUid[uid := sid], u.gen + 1))
            == Table(Strip(u).bySid[sid := e], Strip(u).byUid[uid := sid], Strip(u).gen + 1)
  {
    var e := Entry(uid, NoAddress);
    assert Strip(Table(u.bySid[sid := e], u.byUid[uid := sid], u.gen + 1)).bySid == Strip(u).bySid[sid := e];
  }

  lemma StripPeer(t: Table, sid: u16, peer: Address)
    requires sid in t.bySid
    ensures Strip(WithPeer(t, sid, peer)) == Strip(t)
  {
  }

  /** Whatever arrives, the table is that of a run of productions, and there is one reply a request. */
  lemma {:induction false} ServeIsRun(arrivals: seq<Arrival>)
    ensures var st := Serve(INITIAL, arrivals);
            && Strip(st.table) == Run(Uids(arrivals))
            && |st.sent| == |Uids(arrivals)| == st.table.gen
  {
    hide Produce, ReplyBytes, RequestUid, Seen, IsStart;
    if arrivals == [] {
      assert Strip(EMPTY) == EMPTY;
    } else {
      var w, a := arrivals[..|arrivals| - 1], arrivals[|arrivals| - 1];
      ServeIsRun(w);
      if IsStart(a) {
        var uid := RequestUid(Seen(a.data), a.stale);
        var t := Serve(INITIAL, w).table;
        NextRegistered(t, uid);
        StripProduce(t, uid);
        StripPeer(Produce(t, uid), Next(t), a.from);
        assert Uids(arrivals) == Uids(w) + [uid];
        assert Uids(arrivals)[..|Uids(w)|] == Uids(w);
      } else {
        assert Uids(arrivals) == Uids(w);
      }
    }
  }

  /** The i-th reply goes to the i-th requester and carries production number i+1's id. */
  lemma {:induction false} Replies(arrivals: seq<Arrival>, i: nat)
    requires i < |Uids(arrivals)|
    ensures |Serve(INITIAL, arrivals).sent| == |Uids(arrivals)|
    ensures Serve(INITIAL, arrivals).sent[i] == Datagram(Senders(arrivals)[i], ReplyBytes((i + 1) % 0x1_0000))
  {
    hide Produce, ReplyBytes, RequestUid, Seen, IsStart;
    var w, a := arrivals[..|arrivals| - 1], arrivals[|arrivals| - 1];
    ServeIsRun(arrivals);
    ServeIsRun(w);
    if i < |Uids(w)| {
      Replies(w, i);
    }
  }

  /** Every known user's session has the last sender as its peer. */
  ghost predicate PeersTrack(t: Table, uids: seq<u64>, senders: seq<Address>)
    requires |uids| == |senders|
  {
    forall uid :: uid in uids ==>
      && uid in t.byUid && t.byUid[uid] in t.bySid
      && t.bySid[t.byUid[uid]] == Entry(uid, senders[Last(uids, uid)])
  }

  lemma {:induction false} PeersAreLast(arrivals: seq<Arrival>)
    requires Safe(Uids(arrivals))
    ensures PeersTrack(Serve(INITIAL, arrivals).table, Uids(arrivals), Senders(arrivals))
  {
    hide ReplyBytes, RequestUid, Seen, IsStart, PeersTrack, Safe, Start;
    if arrivals == [] {
      NoPeers(EMPTY);
    } else {
      var w, a := arrivals[..|arrivals| - 1], arrivals[|arrivals| - 1];
      if IsStart(a) {
        var uid := RequestUid(Seen(a.data), a.stale);
        assert Uids(arrivals) == Uids(w) + [uid];
        SafePrefix(Uids(w), uid);
        PeersAreLast(w);
        ServeSafe(w, uid);
        PeersSnoc(Serve(INITIAL, w), Uids(w), Senders(w), uid, a.from);
      } else {
        assert Uids(arrivals) == Uids(w) && Senders(arrivals) == Senders(w);
        PeersAreLast(w);
      }
    }
  }

  lemma NoPeers(t: Table)
    ensures PeersTrack(t, [], [])
  {
  }

  lemma SafePrefix(w: seq<u64>, uid: u64)
    requires Safe(w + [uid])
    ensures Safe(w) && Inverse(Run(w)) && !Collides(Run(w), uid)
  {
    hide Inverse, Produce, Collides;
    assert (w + [uid])[..|w|] == w;
    SafeInverse(w);
    ProduceKeepsInverse(Run(w), uid);
  }

  lemma ServeSafe(arrivals: seq<Arrival>, uid: u64)
    requires Inverse(Run(Uids(arrivals))) && !Collides(Run(Uids(arrivals)), uid)
    ensures var t := Serve(INITIAL, arrivals).table;
            Inverse(t) && !Collides(t, uid) && t.byUid == Run(Uids(arrivals)).byUid
  {
    hide Serve, Run, Uids, Inverse;
    ServeIsRun(arrivals);
    var t := Serve(INITIAL, arrivals).table;
    StripInverse(t);
    assert Strip(t).bySid.Keys == t.bySid.Keys;
  }

  lemma PeersSnoc(st: State, uids: seq<u64>, senders: seq<Address>, uid: u64, from: Address)
    requires |uids| == |senders| && PeersTrack(st.table, uids, senders)
    requires Inverse(st.table) && !Collides(st.table, uid)
    ensures PeersTrack(Start(st, from, uid).table, uids + [uid], senders + [from])
  {
    hide Produce, Inverse, Find, ReplyBytes, Last, Collides;
    var t := st.table;
    ProducedUids(t, uid);
    NextRegistered(t, uid);
    forall v | v in uids + [uid]
      ensures var r := Start(st, from, uid).table;
              && v in r.byUid && r.byUid[v] in r.bySid
              && r.bySid[r.byUid[v]] == Entry(v, (senders + [from])[Last(uids + [uid], v)])
    {
      LastSnoc(uids, uid, v);
      if v != uid {
        Kept(t, uid, v);
      }
    }
  }

  /** Another user's session survives a production untouched. */
  lemma Kept(t: Table, uid: u64, v: u64)
    requires Inverse(t) && !Collides(t, uid) && v != uid && v in t.byUid
    ensures var r := Produce(t, uid); var sid := t.byUid[v];
            && sid != Next(t) && sid in t.bySid && v in r.byUid && r.byUid[v] == sid
            && sid in r.bySid && r.bySid[sid] == t.bySid[sid]
  {
    hide Produce, Find;
    ProducedUids(t, uid);
    ProduceRegisters(t, uid);
  }

  // ---------------------------------------------------------------- the main result

  /**
    After any run of datagrams in which every user whose id came round again had
    started again by then: the maps are inverse; the users with a session are
    exactly those who asked for one; each session is its user's, under the id of
    the last request, with its sender as peer; and the reply to that request was
    sent there, and reads on the client as that id, whatever follows it in the
    client's buffer.
   */
  lemma HandshakeRun(arrivals: seq<Arrival>)
    requires AllRenewed(Uids(arrivals))
    ensures Inverse(Serve(INITIAL, arrivals).table)
    ensures forall uid :: uid in Serve(INITIAL, arrivals).table.byUid <==> uid in Uids(arrivals)
    ensures forall uid :: uid in Uids(arrivals) ==> Served(Serve(INITIAL, arrivals), arrivals, uid)
  {
    hide Inverse, Serve, Run, Uids, Senders, Served, Tracks, AllRenewed, Safe;
    var uids := Uids(arrivals);
    SafeIffRenewed(uids);
    SafeInverse(uids);
    SafeTracks(uids);
    ServeIsRun(arrivals);
    StripInverse(Serve(INITIAL, arrivals).table);
    TrackedUids(Run(uids), uids);
    forall uid | uid in uids
      ensures Served(Serve(INITIAL, arrivals), arrivals, uid)
    {
      UserServed(arrivals, uid);
    }
  }

  lemma TrackedUids(t: Table, uids: seq<u64>)
    requires Tracks(t, uids)
    ensures forall uid :: uid in t.byUid <==> uid in uids
  {
  }

  /** What a user who asked for a session gets. */
  ghost predicate Served(st: State, arrivals: seq<Arrival>, uid: u64)
    requires uid in Uids(arrivals)
  {
    var last := Last(Uids(arrivals), uid);
    var peer := Senders(arrivals)[last];
    && Find(st.table, uid).Some?
    && var sid := Find(st.table, uid).value;
       && sid == (last + 1) % 0x1_0000
       && sid in st.table.bySid && st.table.bySid[sid] == Entry(uid, peer)
       && |st.sent| == |Uids(arrivals)| && st.sent[last] == Datagram(peer, ReplyBytes(sid))
       && forall rest :: ClientReads(ReplyBytes(sid) + rest) == [VBits(102), VBits(sid)]
  }

  /** The client's reading of a reply buffer. */
  function ClientReads(buffer: seq<byte>): seq<Val> {
    Extension.LenientAll(SchemaOf(102), MemBits(buffer), 0).value
  }

  lemma UserServed(arrivals: seq<Arrival>, uid: u64)
    requires Safe(Uids(arrivals)) && uid in Uids(arrivals)
    ensures Served(Serve(INITIAL, arrivals), arrivals, uid)
  {
    hide Inverse, Serve, Run, Uids, Senders, ReplyBytes, ClientReads, Last, Safe;
    var uids := Uids(arrivals);
    SafeTracks(uids);
    ServeIsRun(arrivals);
    PeersAreLast(arrivals);
    Replies(arrivals, Last(uids, uid));
    var sid: u16 := (Last(uids, uid) + 1) % 0x1_0000;
    forall rest
      ensures ClientReads(ReplyBytes(sid) + rest) == [VBits(102), VBits(sid)]
    {
      ReplyReads(sid, rest);
    }
  }

  lemma ReplyReads(sid: u16, rest: seq<byte>)
    ensures ClientReads(ReplyBytes(sid) + rest) == [VBits(102), VBits(sid)]
  {
    hide Plain, MemBits, DecodeAll, Extension.LenientAll;
    PlainReadsBack(ConnectionStartRsp(102, sid), rest);
  }

  /** The condition is exact: without it some table on the way was not inverse. */
  lemma {:induction false} HandshakeRunExact(arrivals: seq<Arrival>)
    ensures AllRenewed(Uids(arrivals))
            <==> forall n :: 0 <= n <= |arrivals| ==> Inverse(Serve(INITIAL, arrivals[..n]).table)
  {
    hide Inverse, Serve, Run, Uids, AllRenewed, IsStart;
    var uids := Uids(arrivals);
    SafeIffRenewed(uids);
    assert arrivals[..|arrivals|] == arrivals;
    ServeIsRun(arrivals);
    StripInverse(Serve(INITIAL, arrivals).table);
    if arrivals == [] {
      NothingServed();
    } else {
      var w := arrivals[..|arrivals| - 1];
      HandshakeRunExact(w);
      SafeIffRenewed(Uids(w));
      SafeSnoc(arrivals);
      forall n | 0 <= n <= |w|
        ensures Inverse(Serve(INITIAL, arrivals[..n]).table) == Inverse(Serve(INITIAL, w[..n]).table)
      {
        assert arrivals[..n] == w[..n];
      }
    }
  }

  /** And without it, at some point on the way, some user's lookup found somebody else's session. */
  lemma {:induction false} LookupsExact(arrivals: seq<Arrival>)
    ensures AllRenewed(Uids(arrivals))
            <==> forall n :: 0 <= n <= |arrivals| ==> FindsOwn(Serve(INITIAL, arrivals[..n]).table)
  {
    hide Inverse, Serve, Run, Uids, AllRenewed, FindsOwn;
    var uids := Uids(arrivals);
    SafeIffRenewed(uids);
    assert arrivals[..|arrivals|] == arrivals;
    if AllRenewed(uids) {
      SafeInverse(uids);
      ServeIsRun(arrivals);
      StripInverse(Serve(INITIAL, arrivals).table);
      InverseFindsOwn(Serve(INITIAL, arrivals).table);
    }
    if arrivals == [] {
      NothingServed();
    } else {
      var w := arrivals[..|arrivals| - 1];
      LookupsExact(w);
      SafeIffRenewed(Uids(w));
      SafeSnoc(arrivals);
      UnsafeLookup(arrivals);
      forall n | 0 <= n <= |w|
        ensures FindsOwn(Serve(INITIAL, arrivals[..n]).table) == FindsOwn(Serve(INITIAL, w[..n]).table)
      {
        assert arrivals[..n] == w[..n];
      }
    }
  }

  lemma UnsafeLookup(arrivals: seq<Arrival>)
    requires arrivals != []
    ensures Safe(Uids(arrivals[..|arrivals| - 1])) && !Safe(Uids(arrivals))
            ==> !FindsOwn(Serve(INITIAL, arrivals).table)
  {
    hide Safe, Run, RequestUid, Seen, IsStart, FindsOwn, Serve;
    var w, a := arrivals[..|arrivals| - 1], arrivals[|arrivals| - 1];
    ServeIsRun(arrivals);
    StripFindsOwn(Serve(INITIAL, arrivals).table);
    if IsStart(a) {
      if Safe(Uids(w)) && !Safe(Uids(arrivals)) {
        UnsafeMisdirects(Uids(w), RequestUid(Seen(a.data), a.stale));
      }
    } else {
      assert Uids(arrivals) == Uids(w);
    }
  }

  lemma StripFindsOwn(t: Table)
    ensures FindsOwn(Strip(t)) == FindsOwn(t)
  {
    hide Strip, Find;
    forall uid: u64
      ensures Find(Strip(t), uid) == Find(t, uid)
      ensures Find(t, uid).Some? ==> Find(t, uid).value in t.bySid && Find(t, uid).value in Strip(t).bySid
                                     && Strip(t).bySid[Find(t, uid).value].uid == t.bySid[Find(t, uid).value].uid
    {
      StripEntry(t, uid);
    }
  }

  lemma StripEntry(t: Table, uid: u64)
    ensures Find(Strip(t), uid) == Find(t, uid)
    ensures Find(t, uid).Some? ==> Find(t, uid).value in t.bySid && Find(t, uid).value in Strip(t).bySid
                                   && Strip(t).bySid[Find(t, uid).value].uid == t.bySid[Find(t, uid).value].uid
  {
  }

  lemma NothingServed()
    ensures Safe(Uids([]))
  {
    EmptyOk();
  }

  lemma SafeSnoc(arrivals: seq<Arrival>)
    requires arrivals != []
    ensures Safe(Uids(arrivals)) <==> Inverse(Run(Uids(arrivals))) && Safe(Uids(arrivals[..|arrivals| - 1]))
  {
    hide Inverse, Run, IsStart, RequestUid, Seen;
    var w, a := arrivals[..|arrivals| - 1], arrivals[|arrivals| - 1];
    if IsStart(a) {
      assert Uids(arrivals)[..|Uids(w)|] == Uids(w);
    } else {
      assert Uids(arrivals) == Uids(w);
    }
  }

  /** A run of at most 65536 requests always qualifies. */
  lemma ShortHandshakeRun(arrivals: seq<Arrival>)
    requires |Uids(arrivals)| <= 0x1_0000
    ensures Inverse(Serve(INITIAL, arrivals).table)
    ensures forall uid :: uid in Serve(INITIAL, arrivals).table.byUid <==> uid in Uids(arrivals)
    ensures forall uid :: uid in Uids(arrivals) ==> Served(Serve(INITIAL, arrivals), arrivals, uid)
  {
    hide Served, Inverse, Serve;
    HandshakeRun(arrivals);
  }

  /** Serving in several batches is serving them in one. */
  lemma {:induction false} ServeConcat(st: State, a: seq<Arrival>, b: seq<Arrival>)
    ensures Serve(Serve(st, a), b) == Serve(st, a + b)
  {
    hide Handle;
    if b == [] {
      assert a + b == a;
    } else {
      var c := b[..|b| - 1];
      assert (a + b)[..|a + b| - 1] == a + c;
      ServeConcat(st, a, c);
    }
  }

  // ---------------------------------------------------------------- clients

  /** One client's request: the bytes of its buffer after the request are arbitrary. */
  datatype Request = Request(from: Address, sid: u16, uid: u64, rest: seq<byte>, stale: u64)

  function Arriving(r: Request): Arrival {
    Arrival(r.from, Plain(ConnectionStartReq(101, r.sid, r.uid)) + r.rest, r.stale)
  }

  function AllArriving(rs: seq<Request>): seq<Arrival> {
    seq(|rs|, i requires 0 <= i < |rs| => Arriving(rs[i]))
  }

  /** Requests made by clients are all served, for the users and from the senders that made them. */
  lemma {:induction false} ClientsServed(rs: seq<Request>)
    ensures |Uids(AllArriving(rs))| == |rs|
    ensures forall i :: 0 <= i < |rs| ==>
              Uids(AllArriving(rs))[i] == rs[i].uid && Senders(AllArriving(rs))[i] == rs[i].from
  {
    hide Arriving, RequestUid, Seen, IsStart;
    if rs != [] {
      var w, r := rs[..|rs| - 1], rs[|rs| - 1];
      ClientsServed(w);
      assert AllArriving(rs)[..|rs| - 1] == AllArriving(w);
      ArrivingServed(r);
    }
  }

  lemma ArrivingServed(r: Request)
    ensures IsStart(Arriving(r)) && RequestUid(Seen(Arriving(r).data), Arriving(r).stale) == r.uid
    ensures Arriving(r).from == r.from
  {
    hide Plain, RequestUid, Seen, IsStart;
    RequestReceived(r.sid, r.uid, r.rest, r.from, r.stale);
  }
}
