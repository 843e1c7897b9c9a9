/** The session manager: session objects in two maps, specified by the session table. */
module Sessions {
  import opened Bits
  import opened Endpoints
  import opened SessionTable

  class Session {
    var sid: u16
    var uid: u64
    var peer: Address

    constructor ()
      ensures sid == 0 && uid == 0 && peer == NoAddress
    {
      sid, uid, peer := 0, 0, NoAddress;
    }
  }

  class SessionManager {
    var sessionMap: map<u16, Session>
    var uidSidMap: map<u64, u16>
    /** A static counter of the source. */
    var sidGen: nat

    /** A session is stored under its own id, so no object is stored twice. */
    ghost predicate Valid()
      reads this, sessionMap.Values
    {
      forall k :: k in sessionMap ==> sessionMap[k].sid == k
    }

    ghost function Abs(): (t: Table)
      reads this, sessionMap.Values
    {
      Table(map k | k in sessionMap :: Entry(sessionMap[k].uid, sessionMap[k].peer), uidSidMap, sidGen)
    }

    constructor ()
      ensures Valid() && Abs() == EMPTY && sessionMap == map[]
    {
      sessionMap, uidSidMap, sidGen := map[], map[], 0;
    }

    method GetSession(sid: u16) returns (s: Session?)
      ensures s != null <==> sid in sessionMap
      ensures s != null ==> s == sessionMap[sid]
    {
      if sid !in sessionMap {
        return null;
      }
      s := sessionMap[sid];
    }

    method GetSessionByUid(uid: u64) returns (s: Session?)
      ensures match Find(Abs(), uid)
              case None => s == null
              case Some(sid) => sid in sessionMap && s == sessionMap[sid]
    {
      if uid !in uidSidMap {
        return null;
      }
      s := GetSession(uidSidMap[uid]);
    }

    method DestroySession(sid: u16)
      requires Valid()
      modifies this
      ensures Valid() && Abs() == Destroy(old(Abs()), sid) && sessionMap == old(sessionMap) - {sid}
    {
      if sid !in sessionMap {
        return;
      }
      uidSidMap := uidSidMap - {sessionMap[sid].uid};
      sessionMap := sessionMap - {sid};
    }

    method ProduceSession(uid: u64) returns (s: Session)
      requires Valid()
      modifies this
      ensures Valid() && Abs() == Produce(old(Abs()), uid)
      ensures fresh(s) && s.sid == Next(old(Abs())) && s.sid in sessionMap && sessionMap[s.sid] == s
      ensures forall k :: k in sessionMap && k != s.sid ==> k in old(sessionMap) && sessionMap[k] == old(sessionMap)[k]
    {
      hide Destroy, Find;
      DestroyExisting(uid);
      s := Register(uid);
    }

    /** The first half of `ProduceSession`. */
    method DestroyExisting(uid: u64)
      requires Valid()
      modifies this
      ensures Valid() && sidGen == old(sidGen)
      ensures Abs() == var t := old(Abs()); if Find(t, uid).Some? then Destroy(t, Find(t, uid).value) else t
      ensures forall k :: k in sessionMap ==> k in old(sessionMap) && sessionMap[k] == old(sessionMap)[k]
    {
      var curSession := GetSessionByUid(uid);
      if curSession != null {
        DestroySession(curSession.sid);
      }
    }

    /** The second half of `ProduceSession`. */
    method Register(uid: u64) returns (s: Session)
      requires Valid()
      modifies this
      ensures Valid() && fresh(s) && s.sid == Next(old(Abs()))
      ensures sessionMap == old(sessionMap)[s.sid := s]
      ensures Abs() == var t := old(Abs());
              Table(t.bySid[s.sid := Entry(uid, NoAddress)], t.byUid[uid := s.sid], t.gen + 1)
    {
      sidGen := sidGen + 1;
      s := NewSession(sidGen % 0x1_0000, uid);
      assert forall k :: k in sessionMap ==> sessionMap[k] != s;
      sessionMap := sessionMap[s.sid := s];
      uidSidMap := uidSidMap[uid := s.sid];
      assert Abs().bySid == old(Abs()).bySid[s.sid := Entry(uid, NoAddress)];
    }

    static method NewSession(sid: u16, uid: u64) returns (s: Session)
      ensures fresh(s) && s.sid == sid && s.uid == uid && s.peer == NoAddress
    {
      s := new Session();
      s.sid := sid;
      s.uid := uid;
    }

    /** `session->set_peer(from)` on a session the manager holds. */
    method SetPeer(s: Session, peer: Address)
      requires Valid() && s.sid in sessionMap && sessionMap[s.sid] == s
      modifies s`peer
      ensures Valid() && Abs() == WithPeer(old(Abs()), s.sid, peer) && s.peer == peer
    {
      s.peer := peer;
      assert Abs().bySid == old(Abs()).bySid[s.sid := Entry(s.uid, peer)];
    }
  }
}
