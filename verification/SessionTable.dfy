/**
  The session table: sessions by 16-bit session id, session ids by user id, and a
  counter whose low 16 bits are the next session id. The two maps should be
  inverse; since ids are handed out modulo 65536 they are so only while no session
  outlives 65536 productions, and this module proves exactly when that is.
 */
module SessionTable {
  import opened Bits
  import opened Endpoints

  datatype Entry = Entry(uid: u64, peer: Address)

  datatype Table = Table(bySid: map<u16, Entry>, byUid: map<u64, u16>, gen: nat)

  const EMPTY := Table(map[], map[], 0)

  /** The id the next session gets: the incremented counter, truncated to 16 bits. */
  function Next(t: Table): u16 {
    (t.gen + 1) % 0x1_0000
  }

  /** `GetSessionByUid`: the id of the session found, which need not be the user's. */
  function Find(t: Table, uid: u64): Option<u16> {
    if uid in t.byUid && t.byUid[uid] in t.bySid then Some(t.byUid[uid]) else None
  }

  /** `DestroySession` forgets the session and its user's id. */
  function Destroy(t: Table, sid: u16): Table {
    if sid !in t.bySid then t
    else Table(t.bySid - {sid}, t.byUid - {t.bySid[sid].uid}, t.gen)
  }

  /** `ProduceSession`: the session found for the user is destroyed first. */
  function Produce(t: Table, uid: u64): Table {
    var found := Find(t, uid);
    var u := if found.Some? then Destroy(t, found.value) else t;
    Table(u.bySid[Next(u) := Entry(uid, NoAddress)], u.byUid[uid := Next(u)], u.gen + 1)
  }

  function WithPeer(t: Table, sid: u16, peer: Address): Table
    requires sid in t.bySid
  {
    t.(bySid := t.bySid[sid := t.bySid[sid].(peer := peer)])
  }

  // ---------------------------------------------------------------- the invariant

  /** Every user id leads to that user's session, and every session is its user's. */
  ghost predicate Inverse(t: Table) {
    && (forall uid :: uid in t.byUid ==> t.byUid[uid] in t.bySid && t.bySid[t.byUid[uid]].uid == uid)
    && (forall sid :: sid in t.bySid ==> t.bySid[sid].uid in t.byUid && t.byUid[t.bySid[sid].uid] == sid)
  }

  /** The next id belongs to a live session of somebody else. */
  predicate Collides(t: Table, uid: u64) {
    Next(t) in t.bySid && t.bySid[Next(t)].uid != uid
  }

  /** A lookup by user id finds that user's session, and finds it if there is one. */
  lemma FindFindsUser(t: Table, uid: u64)
    requires Inverse(t)
    ensures Find(t, uid).Some? ==> t.bySid[Find(t, uid).value].uid == uid
    ensures Find(t, uid).Some? <==> exists sid :: sid in t.bySid && t.bySid[sid].uid == uid
  {
  }

  lemma DestroyKeepsInverse(t: Table, sid: u16)
    requires Inverse(t)
    ensures Inverse(Destroy(t, sid))
    ensures sid in t.bySid ==> Find(Destroy(t, sid), t.bySid[sid].uid) == None
  {
  }

  /** Destroying what was found leaves no session and no id for the user. */
  lemma Cleared(t: Table, uid: u64, u: Table)
    requires Inverse(t)
    requires u == if Find(t, uid).Some? then Destroy(t, Find(t, uid).value) else t
    ensures Inverse(u) && u.gen == t.gen && uid !in u.byUid && u.byUid == t.byUid - {uid}
    ensures forall sid :: sid in u.bySid <==> sid in t.bySid && t.bySid[sid].uid != uid
    ensures forall sid :: sid in u.bySid ==> u.bySid[sid] == t.bySid[sid]
  {
  }

  /** Producing a session keeps the maps inverse exactly when the next id is not another user's. */
  lemma ProduceKeepsInverse(t: Table, uid: u64)
    requires Inverse(t)
    ensures Inverse(Produce(t, uid)) <==> !Collides(t, uid)
  {
    hide Find, Destroy;
    var u := if Find(t, uid).Some? then Destroy(t, Find(t, uid).value) else t;
    Cleared(t, uid, u);
    var r := Produce(t, uid);
    if Collides(t, uid) {
      var other := t.bySid[Next(t)].uid;
      assert other in u.byUid && r.byUid[other] == Next(t) && r.bySid[Next(t)].uid == uid;
    } else {
      assert Next(u) !in u.bySid;
    }
  }

  /** The produced session is found for its user, and every other user's session is kept. */
  lemma ProduceRegisters(t: Table, uid: u64)
    requires Inverse(t) && !Collides(t, uid)
    ensures Find(Produce(t, uid), uid) == Some(Next(t))
    ensures forall v :: v != uid ==> Find(Produce(t, uid), v) == Find(t, v)
    ensures forall sid :: sid in t.bySid && t.bySid[sid].uid != uid ==>
              sid in Produce(t, uid).bySid && Produce(t, uid).bySid[sid] == t.bySid[sid]
    ensures Produce(t, uid).bySid.Keys
            == (set sid | sid in t.bySid && t.bySid[sid].uid != uid) + {Next(t)}
  {
    hide Find, Destroy;
    var u := if Find(t, uid).Some? then Destroy(t, Find(t, uid).value) else t;
    Cleared(t, uid, u);
    FindAfter(t, uid, u);
  }

  lemma FindAfter(t: Table, uid: u64, u: Table)
    requires Inverse(t) && Inverse(u) && uid !in u.byUid && u.byUid == t.byUid - {uid}
    requires !Collides(t, uid) && u.gen == t.gen
    requires Produce(t, uid) == Table(u.bySid[Next(u) := Entry(uid, NoAddress)], u.byUid[uid := Next(u)], u.gen + 1)
    ensures Find(Produce(t, uid), uid) == Some(Next(t))
    ensures forall v :: v != uid ==> Find(Produce(t, uid), v) == Find(t, v)
  {
    hide Produce;
  }

  /** After a collision the displaced user's lookup returns a session that is somebody else's. */
  lemma CollisionMisdirects(t: Table, uid: u64)
    requires Inverse(t) && Collides(t, uid)
    ensures var other := t.bySid[Next(t)].uid; var r := Produce(t, uid);
            && other != uid && Find(r, other) == Some(Next(t)) && r.bySid[Next(t)].uid == uid
  {
    hide Destroy;
    var u := if Find(t, uid).Some? then Destroy(t, Find(t, uid).value) else t;
    Cleared(t, uid, u);
    var other := t.bySid[Next(t)].uid;
    assert other in u.byUid && u.byUid[other] == Next(t);
  }

  // ---------------------------------------------------------------- runs with destruction

  datatype Step = Producing(uid: u64) | Destroying(sid: u16)

  function Apply(t: Table, step: Step): Table {
    match step
    case Producing(uid) => Produce(t, uid)
    case Destroying(sid) => Destroy(t, sid)
  }

  function Steps(steps: seq<Step>): Table {
    if steps == [] then EMPTY else Apply(Steps(steps[..|steps| - 1]), steps[|steps| - 1])
  }

  function Productions(steps: seq<Step>): nat {
    if steps == [] then 0
    else Productions(steps[..|steps| - 1]) + (if steps[|steps| - 1].Producing? then 1 else 0)
  }

  /** Ids in use were handed out already: while the counter is small, the next one is new. */
  ghost predicate Numbered(t: Table) {
    t.gen <= 0x1_0000 ==> forall sid :: sid in t.bySid ==> 1 <= (if sid == 0 then 0x1_0000 else sid) <= t.gen
  }

  /** Any interleaving of destructions with at most 65536 productions keeps the maps inverse. */
  lemma {:induction false} StepsKeepInverse(steps: seq<Step>)
    requires Productions(steps) <= 0x1_0000
    ensures Steps(steps).gen == Productions(steps) && Numbered(Steps(steps)) && Inverse(Steps(steps))
  {
    hide Produce, Destroy, Inverse, Numbered;
    if steps == [] {
      EmptyOk();
    } else {
      StepsKeepInverse(steps[..|steps| - 1]);
      var t := Steps(steps[..|steps| - 1]);
      match steps[|steps| - 1]
      case Producing(uid) =>
        NumberedProduce(t, uid);
        ProduceKeepsInverse(t, uid);
      case Destroying(sid) =>
        NumberedDestroy(t, sid);
        DestroyKeepsInverse(t, sid);
    }
  }

  lemma EmptyOk()
    ensures Inverse(EMPTY) && Numbered(EMPTY) && EMPTY.gen == 0
  {
  }

  lemma NumberedProduce(t: Table, uid: u64)
    requires Numbered(t) && Inverse(t) && t.gen < 0x1_0000
    ensures !Collides(t, uid)
    ensures Numbered(Produce(t, uid)) && Produce(t, uid).gen == t.gen + 1
  {
    hide Find, Destroy, Inverse;
    var u := if Find(t, uid).Some? then Destroy(t, Find(t, uid).value) else t;
    Cleared(t, uid, u);
  }

  lemma NumberedDestroy(t: Table, sid: u16)
    requires Numbered(t)
    ensures Numbered(Destroy(t, sid)) && Destroy(t, sid).gen == t.gen
  {
  }

  // ---------------------------------------------------------------- runs of productions

  /** What the server does: one production per start request, never a separate destruction. */
  function Run(uids: seq<u64>): Table {
    if uids == [] then EMPTY else Produce(Run(uids[..|uids| - 1]), uids[|uids| - 1])
  }

  /** The maps are inverse after every production of the run. */
  ghost predicate Safe(uids: seq<u64>) {
    Inverse(Run(uids)) && (uids == [] || Safe(uids[..|uids| - 1]))
  }

  /** User i's production is renewed before its id comes round again. */
  ghost predicate RenewedFrom(uids: seq<u64>, i: nat)
    requires i + 0x1_0000 < |uids|
  {
    exists j :: i < j <= i + 0x1_0000 && uids[j] == uids[i]
  }

  ghost predicate AllRenewed(uids: seq<u64>) {
    forall i :: 0 <= i && i + 0x1_0000 < |uids| ==> RenewedFrom(uids, i)
  }

  /** The position of a user's last production. */
  function Last(uids: seq<u64>, uid: u64): (i: nat)
    requires uid in uids
    ensures i < |uids| && uids[i] == uid && forall j :: i < j < |uids| ==> uids[j] != uid
  {
    if uids[|uids| - 1] == uid then |uids| - 1 else
      assert uid in uids[..|uids| - 1];
      Last(uids[..|uids| - 1], uid)
  }

  /** The table of a safe run: each user seen has the id of their last production. */
  ghost predicate Tracks(t: Table, uids: seq<u64>) {
    && t.gen == |uids|
    && (forall uid :: uid in t.byUid <==> uid in uids)
    && (forall uid :: uid in uids ==> uid in t.byUid && t.byUid[uid] == (Last(uids, uid) + 1) % 0x1_0000)
  }

  lemma ProducedUids(t: Table, uid: u64)
    requires Inverse(t)
    ensures Produce(t, uid).byUid == t.byUid[uid := Next(t)] && Produce(t, uid).gen == t.gen + 1
  {
    hide Find, Destroy, Inverse;
    var u := if Find(t, uid).Some? then Destroy(t, Find(t, uid).value) else t;
    Cleared(t, uid, u);
  }

  lemma LastSnoc(uids: seq<u64>, uid: u64, v: u64)
    ensures v in uids + [uid] <==> v == uid || v in uids
    ensures v in uids + [uid] ==> Last(uids + [uid], v) == if v == uid then |uids| else Last(uids, v)
  {
    assert (uids + [uid])[..|uids|] == uids;
  }

  lemma TracksProduce(t: Table, uids: seq<u64>, uid: u64)
    requires Inverse(t) && Tracks(t, uids)
    ensures Tracks(Produce(t, uid), uids + [uid])
  {
    hide Produce, Inverse, Last;
    ProducedUids(t, uid);
    forall v: u64 {
      LastSnoc(uids, uid, v);
    }
  }

  lemma {:induction false} SafeTracks(uids: seq<u64>)
    requires Safe(uids)
    ensures Tracks(Run(uids), uids)
  {
    hide Inverse, Produce;
    if uids != [] {
      var w := uids[..|uids| - 1];
      SafeTracks(w);
      SafeInverse(w);
      TracksProduce(Run(w), w, uids[|w|]);
      assert w + [uids[|w|]] == uids;
    }
  }

  lemma SafeInverse(uids: seq<u64>)
    requires Safe(uids)
    ensures Inverse(Run(uids))
  {
  }

  lemma SameIdDistance(a: nat, b: nat)
    requires a < b && (a + 1) % 0x1_0000 == (b + 1) % 0x1_0000
    ensures a + 0x1_0000 == b || a + 0x1_0000 < b - 0xffff
  {
  }

  lemma SameId(a: nat, b: nat)
    requires a + 0x1_0000 == b
    ensures (a + 1) % 0x1_0000 == (b + 1) % 0x1_0000
  {
  }

  /**
    In a tracked run that has been renewed so far, the next production collides iff
    the user 65536 back is neither renewed nor producing.
   */
  lemma CollidesIff(t: Table, w: seq<u64>, uid: u64)
    requires Inverse(t) && Tracks(t, w) && AllRenewed(w)
    ensures Collides(t, uid) <==> |w| >= 0x1_0000 && !RenewedFrom(w + [uid], |w| - 0x1_0000)
  {
    hide Inverse;
    var n, run := |w|, w + [uid];
    if Collides(t, uid) {
      CollisionIsOld(t, w, uid);
    }
    if n >= 0x1_0000 && !RenewedFrom(run, n - 0x1_0000) {
      StaleCollides(t, w, uid);
    }
  }

  lemma LastNotRenewed(w: seq<u64>, uid: u64)
    requires uid in w
    ensures Last(w, uid) + 0x1_0000 < |w| ==> !RenewedFrom(w, Last(w, uid))
  {
  }

  lemma CollisionIsOld(t: Table, w: seq<u64>, uid: u64)
    requires Inverse(t) && Tracks(t, w) && AllRenewed(w) && Collides(t, uid)
    ensures |w| >= 0x1_0000 && !RenewedFrom(w + [uid], |w| - 0x1_0000)
  {
    var n := |w|;
    var other := t.bySid[Next(t)].uid;
    assert other in t.byUid && t.byUid[other] == Next(t);
    var i := Last(w, other);
    SameIdDistance(i, n);
    LastNotRenewed(w, other);
    assert i == n - 0x1_0000;
    forall j | i < j <= i + 0x1_0000
      ensures (w + [uid])[j] != (w + [uid])[i]
    {
    }
  }

  lemma StaleCollides(t: Table, w: seq<u64>, uid: u64)
    requires Inverse(t) && Tracks(t, w) && |w| >= 0x1_0000 && !RenewedFrom(w + [uid], |w| - 0x1_0000)
    ensures Collides(t, uid)
  {
    var n, run := |w|, w + [uid];
    var i := n - 0x1_0000;
    var other := w[i];
    assert run[i] == other && run[n] == uid;
    assert uid != other;
    var l := Last(w, other);
    assert run[l] == run[i];
    SameId(i, n);
    assert t.byUid[other] == Next(t);
  }

  /**
    A run of any length keeps the maps inverse throughout if and only if every
    user whose id comes round again has produced another session by then.
   */
  lemma {:induction false} SafeIffRenewed(uids: seq<u64>)
    ensures Safe(uids) <==> AllRenewed(uids)
  {
    hide Inverse, Produce, Collides, Tracks, RenewedFrom;
    if uids == [] {
      EmptyOk();
    } else {
      var n := |uids| - 1;
      var w, uid := uids[..n], uids[n];
      assert uids == w + [uid];
      SafeIffRenewed(w);
      RenewedSnoc(w, uid);
      if Safe(w) {
        SafeInverse(w);
        SafeTracks(w);
        CollidesIff(Run(w), w, uid);
        ProduceKeepsInverse(Run(w), uid);
      }
    }
  }

  /** Every lookup by user id that finds a session finds that user's. */
  ghost predicate FindsOwn(t: Table) {
    forall uid :: Find(t, uid).Some? ==> t.bySid[Find(t, uid).value].uid == uid
  }

  lemma InverseFindsOwn(t: Table)
    requires Inverse(t)
    ensures FindsOwn(t)
  {
  }

  /** The production that makes a run unsafe misdirects a lookup at once. */
  lemma UnsafeMisdirects(w: seq<u64>, uid: u64)
    requires Safe(w) && !Safe(w + [uid])
    ensures !FindsOwn(Run(w + [uid]))
  {
    hide Inverse, Produce, Find;
    var t := Run(w);
    assert (w + [uid])[..|w|] == w;
    SafeInverse(w);
    ProduceKeepsInverse(t, uid);
    CollisionMisdirects(t, uid);
    var other := t.bySid[Next(t)].uid;
    assert Run(w + [uid]) == Produce(t, uid) && Find(Produce(t, uid), other).Some?;
  }

  lemma RenewedSnoc(w: seq<u64>, uid: u64)
    ensures AllRenewed(w + [uid])
            <==> AllRenewed(w) && (|w| >= 0x1_0000 ==> RenewedFrom(w + [uid], |w| - 0x1_0000))
  {
    hide RenewedFrom;
    forall i | 0 <= i && i + 0x1_0000 < |w|
      ensures RenewedFrom(w + [uid], i) == RenewedFrom(w, i)
    {
      RenewedPrefix(w, uid, i);
    }
  }

  lemma RenewedPrefix(w: seq<u64>, uid: u64, i: nat)
    requires i + 0x1_0000 < |w|
    ensures RenewedFrom(w + [uid], i) == RenewedFrom(w, i)
  {
    var run := w + [uid];
    assert forall j :: 0 <= j < |w| ==> run[j] == w[j];
  }

  /** In particular any run of at most 65536 productions is safe. */
  lemma ShortRunsSafe(uids: seq<u64>)
    requires |uids| <= 0x1_0000
    ensures Safe(uids)
  {
    SafeIffRenewed(uids);
  }

  /** The bound is tight: one user, then 65536 productions by others, and the first lookup is misdirected. */
  lemma LongRunUnsafe(uids: seq<u64>)
    requires |uids| == 0x1_0001 && forall j :: 0 < j < |uids| ==> uids[j] != uids[0]
    ensures !Safe(uids) && Safe(uids[..0x1_0000])
    ensures Find(Run(uids), uids[0]) == Some(1) && Run(uids).bySid[1].uid == uids[0x1_0000] != uids[0]
  {
    hide Inverse, Produce, Find;
    var w := uids[..0x1_0000];
    assert uids == w + [uids[0x1_0000]];
    assert !RenewedFrom(uids, 0);
    SafeIffRenewed(uids);
    ShortRunsSafe(w);
    SafeInverse(w);
    SafeTracks(w);
    CollidesIff(Run(w), w, uids[0x1_0000]);
    CollisionMisdirects(Run(w), uids[0x1_0000]);
    CollisionIsOld(Run(w), w, uids[0x1_0000]);
    OtherIsFirst(Run(w), w, uids[0x1_0000]);
  }

  /** With exactly 65536 productions behind it, a collision is with the first user. */
  lemma OtherIsFirst(t: Table, w: seq<u64>, uid: u64)
    requires Inverse(t) && Tracks(t, w) && AllRenewed(w) && |w| == 0x1_0000 && Collides(t, uid)
    ensures Next(t) == 1 && t.bySid[1].uid == w[0]
  {
    var other := t.bySid[Next(t)].uid;
    var i := Last(w, other);
    SameIdDistance(i, |w|);
  }
}
