/** Runs that produce and destroy sessions in any order, of any length: exactly which keep the maps inverse. */
module SessionSteps {
  import opened Bits
  import opened Endpoints
  import opened SessionTable

  /** The maps are inverse after every step of the run. */
  ghost predicate SafeSteps(steps: seq<Step>) {
    Inverse(Steps(steps)) && (steps == [] || SafeSteps(steps[..|steps| - 1]))
  }

  /** The number of the production at step j, counting from one. */
  function Number(steps: seq<Step>, j: nat): nat
    requires j < |steps|
  {
    Productions(steps[..j + 1])
  }

  /** After step i, and by step j, the user of step i has produced again or step i's session has been destroyed. */
  ghost predicate Released(steps: seq<Step>, i: nat, j: nat)
    requires i < j < |steps| && steps[i].Producing?
  {
    exists k :: i < k <= j && Releases(steps, i, k)
  }

  predicate Releases(steps: seq<Step>, i: nat, k: nat)
    requires i < |steps| && k < |steps| && steps[i].Producing?
  {
    steps[k] == Producing(steps[i].uid) || steps[k] == Destroying(Number(steps, i) % 0x1_0000)
  }

  /** Productions i and j get the same id, with no production of that id between them. */
  ghost predicate ComesRound(steps: seq<Step>, i: nat, j: nat) {
    && i < j < |steps| && steps[i].Producing? && steps[j].Producing?
    && Number(steps, j) == Number(steps, i) + 0x1_0000
  }

  /** Every session whose id comes round again is renewed or destroyed by then. */
  ghost predicate AllReleased(steps: seq<Step>) {
    forall i: nat, j: nat :: ComesRound(steps, i, j) ==> Released(steps, i, j)
  }

  // ---------------------------------------------------------------- numbers

  lemma NumberPrefix(w: seq<Step>, x: Step, j: nat)
    requires j < |w|
    ensures Number(w + [x], j) == Number(w, j)
  {
    assert (w + [x])[..j + 1] == w[..j + 1];
  }

  lemma NumberLast(w: seq<Step>, x: Step)
    ensures Number(w + [x], |w|) == Productions(w + [x])
    ensures Productions(w + [x]) == Productions(w) + (if x.Producing? then 1 else 0)
  {
    assert (w + [x])[..|w| + 1] == w + [x];
    assert (w + [x])[..|w|] == w;
  }

  lemma {:induction false} NumberBound(steps: seq<Step>, j: nat)
    requires j < |steps|
    ensures Number(steps, j) <= Productions(steps)
    ensures steps[j].Producing? ==> Number(steps, j) >= 1
  {
    var w, x := steps[..|steps| - 1], steps[|steps| - 1];
    assert steps == w + [x];
    NumberLast(w, x);
    if j < |w| {
      NumberPrefix(w, x, j);
      NumberBound(w, j);
    }
  }

  /** Every production number up to the last has its step, later ones later. */
  lemma {:induction false} NumberedStep(steps: seq<Step>, i: nat, n: nat) returns (j: nat)
    requires i < |steps| && Number(steps, i) < n <= Productions(steps)
    ensures i < j < |steps| && steps[j].Producing? && Number(steps, j) == n
  {
    var w, x := steps[..|steps| - 1], steps[|steps| - 1];
    assert steps == w + [x];
    NumberLast(w, x);
    if Number(steps, |w|) == n && x.Producing? {
      j := |w|;
    } else {
      NumberPrefix(w, x, i);
      j := NumberedStep(w, i, n);
      NumberPrefix(w, x, j);
    }
  }

  // ---------------------------------------------------------------- live sessions

  /** The production whose session the user still has. */
  function Live(steps: seq<Step>, uid: u64): (i: Option<nat>)
    ensures i.Some? ==> i.value < |steps| && steps[i.value] == Producing(uid)
  {
    if steps == [] then None else
      var w := steps[..|steps| - 1];
      match steps[|steps| - 1]
      case Producing(v) => if v == uid then Some(|w|) else Live(w, uid)
      case Destroying(sid) =>
        var i := Live(w, uid);
        if i.Some? && Number(w, i.value) % 0x1_0000 == sid then None else i
  }

  /** A session is live exactly if nothing has released it. */
  lemma {:induction false} LiveIsUnreleased(steps: seq<Step>, uid: u64, i: nat)
    requires i < |steps| && steps[i] == Producing(uid)
    ensures Live(steps, uid) == Some(i) <==> forall k :: i < k < |steps| ==> !Releases(steps, i, k)
  {
    var w, x := steps[..|steps| - 1], steps[|steps| - 1];
    assert steps == w + [x];
    if i < |w| {
      LiveIsUnreleased(w, uid, i);
      NumberPrefix(w, x, i);
      assert forall k :: 0 <= k < |w| ==> Releases(steps, i, k) == Releases(w, i, k);
      assert (forall k :: i < k < |steps| ==> !Releases(steps, i, k))
             <==> (forall k :: i < k < |w| ==> !Releases(w, i, k)) && !Releases(steps, i, |w|);
    }
  }

  /** The table of a safe run: each user with a live session has its id, and nobody else has one. */
  ghost predicate Follows(t: Table, steps: seq<Step>) {
    && t.gen == Productions(steps)
    && (forall uid :: uid in t.byUid <==> Live(steps, uid).Some?)
    && (forall uid :: uid in t.byUid ==> t.byUid[uid] == IdOf(steps, uid))
  }

  function IdOf(steps: seq<Step>, uid: u64): u16 {
    var i := Live(steps, uid);
    if i.Some? then Number(steps, i.value) % 0x1_0000 else 0
  }

  lemma LiveSnoc(w: seq<Step>, x: Step, uid: u64)
    ensures match x
            case Producing(v) =>
              if v == uid then Live(w + [x], uid).Some? && IdOf(w + [x], uid) == (Productions(w) + 1) % 0x1_0000
              else Live(w + [x], uid) == Live(w, uid) && IdOf(w + [x], uid) == IdOf(w, uid)
            case Destroying(sid) =>
              if Live(w, uid).Some? && IdOf(w, uid) == sid then Live(w + [x], uid) == None
              else Live(w + [x], uid) == Live(w, uid) && IdOf(w + [x], uid) == IdOf(w, uid)
  {
    hide Number, Productions;
    assert (w + [x])[..|w|] == w;
    NumberLast(w, x);
    var i := Live(w, uid);
    if i.Some? {
      NumberPrefix(w, x, i.value);
    }
  }

  lemma FollowsProduce(t: Table, w: seq<Step>, uid: u64)
    requires Inverse(t) && Follows(t, w)
    ensures Follows(Produce(t, uid), w + [Producing(uid)])
  {
    hide Produce, Inverse, Live, IdOf;
    ProducedUids(t, uid);
    NumberLast(w, Producing(uid));
    forall v: u64 {
      LiveSnoc(w, Producing(uid), v);
    }
  }

  /** Destroying an id forgets exactly the users that have it. */
  lemma DestroyedUids(t: Table, sid: u16)
    requires Inverse(t)
    ensures Destroy(t, sid).gen == t.gen
    ensures forall uid :: uid in Destroy(t, sid).byUid <==> uid in t.byUid && t.byUid[uid] != sid
    ensures forall uid :: uid in Destroy(t, sid).byUid ==> Destroy(t, sid).byUid[uid] == t.byUid[uid]
  {
  }

  lemma FollowsDestroy(t: Table, w: seq<Step>, sid: u16)
    requires Inverse(t) && Follows(t, w)
    ensures Follows(Destroy(t, sid), w + [Destroying(sid)])
  {
    hide Destroy, Inverse, Live, IdOf;
    DestroyedUids(t, sid);
    NumberLast(w, Destroying(sid));
    forall v: u64 {
      LiveSnoc(w, Destroying(sid), v);
    }
  }

  lemma {:induction false} SafeFollows(steps: seq<Step>)
    requires SafeSteps(steps)
    ensures Follows(Steps(steps), steps)
  {
    hide Inverse, Produce, Destroy;
    if steps != [] {
      var w, x := steps[..|steps| - 1], steps[|steps| - 1];
      assert steps == w + [x];
      SafeFollows(w);
      SafeInverse(w);
      match x
      case Producing(uid) => FollowsProduce(Steps(w), w, uid);
      case Destroying(sid) => FollowsDestroy(Steps(w), w, sid);
    }
  }

  lemma SafeInverse(steps: seq<Step>)
    requires SafeSteps(steps)
    ensures Inverse(Steps(steps))
  {
  }

  // ---------------------------------------------------------------- one production

  /** A collision is with a session exactly 65536 productions old that nothing has released. */
  lemma CollisionUnreleased(t: Table, w: seq<Step>, uid: u64) returns (i: nat)
    requires Inverse(t) && Follows(t, w) && AllReleased(w) && Collides(t, uid)
    ensures ComesRound(w + [Producing(uid)], i, |w|) && !Released(w + [Producing(uid)], i, |w|)
  {
    hide AllReleased, Number, Productions;
    var run := w + [Producing(uid)];
    var other := t.bySid[Next(t)].uid;
    assert other in t.byUid && t.byUid[other] == Next(t) && other != uid;
    i := Live(w, other).value;
    NumberBound(w, i);
    NumberPrefix(w, Producing(uid), i);
    NumberLast(w, Producing(uid));
    LiveIsUnreleased(w, other, i);
    RecentEnough(w, other, i, Productions(w) + 1);
    LiveNotReleased(w, uid, other, i);
  }

  /** A live session's id has not come round yet. */
  lemma RecentEnough(w: seq<Step>, uid: u64, i: nat, n: nat)
    requires i < |w| && w[i] == Producing(uid) && AllReleased(w) && n == Productions(w) + 1
    requires forall k :: i < k < |w| ==> !Releases(w, i, k)
    requires Number(w, i) <= Productions(w) && Number(w, i) % 0x1_0000 == n % 0x1_0000
    ensures Number(w, i) + 0x1_0000 == n
  {
    hide Number, Productions;
    Congruent(Number(w, i), n);
    if Number(w, i) + 0x1_0000 < n {
      var j := NumberedStep(w, i, Number(w, i) + 0x1_0000);
      assert ComesRound(w, i, j);
      StillUnreleased(w, i, j);
    }
  }

  lemma StillUnreleased(w: seq<Step>, i: nat, j: nat)
    requires i < j < |w| && w[i].Producing?
    requires forall k :: i < k < |w| ==> !Releases(w, i, k)
    ensures !Released(w, i, j)
  {
    hide Releases;
  }

  lemma Congruent(a: nat, b: nat)
    requires a < b && a % 0x1_0000 == b % 0x1_0000
    ensures a + 0x1_0000 <= b
  {
  }

  lemma LiveNotReleased(w: seq<Step>, uid: u64, other: u64, i: nat)
    requires i < |w| && w[i] == Producing(other) && other != uid
    requires forall k :: i < k < |w| ==> !Releases(w, i, k)
    ensures !Released(w + [Producing(uid)], i, |w|)
  {
    hide Number;
    var run := w + [Producing(uid)];
    NumberPrefix(w, Producing(uid), i);
    assert forall k :: 0 <= k < |w| ==> Releases(run, i, k) == Releases(w, i, k);
  }

  /** And a session that old that nothing has released is collided with. */
  lemma UnreleasedCollides(t: Table, w: seq<Step>, uid: u64, i: nat)
    requires Inverse(t) && Follows(t, w)
    requires ComesRound(w + [Producing(uid)], i, |w|) && !Released(w + [Producing(uid)], i, |w|)
    ensures Collides(t, uid)
  {
    hide Number, Productions, Live;
    var run := w + [Producing(uid)];
    var other := w[i].uid;
    assert run[i] == w[i];
    NumberPrefix(w, Producing(uid), i);
    NumberLast(w, Producing(uid));
    assert !Releases(run, i, |w|);
    forall k | i < k < |w|
      ensures !Releases(w, i, k)
    {
      assert Releases(run, i, k) == Releases(w, i, k);
    }
    LiveIsUnreleased(w, other, i);
    assert other in t.byUid && t.byUid[other] == Next(t);
  }

  // ---------------------------------------------------------------- the whole run

  lemma ReleasedPrefix(w: seq<Step>, x: Step, i: nat, j: nat)
    requires j < |w|
    ensures ComesRound(w + [x], i, j) == ComesRound(w, i, j)
    ensures ComesRound(w, i, j) ==> Released(w + [x], i, j) == Released(w, i, j)
  {
    hide Number;
    var run := w + [x];
    assert run[j] == w[j];
    if i < j {
      assert run[i] == w[i];
      NumberPrefix(w, x, i);
      NumberPrefix(w, x, j);
      if w[i].Producing? {
        assert forall k :: 0 <= k < |w| ==> Releases(run, i, k) == Releases(w, i, k);
      }
    }
  }

  lemma ReleasedSnoc(w: seq<Step>, x: Step)
    ensures AllReleased(w + [x])
            <==> AllReleased(w) && forall i: nat :: ComesRound(w + [x], i, |w|) ==> Released(w + [x], i, |w|)
  {
    hide ComesRound, Released;
    forall i: nat, j: nat | j < |w| {
      ReleasedPrefix(w, x, i, j);
    }
    RoundsInside(w);
    RoundsInside(w + [x]);
  }

  lemma RoundsInside(steps: seq<Step>)
    ensures forall i: nat, j: nat :: ComesRound(steps, i, j) ==> i < j < |steps|
  {
  }

  /**
    A run of productions and destructions of any length keeps the maps inverse
    throughout if and only if every session whose id comes round again has been
    renewed by its user, or destroyed, by then.
   */
  lemma {:induction false} SafeIffReleased(steps: seq<Step>)
    ensures SafeSteps(steps) <==> AllReleased(steps)
  {
    hide Inverse, Produce, Destroy, Collides, Follows, ComesRound, Released, AllReleased;
    if steps == [] {
      NothingReleased();
      EmptyOk();
    } else {
      var w, x := steps[..|steps| - 1], steps[|steps| - 1];
      assert steps == w + [x];
      SafeIffReleased(w);
      ReleasedSnoc(w, x);
      if SafeSteps(w) {
        SafeInverse(w);
        SafeFollows(w);
        LastStep(Steps(w), w, x);
      }
    }
  }

  lemma NothingReleased()
    ensures AllReleased([])
  {
  }

  lemma LastStep(t: Table, w: seq<Step>, x: Step)
    requires Inverse(t) && Follows(t, w) && AllReleased(w)
    ensures Inverse(Apply(t, x)) <==> forall i: nat :: ComesRound(w + [x], i, |w|) ==> Released(w + [x], i, |w|)
  {
    hide Inverse, Produce, Destroy, Collides, Follows, Released, AllReleased, Number;
    match x
    case Destroying(sid) => DestroyKeepsInverse(t, sid);
    case Producing(uid) =>
      ProduceKeepsInverse(t, uid);
      if Collides(t, uid) {
        var i := CollisionUnreleased(t, w, uid);
      }
      forall i: nat | ComesRound(w + [x], i, |w|) && !Released(w + [x], i, |w|)
        ensures Collides(t, uid)
      {
        UnreleasedCollides(t, w, uid, i);
      }
  }
}
