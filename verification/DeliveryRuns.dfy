/** All interleavings of any number of workers that handle messages with claims
    (`apps/notification-service/src/delivery-claim.ts` with `libs/events/src/event-bus.ts`).

    A message may be delivered any number of times.  A request to the claim table commits at some
    later instant or never, also after the worker that sent it has seen an exception or crashed;
    a send that a crashed worker left behind may still be accepted. */
module DeliveryRuns {
  import opened DeliveryClaims

  type Id = nat

  /** How far the handling of one delivery is.  `Inserting` and `Deleting` wait for the commit,
      `Replied` and `RolledBack` for the reply. */
  datatype Phase = Inserting | Replied(reply: Reply) | Sending | Deleting | RolledBack | Finished(sent: bool, acked: bool)

  /** `lost` is set when the worker crashed or an exception made it nak. */
  datatype Handling = Handling(key: Key, phase: Phase, lost: bool)

  /** The claim table, each claim with the handling that inserted it; the handlings; the sends that
      were accepted. */
  datatype System = System(claims: map<Key, Id>, handlings: map<Id, Handling>, sent: multiset<Key>)

  const INITIAL := System(map[], map[], multiset{})

  datatype Event =
    | Deliver(id: Id, key: Key)
    | CommitInsert(id: Id)
    | ReplyInsert(id: Id)
    | SendAccepted(id: Id)
    | SendRejected(id: Id)
    | CommitDelete(id: Id)
    | ReplyDelete(id: Id)
    | Throw(id: Id)
    | Crash(id: Id)

  predicate EnabledFor(h: Handling, e: Event) {
    match e
    case Deliver(_, _) => false
    case CommitInsert(_) => h.phase == Inserting
    case ReplyInsert(_) => h.phase.Replied? && !h.lost
    case SendAccepted(_) => h.phase == Sending
    case SendRejected(_) => h.phase == Sending && !h.lost
    case CommitDelete(_) => h.phase == Deleting
    case ReplyDelete(_) => h.phase == RolledBack && !h.lost
    case Throw(_) => h.phase != Sending && !h.phase.Finished? && !h.lost
    case Crash(_) => true
  }

  predicate Enabled(s: System, e: Event) {
    if e.id in s.handlings then EnabledFor(s.handlings[e.id], e) else e.Deliver?
  }

  function InPhase(s: System, id: Id, phase: Phase): System
    requires id in s.handlings
  {
    s.(handlings := s.handlings[id := s.handlings[id].(phase := phase)])
  }

  function Apply(s: System, e: Event): System
    requires Enabled(s, e)
  {
    match e
    case Deliver(id, key) => s.(handlings := s.handlings[id := Handling(key, Inserting, false)])
    case CommitInsert(id) =>
      var key := s.handlings[id].key;
      var reply := Commit(s.claims.Keys, Insert, key).1;
      InPhase(s, id, Replied(reply)).(claims := if reply == Claimed then s.claims[key := id] else s.claims)
    case ReplyInsert(id) => InPhase(s, id, if s.handlings[id].phase.reply == Claimed then Sending else Finished(false, true))
    case SendAccepted(id) =>
      InPhase(s, id, Finished(true, !s.handlings[id].lost)).(sent := s.sent + multiset{s.handlings[id].key})
    case SendRejected(id) => InPhase(s, id, Deleting)
    case CommitDelete(id) => InPhase(s, id, RolledBack).(claims := s.claims - {s.handlings[id].key})
    case ReplyDelete(id) => InPhase(s, id, Finished(false, false))
    case Throw(id) => s.(handlings := s.handlings[id := s.handlings[id].(lost := true)])
    case Crash(id) => s.(handlings := s.handlings[id := s.handlings[id].(lost := true)])
  }

  predicate EnabledRun(s: System, run: seq<Event>)
    decreases |run|
  {
    run == [] || (Enabled(s, run[0]) && EnabledRun(Apply(s, run[0]), run[1..]))
  }

  function ApplyRun(s: System, run: seq<Event>): System
    requires EnabledRun(s, run)
    decreases |run|
  {
    if run == [] then s else ApplyRun(Apply(s, run[0]), run[1..])
  }

  ghost predicate Reachable(s: System) {
    exists run :: EnabledRun(INITIAL, run) && ApplyRun(INITIAL, run) == s
  }

  // ----- the invariant -----

  /** The claim is this handling's, and neither sent nor rolled back: the insert has committed and
      the delete has not. */
  predicate Holds(h: Handling) {
    h.phase == Replied(Claimed) || h.phase == Sending || h.phase == Deleting
  }

  predicate Owns(h: Handling, k: Key) {
    h.key == k && (Holds(h) || (h.phase.Finished? && h.phase.sent))
  }

  /** Every stored claim belongs to the one handling that holds it or has sent its message, and
      nothing else was sent. */
  ghost predicate Inv(s: System) {
    && (forall k :: k in s.claims ==> s.claims[k] in s.handlings && Owns(s.handlings[s.claims[k]], k))
    && (forall id :: id in s.handlings && Owns(s.handlings[id], s.handlings[id].key) ==>
          s.handlings[id].key in s.claims && s.claims[s.handlings[id].key] == id)
    && (forall k :: s.sent[k] == if k in s.claims && !Holds(s.handlings[s.claims[k]]) then 1 else 0)
  }

  /** A step of one handling that takes no claim, gives none up, and sends nothing. */
  lemma {:induction false} NeutralInv(s: System, id: Id, h: Handling)
    requires Inv(s)
    requires if id in s.handlings then
        h.key == s.handlings[id].key && Holds(h) == Holds(s.handlings[id]) && Owns(h, h.key) == Owns(s.handlings[id], h.key)
      else !Owns(h, h.key)
    ensures Inv(s.(handlings := s.handlings[id := h]))
  {
  }

  lemma {:induction false} InsertInv(s: System, id: Id)
    requires Inv(s) && id in s.handlings && s.handlings[id].phase == Inserting && s.handlings[id].key !in s.claims
    ensures Inv(Apply(s, CommitInsert(id)))
  {
  }

  lemma {:induction false} SendInv(s: System, id: Id)
    requires Inv(s) && id in s.handlings && s.handlings[id].phase == Sending
    ensures Inv(Apply(s, SendAccepted(id)))
  {
    var key, s' := s.handlings[id].key, Apply(s, SendAccepted(id));
    assert Owns(s.handlings[id], key);
    forall k
      ensures s'.sent[k] == s.sent[k] + if k == key then 1 else 0
    {
    }
  }

  lemma {:induction false} DeleteInv(s: System, id: Id)
    requires Inv(s) && id in s.handlings && s.handlings[id].phase == Deleting
    ensures Inv(Apply(s, CommitDelete(id)))
  {
    var key, s' := s.handlings[id].key, Apply(s, CommitDelete(id));
    assert Owns(s.handlings[id], key);
    forall k | k in s'.claims
      ensures s'.claims[k] == s.claims[k] != id
    {
    }
  }

  lemma {:induction false} ApplyInv(s: System, e: Event)
    requires Inv(s) && Enabled(s, e)
    ensures Inv(Apply(s, e))
  {
    hide Inv;
    if e.CommitInsert? && s.handlings[e.id].key !in s.claims {
      InsertInv(s, e.id);
    } else if e.SendAccepted? {
      SendInv(s, e.id);
    } else if e.CommitDelete? {
      DeleteInv(s, e.id);
    } else {
      NeutralInv(s, e.id, Apply(s, e).handlings[e.id]);
    }
  }

  lemma {:induction false} RunInv(s: System, run: seq<Event>)
    requires Inv(s) && EnabledRun(s, run)
    ensures Inv(ApplyRun(s, run))
    decreases |run|
  {
    hide Inv, Apply, Enabled;
    if run != [] {
      ApplyInv(s, run[0]);
      RunInv(Apply(s, run[0]), run[1..]);
    }
  }

  lemma {:induction false} ReachableInv(s: System)
    requires Reachable(s)
    ensures Inv(s)
  {
    var run :| EnabledRun(INITIAL, run) && ApplyRun(INITIAL, run) == s;
    RunInv(INITIAL, run);
  }

  // ----- what holds in every run -----

  ghost function Holders(s: System, k: Key): set<Id> {
    set id | id in s.handlings && s.handlings[id].key == k && Holds(s.handlings[id])
  }

  /** In every reachable state the accepted sends of a key and the handlings that hold its claim
      together number exactly the stored claims of the key: one or none. */
  lemma {:induction false} SendsAndHoldersAreClaims(s: System, k: Key)
    requires Reachable(s)
    ensures s.sent[k] + |Holders(s, k)| == if k in s.claims then 1 else 0
  {
    ReachableInv(s);
    forall id | id in Holders(s, k)
      ensures k in s.claims && s.claims[k] == id
    {
      assert Owns(s.handlings[id], k);
    }
    if k in s.claims && Holds(s.handlings[s.claims[k]]) {
      assert Holders(s, k) == {s.claims[k]};
    } else {
      assert Holders(s, k) == {};
    }
  }

  /** No message is sent twice under one claim key, whatever is redelivered, fails or crashes. */
  lemma {:induction false} AtMostOneSend(s: System, k: Key)
    requires Reachable(s)
    ensures s.sent[k] <= 1
  {
    SendsAndHoldersAreClaims(s, k);
  }

  /** An insert wins exactly when the key has not been sent and no handling holds its claim.  In
      particular the key is claimable again once a failed send has been rolled back. */
  lemma {:induction false} InsertWinsExactly(s: System, id: Id)
    requires Reachable(s) && Enabled(s, CommitInsert(id)) && id in s.handlings
    ensures var k := s.handlings[id].key;
      Apply(s, CommitInsert(id)).handlings[id].phase == Replied(Claimed) <==> s.sent[k] == 0 && Holders(s, k) == {}
  {
    SendsAndHoldersAreClaims(s, s.handlings[id].key);
  }

  lemma {:induction false} RolledBackIsClaimable(s: System, id: Id, other: Id)
    requires Reachable(s) && id in s.handlings && Enabled(s, CommitDelete(id))
    requires other in s.handlings && other != id && Enabled(s, CommitInsert(other))
    requires s.handlings[other].key == s.handlings[id].key
    ensures Apply(s, CommitInsert(other)).handlings[other].phase == Replied(Duplicate)
    ensures var s' := Apply(s, CommitDelete(id));
      Enabled(s', CommitInsert(other)) && Apply(s', CommitInsert(other)).handlings[other].phase == Replied(Claimed)
  {
    ReachableInv(s);
    assert Owns(s.handlings[id], s.handlings[id].key);
  }

  // ----- claims that nobody will ever use -----

  /** The worker that holds the claim is gone, and it is not the channel that decides now: the claim
      was stored but never reported, or its rollback has not been committed. */
  predicate Orphaned(s: System, k: Key) {
    k in s.claims && s.claims[k] in s.handlings &&
    var h := s.handlings[s.claims[k]];
    h.lost && h.key == k && (h.phase == Replied(Claimed) || h.phase == Deleting)
  }

  lemma {:induction false} OrphanStep(s: System, k: Key, e: Event)
    requires Inv(s) && Orphaned(s, k) && Enabled(s, e) && e != CommitDelete(s.claims[k])
    ensures Orphaned(Apply(s, e), k) && Apply(s, e).claims[k] == s.claims[k]
  {
    if e.CommitDelete? {
      assert Owns(s.handlings[e.id], s.handlings[e.id].key);
    }
  }

  lemma {:induction false} OrphanRun(s: System, k: Key, run: seq<Event>)
    requires Inv(s) && Orphaned(s, k) && EnabledRun(s, run) && CommitDelete(s.claims[k]) !in run
    ensures Orphaned(ApplyRun(s, run), k)
    decreases |run|
  {
    hide Inv, Orphaned, Apply, Enabled;
    if run != [] {
      OrphanStep(s, k, run[0]);
      ApplyInv(s, run[0]);
      assert k in s.claims by { OrphanStored(s, k); }
      OrphanRun(Apply(s, run[0]), k, run[1..]);
    }
  }

  lemma {:induction false} OrphanStored(s: System, k: Key)
    requires Orphaned(s, k)
    ensures k in s.claims
  {
  }

  /** An orphaned claim shuts its key for good: unless the lost rollback still commits, the message
      is never sent, and the claim stays, so that every later delivery is skipped as a duplicate. */
  lemma {:induction false} OrphanIsNeverSent(s: System, k: Key, run: seq<Event>)
    requires Reachable(s) && Orphaned(s, k) && EnabledRun(s, run) && CommitDelete(s.claims[k]) !in run
    ensures ApplyRun(s, run).sent[k] == 0
    ensures k in ApplyRun(s, run).claims
  {
    ReachableInv(s);
    OrphanRun(s, k, run);
    RunInv(s, run);
  }

  lemma {:induction false} RunAppend(s: System, run: seq<Event>, e: Event)
    requires EnabledRun(s, run) && Enabled(ApplyRun(s, run), e)
    ensures EnabledRun(s, run + [e]) && ApplyRun(s, run + [e]) == Apply(ApplyRun(s, run), e)
    decreases |run|
  {
    hide Enabled, Apply;
    if run == [] {
      assert (run + [e])[1..] == [];
    } else {
      RunAppend(Apply(s, run[0]), run[1..], e);
      assert (run + [e])[1..] == run[1..] + [e];
    }
  }

  lemma {:induction false} ReachableStep(s: System, e: Event)
    requires Reachable(s) && Enabled(s, e)
    ensures Reachable(Apply(s, e))
  {
    var run :| EnabledRun(INITIAL, run) && ApplyRun(INITIAL, run) == s;
    RunAppend(INITIAL, run, e);
  }

  lemma {:induction false} HeldReachable(k: Key)
    ensures var s := System(map[k := 0], map[0 := Handling(k, Sending, false)], multiset{}); Reachable(s)
  {
    assert EnabledRun(INITIAL, []) && ApplyRun(INITIAL, []) == INITIAL;
    hide EnabledRun, ApplyRun, Reachable;
    ReachableStep(INITIAL, Deliver(0, k));
    var s1 := Apply(INITIAL, Deliver(0, k));
    ReachableStep(s1, CommitInsert(0));
    var s2 := Apply(s1, CommitInsert(0));
    ReachableStep(s2, ReplyInsert(0));
    assert Apply(s2, ReplyInsert(0)) == System(map[k := 0], map[0 := Handling(k, Sending, false)], multiset{});
  }

  lemma {:induction false} SkippedReachable(k: Key)
    ensures var skipped := Handling(k, Finished(false, true), false);
      Reachable(System(map[k := 0], map[0 := Handling(k, Sending, false), 1 := skipped], multiset{}))
  {
    var s0 := System(map[k := 0], map[0 := Handling(k, Sending, false)], multiset{});
    HeldReachable(k);
    hide EnabledRun, ApplyRun, Reachable;
    ReachableStep(s0, Deliver(1, k));
    var s1 := Apply(s0, Deliver(1, k));
    ReachableStep(s1, CommitInsert(1));
    var s2 := Apply(s1, CommitInsert(1));
    ReachableStep(s2, ReplyInsert(1));
    var s3 := Apply(s2, ReplyInsert(1));
    assert s3.handlings == map[0 := Handling(k, Sending, false), 1 := Handling(k, Finished(false, true), false)];
  }

  /** A second delivery, while the first is still sending, is skipped and acked; when the send is
      then rejected and rolled back, a delivery of the message has been acked although it was never
      sent and nothing holds its claim.  A duplicate does not mean that a send has succeeded. */
  lemma {:induction false} AckedWithoutSend(k: Key)
    ensures exists s :: Reachable(s) && AckedButUnsent(s, k)
  {
    var skipped := Handling(k, Finished(false, true), false);
    var s0 := System(map[k := 0], map[0 := Handling(k, Sending, false), 1 := skipped], multiset{});
    SkippedReachable(k);
    hide EnabledRun, ApplyRun, Reachable;
    ReachableStep(s0, SendRejected(0));
    var s1 := Apply(s0, SendRejected(0));
    ReachableStep(s1, CommitDelete(0));
    var s2 := Apply(s1, CommitDelete(0));
    assert s2.handlings[1] == Handling(k, Finished(false, true), false);
    assert AckedButUnsent(s2, k);
  }

  ghost predicate AckedButUnsent(s: System, k: Key) {
    && s.sent[k] == 0 && k !in s.claims
    && exists id :: id in s.handlings && s.handlings[id].key == k && s.handlings[id].phase == Finished(false, true)
  }
}
