/** Claim before send (`apps/notification-service/src/delivery-claim.ts`) inside the message loop that
    acks or naks (`libs/events/src/event-bus.ts`). */
module DeliveryClaims {
  import opened Core

  /** A value in a message body: a string, or anything else. */
  datatype Value = Text(text: string) | NotText

  datatype Message = Message(orgId: string, channel: string, template: string, target: string, data: map<string, Value>)

  datatype Key = Key(orgId: string, findingId: string, policyId: string, channel: string)

  predicate IsClaimChannel(channel: string) { channel == "slack" || channel == "jira" }

  function Field(m: Message, name: string): Value {
    if name in m.data then m.data[name] else NotText
  }

  /** The claim identity; `isUuid` stands for the validation library. */
  function PolicyDeliveryClaimKey(isUuid: string -> bool, m: Message): Option<Key> {
    if m.template != "policy.violated" then None
    else if !IsClaimChannel(m.channel) then None
    else
      var findingId, policyId := Field(m, "findingId"), Field(m, "policyId");
      if !(findingId.Text? && isUuid(findingId.text)) || !(policyId.Text? && isUuid(policyId.text)) then None
      else Some(Key(m.orgId, findingId.text, policyId.text, m.channel))
  }

  /** The body has a text under `name` that is a UUID. */
  predicate HasUuid(isUuid: string -> bool, m: Message, name: string) {
    name in m.data && m.data[name].Text? && isUuid(m.data[name].text)
  }

  /** A report of a policy violation to Slack or Jira that names the finding and the policy by UUIDs. */
  predicate Claimable(isUuid: string -> bool, m: Message) {
    && m.template == "policy.violated" && (m.channel == "slack" || m.channel == "jira")
    && HasUuid(isUuid, m, "findingId") && HasUuid(isUuid, m, "policyId")
  }

  /** The claim is about the organisation and channel of the envelope and the two ids of the body. */
  predicate IsAbout(m: Message, key: Key) {
    && key.orgId == m.orgId && key.channel == m.channel
    && "findingId" in m.data && m.data["findingId"] == Text(key.findingId)
    && "policyId" in m.data && m.data["policyId"] == Text(key.policyId)
  }

  lemma {:induction false} ClaimedExactly(isUuid: string -> bool, m: Message, key: Key)
    ensures PolicyDeliveryClaimKey(isUuid, m) == Some(key) <==> Claimable(isUuid, m) && IsAbout(m, key)
  {
  }

  /** Two messages share a claim exactly when both are claimed and they agree on the envelope's
      organisation, the channel, and the two ids; nothing else in the body or the target matters. */
  lemma {:induction false} KeyIdentifies(isUuid: string -> bool, m: Message, n: Message)
    requires PolicyDeliveryClaimKey(isUuid, m).Some?
    ensures PolicyDeliveryClaimKey(isUuid, m) == PolicyDeliveryClaimKey(isUuid, n) <==>
         m.orgId == n.orgId && m.channel == n.channel && m.template == n.template
         && Field(m, "findingId") == Field(n, "findingId") && Field(m, "policyId") == Field(n, "policyId")
  {
    var f, p := Field(m, "findingId"), Field(m, "policyId");
    assert f.Text? && p.Text?;
  }

  // ----- the claim table -----

  datatype Request = Insert | Delete

  /** What a store call comes back with; `Broken` is an exception other than the unique conflict. */
  datatype Reply = Claimed | Duplicate | Deleted | Broken

  /** The transaction of a request. */
  function Commit(claims: set<Key>, request: Request, key: Key): (set<Key>, Reply) {
    match request
    case Insert => if key in claims then (claims, Duplicate) else (claims + {key}, Claimed)
    case Delete => (claims - {key}, Deleted)
  }

  datatype Transport = Answered | LostBefore | LostAfter

  datatype Exchange = Exchange(request: Request, key: Key, before: set<Key>, after: set<Key>, reply: Reply)

  ghost predicate Faithful(x: Exchange) {
    var (claims, reply) := Commit(x.before, x.request, x.key);
    || (x.after == claims && x.reply == reply)
    || (x.reply == Broken && (x.after == x.before || x.after == claims))
  }

  class ClaimStore {
    var claims: set<Key>

    constructor ()
      ensures claims == {}
    {
      claims := {};
    }

    /** Awaiting: other workers use the table. */
    method Suspend()
      modifies this
    {
    }

    method TryClaim(key: Key, transport: Transport) returns (reply: Reply, ghost x: Exchange)
      modifies this
      ensures x.request == Insert && x.key == key && x.reply == reply && reply != Deleted && Faithful(x)
    {
      Suspend();
      ghost var before := claims;
      var conflict := key in claims;
      if transport != LostBefore && !conflict {
        claims := claims + {key};
      }
      ghost var after := claims;
      reply := if transport != Answered then Broken else if conflict then Duplicate else Claimed;
      Suspend();
      x := Exchange(Insert, key, before, after, reply);
    }

    method Release(key: Key, transport: Transport) returns (reply: Reply, ghost x: Exchange)
      modifies this
      ensures x.request == Delete && x.key == key && x.reply == reply && reply in {Deleted, Broken} && Faithful(x)
    {
      Suspend();
      ghost var before := claims;
      if transport != LostBefore {
        claims := claims - {key};
      }
      ghost var after := claims;
      reply := if transport != Answered then Broken else Deleted;
      Suspend();
      x := Exchange(Delete, key, before, after, reply);
    }
  }

  // ----- one delivery -----

  /** How handling a message ends: it was sent or skipped, or an exception leaves the handler. */
  datatype Ending = Sent | Skipped | ClaimFailed | SendFailed(rollbackFailed: bool)

  /** Handles one message.  `sendOk` is whether the channel accepts it; `sends` counts the sends. */
  method SendWithDeliveryClaim(isUuid: string -> bool, m: Message, store: ClaimStore, sendOk: bool,
    transports: (Transport, Transport))
    returns (ending: Ending, sends: nat, ghost xs: seq<Exchange>)
    modifies store
    ensures forall x :: x in xs ==> Faithful(x) && Some(x.key) == PolicyDeliveryClaimKey(isUuid, m)
    ensures !Claimable(isUuid, m) ==> xs == [] && sends == 1 && store.claims == old(store.claims)
    ensures forall x :: x in xs ==> IsAbout(m, x.key)
    ensures PolicyDeliveryClaimKey(isUuid, m).None? ==>
      xs == [] && sends == 1 && ending == (if sendOk then Sent else SendFailed(false)) && store.claims == old(store.claims)
    ensures PolicyDeliveryClaimKey(isUuid, m).Some? ==>
      && xs != [] && xs[0].request == Insert
      && sends == (if xs[0].reply == Claimed then 1 else 0)
      && (xs[0].reply != Claimed ==> |xs| == 1 && ending == if xs[0].reply == Duplicate then Skipped else ClaimFailed)
      && (xs[0].reply == Claimed && sendOk ==> |xs| == 1 && ending == Sent)
      && (xs[0].reply == Claimed && !sendOk ==>
           |xs| == 2 && xs[1].request == Delete && ending == SendFailed(xs[1].reply == Broken))
  {
    sends, xs := 0, [];
    var key := PolicyDeliveryClaimKey(isUuid, m);
    if key == None {
      sends := 1;
      return if sendOk then Sent else SendFailed(false), sends, xs;
    }
    ghost var x;
    var reply;
    reply, x := store.TryClaim(key.value, transports.0);
    xs := [x];
    if reply == Duplicate {
      return Skipped, sends, xs;
    }
    if reply == Broken {
      return ClaimFailed, sends, xs;
    }
    sends := 1;
    if !sendOk {
      reply, x := store.Release(key.value, transports.1);
      xs := xs + [x];
      return SendFailed(reply == Broken), sends, xs;
    }
    return Sent, sends, xs;
  }

  datatype Verdict = Ack | Nak(delayMs: nat)

  function Backoff(attempt: nat): nat {
    if Pow2(attempt) * 1_000 < 60_000 then Pow2(attempt) * 1_000 else 60_000
  }

  lemma {:induction false} BackoffGrows(attempt: nat)
    ensures 1_000 <= Backoff(attempt) <= Backoff(attempt + 1) <= 60_000
    ensures Backoff(attempt) < Backoff(attempt + 1) || Backoff(attempt) == 60_000
    ensures Backoff(0) == 1_000 && Backoff(attempt + 1) == if 2 * Backoff(attempt) < 60_000 then 2 * Backoff(attempt) else 60_000
  {
    if attempt > 0 {
      BackoffGrows(attempt - 1);
    }
  }

  /** One message from the stream; a body that cannot be read or a handler that throws is a nak. */
  method HandleMessage(isUuid: string -> bool, body: Option<Message>, store: ClaimStore, sendOk: bool,
    transports: (Transport, Transport), attempt: nat)
    returns (verdict: Verdict, ending: Option<Ending>)
    modifies store
    ensures verdict == if ending in {Some(Sent), Some(Skipped)} then Ack else Nak(Backoff(attempt))
    ensures ending.None? <==> body.None?
    ensures body.None? ==> store.claims == old(store.claims)
  {
    if body == None {
      return Nak(Backoff(attempt)), None;
    }
    ghost var xs;
    var e, sends;
    e, sends, xs := SendWithDeliveryClaim(isUuid, body.value, store, sendOk, transports);
    verdict := if e == Sent || e == Skipped then Ack else Nak(Backoff(attempt));
    ending := Some(e);
  }
}
