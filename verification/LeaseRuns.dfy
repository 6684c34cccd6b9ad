/** All runs of any number of replicas that compete for one lease key
    (`libs/coordination/src/leader-lease.ts` with `libs/coordination/src/lease-store.ts`).

    A request travels to the store, is executed there atomically or not at all, and its reply
    travels back.  The replica may give up on it at any point, which it sees as an exception, and
    the store may still execute the request after that.  A crashed replica does nothing more; its
    requests may still reach the store.  The renewal timer is covered by calls at arbitrary times. */
module LeaseRuns {
  import opened Core
  import opened LeaderLeasing

  type TaskId = nat

  /** One call between two awaits. */
  datatype Task = Task(holder: string, request: Request, reply: Option<Reply>, abandoned: bool)

  /** A store operation that took effect. */
  datatype Effect = Hold(holder: string, at: int) | Gone(holder: string, at: int)

  datatype System = System(
    cell: Cell, now: int, held: set<string>, crashed: set<string>, tasks: map<TaskId, Task>, log: seq<Effect>)

  const INITIAL := System(None, 0, {}, {}, map[], [])

  datatype Event =
    | TryHold(id: TaskId, holder: string)
    | Release(id: TaskId, holder: string)
    | Execute(id: TaskId)
    | Deliver(id: TaskId)
    | GiveUp(id: TaskId)
    | Crash(holder: string)
    | Tick(later: int)

  predicate Enabled(s: System, e: Event) {
    match e
    case TryHold(id, holder) => id !in s.tasks && holder !in s.crashed
    case Release(id, holder) => id !in s.tasks && holder !in s.crashed
    case Execute(id) => id in s.tasks && s.tasks[id].reply.None?
    case Deliver(id) =>
      id in s.tasks && s.tasks[id].reply.Some? && !s.tasks[id].abandoned && s.tasks[id].holder !in s.crashed
    case GiveUp(id) => id in s.tasks && !s.tasks[id].abandoned && s.tasks[id].holder !in s.crashed
    case Crash(_) => true
    case Tick(later) => later >= s.now
  }

  function SetHeld(held: set<string>, holder: string, value: bool): set<string> {
    if value then held + {holder} else held - {holder}
  }

  /** The store executes a request. */
  function DoExecute(ttl: string -> nat, s: System, id: TaskId): System
    requires Enabled(s, Execute(id))
  {
    var t := s.tasks[id];
    var (cell, done) := Exec(s.cell, t.request, t.holder, ttl(t.holder), s.now);
    var effect := if t.request == Delete then Gone(t.holder, s.now) else Hold(t.holder, s.now);
    s.(cell := cell, tasks := s.tasks[id := t.(reply := Some(if done then Yes else No))],
       log := if done then s.log + [effect] else s.log)
  }

  /** A replica takes note of a reply, or of giving up. */
  function DoReply(s: System, id: TaskId, reply: Reply): System
    requires id in s.tasks
  {
    var t := s.tasks[id];
    var (held, next) := OnReply(t.holder in s.held, t.request, reply);
    if t.request == Delete then s
    else
      s.(held := SetHeld(s.held, t.holder, held),
         tasks := if next.Send? then s.tasks[id := Task(t.holder, next.request, None, false)] else s.tasks)
  }

  function Apply(ttl: string -> nat, s: System, e: Event): System
    requires Enabled(s, e)
  {
    match e
    case TryHold(id, holder) => s.(tasks := s.tasks[id := Task(holder, BeginHold(holder in s.held), None, false)])
    case Release(id, holder) =>
      if holder in s.held then s.(held := s.held - {holder}, tasks := s.tasks[id := Task(holder, Delete, None, false)])
      else s
    case Execute(id) => DoExecute(ttl, s, id)
    case Deliver(id) => DoReply(s.(tasks := s.tasks[id := s.tasks[id].(abandoned := true)]), id, s.tasks[id].reply.value)
    case GiveUp(id) => DoReply(s.(tasks := s.tasks[id := s.tasks[id].(abandoned := true)]), id, Failed)
    case Crash(holder) => s.(crashed := s.crashed + {holder})
    case Tick(later) => s.(now := later)
  }

  predicate EnabledRun(ttl: string -> nat, s: System, run: seq<Event>)
    decreases |run|
  {
    run == [] || (Enabled(s, run[0]) && EnabledRun(ttl, Apply(ttl, s, run[0]), run[1..]))
  }

  function ApplyRun(ttl: string -> nat, s: System, run: seq<Event>): System
    requires EnabledRun(ttl, s, run)
    decreases |run|
  {
    if run == [] then s else ApplyRun(ttl, Apply(ttl, s, run[0]), run[1..])
  }

  ghost predicate Reachable(ttl: string -> nat, s: System) {
    exists run :: EnabledRun(ttl, INITIAL, run) && ApplyRun(ttl, INITIAL, run) == s
  }

  lemma {:induction false} RunAppend(ttl: string -> nat, s: System, run: seq<Event>, e: Event)
    requires EnabledRun(ttl, s, run) && Enabled(ApplyRun(ttl, s, run), e)
    ensures EnabledRun(ttl, s, run + [e]) && ApplyRun(ttl, s, run + [e]) == Apply(ttl, ApplyRun(ttl, s, run), e)
    decreases |run|
  {
    hide Enabled, Apply;
    if run == [] {
      assert (run + [e])[1..] == [];
    } else {
      RunAppend(ttl, Apply(ttl, s, run[0]), run[1..], e);
      assert (run + [e])[1..] == run[1..] + [e];
    }
  }

  lemma {:induction false} ReachableStep(ttl: string -> nat, s: System, e: Event)
    requires Reachable(ttl, s) && Enabled(s, e)
    ensures Reachable(ttl, Apply(ttl, s, e))
  {
    var run :| EnabledRun(ttl, INITIAL, run) && ApplyRun(ttl, INITIAL, run) == s;
    RunAppend(ttl, INITIAL, run, e);
  }

  // ----- the log determines what the store holds -----

  /** What the key holds after the effects of a log, if nothing expires. */
  function CellOf(ttl: string -> nat, log: seq<Effect>): Cell {
    if log == [] then None
    else match log[|log| - 1]
      case Hold(holder, at) => Some(Entry(holder, at + ttl(holder)))
      case Gone(_, _) => None
  }

  /** An effect is possible at its time after the effects before it. */
  ghost predicate Lawful(ttl: string -> nat, log: seq<Effect>) {
    forall j :: 0 <= j < |log| ==> LawfulAt(ttl, log, j)
  }

  predicate LawfulAt(ttl: string -> nat, log: seq<Effect>, j: nat)
    requires j < |log|
  {
    var cell := Purge(CellOf(ttl, log[..j]), log[j].at);
    && (j > 0 ==> log[j - 1].at <= log[j].at)
    && (Names(cell, log[j].holder) || (cell.None? && log[j].Hold?))
  }

  ghost predicate Granted(log: seq<Effect>, holder: string) {
    exists i :: 0 <= i < |log| && log[i].Hold? && log[i].holder == holder
  }

  ghost predicate Inv(ttl: string -> nat, s: System) {
    && Lawful(ttl, s.log)
    && (s.log != [] ==> s.log[|s.log| - 1].at <= s.now)
    && Purge(s.cell, s.now) == Purge(CellOf(ttl, s.log), s.now)
    && (forall r :: r in s.held ==> Granted(s.log, r))
    && (forall id :: id in s.tasks && s.tasks[id].reply == Some(Yes) && s.tasks[id].request != Delete
          ==> Granted(s.log, s.tasks[id].holder))
  }

  lemma {:induction false} LawfulExtends(ttl: string -> nat, log: seq<Effect>, e: Effect)
    requires Lawful(ttl, log) && LawfulAt(ttl, log + [e], |log|)
    ensures Lawful(ttl, log + [e])
  {
    forall j | 0 <= j < |log + [e]|
      ensures LawfulAt(ttl, log + [e], j)
    {
      if j < |log| {
        assert LawfulAt(ttl, log, j);
        assert (log + [e])[..j] == log[..j];
      }
    }
  }

  lemma {:induction false} GrantedExtends(log: seq<Effect>, e: Effect, holder: string)
    requires Granted(log, holder) || (e.Hold? && e.holder == holder)
    ensures Granted(log + [e], holder)
  {
    if Granted(log, holder) {
      var i :| 0 <= i < |log| && log[i].Hold? && log[i].holder == holder;
      assert (log + [e])[i].Hold?;
    } else {
      assert (log + [e])[|log|] == e;
    }
  }

  lemma {:induction false} ExecuteInv(ttl: string -> nat, s: System, id: TaskId)
    requires Inv(ttl, s) && Enabled(s, Execute(id))
    ensures Inv(ttl, DoExecute(ttl, s, id))
  {
    hide Granted, Lawful;
    var t := s.tasks[id];
    var s' := DoExecute(ttl, s, id);
    if s'.log != s.log {
      var e := s'.log[|s.log|];
      assert s'.log[..|s.log|] == s.log;
      LawfulExtends(ttl, s.log, e);
      forall r | Granted(s.log, r) || (e.Hold? && e.holder == r)
        ensures Granted(s'.log, r)
      {
        GrantedExtends(s.log, e, r);
      }
    }
  }

  lemma {:induction false} ApplyInv(ttl: string -> nat, s: System, e: Event)
    requires Inv(ttl, s) && Enabled(s, e)
    ensures Inv(ttl, Apply(ttl, s, e))
  {
    hide Granted, Lawful;
    if e.Execute? {
      ExecuteInv(ttl, s, e.id);
    }
  }

  lemma {:induction false} RunInv(ttl: string -> nat, s: System, run: seq<Event>)
    requires Inv(ttl, s) && EnabledRun(ttl, s, run)
    ensures Inv(ttl, ApplyRun(ttl, s, run))
    decreases |run|
  {
    hide Inv, Apply, Enabled;
    if run != [] {
      ApplyInv(ttl, s, run[0]);
      RunInv(ttl, Apply(ttl, s, run[0]), run[1..]);
    }
  }

  lemma {:induction false} ReachableInv(ttl: string -> nat, s: System)
    requires Reachable(ttl, s)
    ensures Inv(ttl, s)
  {
    var run :| EnabledRun(ttl, INITIAL, run) && ApplyRun(ttl, INITIAL, run) == s;
    RunInv(ttl, INITIAL, run);
  }

  // ----- exclusion -----

  /** Nobody but the holder changes the key until the holder's time is over, unless the holder
      deletes it. */
  lemma {:induction false} HolderStays(ttl: string -> nat, log: seq<Effect>, i: nat, j: nat)
    requires Lawful(ttl, log) && i < j < |log| && log[i].Hold?
    requires log[j].at < log[i].at + ttl(log[i].holder)
    requires forall k :: i < k < j ==> log[k] != Gone(log[i].holder, log[k].at)
    ensures log[j].holder == log[i].holder && log[i].at <= log[j].at
    ensures forall k :: i <= k < j ==> log[k].holder == log[i].holder && log[k].Hold?
    decreases j
  {
    assert LawfulAt(ttl, log, j);
    if i + 1 < j {
      HolderStays(ttl, log, i, j - 1);
    }
  }

  /** In every run: once a replica's `tryHold` has succeeded in the store, no other replica's
      succeeds before the time to live is over, unless the holder's own release has deleted the key
      in between.  This holds whatever the replicas believe about themselves. */
  lemma {:induction false} Exclusion(ttl: string -> nat, s: System, i: nat, j: nat)
    requires Reachable(ttl, s) && i < j < |s.log| && s.log[i].Hold? && s.log[j].Hold?
    requires s.log[i].holder != s.log[j].holder
    ensures s.log[j].at >= s.log[i].at + ttl(s.log[i].holder)
      || exists k :: i < k < j && s.log[k] == Gone(s.log[i].holder, s.log[k].at)
  {
    ReachableInv(ttl, s);
    if s.log[j].at < s.log[i].at + ttl(s.log[i].holder)
       && forall k :: i < k < j ==> s.log[k] != Gone(s.log[i].holder, s.log[k].at) {
      HolderStays(ttl, s.log, i, j);
    }
  }

  predicate AboutToReturnTrue(t: Task, holder: string) {
    t.holder == holder && t.request != Delete && t.reply == Some(Yes)
  }

  /** A replica that believes it holds the lease, or whose call is about to return true, was
      granted it by the store at some time. */
  lemma {:induction false} BeliefWasGranted(ttl: string -> nat, s: System, holder: string)
    requires Reachable(ttl, s)
    ensures holder in s.held ==> Granted(s.log, holder)
    ensures forall id :: id in s.tasks && AboutToReturnTrue(s.tasks[id], holder) ==> Granted(s.log, holder)
  {
    ReachableInv(ttl, s);
  }

  // ----- exactly when a request succeeds -----

  /** The last effect granted the key to `holder`, and its time to live is not over. */
  predicate LiveFor(ttl: string -> nat, s: System, holder: string) {
    s.log != [] && var last := s.log[|s.log| - 1];
    last.Hold? && last.holder == holder && s.now < last.at + ttl(holder)
  }

  /** The reply the store gives to a request is determined by whose grant is live. */
  ghost predicate AnsweredRightly(ttl: string -> nat, s: System, t: Task, reply: Reply) {
    reply == if (if t.request == Acquire then forall r :: !LiveFor(ttl, s, r) else LiveFor(ttl, s, t.holder)) then Yes else No
  }

  lemma {:induction false} ExecuteAnswer(ttl: string -> nat, s: System, id: TaskId)
    requires Inv(ttl, s) && Enabled(s, Execute(id))
    ensures exists reply ::
      DoExecute(ttl, s, id).tasks[id].reply == Some(reply) && AnsweredRightly(ttl, s, s.tasks[id], reply)
  {
    if s.log != [] {
      var last := s.log[|s.log| - 1];
      assert last.Hold? && s.now < last.at + ttl(last.holder) ==> LiveFor(ttl, s, last.holder);
    }
    assert AnsweredRightly(ttl, s, s.tasks[id], DoExecute(ttl, s, id).tasks[id].reply.value);
  }

  /** In every run, an attempt to acquire succeeds exactly when nobody's grant is live: nothing was
      ever granted, or the last grant was deleted or has run out.  So after a holder goes silent
      the first attempt at or after expiry succeeds.  A renewal or a deletion succeeds exactly when
      the asker's own grant is live. */
  lemma {:induction false} SucceedsExactly(ttl: string -> nat, s: System, id: TaskId)
    requires Reachable(ttl, s) && Enabled(s, Execute(id))
    ensures exists reply ::
      Apply(ttl, s, Execute(id)).tasks[id].reply == Some(reply) && AnsweredRightly(ttl, s, s.tasks[id], reply)
  {
    ReachableInv(ttl, s);
    ExecuteAnswer(ttl, s, id);
  }

  // ----- when a release gives the lease up -----

  /** A release in any reachable state, with its deletion executed if it sends one: afterwards the
      store still names the replica exactly when it did before and the replica did not know it. */
  lemma {:induction false} ReleaseExactly(ttl: string -> nat, s: System, id: TaskId, holder: string)
    requires Reachable(ttl, s) && Enabled(s, Release(id, holder))
    ensures var s1 := Apply(ttl, s, Release(id, holder));
      var s2 := if holder in s.held then DoExecute(ttl, s1, id) else s1;
      holder !in s2.held && (LiveFor(ttl, s2, holder) <==> LiveFor(ttl, s, holder) && holder !in s.held)
  {
    ReachableInv(ttl, s);
    var s1 := Apply(ttl, s, Release(id, holder));
    if holder in s.held {
      ReachableStep(ttl, s, Release(id, holder));
      SucceedsExactly(ttl, s1, id);
    }
  }

  /** A release while an attempt to acquire is under way sends nothing, and the lease stays taken
      when the attempt then succeeds. */
  lemma {:induction false} ReleaseDuringAcquire(ttl: string -> nat, holder: string)
    requires ttl(holder) > 0
    ensures var run := [TryHold(0, holder), Release(1, holder), Execute(0), Deliver(0)];
      EnabledRun(ttl, INITIAL, run) && var s := ApplyRun(ttl, INITIAL, run);
      holder in s.held && LiveFor(ttl, s, holder) && s.log == [Hold(holder, 0)]
  {
    var run := [TryHold(0, holder), Release(1, holder), Execute(0), Deliver(0)];
    var s1 := Apply(ttl, INITIAL, run[0]);
    var s2 := Apply(ttl, s1, run[1]);
    var s3 := Apply(ttl, s2, run[2]);
    var s4 := Apply(ttl, s3, run[3]);
    assert EnabledRun(ttl, s3, run[3..]) && ApplyRun(ttl, s3, run[3..]) == s4;
    assert EnabledRun(ttl, s2, run[2..]) && ApplyRun(ttl, s2, run[2..]) == s4;
    assert EnabledRun(ttl, s1, run[1..]) && ApplyRun(ttl, s1, run[1..]) == s4;
  }

  // ----- a careful replica -----

  ghost predicate Idle(s: System, holder: string) {
    forall id :: id in s.tasks && s.tasks[id].holder == holder ==> s.tasks[id].abandoned
  }

  /** The store names the replica and no call of it is open, but it does not believe so. */
  ghost predicate LockedOut(ttl: string -> nat, s: System, holder: string) {
    holder !in s.held && LiveFor(ttl, s, holder) && Idle(s, holder) && holder !in s.crashed
  }

  /** What `holder` does with its own calls: it starts one only when its last one is over, and each
      of its requests gets its reply.  Nothing is asked of any other replica. */
  ghost predicate Careful(s: System, e: Event, holder: string)
    requires Enabled(s, e)
  {
    match e
    case TryHold(_, r) => r == holder ==> Idle(s, holder)
    case Release(_, r) => r == holder ==> Idle(s, holder)
    case GiveUp(id) => s.tasks[id].holder != holder
    case _ => true
  }

  /** The number of events of a run at which `holder` is not careful. */
  ghost function Lapses(ttl: string -> nat, s: System, run: seq<Event>, holder: string): nat
    requires EnabledRun(ttl, s, run)
    decreases |run|
  {
    if run == [] then 0
    else (if Careful(s, run[0], holder) then 0 else 1) + Lapses(ttl, Apply(ttl, s, run[0]), run[1..], holder)
  }

  /** An open call that accounts for a grant the replica does not, or does not any more, believe in. */
  predicate Accounts(t: Task, holder: string) {
    && t.holder == holder && !t.abandoned
    && (if t.request == Delete then t.reply.None? else t.reply == Some(Yes))
  }

  ghost predicate Aware(ttl: string -> nat, s: System, holder: string) {
    (LiveFor(ttl, s, holder) && holder !in s.held) ==> exists id :: id in s.tasks && Accounts(s.tasks[id], holder)
  }

  ghost predicate OneOpen(s: System, holder: string) {
    forall i, j :: i in s.tasks && j in s.tasks && i != j && s.tasks[i].holder == holder && s.tasks[j].holder == holder ==>
      s.tasks[i].abandoned || s.tasks[j].abandoned
  }

  ghost predicate TaskOk(ttl: string -> nat, s: System, t: Task) {
    && (t.reply.None? ==> !t.abandoned) && t.reply != Some(Failed)
    && (!t.abandoned ==> (t.request == Renew <==> t.holder in s.held))
    && (!t.abandoned && t.reply == Some(No) ==> !LiveFor(ttl, s, t.holder))
  }

  ghost predicate Belief(ttl: string -> nat, s: System, holder: string) {
    && OneOpen(s, holder) && Aware(ttl, s, holder)
    && (forall id :: id in s.tasks && s.tasks[id].holder == holder ==> TaskOk(ttl, s, s.tasks[id]))
  }

  /** A store operation makes the lease live only for the replica that asked. */
  lemma {:induction false} LiveAfterExecute(ttl: string -> nat, s: System, id: TaskId, holder: string)
    requires Inv(ttl, s) && Enabled(s, Execute(id))
    ensures LiveFor(ttl, DoExecute(ttl, s, id), holder) ==> LiveFor(ttl, s, holder) || s.tasks[id].holder == holder
  {
  }

  lemma {:induction false} BeliefExecute(ttl: string -> nat, s: System, id: TaskId, holder: string)
    requires Inv(ttl, s) && Belief(ttl, s, holder) && Enabled(s, Execute(id))
    ensures Belief(ttl, DoExecute(ttl, s, id), holder)
  {
    LiveAfterExecute(ttl, s, id, holder);
    ExecuteAnswer(ttl, s, id);
    hide Inv, LiveFor;
    var s', t := DoExecute(ttl, s, id), s.tasks[id];
    assert TaskOk(ttl, s, t) || t.holder != holder;
    AwareExecute(ttl, s, id, holder);
    forall i | i in s'.tasks && s'.tasks[i].holder == holder
      ensures TaskOk(ttl, s', s'.tasks[i])
    {
      assert TaskOk(ttl, s, s.tasks[i]);
    }
  }

  lemma {:induction false} AwareExecute(ttl: string -> nat, s: System, id: TaskId, holder: string)
    requires Inv(ttl, s) && Belief(ttl, s, holder) && Enabled(s, Execute(id))
    ensures Aware(ttl, DoExecute(ttl, s, id), holder)
  {
    LiveAfterExecute(ttl, s, id, holder);
    ExecuteAnswer(ttl, s, id);
    hide Inv;
    var s', t := DoExecute(ttl, s, id), s.tasks[id];
    assert TaskOk(ttl, s, t) || t.holder != holder;
    if LiveFor(ttl, s', holder) && holder !in s'.held {
      if t.holder != holder {
        var i :| i in s.tasks && Accounts(s.tasks[i], holder);
        assert i in s'.tasks && Accounts(s'.tasks[i], holder);
      }
    }
  }

  lemma {:induction false} BeliefDeliver(ttl: string -> nat, s: System, id: TaskId, holder: string)
    requires Belief(ttl, s, holder) && Enabled(s, Deliver(id))
    ensures Belief(ttl, Apply(ttl, s, Deliver(id)), holder)
  {
    var s', t := Apply(ttl, s, Deliver(id)), s.tasks[id];
    assert TaskOk(ttl, s, t) || t.holder != holder;
    if LiveFor(ttl, s', holder) && holder !in s'.held {
      var i :| i in s.tasks && Accounts(s.tasks[i], holder);
      assert i in s'.tasks && Accounts(s'.tasks[i], holder);
    }
    forall i | i in s'.tasks && s'.tasks[i].holder == holder
      ensures TaskOk(ttl, s', s'.tasks[i])
    {
      assert TaskOk(ttl, s, s.tasks[i]);
    }
  }

  lemma {:induction false} BeliefCall(ttl: string -> nat, s: System, e: Event, holder: string)
    requires Belief(ttl, s, holder) && Enabled(s, e) && Careful(s, e, holder) && (e.TryHold? || e.Release?)
    ensures Belief(ttl, Apply(ttl, s, e), holder)
  {
    var s' := Apply(ttl, s, e);
    if LiveFor(ttl, s', holder) && holder !in s'.held {
      if holder in s.held {
        assert Accounts(s'.tasks[e.id], holder);
      } else {
        var i :| i in s.tasks && Accounts(s.tasks[i], holder);
        assert i in s'.tasks && Accounts(s'.tasks[i], holder);
      }
    }
    forall i | i in s'.tasks && s'.tasks[i].holder == holder
      ensures TaskOk(ttl, s', s'.tasks[i])
    {
      if i in s.tasks {
        assert TaskOk(ttl, s, s.tasks[i]);
      }
    }
  }

  lemma {:induction false} BeliefElse(ttl: string -> nat, s: System, e: Event, holder: string)
    requires Belief(ttl, s, holder) && Enabled(s, e) && Careful(s, e, holder) && (e.GiveUp? || e.Crash? || e.Tick?)
    ensures Belief(ttl, Apply(ttl, s, e), holder)
  {
    var s' := Apply(ttl, s, e);
    if LiveFor(ttl, s', holder) && holder !in s'.held {
      var i :| i in s.tasks && Accounts(s.tasks[i], holder);
      assert i in s'.tasks && Accounts(s'.tasks[i], holder);
    }
    forall i | i in s'.tasks && s'.tasks[i].holder == holder
      ensures TaskOk(ttl, s', s'.tasks[i])
    {
      assert TaskOk(ttl, s, s.tasks[i]);
    }
  }

  lemma {:induction false} BeliefRun(ttl: string -> nat, s: System, run: seq<Event>, holder: string)
    requires Inv(ttl, s) && Belief(ttl, s, holder) && EnabledRun(ttl, s, run) && Lapses(ttl, s, run, holder) == 0
    ensures Belief(ttl, ApplyRun(ttl, s, run), holder)
    decreases |run|
  {
    hide Inv, Belief, Enabled, Careful;
    if run != [] {
      var e := run[0];
      ApplyInv(ttl, s, e);
      match e {
        case Execute(id) => BeliefExecute(ttl, s, id, holder);
        case Deliver(id) => BeliefDeliver(ttl, s, id, holder);
        case TryHold(_, _) => BeliefCall(ttl, s, e, holder);
        case Release(_, _) => BeliefCall(ttl, s, e, holder);
        case _ => BeliefElse(ttl, s, e, holder);
      }
      BeliefRun(ttl, Apply(ttl, s, e), run[1..], holder);
    }
  }

  /** A replica that is careful itself is never locked out of its own lease, whatever the others do. */
  lemma {:induction false} CarefulNeverLockedOut(ttl: string -> nat, run: seq<Event>, holder: string)
    requires EnabledRun(ttl, INITIAL, run) && Lapses(ttl, INITIAL, run, holder) == 0
    ensures !LockedOut(ttl, ApplyRun(ttl, INITIAL, run), holder)
  {
    BeliefRun(ttl, INITIAL, run, holder);
  }

  /** A careful replica that has no call open and does not believe it holds the lease, as after every
      release, has given it up: the store does not name it. */
  lemma {:induction false} CarefulReleaseGivesUp(ttl: string -> nat, run: seq<Event>, holder: string)
    requires EnabledRun(ttl, INITIAL, run) && Lapses(ttl, INITIAL, run, holder) == 0
    requires var s := ApplyRun(ttl, INITIAL, run); Idle(s, holder) && holder !in s.held
    ensures !LiveFor(ttl, ApplyRun(ttl, INITIAL, run), holder)
  {
    BeliefRun(ttl, INITIAL, run, holder);
  }

  /** The first lapse of a replica, if it is a reply that is lost, locks the replica out on the spot
      exactly when the store names it at that moment. */
  lemma {:induction false} LostReplyLocksOutExactly(ttl: string -> nat, run: seq<Event>, id: TaskId, holder: string)
    requires EnabledRun(ttl, INITIAL, run) && Lapses(ttl, INITIAL, run, holder) == 0
    requires var s := ApplyRun(ttl, INITIAL, run); Enabled(s, GiveUp(id)) && s.tasks[id].holder == holder
    ensures var s := ApplyRun(ttl, INITIAL, run);
      LockedOut(ttl, Apply(ttl, s, GiveUp(id)), holder) <==> LiveFor(ttl, s, holder)
  {
    BeliefRun(ttl, INITIAL, run, holder);
    var s := ApplyRun(ttl, INITIAL, run);
    assert TaskOk(ttl, s, s.tasks[id]);
  }

  // ----- one lapse is enough -----

  predicate AllAnswered(run: seq<Event>) { forall i :: 0 <= i < |run| ==> !run[i].GiveUp? }

  /** A run in which every request gets its reply leads from `s` to `t` with `n` lapses of `holder`. */
  ghost predicate Leads(ttl: string -> nat, s: System, t: System, holder: string, n: nat) {
    exists run :: AllAnswered(run) && EnabledRun(ttl, s, run) && ApplyRun(ttl, s, run) == t && Lapses(ttl, s, run, holder) == n
  }

  lemma {:induction false} LapsesAppend(ttl: string -> nat, s: System, run: seq<Event>, e: Event, holder: string)
    requires EnabledRun(ttl, s, run) && EnabledRun(ttl, s, run + [e]) && Enabled(ApplyRun(ttl, s, run), e)
    ensures Lapses(ttl, s, run + [e], holder)
      == Lapses(ttl, s, run, holder) + if Careful(ApplyRun(ttl, s, run), e, holder) then 0 else 1
    decreases |run|
  {
    hide Enabled, Apply, Careful;
    if run == [] {
      assert run + [e] == [e] && [e][1..] == [];
    } else {
      assert (run + [e])[1..] == run[1..] + [e];
      LapsesAppend(ttl, Apply(ttl, s, run[0]), run[1..], e, holder);
    }
  }

  lemma {:induction false} LeadsNext(ttl: string -> nat, s: System, t: System, e: Event, holder: string, n: nat)
    requires Leads(ttl, s, t, holder, n) && Enabled(t, e) && !e.GiveUp?
    ensures Leads(ttl, s, Apply(ttl, t, e), holder, if Careful(t, e, holder) then n else n + 1)
  {
    hide Enabled, Apply, Careful;
    var run :| AllAnswered(run) && EnabledRun(ttl, s, run) && ApplyRun(ttl, s, run) == t && Lapses(ttl, s, run, holder) == n;
    RunAppend(ttl, s, run, e);
    LapsesAppend(ttl, s, run, e, holder);
    assert AllAnswered(run + [e]);
  }

  lemma {:induction false} LeadsNowhere(ttl: string -> nat, s: System, holder: string)
    ensures Leads(ttl, s, s, holder, 0)
  {
    assert AllAnswered([]) && EnabledRun(ttl, s, []) && ApplyRun(ttl, s, []) == s;
  }

  lemma {:induction false} FreshId(tasks: map<TaskId, Task>) returns (id: TaskId)
    ensures forall i :: i in tasks ==> i < id
    decreases |tasks|
  {
    if tasks == map[] {
      id := 0;
    } else {
      var i :| i in tasks;
      var later := FreshId(tasks - {i});
      assert forall j :: j in tasks && j != i ==> j in tasks - {i};
      id := later + i + 1;
    }
  }

  /** `holder` has sent one request to acquire, which nobody's grant stands against. */
  ghost predicate Acquiring(s: System, id: TaskId, holder: string) {
    && id in s.tasks && s.tasks[id] == Task(holder, Acquire, None, false)
    && holder !in s.held && holder !in s.crashed && Purge(s.cell, s.now).None?
    && (forall i :: i in s.tasks && i != id && s.tasks[i].holder == holder ==> s.tasks[i].abandoned)
  }

  /** From every state in which the replica is alive and idle it can come to that without a lapse. */
  lemma {:induction false} ComesToAcquire(ttl: string -> nat, s: System, holder: string)
    returns (t: System, id: TaskId)
    requires Idle(s, holder) && holder !in s.crashed
    ensures Leads(ttl, s, t, holder, 0) && Acquiring(t, id, holder)
  {
    hide Leads;
    id := FreshId(s.tasks);
    var far := if s.cell.Some? && s.cell.value.expiresAt > s.now then s.cell.value.expiresAt else s.now;
    var s1 := Apply(ttl, s, Tick(far));
    t := Apply(ttl, s1, TryHold(id, holder));
    LeadsNowhere(ttl, s, holder);
    LeadsNext(ttl, s, s, Tick(far), holder, 0);
    LeadsNext(ttl, s, s1, TryHold(id, holder), holder, 0);
    if holder in s.held {
      LeadsNext(ttl, s, t, Execute(id), holder, 0);
      t := Apply(ttl, t, Execute(id));
      LeadsNext(ttl, s, t, Deliver(id), holder, 0);
      t := Apply(ttl, t, Deliver(id));
    }
  }

  /** Losing the reply to request `id` now locks the replica out. */
  ghost predicate LosesOut(ttl: string -> nat, s: System, id: TaskId, holder: string) {
    Enabled(s, GiveUp(id)) && s.tasks[id].holder == holder && LockedOut(ttl, Apply(ttl, s, GiveUp(id)), holder)
  }

  /** From every state in which a replica is alive and idle, one lost reply can lock it out: after a run
      in which it is careful and every reply arrives. */
  lemma {:induction false} LostReplyCanLockOut(ttl: string -> nat, s: System, holder: string)
    requires Idle(s, holder) && holder !in s.crashed && ttl(holder) > 0
    ensures exists t, id :: Leads(ttl, s, t, holder, 0) && LosesOut(ttl, t, id, holder)
  {
    hide Leads;
    var t, id := ComesToAcquire(ttl, s, holder);
    LeadsNext(ttl, s, t, Execute(id), holder, 0);
    assert LosesOut(ttl, Apply(ttl, t, Execute(id)), id, holder);
  }

  /** So can a single call that overlaps another, although every reply arrives. */
  lemma {:induction false} OverlapCanLockOut(ttl: string -> nat, s: System, holder: string)
    requires Idle(s, holder) && holder !in s.crashed && ttl(holder) > 0
    ensures exists t :: Leads(ttl, s, t, holder, 1) && LockedOut(ttl, t, holder)
  {
    hide Leads;
    var t, id := ComesToAcquire(ttl, s, holder);
    var t' := Overlap(ttl, s, t, id, holder);
    assert LockedOut(ttl, t', holder);
  }

  /** While a request to acquire is under way, a second call sends another one; of the two replies the
      refusal arrives last. */
  lemma {:induction false} Overlap(ttl: string -> nat, s: System, t: System, id: TaskId, holder: string)
    returns (t': System)
    requires Leads(ttl, s, t, holder, 0) && Acquiring(t, id, holder) && ttl(holder) > 0
    ensures Leads(ttl, s, t', holder, 1) && LockedOut(ttl, t', holder)
  {
    hide Leads;
    var other := FreshId(t.tasks);
    var t1 := Apply(ttl, t, TryHold(other, holder));
    var t2 := Apply(ttl, t1, Execute(id));
    var t3 := Apply(ttl, t2, Execute(other));
    var t4 := Apply(ttl, t3, Deliver(id));
    t' := Apply(ttl, t4, Deliver(other));
    LeadsNext(ttl, s, t, TryHold(other, holder), holder, 0);
    LeadsNext(ttl, s, t1, Execute(id), holder, 1);
    LeadsNext(ttl, s, t2, Execute(other), holder, 1);
    LeadsNext(ttl, s, t3, Deliver(id), holder, 1);
    LeadsNext(ttl, s, t4, Deliver(other), holder, 1);
  }
}
