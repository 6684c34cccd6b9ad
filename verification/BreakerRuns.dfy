/** All interleavings of any number of concurrent calls through one breaker
    (`libs/resilience/src/circuit-breaker.ts` with `libs/resilience/src/http-policy.ts`). */
module BreakerRuns {
  import opened CircuitBreaking
  import opened HttpPolicy

  type CallId = nat

  /** A call between two of its steps: attempt `attempt` is running, or has failed and the call
      sleeps before the next one.  `probe` and `episode` record that it was admitted half-open and
      in which half-open episode. */
  datatype Call = Call(attempt: nat, budget: nat, asleep: bool, slept: nat, probe: bool, episode: nat)

  /** The breaker, the running calls and the last clock reading; and, as history, the calls ever
      admitted, the outcomes recorded, the current half-open episode with the number of calls it has
      admitted, and all failure times since the last reset with how many of them are pruned. */
  datatype System = System(
    breaker: Breaker, calls: map<CallId, Call>, now: int,
    started: set<CallId>, records: multiset<CallId>, episode: nat, admitted: nat, failures: seq<int>, pruned: nat)

  datatype Event =
    | Start(id: CallId, now: int)
    | Settle(id: CallId, outcome: Outcome, now: int, later: int, delay: nat)
    | Wake(id: CallId, now: int)
    | ReadState(now: int)

  function Initial(cfg: Config, now: int): System {
    System(Fresh, map[], now, {}, multiset{}, 0, 0, [], 0)
  }

  predicate Enabled(cfg: Config, s: System, e: Event) {
    e.now >= s.now &&
    match e
    case Start(id, _) => id !in s.started
    case Settle(id, _, now, later, delay) =>
      id in s.calls && !s.calls[id].asleep && later >= now && delay <= DelayCap(cfg, s.calls[id].attempt)
    case Wake(id, _) => id in s.calls && s.calls[id].asleep
    case ReadState(_) => true
  }

  /** Looking at the cooldown; a half-open episode may begin. */
  function Look(cfg: Config, s: System, now: int): System {
    var b := Cool(cfg, s.breaker, now);
    if b.state == HalfOpen && s.breaker.state == Open then
      s.(breaker := b, now := now, episode := s.episode + 1, admitted := 0)
    else s.(now := now)
  }

  predicate Admitted(cfg: Config, s: System, now: int) { EnterSpec(cfg, s.breaker, now).1 }

  function DoStart(cfg: Config, s: System, id: CallId, now: int): System {
    var looked := Look(cfg, s, now);
    var (b, admitted) := EnterSpec(cfg, s.breaker, now);
    if !admitted then looked.(breaker := b)
    else
      var half := Cool(cfg, b, now).state == HalfOpen;
      var call := Call(1, if half then 1 else cfg.maxAttempts, false, 0, half, looked.episode);
      looked.(breaker := b, started := s.started + {id}, calls := s.calls[id := call],
              admitted := looked.admitted + (if half then 1 else 0))
  }

  /** How many of the times are not later than the cutoff. */
  function Old(times: seq<int>, cutoff: int): nat {
    AfterShorter(times, cutoff);
    |times| - |After(times, cutoff)|
  }

  function Without(calls: map<CallId, Call>, id: CallId): map<CallId, Call> { calls - {id} }

  /** A call records a success and leaves. */
  function DoSuccess(cfg: Config, s: System, id: CallId, now: int): System {
    var b := SuccessSpec(cfg, s.breaker, now);
    var reset := s.breaker.state != Closed;
    s.(breaker := LeaveSpec(b), calls := Without(s.calls, id), now := now, records := s.records + multiset{id},
       failures := if reset then [] else s.failures, pruned := if reset then 0 else Old(s.failures, now - cfg.windowMs))
  }

  /** A call records a failure and leaves. */
  function DoFailure(cfg: Config, s: System, id: CallId, now: int, later: int): System {
    var b := FailureSpec(cfg, s.breaker, now, later);
    var reset := b.failures == [];
    s.(breaker := LeaveSpec(b), calls := Without(s.calls, id), now := later, records := s.records + multiset{id},
       failures := if reset then [] else s.failures + [now],
       pruned := if reset then 0 else Old(s.failures, later - cfg.windowMs))
  }

  function DoRetry(s: System, id: CallId, now: int, delay: nat): System
    requires id in s.calls
  {
    var c := s.calls[id];
    s.(now := now, calls := s.calls[id :=
      if delay > 0 then c.(asleep := true, slept := c.slept + delay) else c.(attempt := c.attempt + 1)])
  }

  function Apply(cfg: Config, s: System, e: Event): System
    requires Enabled(cfg, s, e)
  {
    match e
    case Start(id, now) => DoStart(cfg, s, id, now)
    case Settle(id, outcome, now, later, delay) =>
      (match Judge(outcome, s.calls[id].attempt, s.calls[id].budget)
       case Record(success) => if success then DoSuccess(cfg, s, id, now) else DoFailure(cfg, s, id, now, later)
       case Again => DoRetry(s, id, now, delay))
    case Wake(id, now) => s.(now := now, calls := s.calls[id := s.calls[id].(asleep := false, attempt := s.calls[id].attempt + 1)])
    case ReadState(now) => Look(cfg, s, now)
  }

  // ----- runs -----

  predicate EnabledRun(cfg: Config, s: System, run: seq<Event>)
    decreases |run|
  {
    run == [] || (Enabled(cfg, s, run[0]) && EnabledRun(cfg, Apply(cfg, s, run[0]), run[1..]))
  }

  function ApplyRun(cfg: Config, s: System, run: seq<Event>): System
    requires EnabledRun(cfg, s, run)
    decreases |run|
  {
    if run == [] then s else ApplyRun(cfg, Apply(cfg, s, run[0]), run[1..])
  }

  // ----- the invariant -----

  predicate CallOk(cfg: Config, c: Call) {
    && 1 <= c.attempt <= c.budget
    && c.budget == (if c.probe then 1 else cfg.maxAttempts)
    && (c.asleep ==> c.attempt < c.budget)
    && c.slept <= SleepBound(cfg, if c.asleep then c.attempt else c.attempt - 1)
  }

  ghost predicate CallsOk(cfg: Config, s: System) {
    forall id :: id in s.calls ==> CallOk(cfg, s.calls[id])
  }

  /** The probe flag is set only while half-open, by a running call of the current episode, and an
      episode admits at most that one call. */
  ghost predicate ProbeOk(s: System) {
    && (s.breaker.probeInFlight ==>
         s.breaker.state == HalfOpen && exists id :: id in s.calls && s.calls[id].probe && s.calls[id].episode == s.episode)
    && (s.breaker.state == HalfOpen ==> s.admitted == if s.breaker.probeInFlight then 1 else 0)
    && s.admitted <= 1
  }

  /** Every call ever admitted still runs and has recorded nothing, or is over and has recorded
      exactly one outcome. */
  ghost predicate RecordsOk(s: System) {
    && (forall id :: id in s.calls ==> id in s.started)
    && (forall id :: s.records[id] == if id in s.started && id !in s.calls then 1 else 0)
  }

  /** The stored failures are the recent part of the whole history, fewer than the threshold. */
  ghost predicate HistoryOk(cfg: Config, s: System) {
    && s.pruned <= |s.failures| && s.breaker.failures == s.failures[s.pruned..]
    && (forall i, j :: 0 <= i < j < |s.failures| ==> s.failures[i] <= s.failures[j])
    && (forall i :: 0 <= i < |s.failures| ==> s.failures[i] <= if i < s.pruned then s.now - cfg.windowMs else s.now)
    && |s.breaker.failures| < cfg.failureThreshold
  }

  ghost predicate Inv(cfg: Config, s: System) {
    && CallsOk(cfg, s) && ProbeOk(s) && RecordsOk(s) && HistoryOk(cfg, s)
    && (s.breaker.state == Open ==> s.breaker.openedAt <= s.now)
  }

  lemma {:induction false} InitialInv(cfg: Config, now: int)
    requires cfg.failureThreshold >= 1
    ensures Inv(cfg, Initial(cfg, now))
  {
  }

  lemma {:induction false} StartInv(cfg: Config, s: System, id: CallId, now: int)
    requires cfg.maxAttempts >= 1 && Inv(cfg, s) && Enabled(cfg, s, Start(id, now))
    ensures Inv(cfg, DoStart(cfg, s, id, now))
  {
    var s' := DoStart(cfg, s, id, now);
    if Admitted(cfg, s, now) && s'.breaker.probeInFlight {
      assert id in s'.calls && s'.calls[id].probe;
    }
    assert CallsOk(cfg, s');
    assert ProbeOk(s');
    assert RecordsOk(s');
    assert HistoryOk(cfg, s');
  }

  lemma {:induction false} AfterShorter(times: seq<int>, c: int)
    ensures |After(times, c)| <= |times|
  {
    if times != [] {
      AfterShorter(times[..|times| - 1], c);
    }
  }

  lemma {:induction false} OldStep(times: seq<int>, c: int)
    requires times != []
    ensures var n := |times| - 1;
      && After(times, c) == After(times[..n], c) + (if times[n] > c then [times[n]] else [])
      && Old(times, c) == Old(times[..n], c) + (if times[n] > c then 0 else 1)
  {
    AfterShorter(times, c);
    AfterShorter(times[..|times| - 1], c);
  }

  lemma {:induction false} OldAll(times: seq<int>, c: int)
    requires forall i :: 0 <= i < |times| ==> times[i] <= c
    ensures After(times, c) == [] && Old(times, c) == |times|
  {
    AfterNone(times, c);
    AfterShorter(times, c);
  }

  /** Of times in order, the recent ones are a suffix, whether or not some old ones are gone. */
  lemma {:induction false} AfterSuffix(times: seq<int>, k: nat, c: int)
    requires k <= |times| && (forall i, j :: 0 <= i < j < |times| ==> times[i] <= times[j])
    requires forall i :: 0 <= i < k ==> times[i] <= c
    ensures k <= Old(times, c) <= |times|
    ensures After(times[k..], c) == After(times, c) == times[Old(times, c)..]
    ensures forall i :: 0 <= i < |times| ==> (times[i] <= c <==> i < Old(times, c))
  {
    hide After, Old;
    if k < |times| {
      var n := |times| - 1;
      AfterSuffix(times[..n], k, c);
      OldStep(times, c);
      OldStep(times[k..], c);
      assert times[k..][..n - k] == times[..n][k..];
      if times[n] > c {
        assert times[..n][Old(times, c)..] + [times[n]] == times[Old(times, c)..];
      } else {
        OldAll(times, c);
      }
    } else {
      OldAll(times, c);
      OldAll(times[k..], c);
    }
  }

  lemma {:induction false} AfterNone(times: seq<int>, c: int)
    requires forall i :: 0 <= i < |times| ==> times[i] <= c
    ensures After(times, c) == []
  {
    if times != [] {
      AfterNone(times[..|times| - 1], c);
    }
  }

  /** The step in which a call records its outcome leaves the flag clear and the episode over. */
  lemma {:induction false} LeaveInv(cfg: Config, s: System, id: CallId, s': System)
    requires CallsOk(cfg, s) && ProbeOk(s) && RecordsOk(s) && id in s.calls
    requires s'.calls == Without(s.calls, id) && s'.started == s.started && s'.records == s.records + multiset{id}
    requires s'.admitted == s.admitted && s'.breaker.state != HalfOpen && !s'.breaker.probeInFlight
    ensures CallsOk(cfg, s') && ProbeOk(s') && RecordsOk(s')
  {
    forall i
      ensures s'.records[i] == s.records[i] + if i == id then 1 else 0
    {
    }
  }

  lemma {:induction false} SuccessHistory(cfg: Config, s: System, id: CallId, now: int)
    requires cfg.failureThreshold >= 1 && HistoryOk(cfg, s) && now >= s.now
    ensures HistoryOk(cfg, DoSuccess(cfg, s, id, now))
  {
    hide After, Old;
    if s.breaker.state == Closed {
      AfterSuffix(s.failures, s.pruned, now - cfg.windowMs);
      AfterShorter(s.breaker.failures, now - cfg.windowMs);
    }
  }

  lemma {:induction false} FailureHistory(cfg: Config, s: System, id: CallId, now: int, later: int)
    requires cfg.failureThreshold >= 1 && HistoryOk(cfg, s) && s.now <= now <= later
    ensures HistoryOk(cfg, DoFailure(cfg, s, id, now, later))
  {
    hide After, Old;
    if s.breaker.state != HalfOpen {
      AfterSuffix(s.failures, s.pruned, later - cfg.windowMs);
      var gone := Old(s.failures, later - cfg.windowMs);
      assert s.failures[gone..] + [now] == (s.failures + [now])[gone..];
      PushedHistory(cfg, s, now, later, gone);
    }
  }

  /** The history with one more failure, of which the first `gone` are out of the window. */
  lemma {:induction false} PushedHistory(cfg: Config, s: System, now: int, later: int, gone: nat)
    requires HistoryOk(cfg, s) && s.now <= now <= later && gone <= |s.failures|
    requires forall i :: 0 <= i < gone ==> s.failures[i] <= later - cfg.windowMs
    ensures var times := s.failures + [now];
      && (forall i, j :: 0 <= i < j < |times| ==> times[i] <= times[j])
      && (forall i :: 0 <= i < |times| ==> times[i] <= if i < gone then later - cfg.windowMs else later)
  {
  }

  lemma {:induction false} SuccessInv(cfg: Config, s: System, id: CallId, now: int)
    requires cfg.failureThreshold >= 1 && Inv(cfg, s) && id in s.calls && now >= s.now
    ensures Inv(cfg, DoSuccess(cfg, s, id, now))
  {
    hide CallsOk, ProbeOk, RecordsOk, HistoryOk, After, Old;
    LeaveInv(cfg, s, id, DoSuccess(cfg, s, id, now));
    SuccessHistory(cfg, s, id, now);
  }

  lemma {:induction false} FailureInv(cfg: Config, s: System, id: CallId, now: int, later: int)
    requires cfg.failureThreshold >= 1 && Inv(cfg, s) && id in s.calls && s.now <= now <= later
    ensures Inv(cfg, DoFailure(cfg, s, id, now, later))
  {
    hide CallsOk, ProbeOk, RecordsOk, HistoryOk, After, Old;
    LeaveInv(cfg, s, id, DoFailure(cfg, s, id, now, later));
    FailureHistory(cfg, s, id, now, later);
  }

  lemma {:induction false} LookInv(cfg: Config, s: System, now: int)
    requires Inv(cfg, s) && now >= s.now
    ensures Inv(cfg, Look(cfg, s, now))
  {
  }

  lemma {:induction false} RetryInv(cfg: Config, s: System, id: CallId, now: int, delay: nat)
    requires Inv(cfg, s) && now >= s.now && id in s.calls && !s.calls[id].asleep
    requires s.calls[id].attempt < s.calls[id].budget && delay <= DelayCap(cfg, s.calls[id].attempt)
    ensures Inv(cfg, DoRetry(s, id, now, delay))
  {
    hide SleepBound, DelayCap;
    var s' := DoRetry(s, id, now, delay);
    SleepBoundStep(cfg, s.calls[id].attempt - 1);
    assert CallOk(cfg, s.calls[id]);
    SameCallsInv(cfg, s, id, s');
  }

  lemma {:induction false} WakeInv(cfg: Config, s: System, id: CallId, now: int)
    requires Inv(cfg, s) && Enabled(cfg, s, Wake(id, now))
    ensures Inv(cfg, Apply(cfg, s, Wake(id, now)))
  {
    assert CallOk(cfg, s.calls[id]);
    SameCallsInv(cfg, s, id, Apply(cfg, s, Wake(id, now)));
  }

  /** A step that only moves one call on. */
  lemma {:induction false} SameCallsInv(cfg: Config, s: System, id: CallId, s': System)
    requires Inv(cfg, s) && id in s.calls && id in s'.calls && s'.now >= s.now
    requires s' == s.(now := s'.now, calls := s.calls[id := s'.calls[id]])
    requires s'.calls[id].probe == s.calls[id].probe && s'.calls[id].episode == s.calls[id].episode
    requires CallOk(cfg, s'.calls[id])
    ensures Inv(cfg, s')
  {
    if s.breaker.probeInFlight {
      var p :| p in s.calls && s.calls[p].probe && s.calls[p].episode == s.episode;
      assert p in s'.calls && s'.calls[p].probe && s'.calls[p].episode == s'.episode;
    }
  }

  lemma {:induction false} ApplyInv(cfg: Config, s: System, e: Event)
    requires cfg.failureThreshold >= 1 && cfg.maxAttempts >= 1 && Inv(cfg, s) && Enabled(cfg, s, e)
    ensures Inv(cfg, Apply(cfg, s, e))
  {
    hide Inv, SleepBound, DelayCap, DoStart, DoSuccess, DoFailure, DoRetry, Look;
    match e
    case Start(id, now) => StartInv(cfg, s, id, now);
    case Settle(id, outcome, now, later, delay) =>
      RunningCall(cfg, s, id);
      match Judge(outcome, s.calls[id].attempt, s.calls[id].budget) {
        case Record(success) =>
          if success {
            SuccessInv(cfg, s, id, now);
          } else {
            FailureInv(cfg, s, id, now, later);
          }
        case Again => RetryInv(cfg, s, id, now, delay);
      }
    case Wake(id, now) => WakeInv(cfg, s, id, now);
    case ReadState(now) => LookInv(cfg, s, now);
  }

  lemma {:induction false} RunningCall(cfg: Config, s: System, id: CallId)
    requires Inv(cfg, s) && id in s.calls
    ensures CallOk(cfg, s.calls[id])
  {
  }

  lemma {:induction false} RunInv(cfg: Config, s: System, run: seq<Event>)
    requires cfg.failureThreshold >= 1 && cfg.maxAttempts >= 1 && Inv(cfg, s) && EnabledRun(cfg, s, run)
    ensures Inv(cfg, ApplyRun(cfg, s, run))
    decreases |run|
  {
    hide Inv, Apply, Enabled;
    if run != [] {
      ApplyInv(cfg, s, run[0]);
      RunInv(cfg, Apply(cfg, s, run[0]), run[1..]);
    }
  }

  // ----- what holds in every reachable state -----

  ghost predicate Reachable(cfg: Config, s: System) {
    exists now, run :: EnabledRun(cfg, Initial(cfg, now), run) && ApplyRun(cfg, Initial(cfg, now), run) == s
  }

  lemma {:induction false} ReachableInv(cfg: Config, s: System)
    requires InBounds(cfg) && Reachable(cfg, s)
    ensures Inv(cfg, s)
  {
    var now, run :| EnabledRun(cfg, Initial(cfg, now), run) && ApplyRun(cfg, Initial(cfg, now), run) == s;
    InitialInv(cfg, now);
    RunInv(cfg, Initial(cfg, now), run);
  }

  /** The probe flag is never left behind: while it is set the breaker is half-open, exactly one
      call has been admitted in the episode and it still runs its only attempt; and however that
      attempt settles, the same step ends the episode and clears the flag. */
  lemma {:induction false} ProbeEndsEpisode(cfg: Config, s: System)
    requires InBounds(cfg) && Reachable(cfg, s) && s.breaker.probeInFlight
    ensures s.breaker.state == HalfOpen && s.admitted == 1
    ensures exists id :: ProbeSettles(cfg, s, id)
  {
    ReachableInv(cfg, s);
    var id :| id in s.calls && s.calls[id].probe && s.calls[id].episode == s.episode;
    assert CallOk(cfg, s.calls[id]);
    assert ProbeSettles(cfg, s, id);
  }

  ghost predicate ProbeSettles(cfg: Config, s: System, id: CallId) {
    && id in s.calls && s.calls[id].episode == s.episode && !s.calls[id].asleep
    && s.calls[id].attempt == 1 && s.calls[id].budget == 1
    && forall e: Event :: e.Settle? && e.id == id && Enabled(cfg, s, e) ==>
         var b := Apply(cfg, s, e).breaker; b.state != HalfOpen && !b.probeInFlight
  }

  /** A call is turned away exactly while the cooldown runs or a probe is in flight: it does not run,
      and otherwise it does, with one attempt if the circuit is then half-open and with all if it is
      closed.  A half-open episode never admits a second call. */
  lemma {:induction false} RejectsExactly(cfg: Config, s: System, id: CallId, now: int)
    requires InBounds(cfg) && Reachable(cfg, s) && Enabled(cfg, s, Start(id, now))
    ensures var s' := Apply(cfg, s, Start(id, now));
      var shut := (s.breaker.state == Open && now - s.breaker.openedAt < cfg.cooldownMs) || s.breaker.probeInFlight;
      && (shut ==> s'.calls == s.calls && s'.started == s.started)
      && (!shut ==>
           && s'.calls.Keys == s.calls.Keys + {id} && s'.calls[id].attempt == 1
           && s'.calls[id].budget == if s.breaker.state == Closed then cfg.maxAttempts else 1)
    ensures s.admitted <= 1
    ensures s.breaker.state == HalfOpen && s.admitted == 1 ==> Apply(cfg, s, Start(id, now)).calls == s.calls
  {
    ReachableInv(cfg, s);
    assert id !in s.calls;
  }

  /** The failures since the last reset that are inside the window at `later`. */
  ghost function InWindow(cfg: Config, s: System, later: int): set<nat> {
    set i: nat | i < |s.failures| && later - s.failures[i] < cfg.windowMs
  }

  lemma {:induction false} AfterCounts(times: seq<int>, c: int)
    ensures |After(times, c)| == |set i: nat | i < |times| && times[i] > c|
  {
    if times != [] {
      var n := |times| - 1;
      AfterCounts(times[..n], c);
      var before := set i: nat | i < n && times[..n][i] > c;
      if times[n] > c {
        assert (set i: nat | i < |times| && times[i] > c) == before + {n};
      } else {
        assert (set i: nat | i < |times| && times[i] > c) == before;
      }
    }
  }

  lemma {:induction false} WindowSize(cfg: Config, s: System, later: int)
    requires HistoryOk(cfg, s) && s.now <= later
    ensures |After(s.breaker.failures, later - cfg.windowMs)| == |InWindow(cfg, s, later)|
  {
    hide After, Old;
    var c := later - cfg.windowMs;
    AfterSuffix(s.failures, s.pruned, c);
    AfterCounts(s.failures, c);
    assert InWindow(cfg, s, later) == set i: nat | i < |s.failures| && s.failures[i] > c;
  }

  /** A failure recorded while closed opens the circuit exactly when, with it, the whole history
      since the last reset holds the threshold number of failures inside the window, and then from the
      instant of the failure; and the stored list never reaches the threshold. */
  lemma {:induction false} OpensExactly(cfg: Config, s: System, id: CallId, now: int, later: int)
    requires InBounds(cfg) && Reachable(cfg, s) && s.breaker.state == Closed && s.now <= now <= later
    ensures var b := DoFailure(cfg, s, id, now, later).breaker;
      if |InWindow(cfg, s, later)| + 1 >= cfg.failureThreshold then b.state == Open && b.openedAt == now && b.failures == []
      else b.state == Closed && b.openedAt == s.breaker.openedAt && b.failures != []
    ensures |s.breaker.failures| < cfg.failureThreshold
  {
    hide After, Old;
    ReachableInv(cfg, s);
    WindowSize(cfg, s, later);
  }

  /** An attempt ends a call when it succeeds, fails for good, or is the last one allowed. */
  predicate Ends(s: System, e: Event)
    requires e.Settle? && e.id in s.calls
  {
    !WorthRetrying(e.outcome) || s.calls[e.id].attempt == s.calls[e.id].budget
  }

  /** How an attempt leaves the breaker and its call, in every state: a success closes the circuit and
      forgets the failures of a circuit that was not closed; a failure of the probe reopens it at that
      instant; another failure opens it when the window holds the threshold number with it; and an
      attempt after which the call goes on leaves the breaker alone. */
  lemma {:induction false} SettlesExactly(cfg: Config, s: System, e: Event)
    requires InBounds(cfg) && Reachable(cfg, s) && e.Settle? && Enabled(cfg, s, e)
    ensures var s' := Apply(cfg, s, e); var b := s'.breaker;
      && (e.id in s'.calls <==> !Ends(s, e))
      && (!Ends(s, e) ==> b == s.breaker)
      && (Ends(s, e) ==> !b.probeInFlight)
      && (Ends(s, e) && Succeeded(e.outcome) ==>
           b.state == Closed && b.openedAt == s.breaker.openedAt && (s.breaker.state != Closed ==> b.failures == []))
      && (Ends(s, e) && !Succeeded(e.outcome) ==>
           if s.breaker.state == HalfOpen || |InWindow(cfg, s, e.later)| + 1 >= cfg.failureThreshold
           then b.state == Open && b.openedAt == e.now && b.failures == []
           else b.state == s.breaker.state && b.openedAt == s.breaker.openedAt && b.failures != [])
  {
    hide After, Old;
    ReachableInv(cfg, s);
    JudgeExactly(e.outcome, s.calls[e.id].attempt, s.calls[e.id].budget);
    WindowSize(cfg, s, e.later);
  }

  /** Every call stays within its budget of attempts and of sleep, and has recorded one outcome
      once it is over and none before. */
  lemma {:induction false} CallsBounded(cfg: Config, s: System, id: CallId)
    requires InBounds(cfg) && Reachable(cfg, s)
    ensures s.records[id] == if id in s.started && id !in s.calls then 1 else 0
    ensures id in s.calls ==>
      var c := s.calls[id];
      && 1 <= c.attempt <= c.budget == (if c.probe then 1 else cfg.maxAttempts)
      && c.slept <= SleepBound(cfg, c.budget - 1)
  {
    ReachableInv(cfg, s);
    if id in s.calls {
      var c := s.calls[id];
      assert CallOk(cfg, c);
      SleepBoundMonotone(cfg, if c.asleep then c.attempt else c.attempt - 1, c.budget - 1);
    }
  }

  // ----- no admission before the cooldown ends, but for an earlier call's success -----

  /** A call that already ran in `s0` settles with a success. */
  predicate EarlierSuccess(s0: System, s: System, e: Event) {
    e.Settle? && e.id in s0.calls && e.id in s.calls && Succeeded(e.outcome)
  }

  /** The circuit has not closed since `s0`, where it was open; or the cooldown is over. */
  ghost predicate StillShut(cfg: Config, s0: System, s: System) {
    || s.now >= s0.breaker.openedAt + cfg.cooldownMs
    || (s.breaker.state == Open && s.breaker.openedAt >= s0.breaker.openedAt && s.calls.Keys <= s0.calls.Keys)
  }

  lemma {:induction false} ShutStep(cfg: Config, s0: System, s: System, e: Event)
    requires Enabled(cfg, s, e) && StillShut(cfg, s0, s) && !EarlierSuccess(s0, s, e)
    requires s.breaker.state == Open ==> s.breaker.openedAt <= s.now
    ensures StillShut(cfg, s0, Apply(cfg, s, e))
  {
    hide After, Old, DelayCap;
    if e.Settle? {
      JudgeExactly(e.outcome, s.calls[e.id].attempt, s.calls[e.id].budget);
    }
  }

  /** Among the states of a run from an open circuit, up to the end of the cooldown and as long as
      no call that already ran then has reported a success, every new call is turned away. */
  lemma {:induction false} NoEarlyAdmission(cfg: Config, s0: System, s: System, run: seq<Event>, now: int)
    requires InBounds(cfg) && Inv(cfg, s) && StillShut(cfg, s0, s) && EnabledRun(cfg, s, run)
    requires NoEarlierSuccess(cfg, s0, s, run)
    requires ApplyRun(cfg, s, run).now <= now < s0.breaker.openedAt + cfg.cooldownMs
    ensures !Admitted(cfg, ApplyRun(cfg, s, run), now)
    decreases |run|
  {
    hide Inv, StillShut, Apply, Enabled;
    if run != [] {
      OpenedBefore(cfg, s);
      ShutStep(cfg, s0, s, run[0]);
      ApplyInv(cfg, s, run[0]);
      NoEarlyAdmission(cfg, s0, Apply(cfg, s, run[0]), run[1..], now);
    } else {
      ShutRejects(cfg, s0, s, now);
    }
  }

  lemma {:induction false} OpenedBefore(cfg: Config, s: System)
    requires Inv(cfg, s)
    ensures s.breaker.state == Open ==> s.breaker.openedAt <= s.now
  {
  }

  lemma {:induction false} ShutRejects(cfg: Config, s0: System, s: System, now: int)
    requires StillShut(cfg, s0, s) && s.now <= now < s0.breaker.openedAt + cfg.cooldownMs
    ensures !Admitted(cfg, s, now)
  {
  }

  predicate NoEarlierSuccess(cfg: Config, s0: System, s: System, run: seq<Event>)
    requires EnabledRun(cfg, s, run)
    decreases |run|
  {
    run == [] || (!EarlierSuccess(s0, s, run[0]) && NoEarlierSuccess(cfg, s0, Apply(cfg, s, run[0]), run[1..]))
  }

  /** From any reachable open circuit: if a call is admitted before the cooldown has passed, then a
      call that was already running has meanwhile reported a success. */
  lemma {:induction false} EarlyAdmissionNeedsSuccess(cfg: Config, s: System, run: seq<Event>, now: int)
    requires InBounds(cfg) && Reachable(cfg, s) && s.breaker.state == Open && EnabledRun(cfg, s, run)
    requires ApplyRun(cfg, s, run).now <= now < s.breaker.openedAt + cfg.cooldownMs
    requires Admitted(cfg, ApplyRun(cfg, s, run), now)
    ensures !NoEarlierSuccess(cfg, s, s, run)
  {
    ReachableInv(cfg, s);
    if NoEarlierSuccess(cfg, s, s, run) {
      NoEarlyAdmission(cfg, s, s, run, now);
    }
  }

  // ----- what the probe decides -----

  lemma {:induction false} RunAppend(cfg: Config, s: System, run: seq<Event>, e: Event)
    requires EnabledRun(cfg, s, run) && Enabled(cfg, ApplyRun(cfg, s, run), e)
    ensures EnabledRun(cfg, s, run + [e]) && ApplyRun(cfg, s, run + [e]) == Apply(cfg, ApplyRun(cfg, s, run), e)
    decreases |run|
  {
    hide Enabled, Apply;
    if run == [] {
      assert (run + [e])[1..] == [];
    } else {
      RunAppend(cfg, Apply(cfg, s, run[0]), run[1..], e);
      assert (run + [e])[1..] == run[1..] + [e];
    }
  }

  lemma {:induction false} ReachableStep(cfg: Config, s: System, e: Event)
    requires Reachable(cfg, s) && Enabled(cfg, s, e)
    ensures Reachable(cfg, Apply(cfg, s, e))
  {
    hide Enabled, Apply;
    var now, run :| EnabledRun(cfg, Initial(cfg, now), run) && ApplyRun(cfg, Initial(cfg, now), run) == s;
    RunAppend(cfg, Initial(cfg, now), run, e);
  }

  lemma {:induction false} ReachableRun(cfg: Config, s: System, run: seq<Event>)
    requires Reachable(cfg, s) && EnabledRun(cfg, s, run)
    ensures Reachable(cfg, ApplyRun(cfg, s, run))
    decreases |run|
  {
    hide Enabled, Apply, Reachable;
    if run != [] {
      ReachableStep(cfg, s, run[0]);
      ReachableRun(cfg, Apply(cfg, s, run[0]), run[1..]);
    }
  }

  /** `e` settles the attempt of the call that the current half-open episode admitted. */
  predicate SettlesProbe(s: System, e: Event) {
    e.Settle? && e.id in s.calls && s.calls[e.id].probe && s.calls[e.id].episode == s.episode
  }

  /** The probe has succeeded: the circuit is closed with no failures, and the next call runs with all
      its attempts, whenever it comes. */
  lemma {:induction false} ProbeSucceeds(cfg: Config, s: System, e: Event, id: CallId, now: int)
    requires InBounds(cfg) && Reachable(cfg, s) && s.breaker.probeInFlight && SettlesProbe(s, e) && Enabled(cfg, s, e)
    requires Succeeded(e.outcome) && Enabled(cfg, Apply(cfg, s, e), Start(id, now))
    ensures var s' := Apply(cfg, s, e); var b := s'.breaker;
      && b.state == Closed && b.failures == [] && !b.probeInFlight
      && var t := Apply(cfg, s', Start(id, now)); id in t.calls && t.calls[id].budget == cfg.maxAttempts
  {
    hide Apply, Enabled, Reachable;
    ProbeRuns(cfg, s, e);
    SettlesExactly(cfg, s, e);
    ReachableStep(cfg, s, e);
    RejectsExactly(cfg, Apply(cfg, s, e), id, now);
  }

  lemma {:induction false} ProbeRuns(cfg: Config, s: System, e: Event)
    requires InBounds(cfg) && Reachable(cfg, s) && s.breaker.probeInFlight && SettlesProbe(s, e)
    ensures s.breaker.state == HalfOpen && Ends(s, e)
  {
    hide Reachable;
    ReachableInv(cfg, s);
    assert CallOk(cfg, s.calls[e.id]);
  }

  /** The probe has failed: the circuit is open from that instant, and until the cooldown has passed every
      call is turned away in every further run in which no call that still ran has a success to report. */
  lemma {:induction false} ProbeFails(cfg: Config, s: System, e: Event, run: seq<Event>, id: CallId, now: int)
    requires InBounds(cfg) && Reachable(cfg, s) && s.breaker.probeInFlight && SettlesProbe(s, e) && Enabled(cfg, s, e)
    requires !Succeeded(e.outcome) && EnabledRun(cfg, Apply(cfg, s, e), run)
    requires NoEarlierSuccess(cfg, Apply(cfg, s, e), Apply(cfg, s, e), run)
    requires Enabled(cfg, ApplyRun(cfg, Apply(cfg, s, e), run), Start(id, now)) && now < e.now + cfg.cooldownMs
    ensures var s' := Apply(cfg, s, e); var b := s'.breaker;
      && b.state == Open && b.openedAt == e.now && b.failures == [] && !b.probeInFlight
      && var t := ApplyRun(cfg, s', run);
         Apply(cfg, t, Start(id, now)).calls == t.calls && Apply(cfg, t, Start(id, now)).started == t.started
  {
    hide Apply, Enabled, Reachable;
    ProbeRuns(cfg, s, e);
    SettlesExactly(cfg, s, e);
    ReachableStep(cfg, s, e);
    OpenTurnsAway(cfg, Apply(cfg, s, e), run, id, now);
  }

  /** From any reachable open circuit: until the cooldown has passed every call is turned away, as long as
      no call that ran then has reported a success. */
  lemma {:induction false} OpenTurnsAway(cfg: Config, s: System, run: seq<Event>, id: CallId, now: int)
    requires InBounds(cfg) && Reachable(cfg, s) && s.breaker.state == Open && EnabledRun(cfg, s, run)
    requires NoEarlierSuccess(cfg, s, s, run)
    requires Enabled(cfg, ApplyRun(cfg, s, run), Start(id, now)) && now < s.breaker.openedAt + cfg.cooldownMs
    ensures var t := ApplyRun(cfg, s, run);
      Apply(cfg, t, Start(id, now)).calls == t.calls && Apply(cfg, t, Start(id, now)).started == t.started
  {
    hide Reachable, EnabledRun, ApplyRun, NoEarlierSuccess;
    if Admitted(cfg, ApplyRun(cfg, s, run), now) {
      EarlyAdmissionNeedsSuccess(cfg, s, run, now);
    }
  }
}
