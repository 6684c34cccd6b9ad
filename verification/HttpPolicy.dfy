/** The retry loop of one call over a shared breaker (`libs/resilience/src/http-policy.ts`,
    `libs/resilience/src/retry.ts`).

    The runtime is single-threaded, so the code between two awaits runs as one step.  A call is
    admitted and starts its first attempt in one step; when an attempt settles, the call records
    its outcome and leaves the breaker in one step, or goes to sleep, or starts the next attempt. */
module HttpPolicy {
  import opened CircuitBreaking
  import opened Core

  // ----- one call -----

  /** How an attempt settles: a response, or an exception that is worth retrying or is not. */
  datatype Outcome = Response(status: nat) | Threw(retryable: bool)

  predicate IsRetryableHttpStatus(status: nat) { status == 502 || status == 503 || status == 504 }

  datatype Verdict = Record(success: bool) | Again

  /** What the call does when attempt `i` of `budget` settles. */
  function Judge(outcome: Outcome, i: nat, budget: nat): Verdict {
    match outcome
    case Response(status) =>
      if 200 <= status < 300 || !IsRetryableHttpStatus(status) then Record(status < 500)
      else if i == budget then Record(false)
      else Again
    case Threw(retryable) => if !retryable || i == budget then Record(false) else Again
  }

  /** A call records a success for every answer below 500, and a failure for every other way to end. */
  predicate Succeeded(o: Outcome) { o.Response? && o.status < 500 }

  /** What is worth another attempt. */
  predicate WorthRetrying(o: Outcome) {
    match o
    case Response(status) => 502 <= status <= 504
    case Threw(retryable) => retryable
  }

  lemma {:induction false} JudgeExactly(o: Outcome, i: nat, budget: nat)
    ensures Judge(o, i, budget) == Again <==> WorthRetrying(o) && i != budget
    ensures Judge(o, i, budget) == Record(true) <==> Succeeded(o)
  {
  }

  /** The longest delay after attempt `i`; with full jitter any delay from zero up to it is possible. */
  function DelayCap(cfg: Config, i: nat): nat {
    cfg.baseDelayMs * Pow2(if i == 0 then 0 else i - 1)
  }

  /** The total of the caps of the first `n` delays. */
  function SleepBound(cfg: Config, n: nat): nat {
    cfg.baseDelayMs * (Pow2(n) - 1)
  }

  lemma {:induction false} SleepBoundStep(cfg: Config, n: nat)
    ensures SleepBound(cfg, n + 1) == SleepBound(cfg, n) + DelayCap(cfg, n + 1)
  {
    calc {
      SleepBound(cfg, n + 1);
      cfg.baseDelayMs * ((Pow2(n) - 1) + Pow2(n));
      cfg.baseDelayMs * (Pow2(n) - 1) + cfg.baseDelayMs * Pow2(n);
    }
  }

  lemma {:induction false} SleepBoundMonotone(cfg: Config, m: nat, n: nat)
    requires m <= n
    ensures SleepBound(cfg, m) <= SleepBound(cfg, n)
    decreases n - m
  {
    if m < n {
      SleepBoundStep(cfg, m);
      SleepBoundMonotone(cfg, m + 1, n);
    }
  }

  /** Other calls may use the breaker while this one is suspended. */
  method Suspend(circuit: CircuitBreaker)
    modifies circuit
  {
  }

  datatype ExecuteResult = Rejected | Finished(success: bool, attempts: nat, slept: nat)

  /** One call.  `outcomes(i)` and `delays(i)` are how attempt `i` settles and the jittered delay
      after it; the clock readings of admission and recording are parameters.  `seen` is the
      breaker as the last step of the call found it, and `records` counts the outcomes recorded. */
  method Execute(circuit: CircuitBreaker, outcomes: nat -> Outcome, delays: nat -> nat,
    enterNow: int, stateNow: int, recordNow: int, pruneNow: int)
    returns (r: ExecuteResult, ghost seen: Breaker, ghost records: nat)
    requires circuit.config.maxAttempts >= 1
    requires forall i :: delays(i) <= DelayCap(circuit.config, i)
    modifies circuit
    ensures var (entered, admitted) := EnterSpec(circuit.config, old(circuit.Value()), enterNow);
      var budget := if entered.state == HalfOpen then 1 else circuit.config.maxAttempts;
      if !admitted then r == Rejected && circuit.Value() == entered && records == 0
      else
        && r.Finished? && records == 1 && 1 <= r.attempts <= budget
        && Judge(outcomes(r.attempts), r.attempts, budget) == Record(r.success)
        && (forall i :: 1 <= i < r.attempts ==> Judge(outcomes(i), i, budget) == Again)
        && (r.success <==> Succeeded(outcomes(r.attempts)))
        && (WorthRetrying(outcomes(r.attempts)) ==> r.attempts == budget)
        && (forall i :: 1 <= i < r.attempts ==> WorthRetrying(outcomes(i)))
        && r.slept <= SleepBound(circuit.config, r.attempts - 1) <= SleepBound(circuit.config, budget - 1)
        && circuit.Value() == LeaveSpec(if r.success then SuccessSpec(circuit.config, seen, recordNow)
                                        else FailureSpec(circuit.config, seen, recordNow, pruneNow))
  {
    hide SleepBound, DelayCap, After, FailureSpec, SuccessSpec;
    records := 0;
    var admitted := circuit.Enter(enterNow);
    seen := circuit.Value();
    if !admitted {
      return Rejected, seen, records;
    }
    var state := circuit.GetState(stateNow);
    var budget := if state == HalfOpen then 1 else circuit.config.maxAttempts;
    var slept := 0;
    var i := 1;
    while i <= budget
      invariant 1 <= i <= budget
      invariant records == 0
      invariant forall k :: 1 <= k < i ==> Judge(outcomes(k), k, budget) == Again
      invariant slept <= SleepBound(circuit.config, i - 1)
      decreases budget - i
    {
      Suspend(circuit);
      var outcome := outcomes(i);
      var done, success := false, false;
      match outcome {
        case Response(status) =>
          if (200 <= status < 300) || !IsRetryableHttpStatus(status) {
            done, success := true, status < 500;
          } else if i == budget {
            done := true;
          }
        case Threw(retryable) =>
          if !retryable || i == budget {
            done := true;
          }
      }
      if done {
        seen := circuit.Value();
        if success {
          circuit.RecordSuccess(recordNow);
        } else {
          circuit.RecordFailure(recordNow, pruneNow);
        }
        records := records + 1;
        circuit.Leave();
        SleepBoundMonotone(circuit.config, i - 1, budget - 1);
        return Finished(success, i, slept), seen, records;
      }
      SleepBoundStep(circuit.config, i - 1);
      var delay := delays(i);
      if delay > 0 {
        slept := slept + delay;
        Suspend(circuit);
      }
      i := i + 1;
    }
    assert false;
    r := Rejected;
  }
}
