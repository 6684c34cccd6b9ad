/** The in-process circuit breaker (`libs/resilience/src/circuit-breaker.ts`).

    The functions are the transitions of a breaker value; the class updates its fields in place
    and is tied to them.  A clock reading is a parameter; an operation that reads the clock twice
    takes both readings. */
module CircuitBreaking {

  datatype State = Closed | Open | HalfOpen

  /** The operator's settings; only the bounds the results need are required of them. */
  datatype Config = Config(failureThreshold: nat, windowMs: nat, cooldownMs: nat, maxAttempts: nat, baseDelayMs: nat)

  predicate InBounds(cfg: Config) {
    && 1 <= cfg.failureThreshold <= 100 && 100 <= cfg.windowMs <= 600_000 && 100 <= cfg.cooldownMs <= 600_000
    && 1 <= cfg.maxAttempts <= 8 && 1 <= cfg.baseDelayMs <= 10_000
  }

  datatype Breaker = Breaker(state: State, failures: seq<int>, openedAt: int, probeInFlight: bool)

  const Fresh := Breaker(Closed, [], 0, false)

  /** The timestamps later than the cutoff, in order. */
  function After(times: seq<int>, cutoff: int): (r: seq<int>)
    ensures forall t :: multiset(r)[t] == if t > cutoff then multiset(times)[t] else 0
  {
    if times == [] then []
    else
      assert multiset(times) == multiset(times[..|times| - 1]) + multiset{times[|times| - 1]} by {
        assert times == times[..|times| - 1] + [times[|times| - 1]];
      }
      var rest := After(times[..|times| - 1], cutoff);
      if times[|times| - 1] > cutoff then rest + [times[|times| - 1]] else rest
  }

  function Cool(cfg: Config, b: Breaker, now: int): Breaker {
    if b.state == Open && now - b.openedAt >= cfg.cooldownMs then b.(state := HalfOpen) else b
  }

  /** Whether a call is admitted once the cooldown has been looked at. */
  predicate Admits(b: Breaker) {
    b.state == Closed || (b.state == HalfOpen && !b.probeInFlight)
  }

  function EnterSpec(cfg: Config, b: Breaker, now: int): (Breaker, bool) {
    var c := Cool(cfg, b, now);
    (if c.state == HalfOpen then c.(probeInFlight := true) else c, Admits(c))
  }

  function LeaveSpec(b: Breaker): Breaker { b.(probeInFlight := false) }

  function Prune(cfg: Config, b: Breaker, now: int): Breaker {
    b.(failures := After(b.failures, now - cfg.windowMs))
  }

  function OpenAt(b: Breaker, now: int): Breaker { b.(state := Open, openedAt := now, failures := []) }

  function SuccessSpec(cfg: Config, b: Breaker, now: int): Breaker {
    if b.state != Closed then b.(state := Closed, failures := []) else Prune(cfg, b, now)
  }

  function FailureSpec(cfg: Config, b: Breaker, now: int, pruneNow: int): Breaker {
    if b.state == HalfOpen then OpenAt(b, now)
    else
      var pruned := Prune(cfg, b, pruneNow);
      var pushed := pruned.(failures := pruned.failures + [now]);
      if |pushed.failures| >= cfg.failureThreshold then OpenAt(pushed, now) else pushed
  }

  class CircuitBreaker {
    const config: Config
    var current: State
    var failures: seq<int>
    var openedAt: int
    var probeInFlight: bool

    function Value(): Breaker
      reads this
    {
      Breaker(current, failures, openedAt, probeInFlight)
    }

    constructor (config: Config)
      ensures this.config == config && Value() == Fresh
    {
      this.config := config;
      current, failures, openedAt, probeInFlight := Closed, [], 0, false;
    }

    method TransitionIfCooldownElapsed(now: int)
      modifies this
      ensures Value() == Cool(config, old(Value()), now)
    {
      if current == Open && now - openedAt >= config.cooldownMs {
        current := HalfOpen;
      }
    }

    method GetState(now: int) returns (state: State)
      modifies this
      ensures Value() == Cool(config, old(Value()), now) && state == Value().state
    {
      TransitionIfCooldownElapsed(now);
      state := current;
    }

    /** Admits the call, or rejects it where the original throws. */
    method Enter(now: int) returns (admitted: bool)
      modifies this
      ensures (Value(), admitted) == EnterSpec(config, old(Value()), now)
      ensures var cooled := old(current) == Open && now - old(openedAt) >= config.cooldownMs;
        && (admitted <==> old(current) == Closed || ((old(current) == HalfOpen || cooled) && !old(probeInFlight)))
        && current == (if cooled then HalfOpen else old(current))
        && probeInFlight == (old(probeInFlight) || current == HalfOpen)
        && failures == old(failures) && openedAt == old(openedAt)
    {
      TransitionIfCooldownElapsed(now);
      if current == Open {
        return false;
      }
      if current == HalfOpen {
        if probeInFlight {
          return false;
        }
        probeInFlight := true;
      }
      return true;
    }

    method Leave()
      modifies this
      ensures Value() == LeaveSpec(old(Value()))
    {
      probeInFlight := false;
    }

    method PruneFailures(now: int)
      modifies this
      ensures Value() == Prune(config, old(Value()), now)
    {
      var cutoff := now - config.windowMs;
      if |failures| == 0 {
        return;
      }
      failures := After(failures, cutoff);
    }

    method OpenCircuit(now: int)
      modifies this
      ensures Value() == OpenAt(old(Value()), now)
    {
      current := Open;
      openedAt := now;
      failures := [];
    }

    method RecordSuccess(now: int)
      modifies this
      ensures Value() == SuccessSpec(config, old(Value()), now)
      ensures current == Closed && openedAt == old(openedAt) && probeInFlight == old(probeInFlight)
      ensures failures == if old(current) == Closed then After(old(failures), now - config.windowMs) else []
    {
      if current == HalfOpen || current == Open {
        current := Closed;
        failures := [];
        return;
      }
      PruneFailures(now);
    }

    method RecordFailure(now: int, pruneNow: int)
      modifies this
      ensures Value() == FailureSpec(config, old(Value()), now, pruneNow)
      ensures var recent := After(old(failures), pruneNow - config.windowMs);
        var opens := old(current) == HalfOpen || |recent| + 1 >= config.failureThreshold;
        && current == (if opens then Open else old(current))
        && openedAt == (if opens then now else old(openedAt))
        && failures == (if opens then [] else recent + [now])
        && probeInFlight == old(probeInFlight)
    {
      if current == HalfOpen {
        OpenCircuit(now);
        return;
      }
      PruneFailures(pruneNow);
      failures := failures + [now];
      if |failures| >= config.failureThreshold {
        OpenCircuit(now);
      }
    }
  }
}
