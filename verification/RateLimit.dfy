/** The shared token bucket (`libs/coordination/src/rate-limit-store.ts`) and the Redis script that
    stands for it in production (`libs/coordination/src/redis.client.ts`).

    One call is one atomic step on the bucket of its key.  Keys expire in Redis at the instant at
    which the in-process store drops them. */
module RateLimiting {
  /** A bucket; in Redis, the number stored under the key and the instant the key expires. */
  datatype Bucket = Bucket(tokens: int, expiresAt: int)

  type Buckets = map<string, Bucket>

  datatype Call = Call(key: string, capacity: int, windowMs: int, now: int)

  predicate Live(keys: Buckets, key: string, now: int) {
    key in keys && keys[key].expiresAt > now
  }

  // ----- one call -----

  /** The in-process store's step, with the instant at which a new bucket will expire. */
  function Consume(keys: Buckets, key: string, capacity: int, now: int, expiresAt: int): (Buckets, int) {
    var b := if Live(keys, key, now) then keys[key] else Bucket(capacity, expiresAt);
    if b.tokens <= 0 then (keys[key := b], -1)
    else (keys[key := b.(tokens := b.tokens - 1)], b.tokens - 1)
  }

  class MemoryRateLimitStore {
    var keys: Buckets

    constructor ()
      ensures keys == map[]
    {
      keys := map[];
    }

    method Purge(key: string, now: int)
      modifies this
      ensures keys == if key in old(keys) && !Live(old(keys), key, now) then old(keys) - {key} else old(keys)
    {
      if key in keys && keys[key].expiresAt <= now {
        keys := keys - {key};
      }
    }

    /** Takes a token; `now` is the clock reading of the purge and `later` the one a new bucket's
        window is counted from. */
    method Take(key: string, capacity: int, windowMs: int, now: int, later: int) returns (left: int)
      modifies this
      ensures var (after, result) := Consume(old(keys), key, capacity, now, later + windowMs);
        keys == after && left == result
      ensures var before := if key in old(keys) && old(keys)[key].expiresAt > now then old(keys)[key] else Bucket(capacity, later + windowMs);
        && left == (if before.tokens > 0 then before.tokens - 1 else -1)
        && keys == old(keys)[key := if before.tokens > 0 then before.(tokens := left) else before]
    {
      Purge(key, now);
      var bucket;
      if key in keys {
        bucket := keys[key];
      } else {
        bucket := Bucket(capacity, later + windowMs);
        keys := keys[key := bucket];
      }
      if bucket.tokens <= 0 {
        return -1;
      }
      bucket := bucket.(tokens := bucket.tokens - 1);
      keys := keys[key := bucket];
      assert keys == old(keys)[key := bucket];
      return bucket.tokens;
    }
  }

  function MemoryStep(keys: Buckets, c: Call): (Buckets, int) {
    Consume(keys, c.key, c.capacity, c.now, c.now + c.windowMs)
  }

  /** The Redis script. */
  function RedisStep(keys: Buckets, c: Call): (Buckets, int) {
    if !Live(keys, c.key, c.now) then (keys[c.key := Bucket(c.capacity - 1, c.now + c.windowMs)], c.capacity - 1)
    else
      var b := keys[c.key];
      if b.tokens <= 0 then (keys, -1) else (keys[c.key := b.(tokens := b.tokens - 1)], b.tokens - 1)
  }

  // ----- any sequence of calls, from any number of replicas -----

  function MemoryRun(keys: Buckets, calls: seq<Call>): (results: seq<int>)
    ensures |results| == |calls|
    decreases |calls|
  {
    if calls == [] then [] else [MemoryStep(keys, calls[0]).1] + MemoryRun(MemoryStep(keys, calls[0]).0, calls[1..])
  }

  function RedisRun(keys: Buckets, calls: seq<Call>): (results: seq<int>)
    ensures |results| == |calls|
    decreases |calls|
  {
    if calls == [] then [] else [RedisStep(keys, calls[0]).1] + RedisRun(RedisStep(keys, calls[0]).0, calls[1..])
  }

  function RedisAfter(keys: Buckets, calls: seq<Call>): Buckets
    decreases |calls|
  {
    if calls == [] then keys else RedisAfter(RedisStep(keys, calls[0]).0, calls[1..])
  }

  function Positive(n: int): nat { if n > 0 then n else 0 }

  /** The two stores hold the same keys until the same instants, and the same usable tokens. */
  ghost predicate Related(memory: Buckets, redis: Buckets) {
    && memory.Keys == redis.Keys
    && forall k :: k in memory ==>
         memory[k].expiresAt == redis[k].expiresAt && Positive(memory[k].tokens) == Positive(redis[k].tokens)
  }

  lemma {:induction false} StepsAgree(memory: Buckets, redis: Buckets, c: Call)
    requires Related(memory, redis)
    ensures Related(MemoryStep(memory, c).0, RedisStep(redis, c).0)
    ensures MemoryStep(memory, c).1 == RedisStep(redis, c).1 <==> c.capacity >= 0 || Live(redis, c.key, c.now)
  {
  }

  /** From related stores, call `i` of any sequence returns the same from both exactly when its
      capacity is not negative or its bucket is live. */
  lemma {:induction false} RedisRefined(memory: Buckets, redis: Buckets, calls: seq<Call>, i: nat)
    requires Related(memory, redis) && i < |calls|
    ensures MemoryRun(memory, calls)[i] == RedisRun(redis, calls)[i]
       <==> calls[i].capacity >= 0 || Live(RedisAfter(redis, calls[..i]), calls[i].key, calls[i].now)
    decreases i
  {
    StepsAgree(memory, redis, calls[0]);
    if i > 0 {
      RedisRefined(MemoryStep(memory, calls[0]).0, RedisStep(redis, calls[0]).0, calls[1..], i - 1);
      assert calls[..i][1..] == calls[1..][..i - 1];
    } else {
      assert calls[..0] == [];
    }
  }

  /** With capacities that are not negative the two stores are interchangeable from the start. */
  lemma {:induction false} StoresInterchangeable(calls: seq<Call>)
    requires forall i :: 0 <= i < |calls| ==> calls[i].capacity >= 0
    ensures MemoryRun(map[], calls) == RedisRun(map[], calls)
  {
    forall i: nat | i < |calls|
      ensures MemoryRun(map[], calls)[i] == RedisRun(map[], calls)[i]
    {
      RedisRefined(map[], map[], calls, i);
    }
  }

  // ----- how many calls are admitted -----

  /** The number of calls for `key` made from `from` to `to`, both included, that got a token. */
  function Admissions(calls: seq<Call>, results: seq<int>, key: string, from: int, to: int): nat
    requires |calls| == |results|
  {
    if calls == [] then 0
    else (if calls[0].key == key && from <= calls[0].now <= to && results[0] >= 0 then 1 else 0)
         + Admissions(calls[1..], results[1..], key, from, to)
  }

  /** Calls in the order of the store's clock, not before `start`, with one setting for `key`. */
  ghost predicate Regular(calls: seq<Call>, key: string, capacity: nat, windowMs: nat, start: int) {
    && (forall i :: 0 <= i < |calls| ==> start <= calls[i].now)
    && (forall i, j :: 0 <= i < j < |calls| ==> calls[i].now <= calls[j].now)
    && (forall i :: 0 <= i < |calls| && calls[i].key == key ==>
          calls[i].capacity == capacity && calls[i].windowMs == windowMs)
  }

  /** What new buckets can still admit in `[from, from + windowMs]` when the first is made at `start`
      or later. */
  function FreshBound(capacity: nat, windowMs: nat, from: int, start: int): nat {
    if start > from + windowMs then 0 else if start > from then capacity else 2 * capacity
  }

  /** The same for a store as it is at `start`. */
  function Bound(keys: Buckets, key: string, capacity: nat, windowMs: nat, from: int, start: int): nat {
    if start > from + windowMs then 0
    else if !Live(keys, key, start) then FreshBound(capacity, windowMs, from, start)
    else
      (if keys[key].expiresAt > from then Positive(keys[key].tokens) else 0)
      + FreshBound(capacity, windowMs, from, keys[key].expiresAt)
  }

  lemma {:induction false} BoundStep(keys: Buckets, c: Call, key: string, capacity: nat, windowMs: nat, from: int, start: int)
    requires windowMs > 0 && start <= c.now && (c.key == key ==> c.capacity == capacity && c.windowMs == windowMs)
    requires key in keys ==> keys[key].tokens <= capacity
    ensures var (keys', left) := MemoryStep(keys, c);
      && (key in keys' ==> keys'[key].tokens <= capacity)
      && Bound(keys', key, capacity, windowMs, from, c.now)
         + (if c.key == key && from <= c.now <= from + windowMs && left >= 0 then 1 else 0)
         <= Bound(keys, key, capacity, windowMs, from, start)
  {
  }

  lemma {:induction false} AdmissionsBounded(keys: Buckets, calls: seq<Call>, key: string, capacity: nat, windowMs: nat,
      from: int, start: int)
    requires windowMs > 0 && Regular(calls, key, capacity, windowMs, start)
    requires key in keys ==> keys[key].tokens <= capacity
    ensures Admissions(calls, MemoryRun(keys, calls), key, from, from + windowMs)
         <= Bound(keys, key, capacity, windowMs, from, start)
    decreases |calls|
  {
    hide Bound;
    if calls != [] {
      BoundStep(keys, calls[0], key, capacity, windowMs, from, start);
      AdmissionsBounded(MemoryStep(keys, calls[0]).0, calls[1..], key, capacity, windowMs, from, calls[0].now);
    }
  }

  /** Over all replicas together, any closed interval as long as the window sees at most twice the
      capacity in admissions for a key, in both stores. */
  lemma {:induction false} AtMostTwiceCapacity(calls: seq<Call>, key: string, capacity: nat, windowMs: nat, from: int, start: int)
    requires windowMs > 0 && Regular(calls, key, capacity, windowMs, start)
    requires forall i :: 0 <= i < |calls| ==> calls[i].capacity >= 0
    ensures Admissions(calls, MemoryRun(map[], calls), key, from, from + windowMs) <= 2 * capacity
    ensures Admissions(calls, RedisRun(map[], calls), key, from, from + windowMs) <= 2 * capacity
  {
    AdmissionsBounded(map[], calls, key, capacity, windowMs, from, start);
    StoresInterchangeable(calls);
  }

  /** While a bucket lives it serves exactly as many calls as it has tokens for. */
  lemma {:induction false} BucketServes(keys: Buckets, calls: seq<Call>, key: string, from: int, to: int)
    requires key in keys && to < keys[key].expiresAt
    requires forall i :: 0 <= i < |calls| ==> from <= calls[i].now <= to
    ensures Admissions(calls, MemoryRun(keys, calls), key, from, to)
         == Least(CallsFor(calls, key), Positive(keys[key].tokens))
    decreases |calls|
  {
    if calls != [] {
      BucketServes(MemoryStep(keys, calls[0]).0, calls[1..], key, from, to);
    }
  }

  function CallsFor(calls: seq<Call>, key: string): nat {
    if calls == [] then 0 else (if calls[0].key == key then 1 else 0) + CallsFor(calls[1..], key)
  }

  function Least(a: nat, b: nat): nat { if a < b then a else b }

  /** The calls for a key that has no live bucket, from the first one until the new bucket expires:
      exactly the first `capacity` of them are admitted. */
  lemma {:induction false} NewBucketServes(keys: Buckets, calls: seq<Call>, capacity: nat, windowMs: nat, from: int, to: int)
    requires calls != [] && !Live(keys, calls[0].key, calls[0].now) && to < calls[0].now + windowMs
    requires forall i :: 0 <= i < |calls| ==> from <= calls[i].now <= to
    requires calls[0].capacity == capacity && calls[0].windowMs == windowMs
    ensures Admissions(calls, MemoryRun(keys, calls), calls[0].key, from, to)
         == Least(CallsFor(calls, calls[0].key), capacity)
  {
    BucketServes(MemoryStep(keys, calls[0]).0, calls[1..], calls[0].key, from, to);
  }

  // ----- the bound is reached -----

  function Repeat(c: Call, n: nat): (calls: seq<Call>)
    ensures |calls| == n && forall i :: 0 <= i < n ==> calls[i] == c
  {
    if n == 0 then [] else [c] + Repeat(c, n - 1)
  }

  lemma {:induction false} RepeatCalls(c: Call, n: nat)
    ensures CallsFor(Repeat(c, n), c.key) == n
  {
    if n > 0 {
      RepeatCalls(c, n - 1);
    }
  }

  lemma {:induction false} BurstThenBurst(keys: Buckets, c: Call, d: Call, n: nat)
    requires c.windowMs > 0 && d == c.(now := c.now + c.windowMs) && c.key in keys && c.capacity >= 0
    requires keys[c.key] == Bucket(n, d.now)
    ensures var calls := Repeat(c, n) + Repeat(d, c.capacity);
      Admissions(calls, MemoryRun(keys, calls), c.key, c.now, d.now) == n + c.capacity
    decreases n
  {
    var calls := Repeat(c, n) + Repeat(d, c.capacity);
    if n > 0 {
      assert calls[1..] == Repeat(c, n - 1) + Repeat(d, c.capacity);
      BurstThenBurst(MemoryStep(keys, c).0, c, d, n - 1);
    } else if c.capacity > 0 {
      assert calls == Repeat(d, c.capacity);
      NewBucketServes(keys, calls, c.capacity, c.windowMs, c.now, d.now);
      RepeatCalls(d, c.capacity);
    }
  }

  /** A burst when the bucket is made and another one when it expires: twice the capacity is
      admitted within one window, so the bound cannot be lowered. */
  lemma {:induction false} TwiceCapacityReached(key: string, capacity: nat, windowMs: nat, from: int)
    requires capacity > 0 && windowMs > 0
    ensures var c := Call(key, capacity, windowMs, from);
      var calls := Repeat(c, capacity) + Repeat(c.(now := from + windowMs), capacity);
      Admissions(calls, MemoryRun(map[], calls), key, from, from + windowMs) == 2 * capacity
  {
    var c := Call(key, capacity, windowMs, from);
    var d := c.(now := from + windowMs);
    var calls := Repeat(c, capacity) + Repeat(d, capacity);
    assert calls[1..] == Repeat(c, capacity - 1) + Repeat(d, capacity);
    BurstThenBurst(MemoryStep(map[], c).0, c, d, capacity - 1);
  }
}
