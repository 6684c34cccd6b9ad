/** The leader lease over a compare-and-set store (`libs/coordination/src/leader-lease.ts`,
    `libs/coordination/src/lease-store.ts`, and the scripts of `redis.client.ts`).

    A store operation is one atomic step on the entry of one key, here called its cell.  What a
    replica does between two awaits is one step too.  The functions are those steps; the classes
    update their fields in place and are tied to the functions. */
module LeaderLeasing {
  import opened Core

  datatype Entry = Entry(value: string, expiresAt: int)

  type Cell = Option<Entry>

  // ----- the store -----

  function Purge(cell: Cell, now: int): Cell {
    if cell.Some? && cell.value.expiresAt <= now then None else cell
  }

  predicate Names(cell: Cell, value: string) { cell.Some? && cell.value.value == value }

  function SetNx(cell: Cell, value: string, now: int, expiresAt: int): (Cell, bool) {
    var c := Purge(cell, now);
    if c.Some? then (c, false) else (Some(Entry(value, expiresAt)), true)
  }

  function ExpireIf(cell: Cell, value: string, now: int, expiresAt: int): (Cell, bool) {
    var c := Purge(cell, now);
    if Names(c, value) then (Some(Entry(value, expiresAt)), true) else (c, false)
  }

  function DelIf(cell: Cell, value: string, now: int): (Cell, bool) {
    var c := Purge(cell, now);
    if Names(c, value) then (None, true) else (c, false)
  }

  function CellAt(keys: map<string, Entry>, key: string): Cell {
    if key in keys then Some(keys[key]) else None
  }

  function WithCell(keys: map<string, Entry>, key: string, cell: Cell): map<string, Entry> {
    if cell.Some? then keys[key := cell.value] else keys - {key}
  }

  predicate LiveIn(keys: map<string, Entry>, key: string, now: int) { key in keys && keys[key].expiresAt > now }

  /** The in-process store.  `now` is the clock reading of the purge, `then` the one that the new
      expiry time is counted from. */
  class MemoryLeaseStore {
    var keys: map<string, Entry>

    constructor ()
      ensures keys == map[]
    {
      keys := map[];
    }

    method PurgeKey(key: string, now: int)
      modifies this
      ensures keys == WithCell(old(keys), key, Purge(CellAt(old(keys), key), now))
    {
      if key in keys && keys[key].expiresAt <= now {
        keys := keys - {key};
      }
    }

    method SetNxPx(key: string, value: string, ttlMs: nat, now: int, later: int) returns (created: bool)
      modifies this
      ensures var (cell, done) := SetNx(CellAt(old(keys), key), value, now, later + ttlMs);
        keys == WithCell(old(keys), key, cell) && created == done
      ensures created <==> !LiveIn(old(keys), key, now)
      ensures keys == if created then old(keys)[key := Entry(value, later + ttlMs)] else old(keys)
    {
      PurgeKey(key, now);
      if key in keys {
        return false;
      }
      keys := keys[key := Entry(value, later + ttlMs)];
      return true;
    }

    method Get(key: string, now: int) returns (value: Option<string>)
      modifies this
      ensures var cell := Purge(CellAt(old(keys), key), now);
        && keys == WithCell(old(keys), key, cell)
        && value == if cell.Some? then Some(cell.value.value) else None
      ensures value == if LiveIn(old(keys), key, now) then Some(old(keys)[key].value) else None
      ensures keys == if LiveIn(old(keys), key, now) then old(keys) else old(keys) - {key}
    {
      PurgeKey(key, now);
      value := if key in keys then Some(keys[key].value) else None;
    }

    method ExpireIfValue(key: string, value: string, ttlMs: nat, now: int, later: int) returns (renewed: bool)
      modifies this
      ensures var (cell, done) := ExpireIf(CellAt(old(keys), key), value, now, later + ttlMs);
        keys == WithCell(old(keys), key, cell) && renewed == done
      ensures renewed <==> LiveIn(old(keys), key, now) && old(keys)[key].value == value
      ensures renewed ==> keys == old(keys)[key := Entry(value, later + ttlMs)]
      ensures !renewed ==> keys == if LiveIn(old(keys), key, now) then old(keys) else old(keys) - {key}
    {
      PurgeKey(key, now);
      if key !in keys || keys[key].value != value {
        return false;
      }
      keys := keys[key := keys[key].(expiresAt := later + ttlMs)];
      return true;
    }

    method DelIfValue(key: string, value: string, now: int) returns (deleted: bool)
      modifies this
      ensures var (cell, done) := DelIf(CellAt(old(keys), key), value, now);
        keys == WithCell(old(keys), key, cell) && deleted == done
      ensures deleted <==> LiveIn(old(keys), key, now) && old(keys)[key].value == value
      ensures keys == if LiveIn(old(keys), key, now) && !deleted then old(keys) else old(keys) - {key}
    {
      PurgeKey(key, now);
      if key !in keys || keys[key].value != value {
        return false;
      }
      keys := keys - {key};
      return true;
    }
  }

  // ----- one replica -----

  datatype Request = Renew | Acquire | Delete

  /** The answer to a request, or the exception it ends in. */
  datatype Reply = Yes | No | Failed

  /** What `tryHold` does next: send another request, or return. */
  datatype Next = Send(request: Request) | Return(result: bool)

  function BeginHold(held: bool): Request { if held then Renew else Acquire }

  /** The part of `tryHold` that runs when the reply to its request is there. */
  function OnReply(held: bool, request: Request, reply: Reply): (bool, Next) {
    match reply
    case Yes => (held || request == Acquire, Return(true))
    case No => (false, if request == Renew then Send(Acquire) else Return(false))
    case Failed => (false, Return(false))
  }

  /** The atomic step of the store for a request. */
  function Exec(cell: Cell, request: Request, holder: string, ttl: nat, now: int): (Cell, bool) {
    match request
    case Acquire => SetNx(cell, holder, now, now + ttl)
    case Renew => ExpireIf(cell, holder, now, now + ttl)
    case Delete => DelIf(cell, holder, now)
  }

  /** What becomes of a request on its way to the store and back. */
  datatype Transport = Answered | LostBefore | LostAfter

  /** A request as the store and the replica saw it. */
  datatype Exchange = Exchange(request: Request, now: int, before: Cell, after: Cell, reply: Reply, heldThen: bool)

  ghost predicate Faithful(holder: string, ttl: nat, x: Exchange) {
    var (cell, done) := Exec(x.before, x.request, holder, ttl, x.now);
    || (x.after == cell && x.reply == if done then Yes else No)
    || (x.reply == Failed && (x.after == x.before || x.after == cell))
  }

  class LeaderLease {
    const key: string
    const holderId: string
    const ttlMs: nat
    const store: MemoryLeaseStore
    var held: bool

    constructor (store: MemoryLeaseStore, key: string, holderId: string, ttlMs: nat)
      ensures this.store == store && this.key == key && this.holderId == holderId && this.ttlMs == ttlMs && !held
    {
      this.store, this.key, this.holderId, this.ttlMs, held := store, key, holderId, ttlMs, false;
    }

    /** Awaiting: other calls on this lease and other replicas run. */
    method Suspend()
      modifies this, store
    {
    }

    /** One request to the store and back. */
    method Ask(request: Request, now: int, transport: Transport) returns (reply: Reply, ghost x: Exchange)
      modifies this, store
      ensures x.request == request && x.reply == reply && x.heldThen == held
      ensures Faithful(holderId, ttlMs, x)
    {
      Suspend();
      ghost var before := CellAt(store.keys, key);
      var done := false;
      if transport != LostBefore {
        match request
        case Acquire => done := store.SetNxPx(key, holderId, ttlMs, now, now);
        case Renew => done := store.ExpireIfValue(key, holderId, ttlMs, now, now);
        case Delete => done := store.DelIfValue(key, holderId, now);
      }
      ghost var after := CellAt(store.keys, key);
      reply := if transport != Answered then Failed else if done then Yes else No;
      Suspend();
      x := Exchange(request, now, before, after, reply, held);
    }

    /** Acquires or renews.  One request is sent, and a second one, to acquire, only when a renewal is
        refused; the result is that of the last reply, and so is what the replica then believes. */
    method TryHold(nows: (int, int), transports: (Transport, Transport)) returns (result: bool, ghost xs: seq<Exchange>)
      modifies this, store
      ensures 1 <= |xs| <= 2 && xs[0].request == BeginHold(old(held))
      ensures forall x :: x in xs ==> Faithful(holderId, ttlMs, x)
      ensures |xs| == 2 <==> OnReply(xs[0].heldThen, xs[0].request, xs[0].reply).1 == Send(Acquire)
      ensures |xs| == 2 ==> xs[1].request == Acquire
      ensures var last := xs[|xs| - 1]; (held, Return(result)) == OnReply(last.heldThen, last.request, last.reply)
      ensures xs[0].request == if old(held) then Renew else Acquire
      ensures |xs| == 2 <==> xs[0].request == Renew && xs[0].reply == No
      ensures var last := xs[|xs| - 1];
        (result <==> last.reply == Yes) && (held <==> last.reply == Yes && (last.request == Acquire || last.heldThen))
    {
      var reply;
      ghost var x;
      if held {
        reply, x := Ask(Renew, nows.0, transports.0);
        xs := [x];
        if reply == Failed {
          held := false;
          return false, xs;
        }
        if reply == Yes {
          return true, xs;
        }
        held := false;
        reply, x := Ask(Acquire, nows.1, transports.1);
        xs := xs + [x];
      } else {
        reply, x := Ask(Acquire, nows.0, transports.0);
        xs := [x];
      }
      if reply == Yes {
        held := true;
        return true, xs;
      }
      held := false;
      return false, xs;
    }

    /** Gives the lease up; nothing is sent by a replica that does not think it holds, and the others no
        longer think so by the time they send: `heldWhenSent` is what the replica believes then. */
    method Release(now: int, transport: Transport) returns (ghost xs: seq<Exchange>, ghost heldWhenSent: bool)
      modifies this, store
      ensures !heldWhenSent
      ensures |xs| == (if old(held) then 1 else 0)
      ensures forall x :: x in xs ==> x.request == Delete && Faithful(holderId, ttlMs, x) && x.heldThen == held
      ensures !old(held) ==> !held && store.keys == old(store.keys)
    {
      var wasHeld := held;
      held := false;
      heldWhenSent := held;
      if !wasHeld {
        return [], heldWhenSent;
      }
      ghost var x;
      var reply;
      reply, x := Ask(Delete, now, transport);
      return [x], heldWhenSent;
    }
  }
}
