/** Discovery syncs (`apps/asset-service/src/connectors/discovery-scheduler.service.ts`): what a
    connector yields is upserted, and what it no longer yields is archived. */
module Reconciliation {
  import opened Core
  import opened Inventory
  import opened Pager

  datatype Integration = Integration(id: string, orgId: string, provider: string)

  /** How a step against the database or the bus ends: done, with the clock reading it used; an
      exception before anything was committed; or an exception after the commit. */
  datatype Step = Done(at: int) | LostBefore | LostAfter(at: int)

  predicate Committed(s: Step) { !s.LostBefore? }

  /** Everything one sync meets: whether its provider has a connector and its credential loads, what
      the connector yields and how it ends, and how each of its own steps ends. */
  datatype Env = Env(hasConnector: bool, startedAt: int, credentialOk: bool, stream: Stream<Asset>,
    upserts: seq<Step>, archive: Step, finish: Step, report: Step)

  /** There is a step for everything that is yielded. */
  predicate Fits(env: Env) { |env.upserts| == |env.stream.items| }

  /** `Rejected` is the exception that leaves the sync when not even the error can be recorded. */
  datatype SyncResult = Synced(upserted: nat, archived: nat) | NoConnector | SyncError | Rejected

  // ----- what a sync writes -----

  /** How many of the upserts end normally before the first that does not. */
  function Stored(steps: seq<Step>): (n: nat)
    ensures n <= |steps| && (forall i :: 0 <= i < n ==> steps[i].Done?) && (n < |steps| ==> !steps[n].Done?)
  {
    if steps == [] || !steps[0].Done? then 0 else 1 + Stored(steps[1..])
  }

  function UpsertOf(g: Integration, env: Env, i: nat): Write
    requires i < |env.stream.items| && Fits(env) && Committed(env.upserts[i])
  {
    Upsert(g.orgId, env.stream.items[i], Some(g.id), env.upserts[i].at)
  }

  function UpsertsUpTo(g: Integration, env: Env, n: nat): (ws: seq<Write>)
    requires Fits(env) && n <= |env.upserts| && forall i :: 0 <= i < n ==> Committed(env.upserts[i])
    ensures |ws| == n && forall i :: 0 <= i < n ==> ws[i] == UpsertOf(g, env, i)
  {
    if n == 0 then [] else UpsertsUpTo(g, env, n - 1) + [UpsertOf(g, env, n - 1)]
  }

  /** How many yielded assets reach the table. */
  function Reached(env: Env): (n: nat)
    requires Fits(env)
    ensures n <= |env.upserts| && forall i :: 0 <= i < n ==> Committed(env.upserts[i])
  {
    var n := Stored(env.upserts);
    if !env.hasConnector || !env.credentialOk then 0
    else if n < |env.upserts| && Committed(env.upserts[n]) then n + 1
    else n
  }

  /** The connector ended normally and all it yielded was stored. */
  predicate ListedAndStored(env: Env) {
    && env.hasConnector && env.credentialOk && env.stream.completes
    && forall i :: 0 <= i < |env.upserts| ==> env.upserts[i].Done?
  }

  predicate Archives(env: Env) { ListedAndStored(env) && Committed(env.archive) }

  predicate Succeeds(env: Env) { ListedAndStored(env) && env.archive.Done? && env.finish.Done? }

  function Writes(g: Integration, env: Env): seq<Write>
    requires Fits(env)
  {
    UpsertsUpTo(g, env, Reached(env))
    + if Archives(env) then [Archive(g.orgId, g.provider, env.startedAt, g.id, env.archive.at)] else []
  }

  function After(t: Table, g: Integration, env: Env): Table
    requires Fits(env)
  {
    Run(t, Writes(g, env))
  }

  /** The table when the last upsert of a sync is done. */
  function Upserted(t: Table, g: Integration, env: Env): Table
    requires Fits(env)
  {
    Run(t, UpsertsUpTo(g, env, Reached(env)))
  }

  lemma {:induction false} AfterIs(t: Table, g: Integration, env: Env)
    requires Fits(env)
    ensures After(t, g, env) ==
      if Archives(env) then ArchiveIn(Upserted(t, g, env), g.orgId, g.provider, env.startedAt, g.id, env.archive.at)
      else Upserted(t, g, env)
  {
    var ws := UpsertsUpTo(g, env, Reached(env));
    if Archives(env) {
      RunAppend(t, ws, Archive(g.orgId, g.provider, env.startedAt, g.id, env.archive.at));
    } else {
      assert ws + [] == ws;
    }
  }

  lemma {:induction false} NoWrites(t: Table)
    ensures Run(t, []) == t
  {
  }

  lemma {:induction false} NothingWritten(t: Table, g: Integration, env: Env)
    requires Fits(env) && !(env.hasConnector && env.credentialOk)
    ensures After(t, g, env) == t
  {
    assert Writes(g, env) == [];
  }

  function ResultOf(t: Table, g: Integration, env: Env): SyncResult
    requires Fits(env)
  {
    if !env.hasConnector then NoConnector
    else if Succeeds(env) then
      Synced(|env.stream.items|, |StaleIds(Upserted(t, g, env), g.orgId, g.provider, env.startedAt, g.id)|)
    else if env.report.Done? then SyncError
    else Rejected
  }

  /** What is recorded about an integration's last sync. */
  datatype Status = Status(lastSyncAt: Option<int>, failed: bool)

  function StatusAfter(s: Status, env: Env): Status
    requires Fits(env)
  {
    var finished := if ListedAndStored(env) && env.archive.Done? && Committed(env.finish) then Status(Some(env.startedAt), false) else s;
    if env.hasConnector && !Succeeds(env) && Committed(env.report) then finished.(failed := true) else finished
  }

  class DiscoveryScheduler {
    const assets: AssetsService
    var status: map<string, Status>

    constructor (assets: AssetsService)
      ensures this.assets == assets && status == map[]
    {
      this.assets, status := assets, map[];
    }

    /** The loop over what the connector yields; `ok` is whether it ends without an exception. */
    method UpsertAll(g: Integration, env: Env) returns (ok: bool, upserted: nat)
      requires Fits(env) && env.hasConnector && env.credentialOk
      modifies assets
      ensures assets.rows == Upserted(old(assets.rows), g, env)
      ensures ok == ListedAndStored(env) && (ok ==> upserted == |env.stream.items|)
    {
      hide Run, UpsertInto;
      upserted := 0;
      NoWrites(old(assets.rows));
      while upserted < |env.stream.items| && env.upserts[upserted].Done?
        invariant upserted <= Stored(env.upserts)
        invariant assets.rows == Run(old(assets.rows), UpsertsUpTo(g, env, upserted))
      {
        RunAppend(old(assets.rows), UpsertsUpTo(g, env, upserted), UpsertOf(g, env, upserted));
        var _ := assets.UpsertAsset(g.orgId, env.stream.items[upserted], Some(g.id), env.upserts[upserted].at);
        upserted := upserted + 1;
      }
      if upserted < |env.stream.items| {
        if Committed(env.upserts[upserted]) {
          RunAppend(old(assets.rows), UpsertsUpTo(g, env, upserted), UpsertOf(g, env, upserted));
          var _ := assets.UpsertAsset(g.orgId, env.stream.items[upserted], Some(g.id), env.upserts[upserted].at);
        }
        return false, upserted;
      }
      return env.stream.completes, upserted;
    }

    method SyncIntegration(g: Integration, env: Env) returns (r: SyncResult)
      requires Fits(env) && g.id in status
      modifies this, assets
      ensures assets.rows == After(old(assets.rows), g, env)
      ensures r == ResultOf(old(assets.rows), g, env)
      ensures status == old(status)[g.id := StatusAfter(old(status)[g.id], env)]
    {
      hide Run, UpsertsUpTo, ArchiveIn, StaleIds;
      AfterIs(old(assets.rows), g, env);
      if !env.hasConnector {
        NothingWritten(old(assets.rows), g, env);
        return NoConnector;
      }
      var ok, upserted, archived := env.credentialOk, 0, 0;
      if ok {
        ok, upserted := UpsertAll(g, env);
      } else {
        NothingWritten(old(assets.rows), g, env);
      }
      if ok {
        if Committed(env.archive) {
          archived := assets.ArchiveStale(g.orgId, g.provider, env.startedAt, g.id, env.archive.at);
        }
        ok := env.archive.Done?;
        if ok {
          if Committed(env.finish) {
            status := status[g.id := Status(Some(env.startedAt), false)];
          }
          ok := env.finish.Done?;
        }
      }
      if ok {
        return Synced(upserted, archived);
      }
      if Committed(env.report) {
        status := status[g.id := status[g.id].(failed := true)];
      }
      return if env.report.Done? then SyncError else Rejected;
    }
  }
}
