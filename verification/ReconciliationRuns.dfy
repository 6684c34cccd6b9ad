/** What syncs do to the inventory: one sync, and the sweep over all integrations
    (`apps/asset-service/src/connectors/discovery-scheduler.service.ts`). */
module ReconciliationRuns {
  import opened Core
  import opened Inventory
  import opened Pager
  import opened Reconciliation

  /** The last of the first `n` yielded assets that has this key. */
  function LastYield(items: seq<Asset>, key: string, n: nat): (r: Option<nat>)
    requires n <= |items|
    ensures r.Some? ==> r.value < n && items[r.value].externalKey == key
    ensures r.None? ==> forall i :: 0 <= i < n ==> items[i].externalKey != key
  {
    if n == 0 then None
    else if items[n - 1].externalKey == key then Some(n - 1)
    else LastYield(items, key, n - 1)
  }

  /** The last of the assets stored by a sync that is about this row. */
  function Touch(g: Integration, env: Env, n: nat, id: Id): (r: Option<nat>)
    requires Fits(env) && n <= |env.stream.items|
    ensures r.Some? ==> r.value < n
  {
    if id.orgId == g.orgId then LastYield(env.stream.items, id.externalKey, n) else None
  }

  /** A row after the upserts of a sync: as its last yield left it, or as it was. */
  lemma {:induction false} RowAfterUpserts(t: Table, g: Integration, env: Env, n: nat, id: Id)
    requires Fits(env) && n <= |env.upserts| && forall i :: 0 <= i < n ==> Committed(env.upserts[i])
    ensures var t', i := Run(t, UpsertsUpTo(g, env, n)), Touch(g, env, n, id);
      if i.None? then Find(t', id) == Find(t, id)
      else id in t' && var r, a := t'[id], env.stream.items[i.value];
        r.source == a.source && r.integrationId == Some(g.id) && r.archivedAt == None && r.lastSeenAt == env.upserts[i.value].at
  {
    hide Apply, Merge, Run;
    if n > 0 {
      RowAfterUpserts(t, g, env, n - 1, id);
      RunAppend(t, UpsertsUpTo(g, env, n - 1), UpsertOf(g, env, n - 1));
      RowAfterUpsert(Run(t, UpsertsUpTo(g, env, n - 1)), UpsertOf(g, env, n - 1), id);
    } else {
      NoWrites(t);
    }
  }

  predicate Fresh(t: Table, id: Id, w: Write)
    requires w.Upsert?
  {
    && id in t && t[id].source == w.asset.source && t[id].archivedAt == None && t[id].lastSeenAt == w.now
    && (w.integration.Some? ==> t[id].integrationId == w.integration)
  }

  lemma {:induction false} RowAfterUpsert(t: Table, w: Write, id: Id)
    requires w.Upsert?
    ensures var t' := Apply(t, w);
      if !Upserts(w, id) then Find(t', id) == Find(t, id) else Fresh(t', id, w)
  {
  }

  /** The clock of a sync's upserts does not run behind the instant the sync started. */
  predicate InOrder(env: Env) {
    forall i :: 0 <= i < |env.upserts| && Committed(env.upserts[i]) ==> env.upserts[i].at >= env.startedAt
  }

  /** What is in scope of an integration after any sync of its own, whether it succeeds or not: what
      the sync stored, if it is of the provider's source; and of the rest what was in scope before
      and, when the sync got as far as archival, had been seen since the sync started. */
  lemma {:induction false} ScopeAfterSync(t: Table, g: Integration, env: Env, id: Id)
    requires Fits(env) && InOrder(env)
    ensures var i := Touch(g, env, Reached(env), id);
      InScope(After(t, g, env), id, g.orgId, g.provider, g.id) <==>
        if i.Some? then env.stream.items[i.value].source == g.provider
        else InScope(t, id, g.orgId, g.provider, g.id) && (Archives(env) ==> t[id].lastSeenAt >= env.startedAt)
  {
    hide Run, UpsertsUpTo;
    AfterIs(t, g, env);
    RowAfterUpserts(t, g, env, Reached(env), id);
  }

  predicate Yields(env: Env, key: string) { exists i :: 0 <= i < |env.stream.items| && env.stream.items[i].externalKey == key }

  predicate OwnSource(g: Integration, env: Env) {
    forall i :: 0 <= i < |env.stream.items| ==> env.stream.items[i].source == g.provider
  }

  /** Nothing in the integration's scope has been seen at or after the start of the sync. */
  ghost predicate SeenBefore(t: Table, g: Integration, at: int) {
    forall id :: id in t && InScope(t, id, g.orgId, g.provider, g.id) ==> t[id].lastSeenAt < at
  }

  /** After a sync that reports no error, the unarchived assets of its organisation, source and
      integration are exactly the keys that the connector yielded. */
  lemma {:induction false} ReconcilesExactly(t: Table, g: Integration, env: Env, id: Id)
    requires Fits(env) && InOrder(env) && Succeeds(env) && OwnSource(g, env) && SeenBefore(t, g, env.startedAt)
    ensures InScope(After(t, g, env), id, g.orgId, g.provider, g.id) <==> id.orgId == g.orgId && Yields(env, id.externalKey)
  {
    hide Run, After;
    ScopeAfterSync(t, g, env, id);
    assert Reached(env) == |env.stream.items|;
  }

  // ----- what a sync archives -----

  /** The rows that were not archived before and are now. */
  ghost function NewlyArchived(t: Table, t': Table): set<Id> {
    set id | id in t' && t'[id].archivedAt.Some? && !(id in t && t[id].archivedAt.Some?)
  }

  /** A sync archives exactly the rows that are stale after its upserts, and only when the connector
      ended normally, all it yielded was stored, and the archival was committed.  A sync in which the
      connector or an upsert throws archives nothing. */
  lemma {:induction false} ArchivesExactly(t: Table, g: Integration, env: Env)
    requires Fits(env) && InOrder(env)
    ensures NewlyArchived(t, After(t, g, env)) ==
      if Archives(env) then StaleIds(Upserted(t, g, env), g.orgId, g.provider, env.startedAt, g.id) else {}
  {
    hide Run, UpsertsUpTo, After, Upserted;
    AfterIs(t, g, env);
    var u := Upserted(t, g, env);
    forall id
      ensures id in u && u[id].archivedAt.Some? ==> id in t && t[id].archivedAt.Some?
      ensures id in u && u[id].archivedAt.None? && u[id].lastSeenAt < env.startedAt ==> !(id in t && t[id].archivedAt.Some?)
    {
      UpsertedRow(t, g, env, id);
    }
  }

  lemma {:induction false} UpsertedRow(t: Table, g: Integration, env: Env, id: Id)
    requires Fits(env) && InOrder(env)
    ensures var u := Upserted(t, g, env);
      || Find(u, id) == Find(t, id)
      || (id in u && u[id].archivedAt == None && u[id].lastSeenAt >= env.startedAt && u[id].integrationId == Some(g.id))
  {
    RowAfterUpserts(t, g, env, Reached(env), id);
  }

  /** A sync that reports an error has archived something exactly when everything up to the archival
      went well, there was something stale, and only the reply to the archival or the final update
      of the integration failed. */
  lemma {:induction false} ErrorArchivesExactly(t: Table, g: Integration, env: Env)
    requires Fits(env) && InOrder(env) && ResultOf(t, g, env) in {SyncError, Rejected}
    ensures NewlyArchived(t, After(t, g, env)) != {} <==>
      && ListedAndStored(env) && (env.archive.LostAfter? || (env.archive.Done? && !env.finish.Done?))
      && StaleIds(Upserted(t, g, env), g.orgId, g.provider, env.startedAt, g.id) != {}
  {
    ArchivesExactly(t, g, env);
  }

  /** The error path can be reached after the archival: the sync reports an error and no archived
      assets, yet a row has been archived. */
  lemma {:induction false} ErrorAfterArchival()
    ensures exists t, g, env :: Fits(env) && ResultOf(t, g, env) == SyncError && NewlyArchived(t, After(t, g, env)) != {}
  {
    var g := Integration("i", "o", "github");
    var env := Env(true, 10, true, Stream([], true), [], Done(11), LostBefore, Done(12));
    var id := Inventory.Id("o", "k");
    var t: Table := map[id := Row("repo", "n", "github", DEFAULTS, 5, None, Some("i"))];
    AfterIs(t, g, env);
    NoWrites(t);
    assert Stored(env.upserts) == 0 && Upserted(t, g, env) == t;
    assert id in NewlyArchived(t, After(t, g, env));
    assert ResultOf(t, g, env) == SyncError;
  }

  /** Archival happens only on complete listings: if a connector that reads the given listings in turn
      has anything archived, each of the listings came to its end within the page cap. */
  lemma {:induction false} ArchivalNeedsCompleteListings(t: Table, g: Integration, env: Env, listings: seq<Fetch<Asset>>, i: nat)
    requires Fits(env) && InOrder(env) && env.stream == InTurn(listings) && i < |listings|
    requires NewlyArchived(t, After(t, g, env)) != {}
    ensures exists pages :: CompleteListing(listings[i], pages) && |pages| <= 20
  {
    ArchivesExactly(t, g, env);
    InTurnCompletesExactly(listings);
    CompletesExactly(listings[i]);
  }

  // ----- what a sync stores and reports -----

  /** The asset yielded at `i` reaches the table: the sync got as far as that, every asset before it was
      stored without an exception, and its own upsert was committed. */
  ghost predicate Arrives(env: Env, i: nat)
    requires Fits(env)
  {
    && i < |env.stream.items| && env.hasConnector && env.credentialOk
    && (forall j :: 0 <= j < i ==> env.upserts[j].Done?) && !env.upserts[i].LostBefore?
  }

  lemma {:induction false} ReachedExactly(env: Env, i: nat)
    requires Fits(env)
    ensures i < Reached(env) <==> Arrives(env, i)
  {
  }

  /** What a connector yields is in the table after the sync, under its own kind, name and source, seen
      when it was stored, owned by the integration and not archived; also by a sync that fails later. */
  lemma {:induction false} YieldStored(t: Table, g: Integration, env: Env, i: nat)
    requires Fits(env) && InOrder(env) && Arrives(env, i)
    requires forall j :: i < j && Arrives(env, j) ==> env.stream.items[j].externalKey != env.stream.items[i].externalKey
    ensures var a := env.stream.items[i]; var id := Id(g.orgId, a.externalKey);
      && id in After(t, g, env)
      && var r := After(t, g, env)[id];
         && r.kind == a.kind && r.name == a.name && r.source == a.source && r.lastSeenAt == env.upserts[i].at
         && r.integrationId == Some(g.id) && r.archivedAt == None
  {
    hide Run, UpsertsUpTo;
    var ws := UpsertsUpTo(g, env, Reached(env));
    var id := Id(g.orgId, env.stream.items[i].externalKey);
    ReachedExactly(env, i);
    forall j | i < j < |ws|
      ensures !Upserts(ws[j], id)
    {
      ReachedExactly(env, j);
    }
    LastUpsertDecides(t, ws, id, i);
    AfterIs(t, g, env);
    assert Upserted(t, g, env)[id].lastSeenAt >= env.startedAt;
  }

  /** And each field that is yielded has the value yielded last. */
  lemma {:induction false} YieldedFieldStored(t: Table, g: Integration, env: Env, i: nat, f: Field)
    requires Fits(env) && Arrives(env, i) && Gives(env.stream.items[i].given, f)
    requires forall j :: i < j && Arrives(env, j) && env.stream.items[j].externalKey == env.stream.items[i].externalKey ==>
      !Gives(env.stream.items[j].given, f)
    ensures var a := env.stream.items[i]; var id := Id(g.orgId, a.externalKey);
      id in After(t, g, env) && Stores(f, After(t, g, env)[id].kept, a.given)
  {
    hide Run, UpsertsUpTo, Gives, Stores;
    var ws := UpsertsUpTo(g, env, Reached(env));
    var id := Id(g.orgId, env.stream.items[i].externalKey);
    ReachedExactly(env, i);
    forall j | i < j < |ws|
      ensures !GivesFor(ws[j], id, f)
    {
      ReachedExactly(env, j);
    }
    LastGivenStored(t, ws, id, f, i);
    AfterIs(t, g, env);
  }

  /** A sync reports success exactly when no step of it failed, and then with the number of assets that
      were yielded and of rows that it archived; the integration is then recorded as synced from the
      instant the sync started.  An error is recorded if that update is committed, and keeps the instant
      of the last success unless only the reply to its own final update was lost. */
  lemma {:induction false} ReportsExactly(t: Table, g: Integration, env: Env, s: Status)
    requires Fits(env) && InOrder(env)
    ensures var r, s' := ResultOf(t, g, env), StatusAfter(s, env);
      var listed := env.credentialOk && env.stream.completes && forall i :: 0 <= i < |env.upserts| ==> env.upserts[i].Done?;
      var finished := listed && env.archive.Done? && !env.finish.LostBefore?;
      && (r == NoConnector <==> !env.hasConnector)
      && (!env.hasConnector ==> s' == s && After(t, g, env) == t)
      && (env.hasConnector && finished && env.finish.Done? ==>
           && r == Synced(|env.stream.items|, |NewlyArchived(t, After(t, g, env))|)
           && s' == Status(Some(env.startedAt), false))
      && (env.hasConnector && !(finished && env.finish.Done?) ==>
           && r == (if env.report.Done? then SyncError else Rejected)
           && s'.lastSyncAt == (if finished then Some(env.startedAt) else s.lastSyncAt)
           && s'.failed == if !env.report.LostBefore? then true else !finished && s.failed)
  {
    hide Run, UpsertsUpTo, After, Upserted;
    ArchivesExactly(t, g, env);
    if !env.hasConnector {
      NothingWritten(t, g, env);
    }
  }

  // ----- what a sync leaves alone -----

  /** A sync never removes a key. */
  lemma {:induction false} SyncKeepsKeys(t: Table, g: Integration, env: Env)
    requires Fits(env)
    ensures t.Keys <= After(t, g, env).Keys
  {
    KeysStay(t, Writes(g, env));
  }

  /** Rows of other organisations are left as they are, and so are all rows that are not yielded and
      belong to another integration or source. */
  lemma {:induction false} OthersUntouched(t: Table, g: Integration, env: Env, id: Id)
    requires Fits(env)
    requires id.orgId != g.orgId || (!Yields(env, id.externalKey) && !InScope(t, id, g.orgId, g.provider, g.id))
    ensures Find(After(t, g, env), id) == Find(t, id)
  {
    hide Run, UpsertsUpTo;
    AfterIs(t, g, env);
    RowAfterUpserts(t, g, env, Reached(env), id);
  }

  /** One integration's sync takes from the scope of another exactly the keys that it stores itself. */
  lemma {:induction false} TakesOnlyYielded(t: Table, g: Integration, env: Env, h: Integration, id: Id)
    requires Fits(env) && g.id != h.id
    ensures InScope(After(t, g, env), id, h.orgId, h.provider, h.id) <==>
      InScope(t, id, h.orgId, h.provider, h.id) && Touch(g, env, Reached(env), id).None?
    ensures InScope(After(t, g, env), id, h.orgId, h.provider, h.id) ==> After(t, g, env)[id] == t[id]
  {
    hide Run, UpsertsUpTo;
    AfterIs(t, g, env);
    RowAfterUpserts(t, g, env, Reached(env), id);
  }

  // ----- the sweep over all integrations -----

  datatype Job = Job(integration: Integration, env: Env)

  /** The sweep goes on after a sync that reports an error, and ends at one that rejects. */
  function Sweep(t: Table, jobs: seq<Job>): Table
    requires forall j :: 0 <= j < |jobs| ==> Fits(jobs[j].env)
    decreases |jobs|
  {
    if jobs == [] then t
    else
      var t' := After(t, jobs[0].integration, jobs[0].env);
      if ResultOf(t, jobs[0].integration, jobs[0].env) == Rejected then t' else Sweep(t', jobs[1..])
  }

  predicate SweepCompletes(t: Table, jobs: seq<Job>)
    requires forall j :: 0 <= j < |jobs| ==> Fits(jobs[j].env)
    decreases |jobs|
  {
    jobs == [] || (ResultOf(t, jobs[0].integration, jobs[0].env) != Rejected
                   && SweepCompletes(After(t, jobs[0].integration, jobs[0].env), jobs[1..]))
  }

  method Tick(scheduler: DiscoveryScheduler, jobs: seq<Job>) returns (completes: bool)
    requires forall j :: 0 <= j < |jobs| ==> Fits(jobs[j].env) && jobs[j].integration.id in scheduler.status
    modifies scheduler, scheduler.assets
    ensures scheduler.assets.rows == Sweep(old(scheduler.assets.rows), jobs)
    ensures completes == SweepCompletes(old(scheduler.assets.rows), jobs)
  {
    hide After, ResultOf;
    var j := 0;
    while j < |jobs|
      invariant 0 <= j <= |jobs|
      invariant old(scheduler.status).Keys <= scheduler.status.Keys
      invariant Sweep(scheduler.assets.rows, jobs[j..]) == Sweep(old(scheduler.assets.rows), jobs)
      invariant SweepCompletes(scheduler.assets.rows, jobs[j..]) == SweepCompletes(old(scheduler.assets.rows), jobs)
    {
      assert jobs[j..][1..] == jobs[j + 1..];
      var r := scheduler.SyncIntegration(jobs[j].integration, jobs[j].env);
      if r == Rejected {
        return false;
      }
      j := j + 1;
    }
    return true;
  }

  /** Every job succeeds on its own integration, yields assets of its own source, and no key of its
      organisation is yielded by a later job too. */
  ghost predicate Separate(jobs: seq<Job>) {
    && (forall j :: 0 <= j < |jobs| ==>
          Fits(jobs[j].env) && InOrder(jobs[j].env) && Succeeds(jobs[j].env) && OwnSource(jobs[j].integration, jobs[j].env))
    && (forall i, j :: 0 <= i < j < |jobs| ==> Disjoint(jobs[i], jobs[j]))
  }

  ghost predicate Disjoint(a: Job, b: Job) {
    && a.integration.id != b.integration.id
    && (a.integration.orgId == b.integration.orgId ==> forall key :: !(Yields(a.env, key) && Yields(b.env, key)))
  }

  /** `id` is in scope of the job's integration. */
  predicate Has(t: Table, h: Job, id: Id) {
    InScope(t, id, h.integration.orgId, h.integration.provider, h.integration.id)
  }

  /** Later jobs do not change whether a row is in scope of an earlier one, if that one yields it. */
  lemma {:induction false} ScopeKept(t: Table, jobs: seq<Job>, h: Job, id: Id)
    requires Separate(jobs) && forall j :: 0 <= j < |jobs| ==> Disjoint(h, jobs[j])
    requires Has(t, h, id) ==> Yields(h.env, id.externalKey)
    ensures Has(Sweep(t, jobs), h, id) <==> Has(t, h, id)
    decreases |jobs|
  {
    if jobs != [] {
      JobKeepsScope(t, jobs[0], h, id);
      SeparateTail(jobs);
      hide After, Has, Separate, Disjoint, Yields;
      ScopeKept(After(t, jobs[0].integration, jobs[0].env), jobs[1..], h, id);
    }
  }

  lemma {:induction false} SeparateTail(jobs: seq<Job>)
    requires Separate(jobs) && jobs != []
    ensures Separate(jobs[1..])
  {
    forall i, j | 0 <= i < j < |jobs[1..]|
      ensures Disjoint(jobs[1..][i], jobs[1..][j])
    {
      assert Disjoint(jobs[i + 1], jobs[j + 1]);
    }
  }

  lemma {:induction false} JobKeepsScope(t: Table, job: Job, h: Job, id: Id)
    requires Fits(job.env) && Disjoint(h, job)
    requires Has(t, h, id) ==> Yields(h.env, id.externalKey)
    ensures Has(After(t, job.integration, job.env), h, id) <==> Has(t, h, id)
  {
    hide After;
    TakesOnlyYielded(t, job.integration, job.env, h.integration, id);
  }

  lemma {:induction false} JobKeepsSeen(t: Table, job: Job, h: Job, at: int)
    requires Fits(job.env) && Disjoint(job, h) && SeenBefore(t, h.integration, at)
    ensures SeenBefore(After(t, job.integration, job.env), h.integration, at)
  {
    hide After;
    var t' := After(t, job.integration, job.env);
    forall id | id in t' && Has(t', h, id)
      ensures t'[id].lastSeenAt < at
    {
      TakesOnlyYielded(t, job.integration, job.env, h.integration, id);
    }
  }

  /** After a sweep in which every sync succeeds, every integration's unarchived assets are exactly
      the keys its own connector yielded: no sync of the sweep disturbs the result of another. */
  lemma {:induction false} SweepReconciles(t: Table, jobs: seq<Job>, j: nat, id: Id)
    requires Separate(jobs) && j < |jobs| && SeenBefore(t, jobs[j].integration, jobs[j].env.startedAt)
    ensures Has(Sweep(t, jobs), jobs[j], id) <==>
      id.orgId == jobs[j].integration.orgId && Yields(jobs[j].env, id.externalKey)
    decreases |jobs|
  {
    hide After, InScope, Yields, InOrder, OwnSource, SeenBefore, Succeeds, Disjoint;
    var first := jobs[0];
    SeparateTail(jobs);
    if j > 0 {
      assert Disjoint(first, jobs[j]);
      JobKeepsSeen(t, first, jobs[j], jobs[j].env.startedAt);
      SweepReconciles(After(t, first.integration, first.env), jobs[1..], j - 1, id);
    } else {
      ReconcilesExactly(t, first.integration, first.env, id);
      ScopeKept(After(t, first.integration, first.env), jobs[1..], first, id);
    }
  }
}
