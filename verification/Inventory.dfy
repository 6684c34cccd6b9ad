/** The asset table and its two writers, upsert and stale archival
    (`apps/asset-service/src/assets/assets.service.ts`).

    Row-level security confines a transaction to the rows of its organisation. */
module Inventory {
  import opened Core

  /** The fields a connector may omit, as it yields them. */
  datatype Given = Given(
    exposure: Option<string>, criticality: Option<string>, dataClasses: Option<seq<string>>,
    ownerTeam: Option<string>, ownerEmail: Option<string>,
    tags: Option<map<string, string>>, attributes: Option<map<string, string>>)

  datatype Asset = Asset(kind: string, externalKey: string, name: string, source: string, given: Given)

  /** The same fields as a row stores them. */
  datatype Kept = Kept(
    exposure: string, criticality: string, dataClasses: seq<string>,
    ownerTeam: Option<string>, ownerEmail: Option<string>, tags: map<string, string>, attributes: map<string, string>)

  datatype Id = Id(orgId: string, externalKey: string)

  datatype Row = Row(
    kind: string, name: string, source: string, kept: Kept,
    lastSeenAt: int, archivedAt: Option<int>, integrationId: Option<string>)

  type Table = map<Id, Row>

  const NOTHING := Given(None, None, None, None, None, None, None)

  const DEFAULTS := Kept("unknown", "unknown", [], None, None, map[], map[])

  function Or<T>(x: Option<T>, other: T): T { if x.Some? then x.value else other }

  function OrElse<T>(x: Option<T>, other: Option<T>): Option<T> { if x.Some? then x else other }

  function FillIn(g: Given, k: Kept): Kept {
    Kept(Or(g.exposure, k.exposure), Or(g.criticality, k.criticality), Or(g.dataClasses, k.dataClasses),
         OrElse(g.ownerTeam, k.ownerTeam), OrElse(g.ownerEmail, k.ownerEmail), Or(g.tags, k.tags), Or(g.attributes, k.attributes))
  }

  function Merge(existing: Option<Row>, a: Asset, integrationId: Option<string>, now: int): Row {
    Row(a.kind, a.name, a.source, FillIn(a.given, if existing.Some? then existing.value.kept else DEFAULTS), now, None,
        OrElse(integrationId, if existing.Some? then existing.value.integrationId else None))
  }

  function Find(t: Table, id: Id): Option<Row> { if id in t then Some(t[id]) else None }

  function UpsertInto(t: Table, orgId: string, a: Asset, integrationId: Option<string>, now: int): Table {
    t[Id(orgId, a.externalKey) := Merge(Find(t, Id(orgId, a.externalKey)), a, integrationId, now)]
  }

  /** An unarchived row of this organisation, source and integration. */
  predicate InScope(t: Table, id: Id, orgId: string, source: string, integrationId: string) {
    && id in t && id.orgId == orgId && t[id].source == source && t[id].integrationId == Some(integrationId)
    && t[id].archivedAt == None
  }

  predicate Stale(t: Table, id: Id, orgId: string, source: string, seenBefore: int, integrationId: string) {
    InScope(t, id, orgId, source, integrationId) && t[id].lastSeenAt < seenBefore
  }

  function ArchiveIn(t: Table, orgId: string, source: string, seenBefore: int, integrationId: string, now: int): Table {
    map id | id in t ::
      if Stale(t, id, orgId, source, seenBefore, integrationId) then t[id].(archivedAt := Some(now)) else t[id]
  }

  function StaleIds(t: Table, orgId: string, source: string, seenBefore: int, integrationId: string): set<Id> {
    set id | id in t && Stale(t, id, orgId, source, seenBefore, integrationId)
  }

  // ----- any sequence of writes, by anybody -----

  datatype Write =
    | Upsert(orgId: string, asset: Asset, integration: Option<string>, now: int)
    | Archive(orgId: string, source: string, seenBefore: int, integrationId: string, now: int)

  function Apply(t: Table, w: Write): Table {
    match w
    case Upsert(orgId, asset, integration, now) => UpsertInto(t, orgId, asset, integration, now)
    case Archive(orgId, source, seenBefore, integrationId, now) => ArchiveIn(t, orgId, source, seenBefore, integrationId, now)
  }

  function Run(t: Table, ws: seq<Write>): Table {
    if ws == [] then t else Apply(Run(t, ws[..|ws| - 1]), ws[|ws| - 1])
  }

  lemma {:induction false} RunAppend(t: Table, ws: seq<Write>, w: Write)
    ensures Run(t, ws + [w]) == Apply(Run(t, ws), w)
  {
    assert (ws + [w])[..|ws + [w]| - 1] == ws;
  }

  lemma {:induction false} RunTwice(t: Table, ws: seq<Write>, vs: seq<Write>)
    ensures Run(t, ws + vs) == Run(Run(t, ws), vs)
    decreases |vs|
  {
    if vs == [] {
      assert ws + vs == ws;
    } else {
      RunTwice(t, ws, vs[..|vs| - 1]);
      assert (ws + vs)[..|ws + vs| - 1] == ws + vs[..|vs| - 1];
    }
  }

  /** No sequence of writes ever removes a key. */
  lemma {:induction false} KeysStay(t: Table, ws: seq<Write>)
    ensures t.Keys <= Run(t, ws).Keys
  {
    if ws != [] {
      KeysStay(t, ws[..|ws| - 1]);
    }
  }

  predicate Upserts(w: Write, id: Id) { w.Upsert? && Id(w.orgId, w.asset.externalKey) == id }

  function Over(g: Given, h: Given): Given {
    Given(OrElse(g.exposure, h.exposure), OrElse(g.criticality, h.criticality), OrElse(g.dataClasses, h.dataClasses),
          OrElse(g.ownerTeam, h.ownerTeam), OrElse(g.ownerEmail, h.ownerEmail), OrElse(g.tags, h.tags),
          OrElse(g.attributes, h.attributes))
  }

  /** For each field, the value that the writes gave last for a key, if any gave one. */
  function LastGiven(ws: seq<Write>, id: Id): Given {
    if ws == [] then NOTHING
    else
      var before := LastGiven(ws[..|ws| - 1], id);
      if Upserts(ws[|ws| - 1], id) then Over(ws[|ws| - 1].asset.given, before) else before
  }

  function KeptOf(t: Table, id: Id): Kept { if id in t then t[id].kept else DEFAULTS }

  lemma {:induction false} FillTwice(g: Given, h: Given, k: Kept)
    ensures FillIn(Over(g, h), k) == FillIn(g, FillIn(h, k))
  {
  }

  lemma {:induction false} KeptStep(t: Table, w: Write, id: Id)
    ensures KeptOf(Apply(t, w), id) == if Upserts(w, id) then FillIn(w.asset.given, KeptOf(t, id)) else KeptOf(t, id)
  {
    hide FillIn;
  }

  /** After any number of syncs and other upserts, every optional field of a row has the value it was
      last given, else the one it had before, else its default. */
  lemma {:induction false} FieldsHaveLastGiven(t: Table, ws: seq<Write>, id: Id)
    ensures KeptOf(Run(t, ws), id) == FillIn(LastGiven(ws, id), KeptOf(t, id))
  {
    if ws == [] {
      assert FillIn(NOTHING, KeptOf(t, id)) == KeptOf(t, id);
    } else {
      hide FillIn, Over, Apply, KeptOf, Upserts;
      var before, w := ws[..|ws| - 1], ws[|ws| - 1];
      FieldsHaveLastGiven(t, before, id);
      KeptStep(Run(t, before), w, id);
      if Upserts(w, id) {
        FillTwice(w.asset.given, LastGiven(before, id), KeptOf(t, id));
      }
    }
  }

  datatype Field = Exposure | Criticality | DataClasses | OwnerTeam | OwnerEmail | Tags | Attributes

  predicate Gives(g: Given, f: Field) {
    match f
    case Exposure => g.exposure.Some?
    case Criticality => g.criticality.Some?
    case DataClasses => g.dataClasses.Some?
    case OwnerTeam => g.ownerTeam.Some?
    case OwnerEmail => g.ownerEmail.Some?
    case Tags => g.tags.Some?
    case Attributes => g.attributes.Some?
  }

  predicate AgreeIn(f: Field, a: Kept, b: Kept) {
    match f
    case Exposure => a.exposure == b.exposure
    case Criticality => a.criticality == b.criticality
    case DataClasses => a.dataClasses == b.dataClasses
    case OwnerTeam => a.ownerTeam == b.ownerTeam
    case OwnerEmail => a.ownerEmail == b.ownerEmail
    case Tags => a.tags == b.tags
    case Attributes => a.attributes == b.attributes
  }

  /** No write to a key gives the field. */
  ghost predicate Omitted(ws: seq<Write>, id: Id, f: Field) {
    forall i :: 0 <= i < |ws| && Upserts(ws[i], id) ==> !Gives(ws[i].asset.given, f)
  }

  lemma {:induction false} NeverGiven(ws: seq<Write>, id: Id, f: Field)
    requires Omitted(ws, id, f)
    ensures !Gives(LastGiven(ws, id), f)
  {
    if ws != [] {
      assert Upserts(ws[|ws| - 1], id) ==> !Gives(ws[|ws| - 1].asset.given, f);
      NeverGiven(ws[..|ws| - 1], id, f);
    }
  }

  /** A field that connectors omit survives any number of syncs: each field of a row stays as it is as
      long as no write to its key gives that field, whatever the writes do to the others. */
  lemma {:induction false} OmittedFieldsSurvive(t: Table, ws: seq<Write>, id: Id, f: Field)
    requires id in t && Omitted(ws, id, f)
    ensures id in Run(t, ws) && AgreeIn(f, Run(t, ws)[id].kept, t[id].kept)
  {
    KeysStay(t, ws);
    FieldsHaveLastGiven(t, ws, id);
    NeverGiven(ws, id, f);
  }

  // ----- what a row holds -----

  /** The row holds the value that was given for the field. */
  predicate Stores(f: Field, k: Kept, g: Given) {
    match f
    case Exposure => g.exposure == Some(k.exposure)
    case Criticality => g.criticality == Some(k.criticality)
    case DataClasses => g.dataClasses == Some(k.dataClasses)
    case OwnerTeam => k.ownerTeam.Some? && g.ownerTeam == k.ownerTeam
    case OwnerEmail => k.ownerEmail.Some? && g.ownerEmail == k.ownerEmail
    case Tags => g.tags == Some(k.tags)
    case Attributes => g.attributes == Some(k.attributes)
  }

  /** The row holds what the table has for a field that nobody gave. */
  predicate Unset(f: Field, k: Kept) {
    match f
    case Exposure => k.exposure == "unknown"
    case Criticality => k.criticality == "unknown"
    case DataClasses => k.dataClasses == []
    case OwnerTeam => k.ownerTeam == None
    case OwnerEmail => k.ownerEmail == None
    case Tags => k.tags == map[]
    case Attributes => k.attributes == map[]
  }

  predicate GivesFor(w: Write, id: Id, f: Field) { Upserts(w, id) && Gives(w.asset.given, f) }

  lemma {:induction false} GivenStored(t: Table, w: Write, id: Id, f: Field)
    ensures GivesFor(w, id, f) ==> id in Apply(t, w) && Stores(f, Apply(t, w)[id].kept, w.asset.given)
    ensures !GivesFor(w, id, f) && id in t ==> id in Apply(t, w) && AgreeIn(f, Apply(t, w)[id].kept, t[id].kept)
    ensures !GivesFor(w, id, f) && id !in t && id in Apply(t, w) ==> Unset(f, Apply(t, w)[id].kept)
  {
  }

  /** What a connector gives reaches the table: a field holds the very value of the last write to the
      key that gave it, whatever other writes there were before, between and after. */
  lemma {:induction false} LastGivenStored(t: Table, ws: seq<Write>, id: Id, f: Field, i: nat)
    requires i < |ws| && GivesFor(ws[i], id, f) && forall j :: i < j < |ws| ==> !GivesFor(ws[j], id, f)
    ensures id in Run(t, ws) && Stores(f, Run(t, ws)[id].kept, ws[i].asset.given)
    decreases |ws|
  {
    hide Apply, AgreeIn, Stores;
    var n := |ws| - 1;
    GivenStored(Run(t, ws[..n]), ws[n], id, f);
    if i < n {
      LastGivenStored(t, ws[..n], id, f, i);
      AgreeingStores(f, Run(t, ws[..n])[id].kept, Run(t, ws)[id].kept, ws[i].asset.given);
    }
  }

  lemma {:induction false} AgreeingStores(f: Field, a: Kept, b: Kept, g: Given)
    requires AgreeIn(f, b, a) && Stores(f, a, g)
    ensures Stores(f, b, g)
  {
  }

  /** A field of a new row that no write gives has its default. */
  lemma {:induction false} NeverGivenUnset(t: Table, ws: seq<Write>, id: Id, f: Field)
    requires id !in t && id in Run(t, ws) && forall j :: 0 <= j < |ws| ==> !GivesFor(ws[j], id, f)
    ensures Unset(f, Run(t, ws)[id].kept)
    decreases |ws|
  {
    if ws != [] {
      var n := |ws| - 1;
      GivenStored(Run(t, ws[..n]), ws[n], id, f);
      if id in Run(t, ws[..n]) {
        NeverGivenUnset(t, ws[..n], id, f);
      }
    }
  }

  /** The other columns are those of the last upsert of the key; and the row is not archived if no
      archival came after it. */
  lemma {:induction false} LastUpsertDecides(t: Table, ws: seq<Write>, id: Id, i: nat)
    requires i < |ws| && Upserts(ws[i], id) && forall j :: i < j < |ws| ==> !Upserts(ws[j], id)
    ensures id in Run(t, ws)
    ensures var r, w := Run(t, ws)[id], ws[i];
      && r.kind == w.asset.kind && r.name == w.asset.name && r.source == w.asset.source && r.lastSeenAt == w.now
      && (w.integration.Some? ==> r.integrationId == w.integration)
      && ((forall j :: i < j < |ws| ==> ws[j].Upsert?) ==> r.archivedAt == None)
    decreases |ws|
  {
    hide Upserts;
    var n := |ws| - 1;
    UpsertDecides(Run(t, ws[..n]), ws[n], id);
    if i < n {
      LastUpsertDecides(t, ws[..n], id, i);
    }
  }

  lemma {:induction false} UpsertDecides(t: Table, w: Write, id: Id)
    ensures Upserts(w, id) ==>
      && id in Apply(t, w)
      && var r := Apply(t, w)[id];
         && r.kind == w.asset.kind && r.name == w.asset.name && r.source == w.asset.source && r.lastSeenAt == w.now
         && (w.integration.Some? ==> r.integrationId == w.integration) && r.archivedAt == None
    ensures !Upserts(w, id) && id in t ==>
      id in Apply(t, w) && Apply(t, w)[id].(archivedAt := None) == t[id].(archivedAt := None)
      && (w.Upsert? ==> Apply(t, w)[id] == t[id])
  {
  }

  class AssetsService {
    var rows: Table

    constructor ()
      ensures rows == map[]
    {
      rows := map[];
    }

    method UpsertAsset(orgId: string, input: Asset, integrationId: Option<string>, now: int) returns (created: bool)
      modifies this
      ensures rows == UpsertInto(old(rows), orgId, input, integrationId, now)
      ensures var id := Id(orgId, input.externalKey);
        && id in rows && rows - {id} == old(rows) - {id}
        && var r := rows[id];
           && r.kind == input.kind && r.name == input.name && r.source == input.source
           && r.lastSeenAt == now && r.archivedAt == None
           && r.integrationId == (if integrationId.Some? then integrationId else if id in old(rows) then old(rows)[id].integrationId else None)
           && forall f :: if Gives(input.given, f) then Stores(f, r.kept, input.given)
                          else if id in old(rows) then AgreeIn(f, r.kept, old(rows)[id].kept)
                          else Unset(f, r.kept)
      ensures created == (Id(orgId, input.externalKey) !in old(rows))
    {
      var id := Id(orgId, input.externalKey);
      var existing := if id in rows then Some(rows[id]) else None;
      rows := rows[id := Merge(existing, input, integrationId, now)];
      created := existing == None;
    }

    method ArchiveStale(orgId: string, source: string, seenBefore: int, integrationId: string, now: int) returns (count: nat)
      modifies this
      ensures rows == ArchiveIn(old(rows), orgId, source, seenBefore, integrationId, now)
      ensures count == |StaleIds(old(rows), orgId, source, seenBefore, integrationId)|
      ensures rows.Keys == old(rows).Keys && forall id :: id in rows ==>
        var r := old(rows)[id];
        var stale := id.orgId == orgId && r.source == source && r.integrationId == Some(integrationId)
          && r.archivedAt == None && r.lastSeenAt < seenBefore;
        rows[id] == if stale then r.(archivedAt := Some(now)) else r
    {
      count := |StaleIds(rows, orgId, source, seenBefore, integrationId)|;
      rows := ArchiveIn(rows, orgId, source, seenBefore, integrationId, now);
    }
  }
}
