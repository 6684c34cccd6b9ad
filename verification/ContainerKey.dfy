/** Container image identity: the keys that the registry connectors print
    (`apps/asset-service/src/connectors/ecr.connector.ts`, `gcr.connector.ts`, `acr.connector.ts`,
    `dockerhub.connector.ts`) and the scanner that reads them back
    (`apps/scanner-container-iac/src/container.identity.ts`). */
module ContainerKey {
  import opened Core

  datatype Kind = Ghcr | Ecr | Gcr | Acr | Dockerhub | Quay

  function Scheme(k: Kind): string {
    match k
    case Ghcr => "ghcr"
    case Ecr => "ecr"
    case Gcr => "gcr"
    case Acr => "acr"
    case Dockerhub => "dockerhub"
    case Quay => "quay"
  }

  // ----- the patterns -----

  /** A key in its parts: the scheme as written, the fields between slashes, and the digest. */
  datatype Parts = Parts(scheme: string, fields: seq<string>, digest: string)

  /** How many fields there are before the last one, which may hold slashes. */
  function Leading(k: Kind): nat { if k == Gcr || k == Acr then 3 else 1 }

  predicate IsAlnum(c: char) { '0' <= c <= '9' || 'a' <= c <= 'z' || 'A' <= c <= 'Z' }

  predicate IsDigest(s: string) {
    |s| == 71 && Lower(s[..7]) == "sha256:" && forall i :: 7 <= i < 71 ==> IsHex(s[i])
  }

  predicate IsGuid(s: string) {
    |s| == 36 && forall i :: 0 <= i < 36 ==> if i in {8, 13, 18, 23} then s[i] == '-' else IsHex(s[i])
  }

  predicate IsLineEnd(c: char) { c == '\n' || c == '\r' || c == '\U{2028}' || c == '\U{2029}' }

  predicate FieldOk(k: Kind, i: nat, s: string) {
    && s != "" && '/' !in s && '@' !in s
    && (k == Ecr ==> AccountId(s))
    && (k == Acr && i == 0 ==> IsGuid(s))
    && (k == Acr && i == 2 ==> RegistryName(s))
  }

  predicate LastOk(k: Kind, s: string) {
    && s != ""
    && if k == Dockerhub then '/' !in s && '@' !in s else forall i :: 0 <= i < |s| ==> !IsLineEnd(s[i])
  }

  predicate WellFormed(k: Kind, p: Parts) {
    && Lower(p.scheme) == Scheme(k) && IsDigest(p.digest) && |p.fields| == Leading(k) + 1
    && (forall i :: 0 <= i < Leading(k) ==> FieldOk(k, i, p.fields[i]))
    && LastOk(k, p.fields[Leading(k)])
  }

  function Print(p: Parts): string { p.scheme + ":" + Join(p.fields, '/') + "@" + p.digest }

  /** The text cut at its first `n` slashes, if it has so many. */
  function CutFields(s: string, n: nat): (r: Option<seq<string>>)
    ensures r.Some? ==> |r.value| == n + 1
    decreases n
  {
    if n == 0 then Some([s])
    else
      var (before, after) := Cut(s, '/');
      if after.None? then None
      else
        var rest := CutFields(after.value, n - 1);
        if rest.None? then None else Some([before] + rest.value)
  }

  /** What the registry's pattern captures in a key. */
  function Match(k: Kind, key: string): Option<Parts> {
    var n := |Scheme(k)|;
    if |key| < n + 73 || key[n] != ':' || key[|key| - 72] != '@' then None
    else
      var fields := CutFields(key[n + 1..|key| - 72], Leading(k));
      if fields.None? then None
      else
        var p := Parts(key[..n], fields.value, key[|key| - 71..]);
        if WellFormed(k, p) then Some(p) else None
  }

  lemma {:induction false} CutIs(s: string, sep: char)
    ensures var (a, b) := Cut(s, sep); sep !in a && s == if b.Some? then a + [sep] + b.value else a
  {
    if s != "" && s[0] != sep {
      CutIs(s[1..], sep);
      var (a, b) := Cut(s[1..], sep);
      assert s == [s[0]] + s[1..];
    }
  }

  lemma {:induction false} CutFieldsJoin(s: string, n: nat)
    ensures CutFields(s, n).Some? ==> Join(CutFields(s, n).value, '/') == s
    decreases n
  {
    if n > 0 {
      CutIs(s, '/');
      var (a, b) := Cut(s, '/');
      if b.Some? {
        CutFieldsJoin(b.value, n - 1);
      }
    }
  }

  lemma {:induction false} JoinCutFields(fields: seq<string>)
    requires fields != [] && forall i :: 0 <= i < |fields| - 1 ==> '/' !in fields[i]
    ensures CutFields(Join(fields, '/'), |fields| - 1) == Some(fields)
    decreases |fields|
  {
    if |fields| > 1 {
      CutAt(fields[0], '/', Join(fields[1..], '/'));
      JoinCutFields(fields[1..]);
      assert [fields[0]] + fields[1..] == fields;
    } else {
      assert [fields[0]] == fields;
    }
  }

  /** A pattern accepts exactly the printed keys, and captures the parts they were printed from. */
  lemma {:induction false} MatchExactly(k: Kind, key: string, p: Parts)
    ensures Match(k, key) == Some(p) <==> WellFormed(k, p) && Print(p) == key
  {
    hide Lower, Join, CutFields, IsDigest, FieldOk, LastOk;
    if Match(k, key) == Some(p) {
      Matched(k, key);
    }
    if WellFormed(k, p) && Print(p) == key {
      PrintMatches(k, p);
    }
  }

  lemma {:induction false} Matched(k: Kind, key: string)
    requires Match(k, key).Some?
    ensures WellFormed(k, Match(k, key).value) && Print(Match(k, key).value) == key
  {
    hide Lower, Join, CutFields, WellFormed;
    var n := |Scheme(k)|;
    CutFieldsJoin(key[n + 1..|key| - 72], Leading(k));
    assert key == key[..n] + ":" + key[n + 1..|key| - 72] + "@" + key[|key| - 71..];
  }

  lemma {:induction false} PrintMatches(k: Kind, p: Parts)
    requires WellFormed(k, p)
    ensures Match(k, Print(p)) == Some(p)
  {
    forall i | 0 <= i < |p.fields| - 1
      ensures '/' !in p.fields[i]
    {
      assert FieldOk(k, i, p.fields[i]);
    }
    JoinCutFields(p.fields);
    JoinNonEmpty(k, p);
    assert |p.scheme| == |Lower(p.scheme)|;
    assert |p.digest| == 71;
    hide Lower, Join, CutFields, WellFormed;
    PrintParts(p);
  }

  lemma {:induction false} JoinNonEmpty(k: Kind, p: Parts)
    requires WellFormed(k, p)
    ensures Join(p.fields, '/') != ""
  {
  }

  lemma {:induction false} PrintParts(p: Parts)
    requires |p.digest| == 71
    ensures var key, n, body := Print(p), |p.scheme|, Join(p.fields, '/');
      && |key| == n + |body| + 73 && key[..n] == p.scheme && key[n] == ':' && key[|key| - 72] == '@'
      && key[n + 1..|key| - 72] == body && key[|key| - 71..] == p.digest
  {
  }

  // ----- the shapes of ids -----

  predicate IsLow(c: char) { IsDigit(c) || 'a' <= c <= 'z' }

  predicate IsWord(c: char) { IsAlnum(c) || c == '_' }

  predicate AccountId(s: string) { |s| == 12 && IsNumeral(s) }

  predicate ProjectId(s: string) {
    && 6 <= |s| <= 30 && !IsDigit(s[0]) && IsLow(s[0]) && IsLow(s[|s| - 1])
    && forall i :: 0 <= i < |s| ==> IsLow(s[i]) || s[i] == '-'
  }

  predicate LocationId(s: string) {
    && 1 <= |s| <= 63 && !IsDigit(s[0]) && IsLow(s[0]) && IsLow(s[|s| - 1])
    && forall i :: 0 <= i < |s| ==> IsLow(s[i]) || s[i] == '-'
  }

  predicate GcrRepositoryId(s: string) {
    && 2 <= |s| <= 63 && !IsDigit(s[0]) && IsLow(s[0]) && IsLow(s[|s| - 1])
    && forall i :: 0 <= i < |s| ==> IsLow(s[i]) || s[i] == '.' || s[i] == '_' || s[i] == '-'
  }

  predicate RegistryName(s: string) { 5 <= |s| <= 50 && forall i :: 0 <= i < |s| ==> IsAlnum(s[i]) }

  predicate IsGroupChar(c: char) { IsWord(c) || c == '-' || c == '.' || c == '(' || c == ')' }

  predicate ResourceGroup(s: string) {
    1 <= |s| <= 90 && s[|s| - 1] != '.' && forall i :: 0 <= i < |s| ==> IsGroupChar(s[i])
  }

  predicate IsSeparator(c: char) { c == '.' || c == '_' || c == '-' || c == '/' }

  /** Runs of letters and digits with one separator between each two. */
  predicate AcrRepository(s: string) {
    && s != "" && IsLow(s[0]) && IsLow(s[|s| - 1])
    && (forall i :: 0 <= i < |s| ==> IsLow(s[i]) || IsSeparator(s[i]))
    && forall i :: 0 < i < |s| ==> IsLow(s[i - 1]) || IsLow(s[i])
  }

  predicate DockerName(s: string) { s != "" && forall i :: 0 <= i < |s| ==> IsWord(s[i]) || s[i] == '.' || s[i] == '-' }

  predicate IsUrl(s: string) { At(Lower(s), 0, "http://") || At(Lower(s), 0, "https://") }

  /** `w`, in lower case, occurs in `s` without regard to case. */
  predicate Names(s: string, w: string) { IndexOf(Lower(s), w, 0) >= 0 }

  predicate EndsWith(s: string, w: string) { |w| <= |s| && s[|s| - |w|..] == w }

  function DropDot(s: string): string { if s != "" && s[|s| - 1] == '.' then s[..|s| - 1] else s }

  predicate DockerHost(s: string) {
    EndsWith(DropDot(Lower(s)), "docker.io") || EndsWith(DropDot(Lower(s)), "docker.com")
  }

  // ----- the reader -----

  /** A reference by digest: the fields of its kind in the order of the key, letter case normalised
      where the registry ignores it; and for ECR the region to pull from. */
  datatype Ref = Ref(kind: Kind, fields: seq<string>, digest: string, region: Option<string>)

  /** The string values of a scan target, on its top level and among its attributes. */
  datatype Target = Target(externalKey: string, top: map<string, string>, attributes: map<string, string>)

  datatype Options = Options(values: map<string, string>, regions: seq<string>)

  /** What the reader calls that is not modelled: the rules for the two ids of Quay, by shape and by
      id, the table of regions, and whether nothing names a host of the tenant's. */
  datatype Rules = Rules(
    quayShape: (nat, string) -> bool, quayId: (nat, string) -> bool, regionOk: string -> bool,
    hostFree: map<string, string> -> bool)

  /** The shape of one id, which is asked for when there is no key. */
  predicate ShapeOk(rules: Rules, k: Kind, i: nat, s: string) {
    match k
    case Ghcr => true
    case Ecr => i == 0 ==> AccountId(s)
    case Gcr => (i == 0 ==> ProjectId(s)) && (i == 2 ==> GcrRepositoryId(s))
    case Acr => (i == 0 ==> IsGuid(s)) && (i == 2 ==> RegistryName(s))
    case Dockerhub => DockerName(s)
    case Quay => rules.quayShape(i, s)
  }

  predicate GcrIdsOk(project: string, location: string, repository: string, image: string) {
    && !IsUrl(Trim(project)) && !Names(project, "pkg.dev") && ProjectId(project)
    && !IsUrl(Trim(location)) && !Names(location, "pkg.dev") && '.' !in location && LocationId(location)
    && GcrRepositoryId(repository) && !IsUrl(repository)
    && image != "" && !IsUrl(Trim(image)) && '@' !in image
  }

  predicate AcrIdsOk(subscription: string, group: string, registry: string, repository: string) {
    && !IsUrl(Trim(subscription)) && IsGuid(Trim(subscription))
    && !IsUrl(Trim(group)) && !Names(Trim(group), "azurecr.io") && ResourceGroup(Trim(group))
    && !IsUrl(Trim(registry)) && '.' !in Trim(registry) && RegistryName(Trim(registry))
    && !IsUrl(Trim(repository)) && !Names(Trim(repository), "azurecr.io") && AcrRepository(Trim(repository))
  }

  predicate DockerIdOk(s: string) { !IsUrl(Trim(s)) && DockerName(Trim(s)) && !DockerHost(Trim(s)) }

  /** What the reader asks of the ids of a reference, whichever way it came by them. */
  predicate IdsOk(rules: Rules, k: Kind, fields: seq<string>)
    requires |fields| == Leading(k) + 1
  {
    match k
    case Ghcr => true
    case Ecr => true
    case Gcr => GcrIdsOk(fields[0], fields[1], fields[2], fields[3])
    case Acr => AcrIdsOk(fields[0], fields[1], fields[2], fields[3])
    case Dockerhub => DockerIdOk(fields[0]) && DockerIdOk(fields[1])
    case Quay => rules.quayId(0, fields[0]) && rules.quayId(1, fields[1])
  }

  /** A login server is accepted if it is the registry's own. */
  predicate LoginOk(registry: string, login: string) {
    !IsUrl(Trim(login)) && Cut(DropDot(Lower(Trim(login))), ':').0 == registry + ".azurecr.io"
  }

  function Get(m: map<string, string>, name: string): Option<string> {
    if name in m && m[name] != "" then Some(m[name]) else None
  }

  function First(x: Option<string>, y: Option<string>): Option<string> { if x.Some? then x else y }

  function Attr(t: Target, name: string): Option<string> { First(Get(t.top, name), Get(t.attributes, name)) }

  /** The attribute that repeats field `i` of the key. */
  function FieldAttr(t: Target, k: Kind, i: nat): Option<string> {
    match k
    case Ghcr => Attr(t, if i == 0 then "owner" else "package")
    case Ecr => if i == 0 then Attr(t, "accountId") else First(Attr(t, "repository"), Attr(t, "repositoryName"))
    case Gcr => Attr(t, if i == 0 then "projectId" else if i == 1 then "location" else if i == 2 then "repository" else "image")
    case Acr =>
      Attr(t, if i == 0 then "subscriptionId" else if i == 1 then "resourceGroup" else if i == 2 then "registry" else "repository")
    case Dockerhub => Attr(t, if i == 0 then "namespace" else "repository")
    case Quay => Attr(t, if i == 0 then "namespace" else "repository")
  }

  predicate FoldsCase(k: Kind, i: nat) { k == Acr && (i == 0 || i == 2) }

  function Normal(k: Kind, i: nat, s: string): string { if FoldsCase(k, i) then Lower(s) else s }

  function NormalFields(k: Kind, fields: seq<string>): (r: seq<string>)
    ensures |r| == |fields| && forall i :: 0 <= i < |r| ==> r[i] == Normal(k, i, fields[i])
  {
    if fields == [] then [] else
    var n := |fields| - 1;
    NormalFields(k, fields[..n]) + [Normal(k, n, fields[n])]
  }

  predicate AttributesAgree(t: Target, k: Kind, fields: seq<string>, digest: string) {
    && (forall i :: 0 <= i < |fields| && FieldAttr(t, k, i).Some? ==> Normal(k, i, FieldAttr(t, k, i).value) == fields[i])
    && (Attr(t, "digest").Some? ==> IsDigest(Attr(t, "digest").value) && Lower(Attr(t, "digest").value) == digest)
  }

  function OneOf(regions: seq<string>): Option<string> {
    if regions == [] then None
    else if regions[0] == "" then OneOf(regions[1..])
    else if forall i :: 1 <= i < |regions| ==> regions[i] == "" then Some(regions[0])
    else None
  }

  function ResolveRegion(rules: Rules, t: Target, o: Options): Option<string> {
    var fromTarget, fromOptions := Attr(t, "region"), Get(o.values, "region");
    var region := First(fromTarget, First(fromOptions, OneOf(o.regions)));
    if fromTarget.Some? && fromOptions.Some? && fromTarget != fromOptions then None
    else if region.Some? && rules.regionOk(region.value) then region
    else None
  }

  /** The checks of a kind beyond its pattern and the repeated attributes. */
  predicate OwnChecks(rules: Rules, k: Kind, fields: seq<string>, t: Target, o: Options)
    requires |fields| == Leading(k) + 1
  {
    && IdsOk(rules, k, fields)
    && (k == Gcr && Get(o.values, "location").Some? ==> Get(o.values, "location").value == fields[1])
    && (k == Acr ==>
         && (Attr(t, "loginServer").Some? ==> LoginOk(fields[2], Attr(t, "loginServer").value))
         && var login := First(Get(o.values, "loginServer"), Get(o.values, "login_server"));
            (login.Some? ==> LoginOk(fields[2], login.value)))
    && (k == Ecr ==> ResolveRegion(rules, t, o).Some?)
  }

  function ParseAs(rules: Rules, k: Kind, key: string, t: Target, o: Options): Option<Ref> {
    var p := Match(k, key);
    if p.None? then None
    else
      var fields, digest := NormalFields(k, p.value.fields), Lower(p.value.digest);
      if AttributesAgree(t, k, fields, digest) && OwnChecks(rules, k, fields, t, o)
      then Some(Ref(k, fields, digest, if k == Ecr then ResolveRegion(rules, t, o) else None))
      else None
  }

  /** The patterns in turn. */
  function ParseKey(rules: Rules, key: string, t: Target, o: Options): Option<Ref> {
    if Match(Ghcr, key).Some? then ParseAs(rules, Ghcr, key, t, o)
    else if Match(Ecr, key).Some? then ParseAs(rules, Ecr, key, t, o)
    else if Match(Gcr, key).Some? then ParseAs(rules, Gcr, key, t, o)
    else if Match(Acr, key).Some? then ParseAs(rules, Acr, key, t, o)
    else if Match(Dockerhub, key).Some? then ParseAs(rules, Dockerhub, key, t, o)
    else if Match(Quay, key).Some? then ParseAs(rules, Quay, key, t, o)
    else None
  }

  predicate HasDigest(t: Target) { Attr(t, "digest").Some? && IsDigest(Attr(t, "digest").value) }

  /** The field of a reference when there is no key; only the GCR location may come from the options. */
  function FieldWithoutKey(t: Target, o: Options, k: Kind, i: nat): Option<string> {
    if k == Gcr && i == 1 then First(FieldAttr(t, k, i), Get(o.values, "location")) else FieldAttr(t, k, i)
  }

  function FieldsWithoutKey(t: Target, o: Options, k: Kind, n: nat): (r: Option<seq<string>>)
    ensures r.Some? ==> |r.value| == n
  {
    if n == 0 then Some([])
    else
      var front, last := FieldsWithoutKey(t, o, k, n - 1), FieldWithoutKey(t, o, k, n - 1);
      if front.Some? && last.Some? then Some(front.value + [last.value]) else None
  }

  /** The ids whose shape is checked when there is no key. */
  predicate ShapeChecked(k: Kind, i: nat) {
    (k == Ecr && i == 0) || (k == Gcr && (i == 0 || i == 2)) || (k == Acr && (i == 0 || i == 2))
  }

  function ParseWithoutKeyAs(rules: Rules, k: Kind, t: Target, o: Options): Option<Ref> {
    var fields := FieldsWithoutKey(t, o, k, Leading(k) + 1);
    if !HasDigest(t) || fields.None? then None
    else if !(forall i: nat :: i < |fields.value| && ShapeChecked(k, i) ==> ShapeOk(rules, k, i, fields.value[i])) then None
    else
      var normal := NormalFields(k, fields.value);
      if OwnChecks(rules, k, normal, t, o)
      then Some(Ref(k, normal, Lower(Attr(t, "digest").value), if k == Ecr then ResolveRegion(rules, t, o) else None))
      else None
  }

  predicate Shaped(rules: Rules, t: Target, k: Kind, i: nat) {
    FieldAttr(t, k, i).Some? && ShapeOk(rules, k, i, FieldAttr(t, k, i).value)
  }

  /** Without a key the attributes decide which registry is meant. */
  function ParseWithoutKey(rules: Rules, t: Target, o: Options): Option<Ref> {
    var plain := Attr(t, "accountId").None? && Attr(t, "projectId").None? && Attr(t, "subscriptionId").None?;
    var quay := Attr(t, "source") == Some("quay");
    if HasDigest(t) && Shaped(rules, t, Gcr, 0) && FieldWithoutKey(t, o, Gcr, 1).Some?
       && Attr(t, "repository").Some? && Attr(t, "image").Some? then ParseWithoutKeyAs(rules, Gcr, t, o)
    else if HasDigest(t) && Shaped(rules, t, Acr, 0) && Shaped(rules, t, Acr, 2) && Attr(t, "repository").Some? then
      ParseWithoutKeyAs(rules, Acr, t, o)
    else if HasDigest(t) && quay && Shaped(rules, t, Quay, 0) && Shaped(rules, t, Quay, 1) && plain then
      ParseWithoutKeyAs(rules, Quay, t, o)
    else if HasDigest(t) && !quay && Shaped(rules, t, Dockerhub, 0) && Shaped(rules, t, Dockerhub, 1) && plain then
      ParseWithoutKeyAs(rules, Dockerhub, t, o)
    else if HasDigest(t) && Attr(t, "owner").Some? && Attr(t, "package").Some? && Attr(t, "accountId").None? then
      ParseWithoutKeyAs(rules, Ghcr, t, o)
    else if Shaped(rules, t, Ecr, 0) then ParseWithoutKeyAs(rules, Ecr, t, o)
    else None
  }

  /** Reads a reference from a scan target; `None` is a refusal. */
  function ParseContainerImageRef(rules: Rules, t: Target, o: Options): Option<Ref> {
    var key := Trim(t.externalKey);
    if !rules.hostFree(o.values) || !rules.hostFree(t.top) then None
    else if key != "" then ParseKey(rules, key, t, o)
    else ParseWithoutKey(rules, t, o)
  }

  // ----- the printers -----

  datatype Image =
    | EcrImage(accountId: string, region: string, repositoryName: string, digest: string)
    | GcrImage(projectId: string, location: string, repository: string, image: string, digest: string)
    | AcrImage(subscriptionId: string, resourceGroup: string, registry: string, loginServer: string, repository: string, digest: string)
    | DockerhubImage(namespace: string, repository: string, digest: string)

  function KindOf(im: Image): Kind {
    match im
    case EcrImage(_, _, _, _) => Ecr
    case GcrImage(_, _, _, _, _) => Gcr
    case AcrImage(_, _, _, _, _, _) => Acr
    case DockerhubImage(_, _, _) => Dockerhub
  }

  function FieldsOf(im: Image): (r: seq<string>)
    ensures |r| == Leading(KindOf(im)) + 1
  {
    match im
    case EcrImage(accountId, _, repositoryName, _) => [accountId, repositoryName]
    case GcrImage(projectId, location, repository, image, _) => [projectId, location, repository, image]
    case AcrImage(subscriptionId, resourceGroup, registry, _, repository, _) => [subscriptionId, resourceGroup, registry, repository]
    case DockerhubImage(namespace, repository, _) => [namespace, repository]
  }

  /** The asset of an image: its key and the attributes that are strings the reader looks at. */
  function ImageToAsset(im: Image): Target {
    match im
    case EcrImage(accountId, region, repositoryName, digest) =>
      Target("ecr:" + accountId + "/" + repositoryName + "@" + digest,
        map["kind" := "container_image", "name" := repositoryName, "source" := "ecr", "exposure" := "internal"],
        map["accountId" := accountId, "region" := region, "repository" := repositoryName, "digest" := digest])
    case GcrImage(projectId, location, repository, image, digest) =>
      Target("gcr:" + projectId + "/" + location + "/" + repository + "/" + image + "@" + digest,
        map["kind" := "container_image", "name" := repository + "/" + image, "source" := "gcr", "exposure" := "internal"],
        map["projectId" := projectId, "location" := location, "repository" := repository, "image" := image, "digest" := digest])
    case AcrImage(subscriptionId, resourceGroup, registry, loginServer, repository, digest) =>
      Target("acr:" + subscriptionId + "/" + resourceGroup + "/" + registry + "/" + repository + "@" + digest,
        map["kind" := "container_image", "name" := registry + "/" + repository, "source" := "acr", "exposure" := "internal"],
        map["subscriptionId" := subscriptionId, "resourceGroup" := resourceGroup, "registry" := registry,
            "loginServer" := loginServer, "repository" := repository, "digest" := digest])
    case DockerhubImage(namespace, repository, digest) =>
      Target("dockerhub:" + namespace + "/" + repository + "@" + digest,
        map["kind" := "container_image", "name" := namespace + "/" + repository, "source" := "dockerhub"],
        map["namespace" := namespace, "repository" := repository, "digest" := digest])
  }

  function PartsOf(im: Image): Parts { Parts(Scheme(KindOf(im)), FieldsOf(im), im.digest) }

  lemma {:induction false} JoinTwo(a: string, b: string)
    ensures Join([a, b], '/') == a + "/" + b
  {
    assert [a, b][1..] == [b];
  }

  lemma {:induction false} JoinFour(a: string, b: string, c: string, d: string)
    ensures Join([a, b, c, d], '/') == a + "/" + b + "/" + c + "/" + d
  {
    JoinTwo(c, d);
    assert [a, b, c, d][1..][1..] == [c, d];
    assert [b, c, d] == [a, b, c, d][1..];
    assert Join([b, c, d], '/') == b + "/" + (c + "/" + d);
    assert a + "/" + (b + "/" + (c + "/" + d)) == a + "/" + b + "/" + c + "/" + d;
  }

  lemma {:induction false} Associated(x: string, b: string, c: string, d: string)
    ensures x + (b + "/" + c + "/" + d) == x + b + "/" + c + "/" + d
  {
  }

  lemma {:induction false} Prefixed(scheme: string, a: string, b: string, digest: string)
    ensures scheme + a + "/" + b + "@" + digest == scheme + (a + "/" + b) + "@" + digest
  {
  }

  lemma {:induction false} PrintTwo(scheme: string, a: string, b: string, digest: string)
    ensures Print(Parts(scheme, [a, b], digest)) == scheme + ":" + a + "/" + b + "@" + digest
  {
    JoinTwo(a, b);
    Prefixed(scheme + ":", a, b, digest);
  }

  lemma {:induction false} PrintFour(scheme: string, a: string, b: string, c: string, d: string, digest: string)
    ensures Print(Parts(scheme, [a, b, c, d], digest)) == scheme + ":" + a + "/" + b + "/" + c + "/" + d + "@" + digest
  {
    hide Join;
    JoinFour(a, b, c, d);
    Prefixed(scheme + ":", a, b + "/" + c + "/" + d, digest);
    Associated(scheme + ":" + a + "/", b, c, d);
    Associated(a + "/", b, c, d);
  }

  lemma {:induction false} AssetKey(im: Image)
    ensures ImageToAsset(im).externalKey == Print(PartsOf(im))
  {
    hide Print;
    assert "ecr" + ":" == "ecr:" && "gcr" + ":" == "gcr:" && "acr" + ":" == "acr:" && "dockerhub" + ":" == "dockerhub:";
    match im
    case EcrImage(a, _, b, digest) => PrintTwo("ecr", a, b, digest);
    case GcrImage(a, b, c, d, digest) => PrintFour("gcr", a, b, c, d, digest);
    case AcrImage(a, b, c, _, d, digest) => PrintFour("acr", a, b, c, d, digest);
    case DockerhubImage(a, b, digest) => PrintTwo("dockerhub", a, b, digest);
  }

  // ----- keys and attributes -----

  /** No key fits the patterns of two registries. */
  lemma {:induction false} OnePattern(key: string, k: Kind, l: Kind)
    requires Match(k, key).Some? && Match(l, key).Some?
    ensures k == l
  {
    hide Lower, CutFields, FieldOk, LastOk, IsDigest;
    var m, n := |Scheme(k)|, |Scheme(l)|;
    if m < n {
      SchemeText(l, key, m);
    } else if n < m {
      SchemeText(k, key, n);
    }
  }

  lemma {:induction false} SchemeText(k: Kind, key: string, i: nat)
    requires i < |Scheme(k)| <= |key| && Lower(key[..|Scheme(k)|]) == Scheme(k)
    ensures key[i] != ':'
  {
    LowerIndex(key[..|Scheme(k)|], i);
    assert Scheme(k)[i] != ':';
  }

  lemma {:induction false} PrintTrimmed(im: Image)
    requires IsDigest(im.digest)
    ensures Trim(Print(PartsOf(im))) == Print(PartsOf(im)) != ""
  {
    hide Join, Trim, Lower, FieldOk, LastOk;
    var key := Print(PartsOf(im));
    assert key[0] == Scheme(KindOf(im))[0];
    assert key[|key| - 1] == im.digest[70];
    TrimNone(key);
  }

  lemma {:induction false} AttributesOfAsset(im: Image)
    requires WellFormed(KindOf(im), PartsOf(im))
    ensures AttributesAgree(ImageToAsset(im), KindOf(im), NormalFields(KindOf(im), FieldsOf(im)), Lower(im.digest))
  {
    hide Lower, IsDigest, WellFormed, FieldAttr, Normal, KindOf;
    var t, k, f := ImageToAsset(im), KindOf(im), FieldsOf(im);
    FieldsNonEmpty(k, PartsOf(im));
    forall i | 0 <= i < |f|
      ensures FieldAttr(t, k, i) == Some(f[i])
    {
      FieldOfAsset(im, i);
    }
  }

  lemma {:induction false} FieldOfAsset(im: Image, i: nat)
    requires i < |FieldsOf(im)| && FieldsOf(im)[i] != ""
    ensures FieldAttr(ImageToAsset(im), KindOf(im), i) == Some(FieldsOf(im)[i])
  {
    hide ImageToAsset, FieldAttr;
    match im {
      case EcrImage(_, _, _, _) => FieldOfEcr(im, i);
      case GcrImage(_, _, _, _, _) => FieldOfGcr(im, i);
      case AcrImage(_, _, _, _, _, _) => FieldOfAcr(im, i);
      case DockerhubImage(_, _, _) => FieldOfDockerhub(im, i);
    }
  }

  lemma {:induction false} FieldOfEcr(im: Image, i: nat)
    requires im.EcrImage? && i < |FieldsOf(im)| && FieldsOf(im)[i] != ""
    ensures FieldAttr(ImageToAsset(im), Ecr, i) == Some(FieldsOf(im)[i])
  {
  }

  lemma {:induction false} FieldOfGcr(im: Image, i: nat)
    requires im.GcrImage? && i < |FieldsOf(im)| && FieldsOf(im)[i] != ""
    ensures FieldAttr(ImageToAsset(im), Gcr, i) == Some(FieldsOf(im)[i])
  {
  }

  lemma {:induction false} FieldOfAcr(im: Image, i: nat)
    requires im.AcrImage? && i < |FieldsOf(im)| && FieldsOf(im)[i] != ""
    ensures FieldAttr(ImageToAsset(im), Acr, i) == Some(FieldsOf(im)[i])
  {
  }

  lemma {:induction false} FieldOfDockerhub(im: Image, i: nat)
    requires im.DockerhubImage? && i < |FieldsOf(im)| && FieldsOf(im)[i] != ""
    ensures FieldAttr(ImageToAsset(im), Dockerhub, i) == Some(FieldsOf(im)[i])
  {
  }

  lemma {:induction false} FieldsNonEmpty(k: Kind, p: Parts)
    requires WellFormed(k, p)
    ensures forall i :: 0 <= i < |p.fields| ==> p.fields[i] != ""
    ensures IsDigest(p.digest)
  {
    hide Lower;
    forall i | 0 <= i < |p.fields|
      ensures p.fields[i] != ""
    {
      if i < Leading(k) {
        assert FieldOk(k, i, p.fields[i]);
      }
    }
  }

  // ----- what the connectors yield -----

  /** What a connector has checked of an image before it yields it: ids from its own configuration or
      from an answer, matched against its patterns, and the digest in lower case. */
  predicate Discovered(rules: Rules, im: Image) {
    && IsDigest(im.digest) && Lower(im.digest) == im.digest
    && match im
       case EcrImage(accountId, region, repositoryName, _) =>
         AccountId(accountId) && region != "" && rules.regionOk(region) && repositoryName != ""
       case GcrImage(projectId, location, repository, image, _) =>
         ProjectId(projectId) && LocationId(location) && GcrRepositoryId(repository) && image != "" && !IsUrl(image)
       case AcrImage(subscriptionId, resourceGroup, registry, loginServer, repository, _) =>
         && IsGuid(subscriptionId) && Lower(subscriptionId) == subscriptionId
         && resourceGroup != "" && '/' !in resourceGroup
         && RegistryName(registry) && Lower(registry) == registry
         && loginServer == registry + ".azurecr.io" && AcrRepository(repository)
       case DockerhubImage(namespace, repository, _) =>
         DockerName(namespace) && DockerIdOk(namespace) && DockerName(repository) && DockerIdOk(repository)
  }

  /** No line ends in the last field, which the patterns of the keys do not let through. */
  predicate OneLine(im: Image) {
    var last := FieldsOf(im)[Leading(KindOf(im))];
    '\n' !in last && '\r' !in last && '\U{2028}' !in last && '\U{2029}' !in last
  }

  /** What the reader asks of ids beyond what the connectors have checked. */
  predicate NamesReadable(im: Image) {
    match im
    case EcrImage(_, _, _, _) => true
    case GcrImage(_, _, _, image, _) => '@' !in image && !IsUrl(Trim(image))
    case AcrImage(_, group, _, _, repository, _) =>
      ResourceGroup(Trim(group)) && !Names(Trim(group), "azurecr.io") && !Names(repository, "azurecr.io")
    case DockerhubImage(_, _, _) => true
  }

  /** The options of the integration name no host and contradict nothing in the image. */
  predicate OptionsAgree(rules: Rules, im: Image, o: Options) {
    && rules.hostFree(o.values) && rules.hostFree(ImageToAsset(im).top)
    && match im
       case EcrImage(_, region, _, _) => Get(o.values, "region") in {None, Some(region)}
       case GcrImage(_, location, _, _, _) => Get(o.values, "location") in {None, Some(location)}
       case AcrImage(_, _, registry, _, _, _) =>
         var login := First(Get(o.values, "loginServer"), Get(o.values, "login_server"));
         login.Some? ==> LoginOk(registry, login.value)
       case DockerhubImage(_, _, _) => true
  }

  /** The reference that says the same as an image. */
  function RefOf(im: Image): Ref {
    Ref(KindOf(im), FieldsOf(im), im.digest, if im.EcrImage? then Some(im.region) else None)
  }

  lemma {:induction false} NotUrl(s: string)
    requires ':' !in s
    ensures !IsUrl(s)
  {
    if IsUrl(s) {
      var j := if At(Lower(s), 0, "http://") then 4 else 5;
      assert Lower(s)[j] == ':';
      LowerIndex(s, j);
    }
  }

  lemma {:induction false} NotNamed(s: string, w: string, j: nat)
    requires j < |w| && w[j] == '.' && '.' !in s
    ensures !Names(s, w)
  {
    var k := IndexOf(Lower(s), w, 0);
    if k >= 0 {
      assert Lower(s)[k + j] == Lower(s)[k..k + |w|][j] == '.';
      LowerIndex(s, k + j);
    }
  }

  lemma {:induction false} GcrReads(im: Image, rules: Rules)
    requires im.GcrImage? && Discovered(rules, im)
    ensures GcrIdsOk(im.projectId, im.location, im.repository, im.image) <==> NamesReadable(im)
  {
    hide Lower, Trim, IsUrl, Names, IsDigest;
    var p, l, r := im.projectId, im.location, im.repository;
    TrimNone(p);
    TrimNone(l);
    NotUrl(p);
    NotUrl(l);
    NotUrl(r);
    NotNamed(p, "pkg.dev", 3);
    NotNamed(l, "pkg.dev", 3);
  }

  lemma {:induction false} GuidEnds(s: string)
    requires IsGuid(s)
    ensures Trim(s) == s && ':' !in s
  {
    hide Trim;
    assert IsHex(s[0]) && IsHex(s[35]);
    TrimNone(s);
  }

  lemma {:induction false} AcrReads(im: Image, rules: Rules)
    requires im.AcrImage? && Discovered(rules, im)
    ensures AcrIdsOk(im.subscriptionId, im.resourceGroup, im.registry, im.repository) <==> NamesReadable(im)
  {
    hide Lower, Trim, IsUrl, Names, IsDigest, IsGuid;
    GuidEnds(im.subscriptionId);
    NotUrl(im.subscriptionId);
    TrimNone(im.registry);
    NotUrl(im.registry);
    TrimNone(im.repository);
    NotUrl(im.repository);
    if ResourceGroup(Trim(im.resourceGroup)) {
      NotUrl(Trim(im.resourceGroup));
    }
  }

  /** A login server is accepted exactly when, without white space around it and in lower case, it is the
      registry's name at `azurecr.io`, alone, with one dot behind it, or with a colon and anything. */
  lemma {:induction false} LoginExactly(registry: string, login: string)
    requires RegistryName(registry) && Lower(registry) == registry
    ensures LoginOk(registry, login) <==> exists tail :: IsOwnHost(registry, login, tail)
  {
    hide Trim, IsUrl, Lower, Cut;
    var host, text := registry + ".azurecr.io", Lower(Trim(login));
    if LoginOk(registry, login) {
      CutIs(DropDot(text), ':');
      assert text == host + text[|host|..];
      assert IsOwnHost(registry, login, text[|host|..]);
    }
    if tail :| IsOwnHost(registry, login, tail) {
      assert ':' !in host;
      OwnHostIsNoUrl(host, tail, Trim(login));
      if tail == "" || tail == "." {
        assert DropDot(text) == host;
        CutNone(host, ':');
      } else {
        var rest := DropDot(tail)[1..];
        assert DropDot(text) == host + [':'] + rest;
        CutAt(host, ':', rest);
      }
    }
  }

  predicate IsOwnHost(registry: string, login: string, tail: string) {
    Lower(Trim(login)) == registry + ".azurecr.io" + tail && (tail == "" || tail == "." || tail[0] == ':')
  }

  lemma {:induction false} OwnHostIsNoUrl(host: string, tail: string, s: string)
    requires ':' !in host && |host| >= 8 && Lower(s) == host + tail
    ensures !IsUrl(s)
  {
    hide Lower;
    assert Lower(s)[0..7][4] == host[4] != ':' && Lower(s)[0..8][5] == host[5] != ':';
  }

  /** A login server in the form in which the connector pins it passes the reader's check. */
  lemma {:induction false} OwnLogin(registry: string)
    requires RegistryName(registry) && Lower(registry) == registry
    ensures LoginOk(registry, registry + ".azurecr.io")
  {
    hide Trim, IsUrl, Lower, LoginOk;
    var login := registry + ".azurecr.io";
    forall i | 0 <= i < |login|
      ensures LowerChar(login[i]) == login[i]
    {
      if i < |registry| {
        LowerIndex(registry, i);
      }
    }
    LowerSame(login);
    TrimNone(login);
    assert login == login + "";
    assert IsOwnHost(registry, login, "");
    LoginExactly(registry, login);
  }

  /** A plain Docker Hub name is refused exactly when it ends like one of Docker's hosts, in any case and
      with or without a dot behind it. */
  lemma {:induction false} DockerIdExactly(s: string)
    requires DockerName(s)
    ensures DockerIdOk(s) <==>
      && !EndsWith(Lower(s), "docker.io") && !EndsWith(Lower(s), "docker.io.")
      && !EndsWith(Lower(s), "docker.com") && !EndsWith(Lower(s), "docker.com.")
  {
    hide Trim, IsUrl, Lower;
    TrimNone(s);
    NotUrl(s);
    assert "docker.io." == "docker.io" + "." && "docker.com." == "docker.com" + ".";
    EndsWithDot(Lower(s), "docker.io");
    EndsWithDot(Lower(s), "docker.com");
  }

  lemma {:induction false} EndsWithDot(s: string, w: string)
    requires w != "" && w[|w| - 1] != '.'
    ensures EndsWith(DropDot(s), w) <==> EndsWith(s, w) || EndsWith(s, w + ".")
  {
    var k := |s| - 1 - |w|;
    if k >= 0 {
      assert s[k..] == s[k..|s| - 1] + [s[|s| - 1]];
      assert s[..|s| - 1][k..] == s[k..|s| - 1];
      assert (w + ".")[..|w|] == w && (w + ".")[|w|] == '.';
      assert s[k..] == w + "." <==> s[k..|s| - 1] == w && s[|s| - 1] == '.';
      assert EndsWith(s, w + ".") <==> s[k..] == w + ".";
    }
    if EndsWith(s, w) {
      assert s[|s| - |w|..][|w| - 1] == s[|s| - 1];
    }
  }

  predicate Dashed(c: char) { 'a' <= c <= 'z' || '0' <= c <= '9' || c == '-' }

  /** The shapes of the ids of Google's registry, read from their parts. */
  lemma {:induction false} GcpShapes(first: char, middle: string, last: char)
    ensures var s := [first] + middle + [last];
      var ends := 'a' <= first <= 'z' && ('a' <= last <= 'z' || '0' <= last <= '9');
      var dashed := forall i :: 0 <= i < |middle| ==> Dashed(middle[i]);
      var dotted := forall i :: 0 <= i < |middle| ==> Dashed(middle[i]) || middle[i] == '.' || middle[i] == '_';
      && (ProjectId(s) <==> ends && dashed && 4 <= |middle| <= 28)
      && (LocationId(s) <==> ends && dashed && |middle| <= 61)
      && (GcrRepositoryId(s) <==> ends && dotted && |middle| <= 61)
  {
    var s := [first] + middle + [last];
    assert s[0] == first && s[|s| - 1] == last;
    assert forall i :: 0 < i < |s| - 1 ==> s[i] == middle[i - 1];
    assert forall i :: 0 <= i < |middle| ==> middle[i] == s[i + 1];
  }

  predicate HexDigits(s: string) {
    forall i :: 0 <= i < |s| ==> '0' <= s[i] <= '9' || 'a' <= s[i] <= 'f' || 'A' <= s[i] <= 'F'
  }

  /** A GUID is five runs of hexadecimal digits between dashes. */
  lemma {:induction false} GuidExactly(a: string, b: string, c: string, d: string, e: string)
    requires |a| == 8 && |b| == |c| == |d| == 4 && |e| == 12
    ensures IsGuid(a + "-" + b + "-" + c + "-" + d + "-" + e)
       <==> HexDigits(a) && HexDigits(b) && HexDigits(c) && HexDigits(d) && HexDigits(e)
  {
    var s := a + "-" + b + "-" + c + "-" + d + "-" + e;
    assert s[..8] == a && s[9..13] == b && s[14..18] == c && s[19..23] == d && s[24..] == e;
    assert forall i :: 0 <= i < 8 ==> s[i] == a[i];
    assert forall i :: 9 <= i < 13 ==> s[i] == b[i - 9];
    assert forall i :: 14 <= i < 18 ==> s[i] == c[i - 14];
    assert forall i :: 19 <= i < 23 ==> s[i] == d[i - 19];
    assert forall i :: 24 <= i < 36 ==> s[i] == e[i - 24];
    assert s[8] == s[13] == s[18] == s[23] == '-';
    assert forall i :: 0 <= i < 12 ==> e[i] == s[i + 24];
    assert forall i :: 0 <= i < 4 ==> b[i] == s[i + 9] && c[i] == s[i + 14] && d[i] == s[i + 19];
    assert forall i :: 0 <= i < 8 ==> a[i] == s[i];
  }

  predicate LowRun(s: string) { s != "" && forall i :: 0 <= i < |s| ==> 'a' <= s[i] <= 'z' || '0' <= s[i] <= '9' }

  /** The repositories of Azure's registry are runs of small letters and digits, joined by one separator. */
  lemma {:induction false} AcrRepositoryExactly(before: string, sep: char, run: string)
    requires LowRun(run)
    ensures AcrRepository(run)
    ensures AcrRepository(before + [sep] + run) <==>
      if 'a' <= sep <= 'z' || '0' <= sep <= '9' then before == "" || AcrRepository(before + [sep])
      else (sep == '.' || sep == '_' || sep == '-' || sep == '/') && AcrRepository(before)
  {
    var n, s := |before|, before + [sep] + run;
    assert s[n] == sep && forall i :: n < i < |s| ==> s[i] == run[i - n - 1];
    assert forall i :: 0 <= i < n ==> s[i] == before[i];
    assert forall i :: 0 <= i <= n ==> (before + [sep])[i] == s[i];
    assert s[n + 1] == run[0];
  }

  /** Letters and digits, or one of the characters in `extra`. */
  predicate MadeOf(s: string, extra: string) {
    forall i :: 0 <= i < |s| ==> '0' <= s[i] <= '9' || 'a' <= s[i] <= 'z' || 'A' <= s[i] <= 'Z' || s[i] in extra
  }

  /** The other shapes: lengths and characters. */
  lemma {:induction false} IdShapes(s: string)
    ensures AccountId(s) <==> |s| == 12 && forall i :: 0 <= i < 12 ==> '0' <= s[i] <= '9'
    ensures RegistryName(s) <==> 5 <= |s| <= 50 && MadeOf(s, "")
    ensures DockerName(s) <==> s != "" && MadeOf(s, "_.-")
    ensures ResourceGroup(s) <==> 1 <= |s| <= 90 && s[|s| - 1] != '.' && MadeOf(s, "_-.()")
  {
  }

  /** A digest is `sha256:`, in any case, and 64 hexadecimal digits. */
  lemma {:induction false} DigestExactly(head: string, digits: string)
    requires |head| == 7
    ensures IsDigest(head + digits) <==>
      Lower(head) == "sha256:" && |digits| == 64
      && forall i :: 0 <= i < |digits| ==> '0' <= digits[i] <= '9' || 'a' <= digits[i] <= 'f' || 'A' <= digits[i] <= 'F'
  {
    hide Lower;
    var s := head + digits;
    assert s[..7] == head;
    assert forall i :: 7 <= i < |s| ==> s[i] == digits[i - 7];
    assert forall i :: 0 <= i < |digits| ==> digits[i] == s[i + 7];
  }

  /** The ids of a yielded image pass the reader's rules exactly when its names are readable. */
  lemma {:induction false} IdsRead(rules: Rules, im: Image)
    requires Discovered(rules, im)
    ensures IdsOk(rules, KindOf(im), FieldsOf(im)) <==> NamesReadable(im)
  {
    hide GcrIdsOk, AcrIdsOk, DockerIdOk, IsUrl, Names, Trim;
    match im
    case EcrImage(_, _, _, _) =>
    case GcrImage(_, _, _, _, _) => GcrReads(im, rules);
    case AcrImage(_, _, _, _, _, _) => AcrReads(im, rules);
    case DockerhubImage(_, _, _) =>
  }

  // ----- reading back what is printed -----

  lemma {:induction false} NormalIsSame(rules: Rules, im: Image)
    requires Discovered(rules, im)
    ensures NormalFields(KindOf(im), FieldsOf(im)) == FieldsOf(im)
  {
    hide IsDigest, IsGuid, AcrRepository, DockerIdOk, Lower, IsUrl;
  }

  lemma {:induction false} FieldsGiven(rules: Rules, im: Image)
    requires Discovered(rules, im)
    ensures forall i :: 0 <= i < |FieldsOf(im)| ==> FieldsOf(im)[i] != ""
  {
    hide IsDigest, Lower, IsUrl, DockerIdOk;
  }

  lemma {:induction false} NoSlash(rules: Rules, im: Image)
    requires Discovered(rules, im)
    ensures forall i :: 0 <= i < Leading(KindOf(im)) ==> '/' !in FieldsOf(im)[i]
  {
    hide IsDigest, Lower, IsUrl, DockerIdOk, AcrRepository;
  }

  lemma {:induction false} TrimKeeps(s: string, c: char)
    requires c in s && !IsSpace(c)
    ensures c in Trim(s)
  {
    TrimStartKeeps(s, c);
    TrimEndKeeps(TrimStart(s), c);
  }

  lemma {:induction false} TrimStartKeeps(s: string, c: char)
    requires c in s && !IsSpace(c)
    ensures c in TrimStart(s)
  {
    if IsSpace(s[0]) {
      TrimStartKeeps(s[1..], c);
    }
  }

  lemma {:induction false} TrimEndKeeps(s: string, c: char)
    requires c in s && !IsSpace(c)
    ensures c in TrimEnd(s)
  {
    if IsSpace(s[|s| - 1]) {
      TrimEndKeeps(s[..|s| - 1], c);
    }
  }

  lemma {:induction false} EcrFits(rules: Rules, im: Image)
    requires im.EcrImage? && Discovered(rules, im)
    ensures WellFormed(Ecr, PartsOf(im)) <==> OneLine(im)
  {
    hide IsDigest, Lower, AccountId, IsNumeral;
    SchemeLower(Ecr);
    NoSignInAccount(im.accountId);
    var f := FieldsOf(im);
    assert FieldOk(Ecr, 0, f[0]);
    assert LastOk(Ecr, f[1]) <==> OneLine(im);
  }

  lemma {:induction false} NoSignInAccount(s: string)
    requires AccountId(s)
    ensures s != "" && '/' !in s && '@' !in s
  {
  }

  lemma {:induction false} SchemeLower(k: Kind)
    ensures Lower(Scheme(k)) == Scheme(k)
  {
    hide Lower;
    LowerSame(Scheme(k));
  }

  lemma {:induction false} GcrFits(rules: Rules, im: Image)
    requires im.GcrImage? && Discovered(rules, im)
    ensures WellFormed(Gcr, PartsOf(im)) <==> OneLine(im)
  {
    hide IsDigest, Lower, IsUrl;
    SchemeLower(Gcr);
    var f := FieldsOf(im);
    assert FieldOk(Gcr, 0, f[0]) && FieldOk(Gcr, 1, f[1]) && FieldOk(Gcr, 2, f[2]);
    assert LastOk(Gcr, f[3]) <==> OneLine(im);
  }

  lemma {:induction false} AcrFits(rules: Rules, im: Image)
    requires im.AcrImage? && Discovered(rules, im)
    ensures OneLine(im) && (WellFormed(Acr, PartsOf(im)) <==> '@' !in im.resourceGroup)
  {
    hide IsDigest, Lower, IsGuid;
    SchemeLower(Acr);
    NoSignInGuid(im.subscriptionId);
    var f := FieldsOf(im);
    assert FieldOk(Acr, 0, f[0]) && FieldOk(Acr, 2, f[2]) && LastOk(Acr, f[3]);
    assert FieldOk(Acr, 1, f[1]) <==> '@' !in f[1];
  }

  lemma {:induction false} NoSignInGuid(s: string)
    requires IsGuid(s)
    ensures s != "" && '/' !in s && '@' !in s
  {
  }

  lemma {:induction false} DockerFits(rules: Rules, im: Image)
    requires im.DockerhubImage? && Discovered(rules, im)
    ensures OneLine(im) && WellFormed(Dockerhub, PartsOf(im))
  {
    hide IsDigest, Lower, DockerIdOk;
    SchemeLower(Dockerhub);
    var f := FieldsOf(im);
    assert FieldOk(Dockerhub, 0, f[0]) && LastOk(Dockerhub, f[1]);
  }

  /** A yielded image with readable names has a key that fits its pattern exactly when there is no
      line end in the last field. */
  lemma {:induction false} KeyFits(rules: Rules, im: Image)
    requires Discovered(rules, im)
    ensures NamesReadable(im) ==> (WellFormed(KindOf(im), PartsOf(im)) <==> OneLine(im))
    ensures !OneLine(im) ==> !WellFormed(KindOf(im), PartsOf(im))
  {
    hide Discovered, WellFormed, OneLine, Names, Trim, IsUrl, PartsOf;
    match im
    case EcrImage(_, _, _, _) => EcrFits(rules, im);
    case GcrImage(_, _, _, _, _) => GcrFits(rules, im);
    case AcrImage(_, group, _, _, _, _) =>
      AcrFits(rules, im);
      if '@' in group {
        TrimKeeps(group, '@');
      }
    case DockerhubImage(_, _, _) => DockerFits(rules, im);
  }

  lemma {:induction false} MatchPrinted(k: Kind, p: Parts)
    requires p.scheme == Scheme(k) && |p.fields| == Leading(k) + 1 && IsDigest(p.digest)
    requires forall i :: 0 <= i < Leading(k) ==> '/' !in p.fields[i]
    ensures Match(k, Print(p)) == if WellFormed(k, p) then Some(p) else None
  {
    hide Lower, CutFields, WellFormed;
    JoinCutFields(p.fields);
    assert Join(p.fields, '/') != "";
    hide Join;
    PrintParts(p);
  }

  /** A key that begins with the scheme of a registry fits no pattern of another. */
  lemma {:induction false} OwnPattern(k: Kind, p: Parts, l: Kind)
    requires p.scheme == Scheme(k) && Match(l, Print(p)).Some?
    ensures l == k
  {
    hide Lower, CutFields, WellFormed, Join;
    var key, m, n := Print(p), |Scheme(k)|, |Scheme(l)|;
    assert key[..m] == Scheme(k) && key[m] == ':';
    SchemeLower(k);
    LowerScheme(l, key);
    if m < n {
      SchemeText(l, key, m);
    } else if n < m {
      SchemeText(k, key, n);
    }
  }

  lemma {:induction false} LowerScheme(k: Kind, key: string)
    requires Match(k, key).Some?
    ensures |Scheme(k)| < |key| && key[|Scheme(k)|] == ':' && Lower(key[..|Scheme(k)|]) == Scheme(k)
  {
    hide Lower, CutFields, FieldOk, LastOk, IsDigest;
  }

  lemma {:induction false} NotMatched(rules: Rules, k: Kind, key: string, t: Target, o: Options)
    ensures Match(k, key).None? ==> ParseAs(rules, k, key, t, o).None?
  {
    hide Match;
  }

  lemma {:induction false} OneParser(rules: Rules, k: Kind, key: string, t: Target, o: Options)
    requires forall l :: Match(l, key).Some? ==> l == k
    ensures ParseKey(rules, key, t, o) == ParseAs(rules, k, key, t, o)
  {
    hide Match, ParseAs;
    NotMatched(rules, k, key, t, o);
  }

  lemma {:induction false} ParsedByPattern(rules: Rules, im: Image, o: Options)
    ensures var t := ImageToAsset(im);
      ParseKey(rules, t.externalKey, t, o) == ParseAs(rules, KindOf(im), t.externalKey, t, o)
  {
    hide Match, ImageToAsset, Print, ParseKey, ParseAs, FieldsOf;
    var k, t := KindOf(im), ImageToAsset(im);
    AssetKey(im);
    forall l | Match(l, t.externalKey).Some?
      ensures l == k
    {
      OwnPattern(k, PartsOf(im), l);
    }
    OneParser(rules, k, t.externalKey, t, o);
  }

  /** The checks that follow the patterns. */
  lemma {:induction false} ChecksOfAsset(rules: Rules, im: Image, t: Target, o: Options)
    requires Discovered(rules, im) && t.top == ImageToAsset(im).top && t.attributes == ImageToAsset(im).attributes
    requires rules.hostFree(o.values) && rules.hostFree(ImageToAsset(im).top)
    ensures var k := KindOf(im);
      && (OwnChecks(rules, k, FieldsOf(im), t, o) <==> OptionsAgree(rules, im, o) && NamesReadable(im))
      && (k == Ecr && OptionsAgree(rules, im, o) ==> ResolveRegion(rules, t, o) == Some(im.region))
  {
    hide NamesReadable, IdsOk, LoginOk, IsDigest, Lower, OneOf;
    IdsRead(rules, im);
    match im
    case EcrImage(_, _, _, _) =>
    case GcrImage(_, _, _, _, _) =>
    case AcrImage(_, _, registry, _, _, _) => OwnLogin(registry);
    case DockerhubImage(_, _, _) =>
  }

  /** Reading back: an image that a connector yields is read from its asset as exactly the registry,
      fields and digest it was printed from, if the options agree with it, its names are readable and
      its last field is one line; in every other case the reader refuses it. */
  lemma {:induction false} AssetReadsBack(rules: Rules, im: Image, o: Options)
    requires Discovered(rules, im)
    ensures ParseContainerImageRef(rules, ImageToAsset(im), o)
         == if OptionsAgree(rules, im, o) && NamesReadable(im) && OneLine(im) then Some(RefOf(im)) else None
  {
    hide WellFormed, Match, Print, Trim, OwnChecks, AttributesAgree, NormalFields, ResolveRegion, Lower, NamesReadable,
      OneLine, IsDigest, ImageToAsset, FieldsOf;
    var k, t := KindOf(im), ImageToAsset(im);
    AssetKey(im);
    PrintTrimmed(im);
    ParsedByPattern(rules, im, o);
    NoSlash(rules, im);
    MatchPrinted(k, PartsOf(im));
    KeyFits(rules, im);
    NormalIsSame(rules, im);
    if rules.hostFree(o.values) && rules.hostFree(t.top) {
      ChecksOfAsset(rules, im, t, o);
      if WellFormed(k, PartsOf(im)) {
        AttributesOfAsset(im);
      }
    }
  }

  /** The GCR connector yields images whose name holds an `@`; the reader refuses every one of them. */
  lemma {:induction false} YieldedYetRefused(rules: Rules, digest: string, o: Options)
    requires IsDigest(digest) && Lower(digest) == digest
    ensures var im := GcrImage("project-1", "us", "images", "team@app", digest);
      Discovered(rules, im) && ParseContainerImageRef(rules, ImageToAsset(im), o) == None
  {
    hide IsDigest, Trim, ImageToAsset, ParseContainerImageRef, OptionsAgree, OneLine;
    NotUrl("team@app");
    AssetReadsBack(rules, GcrImage("project-1", "us", "images", "team@app", digest), o);
    assert "team@app"[4] == '@';
  }

  /** Two images have the same key exactly when they are of one registry and agree on every field of
      the key and on the digest. */
  lemma {:induction false} KeysAreInjective(a: Image, b: Image)
    requires WellFormed(KindOf(a), PartsOf(a)) && WellFormed(KindOf(b), PartsOf(b))
    ensures ImageToAsset(a).externalKey == ImageToAsset(b).externalKey <==> PartsOf(a) == PartsOf(b)
  {
    hide WellFormed, Match, Print, ImageToAsset;
    AssetKey(a);
    AssetKey(b);
    var key := ImageToAsset(a).externalKey;
    if key == ImageToAsset(b).externalKey {
      MatchExactly(KindOf(a), key, PartsOf(a));
      MatchExactly(KindOf(b), key, PartsOf(b));
      OnePattern(key, KindOf(a), KindOf(b));
    }
  }

  /** What a target states under a name: on its top level, else among its attributes; an empty text
      states nothing. */
  predicate Says(t: Target, name: string, v: string) {
    && v != ""
    && if name in t.top && t.top[name] != "" then t.top[name] == v else name in t.attributes && t.attributes[name] == v
  }

  lemma {:induction false} SaysExactly(t: Target, name: string)
    ensures forall v :: Says(t, name, v) <==> Attr(t, name) == Some(v)
  {
  }

  /** Whatever the target states under `name` is `w`. */
  ghost predicate OnlySays(t: Target, name: string, w: string) { forall v :: Says(t, name, v) ==> v == w }

  ghost predicate OnlySaysFolded(t: Target, name: string, w: string) { forall v :: Says(t, name, v) ==> Lower(v) == w }

  /** The target and the options contradict nothing in the reference. */
  ghost predicate Consistent(t: Target, o: Options, r: Ref)
    requires |r.fields| == Leading(r.kind) + 1
  {
    && OnlySaysFolded(t, "digest", r.digest)
    && match r.kind
       case Ghcr => OnlySays(t, "owner", r.fields[0]) && OnlySays(t, "package", r.fields[1])
       case Ecr => OnlySays(t, "accountId", r.fields[0]) && OnlySays(t, "repository", r.fields[1])
                   && r.region.Some? && OnlySays(t, "region", r.region.value)
                   && ("region" in o.values && o.values["region"] != "" ==> r.region == Some(o.values["region"]))
       case Gcr => OnlySays(t, "projectId", r.fields[0]) && OnlySays(t, "location", r.fields[1])
                   && OnlySays(t, "repository", r.fields[2]) && OnlySays(t, "image", r.fields[3])
                   && ("location" in o.values && o.values["location"] != "" ==> o.values["location"] == r.fields[1])
       case Acr => OnlySaysFolded(t, "subscriptionId", r.fields[0]) && OnlySays(t, "resourceGroup", r.fields[1])
                   && OnlySaysFolded(t, "registry", r.fields[2]) && OnlySays(t, "repository", r.fields[3])
                   && (forall v :: Says(t, "loginServer", v) ==> LoginOk(r.fields[2], v))
       case Dockerhub => OnlySays(t, "namespace", r.fields[0]) && OnlySays(t, "repository", r.fields[1])
       case Quay => OnlySays(t, "namespace", r.fields[0]) && OnlySays(t, "repository", r.fields[1])
  }

  /** A target is refused when an attribute of it, or an option, contradicts its key. */
  lemma {:induction false} ReadsConsistently(rules: Rules, t: Target, o: Options)
    requires Trim(t.externalKey) != "" && ParseContainerImageRef(rules, t, o).Some?
    ensures var r := ParseContainerImageRef(rules, t, o).value; |r.fields| == Leading(r.kind) + 1 && Consistent(t, o, r)
  {
    hide Match, Trim, NormalFields, Consistent, OwnChecks, AttributesAgree, ResolveRegion;
    var key := Trim(t.externalKey);
    var r := ParseContainerImageRef(rules, t, o).value;
    ParsedConsistently(rules, r.kind, key, t, o);
  }

  lemma {:induction false} ParsedConsistently(rules: Rules, k: Kind, key: string, t: Target, o: Options)
    requires ParseAs(rules, k, key, t, o).Some?
    ensures var r := ParseAs(rules, k, key, t, o).value; r.kind == k && |r.fields| == Leading(k) + 1 && Consistent(t, o, r)
  {
    Matched(k, key);
    hide Consistent, Match, AttributesAgree, IdsOk, NormalFields, ResolveRegion, Lower, IsDigest;
    var fields, digest := NormalFields(k, Match(k, key).value.fields), Lower(Match(k, key).value.digest);
    match k {
      case Ecr => EcrConsistent(rules, fields, digest, t, o);
      case Gcr => GcrConsistent(rules, fields, digest, t, o);
      case Acr => AcrConsistent(rules, fields, digest, t, o);
      case _ => PairConsistent(k, fields, digest, t, o);
    }
  }

  lemma {:induction false} DigestAgrees(k: Kind, fields: seq<string>, digest: string, t: Target)
    requires AttributesAgree(t, k, fields, digest)
    ensures OnlySaysFolded(t, "digest", digest)
  {
    hide IsDigest, Lower, FieldAttr, Attr, Says;
    SaysExactly(t, "digest");
  }

  lemma {:induction false} PairConsistent(k: Kind, fields: seq<string>, digest: string, t: Target, o: Options)
    requires k in {Ghcr, Dockerhub, Quay} && |fields| == 2 && AttributesAgree(t, k, fields, digest)
    ensures Consistent(t, o, Ref(k, fields, digest, None))
  {
    hide IsDigest, Lower, Attr, Says, OnlySaysFolded;
    DigestAgrees(k, fields, digest, t);
    SaysExactly(t, "owner");
    SaysExactly(t, "package");
    SaysExactly(t, "namespace");
    SaysExactly(t, "repository");
    assert forall i :: 0 <= i < 2 && FieldAttr(t, k, i).Some? ==> FieldAttr(t, k, i).value == fields[i];
    assert FieldAttr(t, k, 0) == Attr(t, if k == Ghcr then "owner" else "namespace");
    assert FieldAttr(t, k, 1) == Attr(t, if k == Ghcr then "package" else "repository");
  }

  lemma {:induction false} EcrConsistent(rules: Rules, fields: seq<string>, digest: string, t: Target, o: Options)
    requires |fields| == 2 && AttributesAgree(t, Ecr, fields, digest) && ResolveRegion(rules, t, o).Some?
    ensures Consistent(t, o, Ref(Ecr, fields, digest, ResolveRegion(rules, t, o)))
  {
    hide IsDigest, Lower, Attr, Says, OneOf, OnlySaysFolded;
    DigestAgrees(Ecr, fields, digest, t);
    SaysExactly(t, "accountId");
    SaysExactly(t, "repository");
    SaysExactly(t, "region");
    assert FieldAttr(t, Ecr, 0) == Attr(t, "accountId");
    assert Attr(t, "repository").Some? ==> FieldAttr(t, Ecr, 1) == Attr(t, "repository");
  }

  lemma {:induction false} GcrConsistent(rules: Rules, fields: seq<string>, digest: string, t: Target, o: Options)
    requires |fields| == 4 && AttributesAgree(t, Gcr, fields, digest) && OwnChecks(rules, Gcr, fields, t, o)
    ensures Consistent(t, o, Ref(Gcr, fields, digest, None))
  {
    hide IsDigest, Lower, Attr, Says, IdsOk, ResolveRegion, LoginOk, OnlySaysFolded;
    DigestAgrees(Gcr, fields, digest, t);
    SaysExactly(t, "projectId");
    SaysExactly(t, "location");
    SaysExactly(t, "repository");
    SaysExactly(t, "image");
    assert FieldAttr(t, Gcr, 0) == Attr(t, "projectId") && FieldAttr(t, Gcr, 1) == Attr(t, "location");
    assert FieldAttr(t, Gcr, 2) == Attr(t, "repository") && FieldAttr(t, Gcr, 3) == Attr(t, "image");
  }

  lemma {:induction false} AcrConsistent(rules: Rules, fields: seq<string>, digest: string, t: Target, o: Options)
    requires |fields| == 4 && AttributesAgree(t, Acr, fields, digest) && OwnChecks(rules, Acr, fields, t, o)
    ensures Consistent(t, o, Ref(Acr, fields, digest, None))
  {
    hide IsDigest, Lower, Attr, Says, IdsOk, ResolveRegion, LoginOk;
    DigestAgrees(Acr, fields, digest, t);
    SaysExactly(t, "subscriptionId");
    SaysExactly(t, "resourceGroup");
    SaysExactly(t, "registry");
    SaysExactly(t, "repository");
    SaysExactly(t, "loginServer");
    assert FieldAttr(t, Acr, 0) == Attr(t, "subscriptionId") && FieldAttr(t, Acr, 1) == Attr(t, "resourceGroup");
    assert FieldAttr(t, Acr, 2) == Attr(t, "registry") && FieldAttr(t, Acr, 3) == Attr(t, "repository");
  }

  // ----- reading back without the key -----

  function Keyless(im: Image): Target { ImageToAsset(im).(externalKey := "") }

  lemma {:induction false} FieldsOfAsset(im: Image, o: Options, n: nat)
    requires n <= |FieldsOf(im)| && forall i :: 0 <= i < n ==> FieldsOf(im)[i] != ""
    ensures FieldsWithoutKey(Keyless(im), o, KindOf(im), n) == Some(FieldsOf(im)[..n])
  {
    hide ImageToAsset, FieldAttr, KindOf, FieldsOf;
    if n > 0 {
      FieldsOfAsset(im, o, n - 1);
      FieldOfAsset(im, n - 1);
      KeyDoesNotMatter(im, n - 1);
      assert FieldsOf(im)[..n] == FieldsOf(im)[..n - 1] + [FieldsOf(im)[n - 1]];
    }
  }

  lemma {:induction false} KeyDoesNotMatter(im: Image, i: nat)
    ensures FieldAttr(Keyless(im), KindOf(im), i) == FieldAttr(ImageToAsset(im), KindOf(im), i)
  {
  }

  lemma {:induction false} DigestOfAsset(im: Image)
    requires IsDigest(im.digest)
    ensures HasDigest(Keyless(im)) && Attr(Keyless(im), "digest") == Some(im.digest)
  {
    assert im.digest != "";
    hide IsDigest;
  }

  lemma {:induction false} ShapesOfIds(rules: Rules, im: Image)
    requires Discovered(rules, im)
    ensures forall i: nat :: i < |FieldsOf(im)| ==> ShapeOk(rules, KindOf(im), i, FieldsOf(im)[i])
  {
    hide IsDigest, Lower, IsUrl, DockerIdOk, AccountId, ProjectId, GcrRepositoryId, IsGuid, RegistryName, DockerName;
  }

  lemma {:induction false} ParsedByAttributes(rules: Rules, im: Image, o: Options)
    requires Discovered(rules, im) && rules.hostFree(o.values) && rules.hostFree(ImageToAsset(im).top)
    ensures ParseWithoutKeyAs(rules, KindOf(im), Keyless(im), o)
         == if OptionsAgree(rules, im, o) && NamesReadable(im) then Some(RefOf(im)) else None
  {
    hide OwnChecks, ResolveRegion, FieldsWithoutKey, NormalFields, Lower, IsDigest, HasDigest, Attr, ImageToAsset, FieldsOf,
      NamesReadable, OptionsAgree, ShapeOk;
    var k, f := KindOf(im), FieldsOf(im);
    FieldsGiven(rules, im);
    FieldsOfAsset(im, o, |f|);
    assert f[..|f|] == f;
    DigestOfAsset(im);
    ShapesOfIds(rules, im);
    NormalIsSame(rules, im);
    ChecksOfAsset(rules, im, Keyless(im), o);
  }

  // The attributes of an asset that select its registry.

  lemma {:induction false} AttrsOfEcr(im: Image)
    requires im.EcrImage? && forall i :: 0 <= i < |FieldsOf(im)| ==> FieldsOf(im)[i] != ""
    ensures var t := Keyless(im);
      && Attr(t, "accountId") == Some(im.accountId) && Attr(t, "projectId") == None && Attr(t, "subscriptionId") == None
      && Attr(t, "owner") == None
  {
    assert FieldsOf(im)[0] != "" && FieldsOf(im)[1] != "";
  }

  lemma {:induction false} AttrsOfGcr(im: Image)
    requires im.GcrImage? && forall i :: 0 <= i < |FieldsOf(im)| ==> FieldsOf(im)[i] != ""
    ensures var t := Keyless(im);
      && Attr(t, "projectId") == Some(im.projectId) && Attr(t, "location") == Some(im.location)
      && Attr(t, "repository") == Some(im.repository) && Attr(t, "image") == Some(im.image)
  {
    assert FieldsOf(im)[0] != "" && FieldsOf(im)[1] != "" && FieldsOf(im)[2] != "" && FieldsOf(im)[3] != "";
  }

  lemma {:induction false} AttrsOfAcr(im: Image)
    requires im.AcrImage? && forall i :: 0 <= i < |FieldsOf(im)| ==> FieldsOf(im)[i] != ""
    ensures var t := Keyless(im);
      && Attr(t, "projectId") == None && Attr(t, "subscriptionId") == Some(im.subscriptionId)
      && Attr(t, "registry") == Some(im.registry) && Attr(t, "repository") == Some(im.repository)
  {
    assert FieldsOf(im)[0] != "" && FieldsOf(im)[1] != "" && FieldsOf(im)[2] != "" && FieldsOf(im)[3] != "";
  }

  lemma {:induction false} AttrsOfDockerhub(im: Image)
    requires im.DockerhubImage? && forall i :: 0 <= i < |FieldsOf(im)| ==> FieldsOf(im)[i] != ""
    ensures var t := Keyless(im);
      && Attr(t, "accountId") == None && Attr(t, "projectId") == None && Attr(t, "subscriptionId") == None
      && Attr(t, "source") != Some("quay")
      && Attr(t, "namespace") == Some(im.namespace) && Attr(t, "repository") == Some(im.repository)
  {
    assert FieldsOf(im)[0] != "" && FieldsOf(im)[1] != "";
  }

  lemma {:induction false} EcrSelected(rules: Rules, t: Target, o: Options)
    requires Attr(t, "projectId").None? && Attr(t, "subscriptionId").None? && Attr(t, "owner").None?
    requires Attr(t, "accountId").Some? && Shaped(rules, t, Ecr, 0)
    ensures ParseWithoutKey(rules, t, o) == ParseWithoutKeyAs(rules, Ecr, t, o)
  {
    hide ParseWithoutKeyAs, HasDigest, Attr, ShapeOk;
  }

  lemma {:induction false} SelectsEcr(rules: Rules, im: Image, o: Options)
    requires im.EcrImage? && Discovered(rules, im)
    ensures ParseWithoutKey(rules, Keyless(im), o) == ParseWithoutKeyAs(rules, Ecr, Keyless(im), o)
  {
    hide AccountId, IsDigest, Keyless, HasDigest, ParseWithoutKey, ParseWithoutKeyAs, Attr, FieldsOf;
    assert ShapeOk(rules, Ecr, 0, im.accountId);
    FieldsGiven(rules, im);
    DigestOfAsset(im);
    AttrsOfEcr(im);
    hide Discovered, ShapeOk;
    EcrSelected(rules, Keyless(im), o);
  }

  lemma {:induction false} GcrSelected(rules: Rules, t: Target, o: Options)
    requires HasDigest(t) && Attr(t, "location").Some? && Attr(t, "repository").Some? && Attr(t, "image").Some?
    requires Shaped(rules, t, Gcr, 0)
    ensures ParseWithoutKey(rules, t, o) == ParseWithoutKeyAs(rules, Gcr, t, o)
  {
    hide ParseWithoutKeyAs, HasDigest, Attr, ShapeOk;
  }

  lemma {:induction false} SelectsGcr(rules: Rules, im: Image, o: Options)
    requires im.GcrImage? && Discovered(rules, im)
    ensures ParseWithoutKey(rules, Keyless(im), o) == ParseWithoutKeyAs(rules, Gcr, Keyless(im), o)
  {
    hide ProjectId, GcrRepositoryId, IsDigest, Keyless, HasDigest, ParseWithoutKey, ParseWithoutKeyAs, Attr, FieldsOf;
    assert ShapeOk(rules, Gcr, 0, im.projectId);
    FieldsGiven(rules, im);
    DigestOfAsset(im);
    AttrsOfGcr(im);
    hide Discovered, ShapeOk;
    GcrSelected(rules, Keyless(im), o);
  }

  lemma {:induction false} AcrSelected(rules: Rules, t: Target, o: Options)
    requires HasDigest(t) && Attr(t, "projectId").None? && Attr(t, "repository").Some?
    requires Shaped(rules, t, Acr, 0) && Shaped(rules, t, Acr, 2)
    ensures ParseWithoutKey(rules, t, o) == ParseWithoutKeyAs(rules, Acr, t, o)
  {
    hide ParseWithoutKeyAs, HasDigest, Attr, ShapeOk;
  }

  lemma {:induction false} SelectsAcr(rules: Rules, im: Image, o: Options)
    requires im.AcrImage? && Discovered(rules, im)
    ensures ParseWithoutKey(rules, Keyless(im), o) == ParseWithoutKeyAs(rules, Acr, Keyless(im), o)
  {
    hide IsGuid, RegistryName, IsDigest, Keyless, HasDigest, ParseWithoutKey, ParseWithoutKeyAs, Attr, FieldsOf;
    assert ShapeOk(rules, Acr, 0, im.subscriptionId) && ShapeOk(rules, Acr, 2, im.registry);
    FieldsGiven(rules, im);
    DigestOfAsset(im);
    AttrsOfAcr(im);
    hide Discovered, ShapeOk;
    AcrSelected(rules, Keyless(im), o);
  }

  lemma {:induction false} DockerhubSelected(rules: Rules, t: Target, o: Options)
    requires HasDigest(t) && Attr(t, "projectId").None? && Attr(t, "subscriptionId").None? && Attr(t, "accountId").None?
    requires Attr(t, "source") != Some("quay") && Shaped(rules, t, Dockerhub, 0) && Shaped(rules, t, Dockerhub, 1)
    ensures ParseWithoutKey(rules, t, o) == ParseWithoutKeyAs(rules, Dockerhub, t, o)
  {
    hide ParseWithoutKeyAs, HasDigest, Attr, ShapeOk;
  }

  lemma {:induction false} SelectsDockerhub(rules: Rules, im: Image, o: Options)
    requires im.DockerhubImage? && Discovered(rules, im)
    ensures ParseWithoutKey(rules, Keyless(im), o) == ParseWithoutKeyAs(rules, Dockerhub, Keyless(im), o)
  {
    hide DockerName, DockerIdOk, IsDigest, Keyless, HasDigest, ParseWithoutKey, ParseWithoutKeyAs, Attr, FieldsOf;
    assert ShapeOk(rules, Dockerhub, 0, im.namespace) && ShapeOk(rules, Dockerhub, 1, im.repository);
    FieldsGiven(rules, im);
    DigestOfAsset(im);
    AttrsOfDockerhub(im);
    hide Discovered, ShapeOk;
    DockerhubSelected(rules, Keyless(im), o);
  }

  lemma {:induction false} SelectsRegistry(rules: Rules, im: Image, o: Options)
    requires Discovered(rules, im)
    ensures ParseWithoutKey(rules, Keyless(im), o) == ParseWithoutKeyAs(rules, KindOf(im), Keyless(im), o)
  {
    hide ParseWithoutKeyAs, ParseWithoutKey, Discovered, Keyless;
    match im
    case EcrImage(_, _, _, _) => SelectsEcr(rules, im, o);
    case GcrImage(_, _, _, _, _) => SelectsGcr(rules, im, o);
    case AcrImage(_, _, _, _, _, _) => SelectsAcr(rules, im, o);
    case DockerhubImage(_, _, _) => SelectsDockerhub(rules, im, o);
  }

  /** The attributes alone say the same as the key: without it they select the same registry, and the
      image is read back under the same condition but for the line ends, which only a pattern sees. */
  lemma {:induction false} AttributesReadBack(rules: Rules, im: Image, o: Options)
    requires Discovered(rules, im)
    ensures ParseContainerImageRef(rules, Keyless(im), o)
         == if OptionsAgree(rules, im, o) && NamesReadable(im) then Some(RefOf(im)) else None
  {
    hide Discovered, ParseWithoutKeyAs, ParseWithoutKey, ImageToAsset, FieldsOf, NamesReadable;
    SelectsRegistry(rules, im, o);
    if rules.hostFree(o.values) && rules.hostFree(ImageToAsset(im).top) {
      ParsedByAttributes(rules, im, o);
    }
  }

  /** What a target without a key must state for a reference to be read: a digest, ids that pass the rules
      of the registry; and the source decides between Quay and Docker Hub, for which no id of another
      cloud may be stated. */
  lemma {:induction false} KeylessReads(rules: Rules, t: Target, o: Options)
    requires Trim(t.externalKey) == "" && ParseContainerImageRef(rules, t, o).Some?
    ensures var r := ParseContainerImageRef(rules, t, o).value;
      && |r.fields| == Leading(r.kind) + 1 && IdsOk(rules, r.kind, r.fields)
      && (exists d :: Says(t, "digest", d) && IsDigest(d) && r.digest == Lower(d))
      && (r.kind == Quay ==> Says(t, "source", "quay"))
      && (r.kind == Dockerhub ==> !Says(t, "source", "quay"))
      && (r.kind in {Quay, Dockerhub} ==>
           forall v :: !Says(t, "accountId", v) && !Says(t, "projectId", v) && !Says(t, "subscriptionId", v))
  {
    SaysExactly(t, "digest");
    SaysExactly(t, "source");
    SaysExactly(t, "accountId");
    SaysExactly(t, "projectId");
    SaysExactly(t, "subscriptionId");
    hide Says, Trim, Attr, IdsOk, IsDigest, Lower, NormalFields, FieldsWithoutKey, ShapeOk, Shaped, ResolveRegion, LoginOk;
    var r := ParseContainerImageRef(rules, t, o).value;
    assert ParseWithoutKeyAs(rules, r.kind, t, o) == Some(r);
    var d := Attr(t, "digest").value;
    assert Says(t, "digest", d);
  }
}
