/** Shortest dependency paths of a CycloneDX document (`apps/scanner-sca/src/sbom.parser.ts`). */
module SbomPaths {
  import opened Core

  type Ref = string

  /** A `dependencies` entry; an absent `dependsOn` is the empty list. */
  datatype Dependency = Dependency(ref: Ref, dependsOn: seq<Ref>)

  // ----- the graph -----

  /** `new Map(entries)`: for a repeated ref the last entry wins. */
  function EdgeMap(deps: seq<Dependency>): map<Ref, seq<Ref>> {
    if deps == [] then map[]
    else EdgeMap(deps[..|deps| - 1])[deps[|deps| - 1].ref := deps[|deps| - 1].dependsOn]
  }

  function Successors(edges: map<Ref, seq<Ref>>, r: Ref): seq<Ref> {
    if r in edges then edges[r] else []
  }

  /** `path` lists the refs after the root along real edges, and ends at `r`. */
  ghost predicate Chain(edges: map<Ref, seq<Ref>>, root: Ref, path: seq<Ref>, r: Ref)
    decreases |path|
  {
    if path == [] then r == root
    else
      && path[|path| - 1] == r
      && exists q :: Chain(edges, root, path[..|path| - 1], q) && r in Successors(edges, q)
  }

  ghost predicate Reachable(edges: map<Ref, seq<Ref>>, root: Ref, r: Ref) {
    exists path :: Chain(edges, root, path, r)
  }

  /** `path` is a chain to `r`, and no chain to `r` is shorter. */
  ghost predicate Shortest(edges: map<Ref, seq<Ref>>, root: Ref, path: seq<Ref>, r: Ref) {
    Chain(edges, root, path, r) && forall other :: Chain(edges, root, other, r) ==> |path| <= |other|
  }

  lemma {:induction false} ChainSnoc(edges: map<Ref, seq<Ref>>, root: Ref, path: seq<Ref>, q: Ref, r: Ref)
    requires Chain(edges, root, path, q) && r in Successors(edges, q)
    ensures Chain(edges, root, path + [r], r)
  {
    assert (path + [r])[..|path|] == path;
  }

  // ----- the state of the search -----

  ghost function AllRefs(edges: map<Ref, seq<Ref>>, root: Ref): set<Ref> {
    {root} + set q, r | q in edges && r in edges[q] :: r
  }

  /** Every ref in `next` has a path at most one longer than that of `q`. */
  ghost predicate Expanded(paths: map<Ref, seq<Ref>>, q: Ref, next: seq<Ref>) {
    q in paths && forall r :: r in next ==> r in paths && |paths[r]| <= |paths[q]| + 1
  }

  /** The queue is ordered by path length, and no path is more than one longer than the path of
      any queued ref. */
  ghost predicate QueueOrdered(paths: map<Ref, seq<Ref>>, queue: seq<Ref>) {
    && (forall i :: 0 <= i < |queue| ==> queue[i] in paths)
    && (forall i, j :: 0 <= i < j < |queue| ==> |paths[queue[i]]| <= |paths[queue[j]]|)
    && (forall i, r :: 0 <= i < |queue| && r in paths ==> |paths[r]| <= |paths[queue[i]]| + 1)
  }

  ghost predicate Sound(edges: map<Ref, seq<Ref>>, root: Ref, paths: map<Ref, seq<Ref>>) {
    && root in paths && paths[root] == []
    && paths.Keys <= AllRefs(edges, root)
    && forall r :: r in paths ==> Chain(edges, root, paths[r], r)
  }

  /** Between turns of the outer loop: what has been dequeued is expanded. */
  ghost predicate Searching(edges: map<Ref, seq<Ref>>, root: Ref, paths: map<Ref, seq<Ref>>, queue: seq<Ref>) {
    && Sound(edges, root, paths) && QueueOrdered(paths, queue)
    && forall q :: q in paths && q !in queue ==> Expanded(paths, q, Successors(edges, q))
  }

  /** Within a turn: `current` has left the queue and its successors in `seen` are expanded. */
  ghost predicate Expanding(
    edges: map<Ref, seq<Ref>>, root: Ref, paths: map<Ref, seq<Ref>>, queue: seq<Ref>, current: Ref, seen: seq<Ref>)
  {
    && Sound(edges, root, paths) && QueueOrdered(paths, queue)
    && (forall q :: q in paths && q !in queue && q != current ==> Expanded(paths, q, Successors(edges, q)))
    && Expanded(paths, current, seen)
    && (forall r :: r in paths ==> |paths[r]| <= |paths[current]| + 1)
    && (forall i :: 0 <= i < |queue| ==> |paths[current]| <= |paths[queue[i]]|)
  }

  lemma {:induction false} Dequeue(edges: map<Ref, seq<Ref>>, root: Ref, paths: map<Ref, seq<Ref>>, queue: seq<Ref>)
    requires queue != [] && Searching(edges, root, paths, queue)
    ensures Expanding(edges, root, paths, queue[1..], queue[0], [])
  {
    forall i | 0 <= i < |queue[1..]|
      ensures queue[1..][i] == queue[i + 1]
    {
    }
    forall q | q in queue && q != queue[0]
      ensures q in queue[1..]
    {
      var i :| 0 <= i < |queue| && queue[i] == q;
      assert queue[1..][i - 1] == q;
    }
  }

  lemma {:induction false} EnqueueOrdered(
    paths: map<Ref, seq<Ref>>, queue: seq<Ref>, current: Ref, ref: Ref)
    requires current in paths && ref !in paths && QueueOrdered(paths, queue)
    requires forall r :: r in paths ==> |paths[r]| <= |paths[current]| + 1
    requires forall i :: 0 <= i < |queue| ==> |paths[current]| <= |paths[queue[i]]|
    ensures QueueOrdered(paths[ref := paths[current] + [ref]], queue + [ref])
  {
    var paths', queue' := paths[ref := paths[current] + [ref]], queue + [ref];
    forall i | 0 <= i < |queue'|
      ensures queue'[i] in paths' && |paths[current]| <= |paths'[queue'[i]]| <= |paths[current]| + 1
    {
      if i < |queue| {
        assert queue'[i] == queue[i];
      }
    }
    forall i, j | 0 <= i < j < |queue'|
      ensures |paths'[queue'[i]]| <= |paths'[queue'[j]]|
    {
      if j < |queue| {
        assert queue'[i] == queue[i] && queue'[j] == queue[j];
      }
    }
  }

  lemma {:induction false} VisitNew(
    edges: map<Ref, seq<Ref>>, root: Ref, paths: map<Ref, seq<Ref>>, queue: seq<Ref>,
    current: Ref, seen: seq<Ref>, ref: Ref)
    requires Expanding(edges, root, paths, queue, current, seen)
    requires ref in Successors(edges, current) && ref !in paths
    ensures Expanding(edges, root, paths[ref := paths[current] + [ref]], queue + [ref], current, seen + [ref])
  {
    hide Chain, AllRefs, Reachable;
    var paths', queue' := paths[ref := paths[current] + [ref]], queue + [ref];
    assert Sound(edges, root, paths') by {
      ChainSnoc(edges, root, paths[current], current, ref);
      SuccessorKnown(edges, root, current, ref);
    }
    assert QueueOrdered(paths', queue') by {
      EnqueueOrdered(paths, queue, current, ref);
    }
    hide Successors, QueueOrdered;
    forall q | q in paths' && q !in queue' && q != current
      ensures Expanded(paths', q, Successors(edges, q))
    {
      assert queue'[|queue|] == ref;
      assert forall i :: 0 <= i < |queue| ==> queue'[i] == queue[i];
      assert Expanded(paths, q, Successors(edges, q));
    }
    forall i | 0 <= i < |queue'|
      ensures |paths'[current]| <= |paths'[queue'[i]]|
    {
      if i < |queue| {
        assert queue'[i] == queue[i];
      }
    }
  }

  lemma {:induction false} SuccessorKnown(edges: map<Ref, seq<Ref>>, root: Ref, q: Ref, r: Ref)
    requires r in Successors(edges, q)
    ensures r in AllRefs(edges, root)
  {
  }

  /** Looking at one successor, whether it is new or already has a path. */
  lemma {:induction false} Visit(
    edges: map<Ref, seq<Ref>>, root: Ref, paths: map<Ref, seq<Ref>>, queue: seq<Ref>,
    current: Ref, seen: seq<Ref>, ref: Ref)
    requires Expanding(edges, root, paths, queue, current, seen) && ref in Successors(edges, current)
    ensures if ref in paths then Expanding(edges, root, paths, queue, current, seen + [ref])
            else Expanding(edges, root, paths[ref := paths[current] + [ref]], queue + [ref], current, seen + [ref])
  {
    if ref !in paths {
      VisitNew(edges, root, paths, queue, current, seen, ref);
    }
  }

  lemma {:induction false} Finish(
    edges: map<Ref, seq<Ref>>, root: Ref, paths: map<Ref, seq<Ref>>, queue: seq<Ref>, current: Ref)
    requires Expanding(edges, root, paths, queue, current, Successors(edges, current))
    ensures Searching(edges, root, paths, queue)
  {
  }

  /** If everything found is expanded, then every chain leads to a ref with a path no longer. */
  lemma {:induction false} ClosedIsShortest(
    edges: map<Ref, seq<Ref>>, root: Ref, paths: map<Ref, seq<Ref>>, chain: seq<Ref>, r: Ref)
    requires Searching(edges, root, paths, []) && Chain(edges, root, chain, r)
    ensures r in paths && |paths[r]| <= |chain|
    decreases |chain|
  {
    if chain != [] {
      var q :| Chain(edges, root, chain[..|chain| - 1], q) && r in Successors(edges, q);
      ClosedIsShortest(edges, root, paths, chain[..|chain| - 1], q);
      assert Expanded(paths, q, Successors(edges, q));
    }
  }

  /** When the queue is empty the map holds a shortest path for exactly the reachable refs. */
  lemma {:induction false} SearchDone(edges: map<Ref, seq<Ref>>, root: Ref, paths: map<Ref, seq<Ref>>)
    requires Searching(edges, root, paths, [])
    ensures forall r :: r in paths <==> Reachable(edges, root, r)
    ensures forall r :: r in paths ==> Shortest(edges, root, paths[r], r)
  {
    forall chain, r | Chain(edges, root, chain, r)
      ensures r in paths && |paths[r]| <= |chain|
    {
      ClosedIsShortest(edges, root, paths, chain, r);
    }
  }

  lemma {:induction false} SearchStarts(edges: map<Ref, seq<Ref>>, root: Ref)
    ensures Searching(edges, root, map[root := []], [root])
  {
    assert Chain(edges, root, [], root);
    assert [root][0] == root;
  }

  ghost predicate ShortestPathMap(edges: map<Ref, seq<Ref>>, root: Ref, paths: map<Ref, seq<Ref>>) {
    && (forall r :: r in paths <==> r != root && Reachable(edges, root, r))
    && (forall r :: r in paths ==> Shortest(edges, root, paths[r], r))
  }

  /** Breadth-first search with a queue and a path map. */
  method ShortestPaths(rootRef: Option<Ref>, dependencies: seq<Dependency>) returns (paths: map<Ref, seq<Ref>>)
    ensures rootRef.None? || rootRef.value == "" ==> paths == map[]
    ensures rootRef.Some? && rootRef.value != "" ==> ShortestPathMap(EdgeMap(dependencies), rootRef.value, paths)
  {
    hide Searching, Expanding, EdgeMap, AllRefs, Chain;
    paths := map[];
    if rootRef.None? || rootRef.value == "" {
      return;
    }
    var root := rootRef.value;
    var edges := EdgeMap(dependencies);
    var queue := [root];
    paths := map[root := []];
    SearchStarts(edges, root);

    while queue != []
      invariant Searching(edges, root, paths, queue)
      decreases AllRefs(edges, root) - paths.Keys, |queue|
    {
      Dequeue(edges, root, paths, queue);
      ghost var known, length := paths.Keys, |queue|;
      var current := queue[0];
      queue := queue[1..];
      ExpandingKnows(edges, root, paths, queue, current, []);
      var basePath := paths[current];
      var next := Successors(edges, current);
      for i := 0 to |next|
        invariant Expanding(edges, root, paths, queue, current, next[..i])
        invariant current in paths && paths[current] == basePath
        invariant known <= paths.Keys && (paths.Keys == known ==> |queue| < length)
      {
        Visit(edges, root, paths, queue, current, next[..i], next[i]);
        assert next[..i + 1] == next[..i] + [next[i]];
        if next[i] !in paths {
          paths := paths[next[i] := basePath + [next[i]]];
          queue := queue + [next[i]];
        }
      }
      assert next[..|next|] == next;
      ExpandingKnows(edges, root, paths, queue, current, next);
      Finish(edges, root, paths, queue, current);
    }
    SearchDone(edges, root, paths);
    paths := paths - {root};
  }

  lemma {:induction false} ExpandingKnows(
    edges: map<Ref, seq<Ref>>, root: Ref, paths: map<Ref, seq<Ref>>, queue: seq<Ref>, current: Ref, seen: seq<Ref>)
    requires Expanding(edges, root, paths, queue, current, seen)
    ensures current in paths && paths.Keys <= AllRefs(edges, root)
  {
  }

  // ----- names, ecosystems and licences -----

  /** A licence of a component, by id or by name. */
  datatype License = License(id: Option<string>, name: Option<string>)

  datatype Component = Component(
    bomRef: Option<Ref>, purl: Option<string>, name: string, version: string, licenses: seq<Option<License>>)

  /** The length of the longest prefix of `s` without any of the characters `stops`. */
  function SpanWithout(s: string, stops: string): (n: nat)
    ensures n <= |s| && (n < |s| ==> s[n] in stops)
    ensures forall i :: 0 <= i < n ==> s[i] !in stops
  {
    if s == "" || s[0] in stops then 0 else 1 + SpanWithout(s[1..], stops)
  }

  predicate Free(s: string, stops: string) { forall x :: x in s ==> x !in stops }

  lemma {:induction false} SpanFree(s: string, stops: string)
    ensures var n := SpanWithout(s, stops); Free(s[..n], stops) && (s[n..] == "" || s[n..][0] in stops)
  {
  }

  lemma {:induction false} SpanIs(before: string, after: string, stops: string)
    requires Free(before, stops) && (after == "" || after[0] in stops)
    ensures SpanWithout(before + after, stops) == |before|
  {
    if before != "" {
      assert (before + after)[1..] == before[1..] + after;
      SpanIs(before[1..], after, stops);
    } else {
      assert before + after == after;
    }
  }

  /** OSV's names for the package types it renames. */
  const ECOSYSTEMS: map<string, string> := map[
    "npm" := "npm", "pypi" := "PyPI", "maven" := "Maven", "golang" := "Go", "cargo" := "crates.io",
    "gem" := "RubyGems", "nuget" := "NuGet", "composer" := "Packagist", "deb" := "Debian",
    "apk" := "Alpine", "rpm" := "Red Hat"]

  /** `/^pkg:([^/]+)\//` */
  function PackageType(purl: string): Option<string> {
    if !At(purl, 0, "pkg:") then None else
    var rest := purl[4..];
    var n := SpanWithout(rest, "/");
    if 0 < n < |rest| then Some(rest[..n]) else None
  }

  function EcosystemFromPurl(purl: Option<string>): string {
    if purl.None? || purl.value == "" then "unknown" else
    var t := PackageType(purl.value);
    if t.None? then "unknown" else if t.value in ECOSYSTEMS then ECOSYSTEMS[t.value] else t.value
  }

  /** `/^pkg:maven\/([^/@]+)\/([^/@?#]+)/i` */
  function MavenParts(purl: string): Option<(string, string)> {
    if At(Lower(purl), 0, "pkg:maven/") then MavenBody(purl[10..]) else None
  }

  /** The two captured texts after the prefix. */
  function MavenBody(body: string): Option<(string, string)> {
    var n := SpanWithout(body, "/@");
    if n == 0 || n == |body| || body[n] != '/' then None else
    var tail := body[n + 1..];
    var m := SpanWithout(tail, "/@?#");
    if m == 0 then None else Some((body[..n], tail[..m]))
  }

  /** `decodeURIComponent`; `None` is the exception it throws on a malformed escape. */
  type Decoder = string -> Option<string>

  /** The group and artifact of a Maven package, otherwise the name as given. */
  function ComponentName(decode: Decoder, c: Component): Option<string> {
    if c.purl.None? || c.purl.value == "" then Some(c.name) else
    match MavenParts(c.purl.value)
    case None => Some(c.name)
    case Some((group, artifact)) =>
      match (decode(group), decode(artifact))
      case (Some(g), Some(a)) => Some(g + ":" + a)
      case _ => None
  }

  /** `pkg:`, the type up to the first slash, and the rest. */
  predicate IsTyped(purl: string, kind: string, rest: string) {
    purl == "pkg:" + kind + "/" + rest && kind != "" && '/' !in kind
  }

  lemma {:induction false} PackageTypeExactly(purl: string, kind: string)
    ensures PackageType(purl) == Some(kind) <==> exists rest :: IsTyped(purl, kind, rest)
  {
    if PackageType(purl) == Some(kind) {
      var tail := purl[4..];
      assert purl == "pkg:" + kind + "/" + tail[|kind| + 1..];
      assert IsTyped(purl, kind, tail[|kind| + 1..]);
    }
    if rest :| IsTyped(purl, kind, rest) {
      var tail := kind + ("/" + rest);
      assert purl == "pkg:" + tail && purl[4..] == tail && purl[0..4] == "pkg:";
      SpanIs(kind, "/" + rest, "/");
      assert tail[..|kind|] == kind;
    }
  }

  /** The ecosystems by package type; a type without a name of its own stands for itself. */
  lemma {:induction false} EcosystemExactly(purl: string, kind: string, rest: string)
    requires IsTyped(purl, kind, rest)
    ensures EcosystemFromPurl(Some(purl)) ==
      match kind
      case "pypi" => "PyPI"
      case "maven" => "Maven"
      case "golang" => "Go"
      case "cargo" => "crates.io"
      case "gem" => "RubyGems"
      case "nuget" => "NuGet"
      case "composer" => "Packagist"
      case "deb" => "Debian"
      case "apk" => "Alpine"
      case "rpm" => "Red Hat"
      case _ => kind
  {
    hide PackageType;
    PackageTypeExactly(purl, kind);
  }

  lemma {:induction false} EcosystemUnknown(purl: Option<string>)
    requires purl.Some? ==> forall kind, rest :: !IsTyped(purl.value, kind, rest)
    ensures EcosystemFromPurl(purl) == "unknown"
  {
    hide PackageType;
    if purl.Some? && PackageType(purl.value).Some? {
      PackageTypeExactly(purl.value, PackageType(purl.value).value);
    }
  }

  /** `pkg:maven/` in any case, the group, a slash, the artifact, and whatever follows it. */
  predicate IsMaven(purl: string, group: string, artifact: string, head: string, rest: string) {
    && purl == head + (group + ("/" + (artifact + rest))) && Lower(head) == "pkg:maven/"
    && group != "" && Free(group, "/@")
    && artifact != "" && Free(artifact, "/@?#")
    && (rest == "" || rest[0] in "/@?#")
  }

  lemma {:induction false} MavenHead(purl: string)
    ensures At(Lower(purl), 0, "pkg:maven/") <==> |purl| >= 10 && Lower(purl[..10]) == "pkg:maven/"
  {
    hide Lower;
    if |purl| >= 10 {
      assert purl == purl[..10] + purl[10..];
      LowerConcat(purl[..10], purl[10..]);
      assert Lower(purl)[0..10] == Lower(purl[..10]);
    }
  }

  lemma {:induction false} MavenBodyParsed(body: string, group: string, artifact: string) returns (rest: string)
    requires MavenBody(body) == Some((group, artifact))
    ensures body == group + ("/" + (artifact + rest))
    ensures group != "" && Free(group, "/@") && artifact != "" && Free(artifact, "/@?#") && (rest == "" || rest[0] in "/@?#")
  {
    hide SpanWithout, Free;
    SpanFree(body, "/@");
    var tail := body[|group| + 1..];
    SpanFree(tail, "/@?#");
    rest := tail[|artifact|..];
    assert tail == artifact + rest;
    assert body == group + ("/" + tail);
  }

  lemma {:induction false} MavenParsed(purl: string, group: string, artifact: string) returns (head: string, rest: string)
    requires MavenParts(purl) == Some((group, artifact))
    ensures IsMaven(purl, group, artifact, head, rest)
  {
    MavenHead(purl);
    hide Lower, At, MavenBody, Free;
    head := purl[..10];
    rest := MavenBodyParsed(purl[10..], group, artifact);
    assert purl == head + purl[10..];
  }

  lemma {:induction false} MavenPartsExactly(purl: string, group: string, artifact: string)
    ensures MavenParts(purl) == Some((group, artifact)) <==> exists head, rest :: IsMaven(purl, group, artifact, head, rest)
  {
    hide MavenParts, IsMaven;
    if MavenParts(purl) == Some((group, artifact)) {
      var head, rest := MavenParsed(purl, group, artifact);
    }
    if head, rest :| IsMaven(purl, group, artifact, head, rest) {
      MavenRead(purl, group, artifact, head, rest);
    }
  }

  lemma {:induction false} MavenRead(purl: string, group: string, artifact: string, head: string, rest: string)
    requires IsMaven(purl, group, artifact, head, rest)
    ensures MavenParts(purl) == Some((group, artifact))
  {
    hide Lower;
    var tail := artifact + rest;
    var body := group + ("/" + tail);
    LowerConcat(head, body);
    assert |head| == 10 && Lower(purl)[0..10] == "pkg:maven/" && purl[10..] == body;
    SpanIs(group, "/" + tail, "/@");
    assert body[|group| + 1..] == tail && body[..|group|] == group;
    SpanIs(artifact, rest, "/@?#");
    assert tail[..|artifact|] == artifact;
  }

  /** A component with a Maven package URL is named by its decoded group and artifact, or the parse throws;
      every other component keeps its own name. */
  lemma {:induction false} ComponentNameExactly(decode: Decoder, c: Component)
    ensures forall group, artifact, head, rest :: c.purl.Some? && IsMaven(c.purl.value, group, artifact, head, rest) ==>
      ComponentName(decode, c) ==
        if decode(group).Some? && decode(artifact).Some? then Some(decode(group).value + ":" + decode(artifact).value) else None
    ensures !(c.purl.Some? && exists group, artifact, head, rest :: IsMaven(c.purl.value, group, artifact, head, rest)) ==>
      ComponentName(decode, c) == Some(c.name)
  {
    hide MavenParts, IsMaven;
    if c.purl.Some? {
      forall group, artifact, head, rest | IsMaven(c.purl.value, group, artifact, head, rest)
        ensures MavenParts(c.purl.value) == Some((group, artifact)) && c.purl.value != ""
      {
        MavenPartsExactly(c.purl.value, group, artifact);
        MavenNotEmpty(c.purl.value, group, artifact, head, rest);
      }
      if MavenParts(c.purl.value).Some? {
        var (group, artifact) := MavenParts(c.purl.value).value;
        MavenPartsExactly(c.purl.value, group, artifact);
      }
    }
  }

  lemma {:induction false} MavenNotEmpty(purl: string, group: string, artifact: string, head: string, rest: string)
    requires IsMaven(purl, group, artifact, head, rest)
    ensures purl != ""
  {
  }

  /** A licence by its id or its name, if that is not empty. */
  function LicenseName(l: Option<License>): seq<string> {
    var name :=
      if l.Some? && l.value.id.Some? then l.value.id.value
      else if l.Some? && l.value.name.Some? then l.value.name.value
      else "unknown";
    if name == "" then [] else [name]
  }

  function LicenseNames(licenses: seq<Option<License>>): seq<string> {
    if licenses == [] then []
    else LicenseNames(licenses[..|licenses| - 1]) + LicenseName(licenses[|licenses| - 1])
  }

  lemma {:induction false} LicensesConcat(a: seq<Option<License>>, b: seq<Option<License>>)
    ensures LicenseNames(a + b) == LicenseNames(a) + LicenseNames(b)
    decreases |b|
  {
    hide LicenseName;
    if b == [] {
      assert a + b == a;
    } else {
      var n := |b| - 1;
      LicensesConcat(a, b[..n]);
      assert (a + b)[..|a + b| - 1] == a + b[..n];
      assert LicenseNames(a) + LicenseNames(b[..n]) + LicenseName(b[n]) == LicenseNames(a) + LicenseNames(b);
    }
  }

  /** Licence by licence: the id, else the name, else `unknown`; an empty one is left out. */
  lemma {:induction false} LicensesExactly(licenses: seq<Option<License>>, l: Option<License>)
    ensures LicenseNames([]) == []
    ensures LicenseNames([l] + licenses) == LicenseName(l) + LicenseNames(licenses)
    ensures LicenseName(l) ==
      match l
      case Some(License(Some(id), _)) => if id == "" then [] else [id]
      case Some(License(None, Some(name))) => if name == "" then [] else [name]
      case _ => ["unknown"]
  {
    assert LicenseNames([]) == [];
    hide LicenseNames;
    LicensesFirst(l);
    LicensesConcat([l], licenses);
  }

  lemma {:induction false} LicensesFirst(l: Option<License>)
    ensures LicenseNames([l]) == LicenseName(l)
  {
    hide LicenseName;
    assert [l][..0] == [] && [l][0] == l;
    assert [] + LicenseName(l) == LicenseName(l);
  }

  // ----- the parsed document -----

  datatype Document = Document(rootRef: Option<Ref>, components: seq<Component>, dependencies: seq<Dependency>)

  datatype ResolvedComponent = ResolvedComponent(
    purl: string, name: string, version: string, ecosystem: string, direct: bool, dependencyPath: seq<string>,
    licenses: seq<string>)

  function RefOf(c: Component): Ref {
    if c.bomRef.Some? then c.bomRef.value
    else if c.purl.Some? then c.purl.value
    else c.name + "@" + c.version
  }

  /** `find`: the dependencies of the first entry for the root, if there is one. */
  function DirectRefs(deps: seq<Dependency>, rootRef: Option<Ref>): seq<Ref> {
    if deps == [] then []
    else if rootRef == Some(deps[0].ref) then deps[0].dependsOn
    else DirectRefs(deps[1..], rootRef)
  }

  /** What the search starts from: nothing if the root ref is absent or empty, and otherwise the
      successors of the root in the edge map. */
  function SearchRoots(doc: Document): seq<Ref> {
    if doc.rootRef.None? || doc.rootRef.value == "" then []
    else Successors(EdgeMap(doc.dependencies), doc.rootRef.value)
  }

  /** `paths` is a result of the path search on the document. */
  ghost predicate PathsOf(doc: Document, paths: map<Ref, seq<Ref>>) {
    if doc.rootRef.None? || doc.rootRef.value == "" then paths == map[]
    else ShortestPathMap(EdgeMap(doc.dependencies), doc.rootRef.value, paths)
  }

  predicate AllNamed(decode: Decoder, components: seq<Component>) {
    forall i :: 0 <= i < |components| ==> ComponentName(decode, components[i]).Some?
  }

  function NameMap(decode: Decoder, components: seq<Component>): map<Ref, string>
    requires AllNamed(decode, components)
  {
    if components == [] then map[]
    else
      var c := components[|components| - 1];
      NameMap(decode, components[..|components| - 1])[RefOf(c) := ComponentName(decode, c).value]
  }

  function Names(path: seq<Ref>, names: map<Ref, string>): (r: seq<string>)
    ensures |r| == |path|
  {
    seq(|path|, i requires 0 <= i < |path| => if path[i] in names then names[path[i]] else path[i])
  }

  function Resolve(decode: Decoder, c: Component, doc: Document, paths: map<Ref, seq<Ref>>): ResolvedComponent
    requires AllNamed(decode, doc.components) && c in doc.components
  {
    var ref := RefOf(c);
    ResolvedComponent(
      if c.purl.Some? then c.purl.value else "pkg:generic/" + c.name + "@" + c.version,
      ComponentName(decode, c).value, c.version, EcosystemFromPurl(c.purl),
      ref in DirectRefs(doc.dependencies, doc.rootRef),
      Names(if ref in paths then paths[ref] else [], NameMap(decode, doc.components)),
      LicenseNames(c.licenses))
  }

  // ----- what is said of a component -----

  /** A component bears its bom-ref; without one its package URL; without either its name and version. */
  predicate Bears(c: Component, ref: Ref) {
    && (c.bomRef.Some? ==> ref == c.bomRef.value)
    && (c.bomRef.None? && c.purl.Some? ==> ref == c.purl.value)
    && (c.bomRef.None? && c.purl.None? ==> ref == c.name + "@" + c.version)
  }

  /** Entry `k` is the first for the root, and names `ref`. */
  predicate FirstEntryAt(deps: seq<Dependency>, rootRef: Option<Ref>, ref: Ref, k: nat) {
    && k < |deps| && rootRef == Some(deps[k].ref) && ref in deps[k].dependsOn
    && forall j :: 0 <= j < k ==> rootRef != Some(deps[j].ref)
  }

  /** Entry `k` is the last for `q`, and names `r`. */
  predicate LastEntryAt(deps: seq<Dependency>, q: Ref, r: Ref, k: nat) {
    k < |deps| && deps[k].ref == q && r in deps[k].dependsOn && forall j :: k < j < |deps| ==> deps[j].ref != q
  }

  ghost predicate FirstEntryNames(doc: Document, ref: Ref) {
    exists k: nat :: FirstEntryAt(doc.dependencies, doc.rootRef, ref, k)
  }

  ghost predicate LastEntryNames(deps: seq<Dependency>, q: Ref, r: Ref) {
    exists k: nat :: LastEntryAt(deps, q, r, k)
  }

  lemma {:induction false} DirectRefsFirst(deps: seq<Dependency>, rootRef: Option<Ref>, ref: Ref)
    ensures ref in DirectRefs(deps, rootRef) <==> exists k: nat :: FirstEntryAt(deps, rootRef, ref, k)
    decreases |deps|
  {
    if deps != [] && rootRef == Some(deps[0].ref) {
      assert ref in deps[0].dependsOn ==> FirstEntryAt(deps, rootRef, ref, 0);
    } else if deps != [] {
      DirectRefsFirst(deps[1..], rootRef, ref);
      forall k: nat
        ensures FirstEntryAt(deps[1..], rootRef, ref, k) <==> FirstEntryAt(deps, rootRef, ref, k + 1)
      {
        assert forall j :: 0 <= j < |deps| - 1 ==> deps[1..][j] == deps[j + 1];
      }
      if k: nat :| FirstEntryAt(deps, rootRef, ref, k) {
        assert FirstEntryAt(deps[1..], rootRef, ref, k - 1);
      }
    }
  }

  /** The edges of the graph are those of the last entry for each ref. */
  lemma {:induction false} EdgeMapLast(deps: seq<Dependency>, q: Ref, r: Ref)
    ensures r in Successors(EdgeMap(deps), q) <==> LastEntryNames(deps, q, r)
  {
    if deps != [] {
      var n := |deps| - 1;
      EdgeMapLast(deps[..n], q, r);
      if deps[n].ref == q {
        assert r in deps[n].dependsOn ==> LastEntryAt(deps, q, r, n);
      } else {
        assert Successors(EdgeMap(deps), q) == Successors(EdgeMap(deps[..n]), q);
        hide EdgeMap;
        forall k: nat
          ensures LastEntryAt(deps[..n], q, r, k) <==> LastEntryAt(deps, q, r, k)
        {
          assert forall j :: 0 <= j < n ==> deps[..n][j] == deps[j];
        }
      }
    }
  }

  /** Component `k` is the last that bears `ref`. */
  predicate LastBearer(cs: seq<Component>, ref: Ref, k: nat) {
    k < |cs| && Bears(cs[k], ref) && forall j :: k < j < |cs| ==> !Bears(cs[j], ref)
  }

  /** How a ref is shown: by the name of the last component that bears it, or as it is. */
  ghost predicate ShownAs(decode: Decoder, doc: Document, ref: Ref, shown: string) {
    || (exists k: nat :: LastBearer(doc.components, ref, k) && ComponentName(decode, doc.components[k]) == Some(shown))
    || (shown == ref && forall j :: 0 <= j < |doc.components| ==> !Bears(doc.components[j], ref))
  }

  /** The search comes to `ref`, which is not the root. */
  ghost predicate Found(doc: Document, ref: Ref) {
    && doc.rootRef.Some? && doc.rootRef.value != "" && doc.rootRef.value != ref
    && Reachable(EdgeMap(doc.dependencies), doc.rootRef.value, ref)
  }

  /** `shown` is a shortest chain from the root to `ref`, ref by ref as they are shown; or nothing, if
      there is no chain or `ref` is the root. */
  ghost predicate Explains(decode: Decoder, doc: Document, ref: Ref, shown: seq<string>) {
    exists path: seq<Ref> :: |path| == |shown| && (forall i :: 0 <= i < |path| ==> ShownAs(decode, doc, path[i], shown[i]))
      && if Found(doc, ref) then Shortest(EdgeMap(doc.dependencies), doc.rootRef.value, path, ref) else path == []
  }

  /** What the parsed document says of the component `c`. */
  ghost predicate Describes(decode: Decoder, doc: Document, c: Component, r: ResolvedComponent) {
    && r.version == c.version && Some(r.name) == ComponentName(decode, c)
    && r.ecosystem == EcosystemFromPurl(c.purl) && r.licenses == LicenseNames(c.licenses)
    && r.purl == (if c.purl.Some? then c.purl.value else "pkg:generic/" + c.name + "@" + c.version)
    && (c.bomRef.Some? ==>
         (r.direct <==> FirstEntryNames(doc, c.bomRef.value)) && Explains(decode, doc, c.bomRef.value, r.dependencyPath))
    && (c.bomRef.None? && c.purl.Some? ==>
         (r.direct <==> FirstEntryNames(doc, c.purl.value)) && Explains(decode, doc, c.purl.value, r.dependencyPath))
    && (c.bomRef.None? && c.purl.None? ==>
         var ref := c.name + "@" + c.version;
         (r.direct <==> FirstEntryNames(doc, ref)) && Explains(decode, doc, ref, r.dependencyPath))
  }

  lemma {:induction false} NamedAs(decode: Decoder, doc: Document, ref: Ref)
    requires AllNamed(decode, doc.components)
    ensures var names := NameMap(decode, doc.components);
      ShownAs(decode, doc, ref, if ref in names then names[ref] else ref)
    decreases |doc.components|
  {
    hide ComponentName;
    var cs := doc.components;
    if cs != [] {
      var n := |cs| - 1;
      var before := doc.(components := cs[..n]);
      var names := NameMap(decode, cs[..n]);
      if RefOf(cs[n]) == ref {
        assert LastBearer(cs, ref, n);
      } else {
        assert !Bears(cs[n], ref);
        NamedAs(decode, before, ref);
        var shown := if ref in names then names[ref] else ref;
        ShownWithMore(decode, doc, ref, shown);
      }
    }
  }

  lemma {:induction false} ShownWithMore(decode: Decoder, doc: Document, ref: Ref, shown: string)
    requires doc.components != [] && !Bears(doc.components[|doc.components| - 1], ref)
    requires ShownAs(decode, doc.(components := doc.components[..|doc.components| - 1]), ref, shown)
    ensures ShownAs(decode, doc, ref, shown)
  {
    hide ComponentName, Bears;
    var cs, n := doc.components, |doc.components| - 1;
    assert forall j :: 0 <= j < n ==> cs[..n][j] == cs[j];
    if k: nat :| LastBearer(cs[..n], ref, k) && ComponentName(decode, cs[..n][k]) == Some(shown) {
      assert LastBearer(cs, ref, k);
    }
  }

  lemma {:induction false} PathExplains(decode: Decoder, doc: Document, paths: map<Ref, seq<Ref>>, ref: Ref)
    requires AllNamed(decode, doc.components) && PathsOf(doc, paths)
    ensures Explains(decode, doc, ref, Names(if ref in paths then paths[ref] else [], NameMap(decode, doc.components)))
  {
    hide NameMap, ShownAs, Shortest, Reachable, AllNamed;
    var path := if ref in paths then paths[ref] else [];
    var names := NameMap(decode, doc.components);
    forall i | 0 <= i < |path|
      ensures ShownAs(decode, doc, path[i], Names(path, names)[i])
    {
      NamedAs(decode, doc, path[i]);
    }
  }

  /** Resolving a component says of it what holds of the graph. */
  lemma {:induction false} ResolveDescribes(decode: Decoder, doc: Document, paths: map<Ref, seq<Ref>>, c: Component)
    requires AllNamed(decode, doc.components) && c in doc.components && PathsOf(doc, paths)
    ensures Describes(decode, doc, c, Resolve(decode, c, doc, paths))
  {
    hide ComponentName, Explains, FirstEntryAt, DirectRefs, NameMap, Names, EcosystemFromPurl, LicenseNames, PathsOf;
    PathExplains(decode, doc, paths, RefOf(c));
    DirectRefsFirst(doc.dependencies, doc.rootRef, RefOf(c));
  }

  /** Every component in order, flagged and explained by one result of the path search; an exception
      exactly when some package URL cannot be decoded. */
  method ParseCycloneDx(decode: Decoder, doc: Document)
    returns (r: Option<seq<ResolvedComponent>>, ghost paths: map<Ref, seq<Ref>>)
    ensures PathsOf(doc, paths)
    ensures r.Some? <==> AllNamed(decode, doc.components)
    ensures r.Some? ==> |r.value| == |doc.components|
    ensures r.Some? ==> forall i :: 0 <= i < |r.value| ==> r.value[i] == Resolve(decode, doc.components[i], doc, paths)
    ensures r.Some? ==> forall i :: 0 <= i < |r.value| ==> Describes(decode, doc, doc.components[i], r.value[i])
  {
    hide Resolve, Describes, AllNamed, ShortestPathMap;
    var found := ShortestPaths(doc.rootRef, doc.dependencies);
    paths := found;
    if !AllNamed(decode, doc.components) {
      return None, paths;
    }
    forall i | 0 <= i < |doc.components|
      ensures Describes(decode, doc, doc.components[i], Resolve(decode, doc.components[i], doc, paths))
    {
      ResolveDescribes(decode, doc, paths, doc.components[i]);
    }
    r := Some(seq(|doc.components|, i requires 0 <= i < |doc.components| => Resolve(decode, doc.components[i], doc, found)));
  }

  function Others(refs: seq<Ref>, rootRef: Option<Ref>): set<Ref> {
    set r | r in refs && rootRef != Some(r)
  }

  lemma {:induction false} LengthOne(doc: Document, paths: map<Ref, seq<Ref>>, r: Ref)
    requires PathsOf(doc, paths) && doc.rootRef != Some(r)
    ensures r in SearchRoots(doc) <==> r in paths && |paths[r]| == 1
  {
    if doc.rootRef.Some? && doc.rootRef.value != "" {
      var edges, root := EdgeMap(doc.dependencies), doc.rootRef.value;
      if r in SearchRoots(doc) {
        assert Chain(edges, root, [], root) && [] + [r] == [r];
        ChainSnoc(edges, root, [], root, r);
        assert Reachable(edges, root, r);
        assert |paths[r]| <= |[r]|;
        assert paths[r] != [];
      } else if r in paths && |paths[r]| == 1 {
        assert Chain(edges, root, paths[r], r) && paths[r][..0] == [];
      }
    }
  }

  /** A component other than the root is flagged direct if and only if its path has length one,
      for all refs, exactly when the first entry for the root, from which the flag is taken, and
      the entry the search uses name the same refs apart from the root itself. */
  lemma {:induction false} DirectIffLengthOne(doc: Document, paths: map<Ref, seq<Ref>>)
    requires PathsOf(doc, paths)
    ensures (forall r :: doc.rootRef != Some(r) ==>
              (r in DirectRefs(doc.dependencies, doc.rootRef) <==> r in paths && |paths[r]| == 1))
       <==> Others(DirectRefs(doc.dependencies, doc.rootRef), doc.rootRef) == Others(SearchRoots(doc), doc.rootRef)
  {
    var direct, roots := DirectRefs(doc.dependencies, doc.rootRef), SearchRoots(doc);
    var agree := forall r :: doc.rootRef != Some(r) ==> (r in direct <==> r in paths && |paths[r]| == 1);
    forall r | doc.rootRef != Some(r)
      ensures r in roots <==> r in paths && |paths[r]| == 1
    {
      LengthOne(doc, paths, r);
    }
    if agree {
      assert forall r :: r in Others(direct, doc.rootRef) <==> r in Others(roots, doc.rootRef);
    } else {
      var r :| doc.rootRef != Some(r) && !(r in direct <==> r in paths && |paths[r]| == 1);
      assert (r in Others(direct, doc.rootRef)) != (r in Others(roots, doc.rootRef));
    }
  }

  /** On the parsed document: every component other than the root is flagged direct if and only if its
      path has one step, exactly when of all refs that components bear, but the root's, the first and the
      last entry for the root name the same, and none if the root's ref is empty. */
  lemma {:induction false} ResolvedDirectIffLengthOne(decode: Decoder, doc: Document, paths: map<Ref, seq<Ref>>)
    requires PathsOf(doc, paths) && AllNamed(decode, doc.components)
    ensures (forall c :: c in doc.components && !(doc.rootRef.Some? && Bears(c, doc.rootRef.value)) ==>
              var r := Resolve(decode, c, doc, paths); r.direct <==> |r.dependencyPath| == 1)
       <==> (forall c, ref :: c in doc.components && Bears(c, ref) && doc.rootRef != Some(ref) ==>
              (FirstEntryNames(doc, ref) <==>
                doc.rootRef.Some? && doc.rootRef.value != "" && LastEntryNames(doc.dependencies, doc.rootRef.value, ref)))
  {
    hide ComponentName, FirstEntryAt, LastEntryNames, DirectRefs, NameMap, EcosystemFromPurl, LicenseNames, PathsOf,
      AllNamed, EdgeMap, Successors;
    forall c, ref | c in doc.components && Bears(c, ref) && doc.rootRef != Some(ref)
      ensures ref == RefOf(c)
      ensures var r := Resolve(decode, c, doc, paths);
        && (r.direct <==> FirstEntryNames(doc, ref))
        && (|r.dependencyPath| == 1 <==>
             doc.rootRef.Some? && doc.rootRef.value != "" && LastEntryNames(doc.dependencies, doc.rootRef.value, ref))
    {
      DirectRefsFirst(doc.dependencies, doc.rootRef, ref);
      LengthOne(doc, paths, ref);
      if doc.rootRef.Some? {
        EdgeMapLast(doc.dependencies, doc.rootRef.value, ref);
      }
    }
    forall c | c in doc.components
      ensures Bears(c, RefOf(c))
    {
    }
  }

  predicate AtMostOneEntry(deps: seq<Dependency>, ref: Ref) {
    forall i, j :: 0 <= i < j < |deps| ==> deps[i].ref != ref || deps[j].ref != ref
  }

  lemma {:induction false} EdgeMapEntry(deps: seq<Dependency>, i: nat)
    requires i < |deps| && AtMostOneEntry(deps, deps[i].ref)
    ensures Successors(EdgeMap(deps), deps[i].ref) == deps[i].dependsOn
  {
    if i < |deps| - 1 {
      EdgeMapEntry(deps[..|deps| - 1], i);
    }
  }

  lemma {:induction false} EdgeMapMissing(deps: seq<Dependency>, ref: Ref)
    requires forall d :: d in deps ==> d.ref != ref
    ensures Successors(EdgeMap(deps), ref) == []
  {
    if deps != [] {
      EdgeMapMissing(deps[..|deps| - 1], ref);
    }
  }

  lemma {:induction false} DirectRefsEntry(deps: seq<Dependency>, i: nat)
    requires i < |deps| && AtMostOneEntry(deps, deps[i].ref)
    ensures DirectRefs(deps, Some(deps[i].ref)) == deps[i].dependsOn
  {
    if i > 0 {
      assert deps[0].ref != deps[i].ref && deps[1..][i - 1] == deps[i];
      DirectRefsEntry(deps[1..], i - 1);
    }
  }

  lemma {:induction false} DirectRefsMissing(deps: seq<Dependency>, rootRef: Option<Ref>)
    requires forall d :: d in deps ==> rootRef != Some(d.ref)
    ensures DirectRefs(deps, rootRef) == []
  {
    if deps != [] {
      DirectRefsMissing(deps[1..], rootRef);
    }
  }

  /** A document that lists its root at most once meets the condition, unless the root's ref is empty and
      its entry names other refs: the search does not start from an empty ref. */
  lemma {:induction false} UniqueRootAgrees(doc: Document)
    requires doc.rootRef.None? || AtMostOneEntry(doc.dependencies, doc.rootRef.value)
    ensures Others(DirectRefs(doc.dependencies, doc.rootRef), doc.rootRef) == Others(SearchRoots(doc), doc.rootRef)
       <==> doc.rootRef != Some("") || Others(DirectRefs(doc.dependencies, doc.rootRef), doc.rootRef) == {}
  {
    var deps := doc.dependencies;
    if i: nat :| i < |deps| && doc.rootRef == Some(deps[i].ref) {
      EdgeMapEntry(deps, i);
      DirectRefsEntry(deps, i);
    } else {
      DirectRefsMissing(deps, doc.rootRef);
      if doc.rootRef.Some? {
        EdgeMapMissing(deps, doc.rootRef.value);
      }
    }
  }

  const TWO_ROOTS := [Dependency("app", ["a"]), Dependency("app", ["b"])]

  lemma {:induction false} TwoRootsEdges()
    ensures EdgeMap(TWO_ROOTS) == map["app" := ["b"]] && DirectRefs(TWO_ROOTS, Some("app")) == ["a"]
  {
    assert TWO_ROOTS[..1] == [Dependency("app", ["a"])];
    assert EdgeMap(TWO_ROOTS) == EdgeMap(TWO_ROOTS[..1])["app" := ["b"]];
    assert EdgeMap(TWO_ROOTS[..1]) == map["app" := ["a"]];
  }

  /** With two entries for the root, a component can be flagged direct and have no path at all. */
  lemma {:induction false} RepeatedRootDisagrees(decode: Decoder, c: Component, paths: map<Ref, seq<Ref>>)
    requires RefOf(c) == "a" && ComponentName(decode, c).Some?
    requires PathsOf(Document(Some("app"), [c], TWO_ROOTS), paths)
    ensures var r := Resolve(decode, c, Document(Some("app"), [c], TWO_ROOTS), paths);
      RefOf(c) !in paths && r.direct && r.dependencyPath == []
  {
    hide EdgeMap, DirectRefs, ComponentName, RefOf, EcosystemFromPurl, LicenseNames, NameMap;
    TwoRootsEdges();
    assert "a"[0] != "b"[0];
  }
}
