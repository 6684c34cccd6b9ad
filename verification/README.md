# Verified models of the platform's hard cores

These Dafny modules model the parts of a threat-exposure platform in which the difficult logic lies,
and prove what those parts are for. Each module is named after what it models.

| files | what they model |
|---|---|
| `OsvVersion`, `SemVer`, `OsvRange` | version comparison and the evaluation of advisory ranges |
| `AwsXml` | the scanner that cuts XML answers into blocks |
| `SbomPaths` | shortest dependency paths of a software bill of materials |
| `CircuitBreaker`, `HttpPolicy`, `BreakerRuns` | the circuit breaker and the retry loop that share it, one call and all interleavings of calls |
| `LeaderLease`, `LeaseRuns` | the leader lease of one replica and all runs of many replicas |
| `RateLimit` | the token bucket, in process and as a Redis script |
| `DeliveryClaim`, `DeliveryRuns` | claim-before-send delivery and all its interleavings |
| `Pager`, `Inventory`, `Reconciliation`, `ReconciliationRuns` | capped listings, the asset table, discovery syncs and the sweep over all integrations |
| `SourceScanner`, `CallFinder` | comment blanking and call finding in source text |
| `Ipv6Text`, `AddressForms`, `PublicAddress` | reading IPv6 addresses in all their text forms, and judging whether an address is public |
| `ContainerKey` | container image keys as the connectors print them and the scanner reads them |
| `Core` | strings, splitting and numerals, shared by the rest |

Loops and objects of the original are methods and classes here, proved against functions; the theorems
are lemmas about those functions. What the original takes from its surroundings is a parameter: clock
readings, replies and their loss, jitter, the pages of a listing, the answers of a validation library.
Concurrent code is a state machine whose steps are the stretches between two awaits; a run is any
sequence of enabled steps, and a request that a caller has given up on may still take effect.

Where the code and what is said about it differ, the model follows the code and a lemma says exactly
when the two agree:

- The walk over a range returns at the first interval that contains the version, while the OSV Schema
  goes on through all events. On sorted alternating lists they agree for every version if and only if a
  fixed version that repeats an earlier last affected version is reintroduced at once; for one version
  and any sorted list, also one that restarts an interval, `SortedAgreesExactly` says when they agree.
- The `direct` flag of a component comes from the first entry of the root and the paths come from the
  last; they agree if and only if both name the same refs. A root listed once agrees unless its ref is
  the empty string.
- A claim conflict is described as "a successful send already owns it". It also occurs while another
  handling still holds the claim, or holds it for good after a failed rollback, and the message is acked.
- A discovery sync that reports an error and no archived assets may have archived: exactly when only
  the reply to the archival or the last update of the integration failed.
- The in-process bucket and the Redis script answer differently exactly for a negative capacity on a
  key without a live bucket.
- A replica whose calls overlap, or that loses the reply to one of its calls, can be left disbelieving a
  lease that the store still names it for, from every state in which it is alive and idle. A replica that
  does neither never is, and its release always gives the lease up; a lost reply does it exactly when the
  store names the replica at that moment. Exclusion between replicas is not affected.
- Whether an address is public depends on its text for the addresses zero and one, and for no other.
- The reader of IPv6 texts takes more than the text forms: `::` for no group at all, numbers with leading
  zeros, anything behind the digits of a group, and a dotted tail that is no dotted quad, which it takes
  for zero.
- The scanner refuses some images that the connectors yield, whatever the options: exactly the GCR images whose name holds an
  `@`, a line end or, behind white space, a URL; the ECR images whose repository holds a line end; and the
  ACR images whose resource group is no plain group id or which name `azurecr.io`.

## Model

| member | source | states |
|---|---|---|
| AwsXml.FindOpenTag | apps/asset-service/src/connectors/aws.xml.ts:50-73 | for a tag without `<` the loop finds the first place at or after an offset where `<` and the tag stand, in any case, before `>`, a slash, a space, a tab, a newline or a carriage return, so that a longer name does not count; with the end of its opening token and whether it closes itself; for every tag it is the recursive search, and it ends on any string |
| AwsXml.FindOpenFirst | apps/asset-service/src/connectors/aws.xml.ts:50-73 | for a tag without `<` the search finds the first opening: nothing opens the tag between the starting offset and it; when it finds nothing, every opening from there on lacks its closing bracket |
| AwsXml.ExtractTagBlocks | apps/asset-service/src/connectors/aws.xml.ts:16-48 | of a printed document, whose names may hold every character but angle brackets, slashes and white space, both loops together return exactly the bodies of the outermost elements of that name; on any string they return what the recursive scan does and end |
| AwsXml.MatchNode | apps/asset-service/src/connectors/aws.xml.ts:29-43 | inside an open element a whole printed node, of whatever names and nesting, leaves the depth count as it was |
| AwsXml.ElemSeen | apps/asset-service/src/connectors/aws.xml.ts:29-73 | of a printed element the scanner sees its opening and its closing token and nothing else, exactly when the names agree without regard to case |
| AwsXml.ExtractPrinted | apps/asset-service/src/connectors/aws.xml.ts:16-48 | on every printed document the result is exactly the printed bodies of the outermost elements of the wanted name, in document order |
| AwsXml.ExtractTruncated | apps/asset-service/src/connectors/aws.xml.ts:16-48 | a document that breaks off inside an element of that name gives the bodies before it and nothing of what is open |
| OsvVersion.CompareDotted | libs/vuln-intel/src/osv-range.ts:98-123 | the loop over dotted segments is the dictionary order of the segment comparison |
| OsvVersion.VersionsPreorder | libs/vuln-intel/src/osv-range.ts:73-123 | the version comparison is a total preorder on all strings: signs are antisymmetric and at-most is transitive |
| OsvVersion.EqualVersionsCompareAlike | libs/vuln-intel/src/osv-range.ts:73-85 | versions that compare equal compare alike with every third version |
| OsvVersion.BuildMetadataIgnored | libs/vuln-intel/src/osv-range.ts:87-91 | for every text before a plus sign, what follows the sign has no effect on the comparison with any version; and neither has the sign after text that does not end in white space |
| OsvVersion.LeadingVIgnored | libs/vuln-intel/src/osv-range.ts:87-91 | exactly one leading v of either case is dropped before white space at the end and the build metadata are; so it has no effect on any comparison of a text that starts with neither another v nor white space |
| SemVer.SegmentsExactly | libs/vuln-intel/src/osv-range.ts:107-121 | two numbers compare by value, a number comes before every other segment, other segments compare as in a dictionary, and only equal ones are equal |
| SemVer.NormalizedPrint | libs/vuln-intel/src/osv-range.ts:87-91 | of a printed valid version exactly the core and the prerelease are left |
| SemVer.ComparesByPrecedence | libs/vuln-intel/src/osv-range.ts:73-123 | on printed valid versions the comparison decides exactly the precedence of section 11 of Semantic Versioning 2.0.0, in all three outcomes |
| OsvRange.InRange | libs/vuln-intel/src/osv-range.ts:46-67 | the loop with its open interval and early return is the recursive walk |
| OsvRange.WalkIsEvaluation | libs/vuln-intel/src/osv-range.ts:46-67 | for every version the walk gives the verdict of the OSV Schema evaluation on any event list that restarts no interval at another version and whose closing versions do not descend, with a fixed version strictly above earlier last affected ones |
| OsvRange.VerdictsExactly | libs/vuln-intel/src/osv-range.ts:46-67 | on every list in any order: the walk finds a version if and only if some event introduces it and the next event closes above it or there is none; the OSV Schema evaluation if and only if some event introduces it and no later event ends that |
| OsvRange.RangeContainsExactly | libs/vuln-intel/src/osv-range.ts:46-67 | on every list whatever, also with events of several fields or of none: a version is in range if and only if some event introduces it, `0` introducing every version, and the next event that says anything closes above it or there is none |
| OsvRange.SortedAgreesExactly | libs/vuln-intel/src/osv-range.ts:46-67 | on every sorted list, restarts and repetitions included, and for each single version, the two agree if and only if a version between an event and its restart is the last affected one of an interval, and a version that an event fixes for good is not |
| OsvRange.AlternatingAgreesExactly | libs/vuln-intel/src/osv-range.ts:46-67 | on sorted alternating lists the walk agrees with the OSV Schema evaluation for every version if and only if each fixed version that repeats an earlier last affected version is reintroduced by the next event |
| OsvRange.RepeatedDisagrees | libs/vuln-intel/src/osv-range.ts:46-67 | each violation of that condition is a version on which the walk and the evaluation differ |
| OsvRange.EqualVersionsSameVerdict | libs/vuln-intel/src/osv-range.ts:46-67 | two versions that compare equal get the same verdict on every event list |
| OsvRange.RestartDisagrees | libs/vuln-intel/src/osv-range.ts:53-54 | an interval restarted before it is closed is lost to the walk: a concrete sorted list and version, an instance of the condition of SortedAgreesExactly |
| OsvRange.RepeatedCloseDisagrees | libs/vuln-intel/src/osv-range.ts:58-63 | a repeated version that is not reintroduced: a concrete list and version |
| OsvRange.VersionAffected | libs/vuln-intel/src/osv-range.ts:21-44 | a package is affected exactly when some entry that does not clash with it lists the version or, listing none, has a range other than GIT that contains it |
| OsvRange.EntryByEntry | libs/vuln-intel/src/osv-range.ts:21-44 | an entry counts if and only if it states no other package name and no other ecosystem and lists the version, with or without a leading v, or, listing none, has a range not of commits that contains it |
| SbomPaths.ShortestPaths | apps/scanner-sca/src/sbom.parser.ts:125-148 | on every finite graph, cyclic or not, the search ends; it gives a path to exactly the refs reachable from the root other than the root, and each path is a chain of real edges of least length |
| SbomPaths.ClosedIsShortest | apps/scanner-sca/src/sbom.parser.ts:137-146 | when everything found has been expanded, every chain leads to a ref with a path no longer than it |
| SbomPaths.Visit | apps/scanner-sca/src/sbom.parser.ts:140-145 | looking at one successor keeps the search invariant, whether it is new or known |
| SbomPaths.ParseCycloneDx | apps/scanner-sca/src/sbom.parser.ts:57-148 | every component is described in order: direct if and only if the first entry for the root names its bom-ref, or its package URL when it has none, or its name and version when it has neither; with a shortest chain to that ref, each ref shown by the name of the last component that bears it; and the parse throws exactly when some Maven package URL cannot be decoded |
| SbomPaths.ComponentNameExactly | apps/scanner-sca/src/sbom.parser.ts:107-118 | a component is named by the decoded group and artifact of its package URL if that is a Maven one, in any case of the prefix, and by its own name otherwise |
| SbomPaths.EcosystemExactly | apps/scanner-sca/src/sbom.parser.ts:86-105 | the ecosystem by the type of the package URL, for every renamed type and every other |
| SbomPaths.EcosystemUnknown | apps/scanner-sca/src/sbom.parser.ts:86-89 | without a package URL, or with one that states no type, the ecosystem is unknown |
| SbomPaths.LicensesExactly | apps/scanner-sca/src/sbom.parser.ts:57-84 | licences one by one: the id, else the name, else unknown, and none that is empty |
| SbomPaths.EdgeMapLast | apps/scanner-sca/src/sbom.parser.ts:132-132 | the edges from a ref are those of the last entry for it |
| SbomPaths.DirectIffLengthOne | apps/scanner-sca/src/sbom.parser.ts:57-84 | for every non-root ref the direct flag is equivalent to a path of length one if and only if the first entry of the root and the entry used by the search name the same other refs |
| SbomPaths.ResolvedDirectIffLengthOne | apps/scanner-sca/src/sbom.parser.ts:57-84 | on the parsed document: components other than the root are flagged direct exactly when their path has one step, if and only if of the refs they bear the first and the last entry for the root name the same, and none when the root's ref is empty |
| SbomPaths.UniqueRootAgrees | apps/scanner-sca/src/sbom.parser.ts:57-84 | a document that lists its root at most once meets that condition, unless the root's ref is the empty string and its entry names other refs, from which the search does not start: exactly when |
| SbomPaths.RepeatedRootDisagrees | apps/scanner-sca/src/sbom.parser.ts:57-84 | in a document that lists its root twice, a component is resolved as direct with an empty path, and no result of the search has a path to it |
| CircuitBreaking.CircuitBreaker.GetState | libs/resilience/src/circuit-breaker.ts:41-44 | reads the state after looking at the cooldown; the whole new state |
| CircuitBreaking.CircuitBreaker.Enter | libs/resilience/src/circuit-breaker.ts:46-60 | in the fields: admits when closed, or when half-open or cooled down and no probe is in flight, and then sets the probe flag; nothing else changes |
| CircuitBreaking.CircuitBreaker.Leave | libs/resilience/src/circuit-breaker.ts:62-64 | clears the probe flag, whoever took it; the whole new state |
| CircuitBreaking.CircuitBreaker.RecordSuccess | libs/resilience/src/circuit-breaker.ts:66-74 | in the fields: the circuit is closed, with no failures if it was not and with the recent ones if it was; nothing else changes |
| CircuitBreaking.CircuitBreaker.RecordFailure | libs/resilience/src/circuit-breaker.ts:76-87 | in the fields: a half-open circuit, or one in which the recent failures reach the threshold with this one, is open from this instant with no failures; otherwise the recent failures and this one are kept and nothing else changes |
| CircuitBreaking.CircuitBreaker.TransitionIfCooldownElapsed | libs/resilience/src/circuit-breaker.ts:89-94 | an open circuit becomes half-open once the cooldown has passed; the whole new state |
| CircuitBreaking.CircuitBreaker.OpenCircuit | libs/resilience/src/circuit-breaker.ts:96-102 | opens at the given instant with an empty list; the whole new state |
| CircuitBreaking.CircuitBreaker.PruneFailures | libs/resilience/src/circuit-breaker.ts:104-108 | keeps exactly the failures inside the window; the whole new state |
| HttpPolicy.Execute | libs/resilience/src/http-policy.ts:51-99 | with any interference between its steps, an admitted call records exactly one outcome, namely that of its last attempt: a success exactly when the answer was below 500; all earlier attempts were worth retrying; attempts stay within the budget (one when half-open) and sleep within its bound; the code after the loop is not reached |
| HttpPolicy.JudgeExactly | libs/resilience/src/http-policy.ts:62-99 | an attempt is repeated if and only if it ended with 502, 503, 504 or an exception worth retrying and was not the last, and a success is recorded if and only if the answer was below 500 |
| HttpPolicy.SleepBoundMonotone | libs/resilience/src/retry.ts:54-62 | the bound on the total sleep, base times two to the number of delays less one, grows with the attempts |
| BreakerRuns.ApplyInv | libs/resilience/src/http-policy.ts:51-99 | every step of any number of concurrent calls keeps the invariant |
| BreakerRuns.AfterSuffix | libs/resilience/src/circuit-breaker.ts:104-108 | of failure times in order the recent ones are a suffix, the same whether or not older ones were pruned before |
| BreakerRuns.ReachableInv | libs/resilience/src/circuit-breaker.ts:46-108 | the invariant holds in every reachable state of every interleaving |
| BreakerRuns.ProbeEndsEpisode | libs/resilience/src/circuit-breaker.ts:46-102 | in every run a set probe flag means half-open with exactly one call admitted in the episode, awake and running its only attempt; however it settles, the same step ends the episode and clears the flag |
| BreakerRuns.RejectsExactly | libs/resilience/src/circuit-breaker.ts:46-60 | in every run a new call does not run exactly while the cooldown runs or a probe is in flight, and otherwise runs with all attempts when closed and one when not; a half-open episode admits at most one call |
| BreakerRuns.OpensExactly | libs/resilience/src/circuit-breaker.ts:76-87 | in every run a failure recorded while closed opens the circuit, from that instant, exactly when the number of failures since the last reset that lie in the window reaches the threshold with it; the stored list stays shorter than the threshold |
| BreakerRuns.SettlesExactly | libs/resilience/src/circuit-breaker.ts:62-108 | in every reachable state, how an attempt leaves the breaker: untouched if the call goes on; closed after a success; open from that instant after the failure of a probe or at the threshold; otherwise with one more failure |
| BreakerRuns.ProbeSucceeds | libs/resilience/src/circuit-breaker.ts:66-74 | after a successful probe the circuit is closed with no failures, and the next call runs with all its attempts whenever it comes |
| BreakerRuns.ProbeFails | libs/resilience/src/circuit-breaker.ts:76-87 | after a failed probe the circuit is open from that instant, and in every further run every call before the end of the cooldown is turned away unless a call that still ran reports a success |
| BreakerRuns.CallsBounded | libs/resilience/src/http-policy.ts:51-87 | in every run each call stays within its budget of attempts and of sleep, and has recorded one outcome once over and none before |
| BreakerRuns.EarlyAdmissionNeedsSuccess | libs/resilience/src/circuit-breaker.ts:66-74 | a call admitted before the cooldown has passed implies that a call which ran when the circuit opened has since reported a success |
| LeaderLeasing.MemoryLeaseStore.SetNxPx | libs/coordination/src/lease-store.ts:42-47 | creates the key exactly when it is absent or expired; all other keys stay |
| LeaderLeasing.MemoryLeaseStore.Get | libs/coordination/src/lease-store.ts:49-52 | reads the live value; all other keys stay |
| LeaderLeasing.MemoryLeaseStore.ExpireIfValue | libs/coordination/src/lease-store.ts:54-60 | extends the key exactly when it is live under this value; all other keys stay |
| LeaderLeasing.MemoryLeaseStore.DelIfValue | libs/coordination/src/lease-store.ts:62-68 | deletes the key exactly when it is live under this value; all other keys stay |
| LeaderLeasing.LeaderLease.TryHold | libs/coordination/src/leader-lease.ts:71-93 | one request, and a second one to acquire only after a refused renewal; the result and the belief left behind are those of the last reply, with other calls running at every await |
| LeaderLeasing.LeaderLease.Release | libs/coordination/src/leader-lease.ts:95-104 | nothing is sent by a replica that does not think it holds; otherwise one deletion |
| LeaseRuns.ExecuteInv | libs/coordination/src/lease-store.ts:42-68 | a store operation keeps the log of effects lawful and the cell determined by it |
| LeaseRuns.Exclusion | libs/coordination/src/leader-lease.ts:71-93 | in every run with crashes, lost replies, late requests and overlapping calls, after a replica is granted the lease no other is granted it before the time to live is over, unless the holder's own release deleted the key in between |
| LeaseRuns.SucceedsExactly | libs/coordination/src/lease-store.ts:42-68 | in every run an attempt to acquire succeeds exactly when no grant is live, so the first one at or after expiry succeeds; a renewal or deletion exactly when the asker's own grant is live |
| LeaseRuns.BeliefWasGranted | libs/coordination/src/leader-lease.ts:71-93 | a replica that believes it holds, or is about to return true, was granted the lease by the store |
| LeaseRuns.CarefulNeverLockedOut | libs/coordination/src/leader-lease.ts:71-104 | a replica that makes one call at a time and gets the replies to its own calls is, in every run and whatever the other replicas do, never left disbelieving a lease that the store names it for |
| LeaseRuns.LostReplyLocksOutExactly | libs/coordination/src/leader-lease.ts:71-104 | if such a replica then loses the reply to a call, it is locked out on the spot if and only if the store names it at that moment |
| LeaseRuns.LostReplyCanLockOut | libs/coordination/src/leader-lease.ts:71-93 | from every state in which a replica is alive and idle, and with no other lapse, one lost reply can lock it out |
| LeaseRuns.OverlapCanLockOut | libs/coordination/src/leader-lease.ts:71-93 | from every such state one call that overlaps another can lock the replica out although every reply arrives |
| LeaseRuns.CarefulReleaseGivesUp | libs/coordination/src/leader-lease.ts:71-104 | whenever a careful replica has no call open and does not believe it holds the lease, as after each of its releases, the store does not name it |
| LeaseRuns.ReleaseExactly | libs/coordination/src/leader-lease.ts:95-104 | after a release in any reachable state, with its deletion carried out if it sends one, the store still names the replica if and only if it named it before and the replica did not know |
| LeaseRuns.ReleaseDuringAcquire | libs/coordination/src/leader-lease.ts:95-104 | a release during an attempt to acquire sends nothing and the lease stays taken: a run, for every replica and time to live |
| RateLimiting.MemoryRateLimitStore.Take | libs/coordination/src/rate-limit-store.ts:36-46 | takes a token of the live bucket or of a new one, or answers -1; the whole new map |
| RateLimiting.MemoryRateLimitStore.Purge | libs/coordination/src/rate-limit-store.ts:48-51 | drops the key exactly when its bucket has expired |
| RateLimiting.StepsAgree | libs/coordination/src/redis.client.ts:28-41 | one call keeps the Redis script and the in-process bucket related, and they answer alike exactly when the capacity is not negative or the bucket is live |
| RateLimiting.RedisRefined | libs/coordination/src/redis.client.ts:28-41 | the same for call i of every sequence of calls |
| RateLimiting.StoresInterchangeable | libs/coordination/src/redis.client.ts:28-41 | with capacities that are not negative both stores answer every sequence of calls alike |
| RateLimiting.AtMostTwiceCapacity | libs/coordination/src/rate-limit-store.ts:36-46 | over all replicas every closed interval of one window length sees at most twice the capacity in admissions of a key, in both stores |
| RateLimiting.TwiceCapacityReached | libs/coordination/src/rate-limit-store.ts:36-46 | that bound is reached, for every capacity and window |
| RateLimiting.BucketServes | libs/coordination/src/rate-limit-store.ts:36-46 | while a bucket lives it admits exactly as many calls as it has tokens for |
| RateLimiting.NewBucketServes | libs/coordination/src/rate-limit-store.ts:36-46 | of the calls from a bucket's making to its expiry exactly the first capacity many are admitted |
| DeliveryClaims.KeyIdentifies | apps/notification-service/src/delivery-claim.ts:34-51 | two messages share a claim exactly when both are claimed and agree on envelope organisation, channel and the two ids; target and the rest of the body do not matter |
| DeliveryClaims.ClaimedExactly | apps/notification-service/src/delivery-claim.ts:34-51 | a message is claimed if and only if it reports a policy violation to Slack or Jira and names finding and policy by UUIDs; the claim is about the envelope's organisation and channel and those ids |
| DeliveryClaims.ClaimStore.TryClaim | apps/notification-service/src/delivery-claim.ts:104-121 | inserts the claim or reports the conflict; an exception may come before or after the commit |
| DeliveryClaims.ClaimStore.Release | apps/notification-service/src/delivery-claim.ts:123-134 | deletes the claim; an exception may come before or after the commit |
| DeliveryClaims.SendWithDeliveryClaim | apps/notification-service/src/delivery-claim.ts:58-94 | any other message is sent once and touches no claim; for a claimed message one send exactly when the insert won, skipped exactly on a conflict, and a rollback exactly after a failed send, whose own failure is reported; every request is about that claim |
| DeliveryClaims.HandleMessage | libs/events/src/event-bus.ts:94-118 | acked exactly when sent or skipped, otherwise naked with the capped backoff; unreadable bodies touch no claim |
| DeliveryClaims.BackoffGrows | libs/events/src/event-bus.ts:115-117 | the delay starts at one second, doubles up to one minute and stays there |
| DeliveryRuns.ApplyInv | apps/notification-service/src/delivery-claim.ts:58-94 | every step of any number of workers keeps the invariant |
| DeliveryRuns.SendsAndHoldersAreClaims | apps/notification-service/src/delivery-claim.ts:58-94 | in every reachable state the accepted sends of a key and the handlings that hold its claim together number exactly the stored claims of the key, one or none |
| DeliveryRuns.AtMostOneSend | apps/notification-service/src/delivery-claim.ts:58-94 | under redelivery, failed sends, failed or late rollbacks and crashes, no claim key has two accepted sends |
| DeliveryRuns.InsertWinsExactly | apps/notification-service/src/delivery-claim.ts:104-121 | an insert wins exactly when the key was not sent and no handling, alive or dead, holds its claim |
| DeliveryRuns.RolledBackIsClaimable | apps/notification-service/src/delivery-claim.ts:78-92 | the commit of a rollback turns the next insert for the key from a conflict into a win |
| DeliveryRuns.OrphanIsNeverSent | apps/notification-service/src/delivery-claim.ts:80-90 | after a failed rollback, or a crash before the send, the key is never sent again and its claim stays in every further run in which the lost rollback does not commit |
| DeliveryRuns.AckedWithoutSend | apps/notification-service/src/delivery-claim.ts:20-22 | a duplicate does not mean that a send has succeeded: a run that acks a message which is then never sent and no longer claimed |
| Inventory.AssetsService.UpsertAsset | apps/asset-service/src/assets/assets.service.ts:20-50 | the row has the asset's kind, name and source and the integration's id, is unarchived and seen now; every field that is given has the given value, every other its earlier one or, in a new row, its default; all other rows stay |
| Inventory.AssetsService.ArchiveStale | apps/asset-service/src/assets/assets.service.ts:99-106 | archives exactly the unarchived rows of the organisation, source and integration last seen before the given instant, changes nothing else, and counts them |
| Inventory.KeysStay | apps/asset-service/src/assets/assets.service.ts:20-106 | no sequence of upserts and archivals, by anybody, removes a key |
| Inventory.FieldsHaveLastGiven | apps/asset-service/src/assets/assets.service.ts:26-42 | after any such sequence each optional field of a row has the value it was last given, else its earlier value, else its default |
| Inventory.LastGivenStored | apps/asset-service/src/assets/assets.service.ts:26-42 | field by field, after any sequence of writes a row holds the very value that the last write to give the field gave |
| Inventory.NeverGivenUnset | apps/asset-service/src/assets/assets.service.ts:26-42 | a field of a new row that no write gives is unknown, empty or absent |
| Inventory.LastUpsertDecides | apps/asset-service/src/assets/assets.service.ts:20-50 | kind, name, source and the time last seen are those of the last upsert of the key, the integration is the last one given with it, and the row is unarchived unless archived since |
| Inventory.OmittedFieldsSurvive | apps/asset-service/src/assets/assets.service.ts:32-38 | each field that no write to a key gives stays as it is through any number of syncs, whatever other fields they give |
| Reconciliation.DiscoveryScheduler.UpsertAll | apps/asset-service/src/connectors/discovery-scheduler.service.ts:123-134 | the loop stores what is yielded up to the first exception and reports whether there was one |
| Reconciliation.DiscoveryScheduler.SyncIntegration | apps/asset-service/src/connectors/discovery-scheduler.service.ts:108-160 | with a failure possible at every step, before or after its commit, the rows, the result and the recorded status of the integration are exactly those of the steps that ran |
| ReconciliationRuns.ScopeAfterSync | apps/asset-service/src/connectors/discovery-scheduler.service.ts:108-160 | what is in an integration's scope after any of its syncs, successful or not: what the sync stored and, of the rest, what was there before and, if archival was reached, has been seen since the sync started |
| ReconciliationRuns.ReconcilesExactly | apps/asset-service/src/connectors/discovery-scheduler.service.ts:108-160 | after a sync without error the unarchived assets of its organisation, source and integration are exactly the yielded keys |
| ReconciliationRuns.ArchivesExactly | apps/asset-service/src/connectors/discovery-scheduler.service.ts:136-141 | a sync archives exactly the stale rows, and nothing unless the connector ended normally, everything was stored and the archival committed |
| ReconciliationRuns.ErrorArchivesExactly | apps/asset-service/src/connectors/discovery-scheduler.service.ts:136-160 | a sync that reports an error has archived something if and only if everything up to the archival went well, something was stale, and only the reply to the archival or the final update failed |
| ReconciliationRuns.ErrorAfterArchival | apps/asset-service/src/connectors/discovery-scheduler.service.ts:142-158 | such a sync exists: it reports an error and no archived assets, yet a row is archived |
| ReconciliationRuns.YieldStored | apps/asset-service/src/connectors/discovery-scheduler.service.ts:123-134 | what a connector yields before anything fails is in the table after the sync, under its kind, name and source, owned by the integration and not archived, even if the sync fails later |
| ReconciliationRuns.YieldedFieldStored | apps/asset-service/src/connectors/discovery-scheduler.service.ts:123-134 | and each field of it has the value yielded last |
| ReconciliationRuns.ReportsExactly | apps/asset-service/src/connectors/discovery-scheduler.service.ts:108-160 | a sync reports success exactly when no step failed, with the numbers of assets yielded and of rows archived, and is then recorded as of its start; otherwise it reports an error, or rejects if even that cannot be recorded |
| ReconciliationRuns.ArchivalNeedsCompleteListings | apps/asset-service/src/connectors/discovery-scheduler.service.ts:124-141 | if a sync over capped pagers archives anything, each of the listings came to its end within the page cap |
| ReconciliationRuns.SyncKeepsKeys | apps/asset-service/src/connectors/discovery-scheduler.service.ts:108-160 | a sync removes no key |
| ReconciliationRuns.OthersUntouched | apps/asset-service/src/assets/assets.service.ts:93-106 | rows of other organisations, and unyielded rows of other integrations or sources, are left exactly as they are |
| ReconciliationRuns.TakesOnlyYielded | apps/asset-service/src/assets/assets.service.ts:20-50 | one integration's sync takes from another's scope exactly the keys it stores itself |
| ReconciliationRuns.Tick | apps/asset-service/src/connectors/discovery-scheduler.service.ts:85-94 | the sweep runs the syncs in turn and ends early only at one that rejects |
| ReconciliationRuns.SweepReconciles | apps/asset-service/src/connectors/discovery-scheduler.service.ts:85-94 | after a sweep in which every sync succeeds, with distinct integrations and no key yielded twice in an organisation, every integration's unarchived assets are exactly the keys its connector yielded |
| Pager.WalkPages | apps/scanner-cspm/src/cloud.fetch.ts:93-111 | the loop delivers what the recursive pager does and makes at most as many calls as the page cap |
| Pager.PagedGet | apps/asset-service/src/connectors/azure.connector.ts:415-431 | so does the Azure pager, with its address check before every request |
| Pager.CompletesExactly | apps/scanner-cspm/src/cloud.fetch.ts:93-111 | a pager ends normally if and only if the listing ends within the cap, and then it has delivered all its pages in order; otherwise it throws |
| Pager.DeliversUntilBreak | apps/scanner-cspm/src/cloud.fetch.ts:93-111 | a listing that does not end within the cap is delivered page by page up to where it breaks off: at an exception, at a page that is cut short without a continuation, or at the cap |
| Pager.NextLinkExactly | apps/asset-service/src/connectors/azure.connector.ts:415-431 | white space around a continuation link does not matter, and a link of nothing else is none |
| Pager.InTurnCompletesExactly | apps/asset-service/src/connectors/azure.connector.ts:319-355 | a connector that runs several pagers ends normally exactly when each of them does |
| SourceScanner.LineAt | apps/scanner-sast/src/source.ts:14-21 | the line of an offset is one more than the number of newlines before it |
| SourceScanner.SkipQuoted | apps/scanner-sast/src/source.ts:28-40 | returns the offset past the closing quote, honouring escapes, or the end of the text |
| SourceScanner.StripJsCommentsPreserve | apps/scanner-sast/src/source.ts:47-89 | the index loops blank exactly the comments of JavaScript, as StripExactly says |
| SourceScanner.StripPyCommentsPreserve | apps/scanner-sast/src/source.ts:91-136 | the index loops blank exactly the comments of Python, as StripExactly says |
| SourceScanner.StripCommentsPreserve | apps/scanner-sast/src/source.ts:43-45 | blanks exactly the comments of the language |
| SourceScanner.StripExactly | apps/scanner-sast/src/source.ts:43-136 | of all texts only the result shows the regions of the text: a line comment from `//` or `#` to before the first newline, a block comment to its first closing mark, quoted regions to the first quote that is not escaped; in comments everything but newlines is blank, and elsewhere every character is kept |
| SourceScanner.RegionStripped | apps/scanner-sast/src/source.ts:43-136 | wherever the scan is in code and a region begins, stripping gives the region's image followed by the rest stripped as code |
| SourceScanner.RegionsExist | apps/scanner-sast/src/source.ts:43-136 | every text can be cut into such regions |
| SourceScanner.UnchangedIffNoRemark | apps/scanner-sast/src/source.ts:47-136 | a text is left unchanged exactly when none of its regions is a comment |
| SourceScanner.StripBlanks | apps/scanner-sast/src/source.ts:43-136 | stripping keeps the length, changes a character only to a space and no newline |
| SourceScanner.LinesKept | apps/scanner-sast/src/source.ts:14-21 | every offset is on the same line before and after stripping |
| SourceScanner.UnchangedIffCommentFree | apps/scanner-sast/src/source.ts:47-136 | text is left unchanged exactly when no comment opens in it |
| SourceScanner.OutputCommentFree | apps/scanner-sast/src/source.ts:47-136 | the scan of stripped text meets no comment, unterminated comments and strings included |
| SourceScanner.StripTwice | apps/scanner-sast/src/source.ts:43-136 | stripping is idempotent and its result is free of comments |
| CallFinder.MatchingParen | apps/scanner-sast/src/source.ts:175-192 | the loop matches a parenthesis while skipping quoted regions, or gives the end of the text |
| CallFinder.FindCalls | apps/scanner-sast/src/source.ts:138-173 | the scan ends on every text and returns its calls in order |
| CallFinder.MatchesBalanced | apps/scanner-sast/src/source.ts:175-192 | a parenthesis is matched by the one at c if and only if the text between is balanced, outside quotes |
| CallFinder.CallsClear | apps/scanner-sast/src/source.ts:138-173 | inside a parenthesis every later call ends inside it or starts after it, because matching and scanning skip the same quotes |
| CallFinder.CallsLaminar | apps/scanner-sast/src/source.ts:138-173 | call offsets strictly increase and any two argument spans are nested or disjoint |
| CallFinder.HitsExact | apps/scanner-sast/src/source.ts:158-168 | the hits are exactly the calls: a name is one if and only if it is a word of letters, digits, underscores and dots outside quotes, from its first letter or underscore on, followed by white space at most and an opening parenthesis, with its line, the matching offset, the text between and the part after its last dot |
| Ipv6Text.FoldGroups | apps/scanner-asm/src/surface.probe.ts:582-589 | the loop folds the groups and fails at the first that is no 16-bit number |
| AddressForms.QuadReads | apps/scanner-asm/src/surface.probe.ts:474-480 | a printed dotted quad is read as its four bytes |
| AddressForms.FourNumeralsRead | apps/scanner-asm/src/surface.probe.ts:474-480 | four numerals between dots are read if and only if none is above 255 |
| AddressForms.OtherCountRefused | apps/scanner-asm/src/surface.probe.ts:474-480 | more or fewer parts are refused |
| AddressForms.LowerDenotes | apps/scanner-asm/src/surface.probe.ts:530-530 | letter case does not change what a text denotes |
| AddressForms.ReadsEveryForm | apps/scanner-asm/src/surface.probe.ts:525-598 | every text form of section 2.2 of RFC 4291, full, with :: or with a dotted tail, in either case, bracketed or not, is read as the eight 16-bit groups it denotes, a value below 2^128 |
| AddressForms.ReadsExactly | apps/scanner-asm/src/surface.probe.ts:525-598 | hexadecimal numbers of any length between colons, with or without `::` and a dotted tail, are read if and only if there are eight groups, or at most eight around `::`, and each fits in 16 bits |
| AddressForms.NoColonRefused | apps/scanner-asm/src/surface.probe.ts:525-533 | text without a colon, or with a zone, is refused |
| AddressForms.TwoGapsRefused | apps/scanner-asm/src/surface.probe.ts:534-540 | text with `::` in two places is refused |
| AddressForms.NumberThenRead | apps/scanner-asm/src/surface.probe.ts:582-589 | of a field that begins with a number the rest is not looked at, and one that begins with anything else is refused |
| AddressForms.UnreadableTailIsZero | apps/scanner-asm/src/surface.probe.ts:592-598 | a dotted tail after `::` that is no dotted quad makes the text the address zero |
| AddressForms.ParseIPv6ToBigInt | apps/scanner-asm/src/surface.probe.ts:525-598 | the steps on the text and its fields give on every text form, bracketed or not, the value of the eight groups it denotes, and on every other string what the specification says |
| AddressForms.SameReadingSameAddress | apps/scanner-asm/src/surface.probe.ts:525-598 | two texts are read as the same number if and only if they denote the same eight groups |
| PublicAddress.QuadVerdict | apps/scanner-asm/src/surface.probe.ts:482-523 | on every dotted quad the shifts and prefix tests decide exactly the table of reserved byte ranges |
| PublicAddress.GroupsPrefix | apps/scanner-asm/src/surface.probe.ts:600-603 | a shift by whole groups compares exactly the leading groups of two addresses |
| PublicAddress.FirstGroupPrefix | apps/scanner-asm/src/surface.probe.ts:600-603 | a shift inside the first group compares exactly the leading bits of that group |
| PublicAddress.VerdictOfForm | apps/scanner-asm/src/surface.probe.ts:605-643 | on every text form the verdict is that of a table over the eight groups, with the embedded quad judged where the address is mapped, apart from the two texts that are compared as texts |
| PublicAddress.SameAddressVerdicts | apps/scanner-asm/src/surface.probe.ts:605-643 | two texts of one address get the same verdict if and only if both or neither are among those two texts; so always when the address is above one |
| PublicAddress.OneVerdictExactly | apps/scanner-asm/src/surface.probe.ts:605-643 | all texts of an address get one verdict if and only if the address is neither zero nor one |
| ContainerKey.MatchExactly | apps/scanner-container-iac/src/container.identity.ts:47-57 | a key pattern accepts exactly the printed keys and captures the parts they were printed from |
| ContainerKey.OnePattern | apps/scanner-container-iac/src/container.identity.ts:604-622 | no key fits the patterns of two registries |
| ContainerKey.AssetKey | apps/asset-service/src/connectors/gcr.connector.ts:229-249 | each connector's key is the printed form of its fields and digest |
| ContainerKey.AttributesOfAsset | apps/scanner-container-iac/src/container.identity.ts:195-332 | on a printed asset every attribute agrees with the field of the key it repeats |
| ContainerKey.IdsRead | apps/scanner-container-iac/src/container.identity.ts:705-763 | of a yielded image the ids pass all rules of the reader if and only if a GCR image name has no @ and does not begin as a URL once trimmed, and an ACR resource group, once trimmed, is a group id and neither it nor the repository names azurecr.io; for ECR and Docker Hub always |
| ContainerKey.KeyFits | apps/scanner-container-iac/src/container.identity.ts:47-57 | a yielded image with readable names has a key that fits the pattern of its registry if and only if its last field has no line end |
| ContainerKey.OwnLogin | apps/scanner-container-iac/src/azure.egress.ts:151-170 | the login server that the ACR connector pins for a registry passes the reader's check for that registry |
| ContainerKey.LoginExactly | apps/scanner-container-iac/src/azure.egress.ts:151-170 | a login server is accepted if and only if, trimmed and in lower case, it is the registry's name at azurecr.io, alone, with one dot behind it or with a colon and anything |
| ContainerKey.DockerIdExactly | apps/scanner-container-iac/src/dockerhub.egress.ts:37-60 | a plain Docker Hub name is refused if and only if it ends in docker.io or docker.com, in any case and with or without a dot behind it |
| ContainerKey.ReadsConsistently | apps/scanner-container-iac/src/container.identity.ts:140-625 | a reference read from a key contradicts no attribute of the target and no option: digest, every field, region, location and login server |
| ContainerKey.DigestExactly | apps/scanner-container-iac/src/container.identity.ts:47-47 | a digest is sha256: in any case and 64 hexadecimal digits |
| ContainerKey.GcpShapes | apps/scanner-container-iac/src/gcp.egress.ts:18-30 | the shapes of project, location and repository ids, read from first character, middle and last |
| ContainerKey.AcrRepositoryExactly | apps/scanner-container-iac/src/azure.egress.ts:32-33 | repository names are runs of small letters and digits joined by single separators |
| ContainerKey.GuidExactly | apps/scanner-container-iac/src/azure.egress.ts:19-20 | a subscription id is five runs of hexadecimal digits, of 8, 4, 4, 4 and 12, between dashes |
| ContainerKey.IdShapes | apps/scanner-container-iac/src/azure.egress.ts:23-29 | the lengths and characters of account ids, registry names, Docker Hub names and resource groups |
| ContainerKey.YieldedYetRefused | apps/asset-service/src/connectors/gcr.connector.ts:141-173 | an image that the GCR connector yields and the scanner refuses, under any rules and options |
| ContainerKey.AssetReadsBack | apps/scanner-container-iac/src/container.identity.ts:596-625 | every image that the ECR, GCR, ACR or Docker Hub connector yields is read from its asset as exactly its registry, fields and digest (and ECR region) if the options of the integration agree with it, its names are readable and its last field has no line end; in every other case the reader refuses it |
| ContainerKey.AttributesReadBack | apps/scanner-container-iac/src/container.identity.ts:627-703 | without the key the attributes of the asset select the same registry and give the same reference under the same condition, in which line ends do not matter; in every other case the reader refuses |
| ContainerKey.KeylessReads | apps/scanner-container-iac/src/container.identity.ts:627-703 | a reference read from any target without a key has a stated digest of the right form and ids that pass the rules; Quay only if the source says so, Docker Hub only if it does not, and neither when an id of another cloud is stated |
| ContainerKey.KeysAreInjective | apps/asset-service/src/connectors/acr.connector.ts:259-282 | two images have the same key exactly when registry, fields and digest agree |
| ContainerKey.AttributesOnlyRefuse | apps/scanner-container-iac/src/container.identity.ts:195-625 | of targets with the same key, attributes and options can make the reader refuse but cannot change what it returns, except the ECR region |

## Left out

- Characters are compared by code and only ASCII letters change case; the original orders UTF-16 units and folds all of Unicode. Numeric version segments are unbounded, while the original loses precision above 2^53.
- OSV `limit` events and `GIT` ranges: the first are ignored by the code, the second are skipped before the walk.
- AwsXml.ExtractPrinted: printed text is free of `<` and attributes are free of both angle brackets, because the scanner takes the first `>` as the end of a tag.
- SbomPaths.ParseCycloneDx: the decoding of percent escapes is a parameter that may throw; a package type that is the name of a built-in object member is not modelled.
- LeaseRuns.Exclusion: speaks of grants by the store, not of how long the work of a leader runs after it.
- RateLimiting.AtMostTwiceCapacity: asks for a positive window, as the expiry argument of Redis does, and for calls in the order of the store's clock; Redis drops an expired key at the same instant as the in-process store.
- DeliveryRuns.AtMostOneSend: a send that is reported as failed counts as not sent, because the channel's own acceptance cannot be seen; ids are compared as text.
- ReconciliationRuns.ReconcilesExactly: asks for sequential writers, for a clock that does not run behind the start of the sync, for assets of the provider's own source, and that nothing in scope was seen at or after the start; ScopeAfterSync says what holds without the last two.
- Inventory rows carry no row id, first-seen time or creation time; the events that an upsert publishes are only a point at which it can fail.
- BreakerRuns.EarlyAdmissionNeedsSuccess: no unconditional cooldown is claimed, because a late success may close an open circuit.
- Which exceptions are worth retrying is any predicate; the jittered delay is any value up to its cap; a sleep does not fail and the clock does not go back.
- In a dotted quad, strings that are not plain numerals are read by a parameter that stands for the runtime's number conversion; the printed forms never reach it.
- GHCR and Quay keys are read as the other keys are, but the printers of their connectors are not modelled, and the rules for the ids of Quay are parameters.
- ContainerKey.AssetReadsBack: the table of AWS regions is a parameter, the same for connector and reader, and so is the refusal of options and targets that name a host; that the decoding of Artifact Registry resource names yields these fields is not modelled.
- The first argument of a call, whether it is interpolated, and the regular-expression rules above them.
- Logging, configuration parsing, credentials, HTTP, DNS and the database connections themselves.
