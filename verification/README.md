# A model of helm-watch

helm-watch finds the Helm charts that run in a Kubernetes cluster, looks up the newest
version of each one upstream, and publishes per-chart gauges. This project models that
pipeline in Dafny and proves what the stages promise each other, from the registry
protocol at the bottom to the gauges at the top.

    dafny verify dfyconfig.toml

## What is modelled

The modules follow the program's packages.

| module | models |
|---|---|
| `Text`, `Model` | Go's string operations; the records the stages hand to each other |
| `SemVer`, `Tags`, `VersionEngine` | precedence (section 11 of Semantic Versioning 2.0.0), picking the newest tag, status and lag |
| `RegistryHeaders`, `OciTags`, `OciPaging`, `OciRequests`, `OciReplies`, `OciTokens`, `OciResolver` | the `Link` and `WWW-Authenticate` headers, the paging and authentication loops, the requests they make and the replies they get, token negotiation, the tag cache |
| `IndexCache`, `OverlappingCalls`, `ResolverAgreement` | the stale-on-error index cache, one call at a time and lock by lock; the two resolvers compared |
| `ArgoApplications`, `HelmReleases`, `ReleaseObjects`, `Discovery`, `MergeOrder`, `ClusterDiscovery` | the two discovery sources and their merge into one record per application |
| `Catalog`, `Enrichment`, `Overrides` | enriching one workload; its record told from the cluster's raw answers; repository overrides |
| `WorkerPool`, `CacheTransparency`, `Provenance` | the concurrent build over shared caches, as an interleaved transition system |
| `ChartMetrics`, `PublishedSeries`, `GaugeAgreement`, `Handshake`, `Pipeline` | publication, the reconcile/publish handshake, and the stages composed |

Code that loops or updates state is a method with loops, or a class with fields, proved
against a specification function; the properties are lemmas about those functions.
Everything outside the program is an argument: a registry, a repository or the cluster is
given by its answers, version parsing and URL resolution by functions, clock readings by
numbers. Map iteration picks keys in any order, and a sort is known only to produce some
sorted permutation, so nothing rests on the order Go happens to use.

Concurrency is a transition system per protocol. A worker's step touches each cache at most
once, under its lock; the steps of all workers, of overlapping look-ups, and of the manager
and the publisher interleave in every way. `WorkerPool` lets upstream answer anything at
each step; `CacheTransparency` adds that upstream answers alike whenever it is asked the
same thing, which is what the equality with an uncached build needs.

## Main results

- Every build ends, under every schedule, with each slot written exactly once, and its
  records are those of a sequential build without caches.
- For merged workloads all four gauge vectors have one series per workload and agree with
  each other, whatever upstream answers and whatever the caches held before. The two
  sources of the server really deliver what this rests on: equal IDs only for equal records.
- Even when upstream changes its answers, no worker mixes them up: a latest version comes from
  what was heard, or cached before, for that very artifact or repository.
- Against any registry, listing tags equals concatenating the chain of pages it shows,
  wherever the first 401 comes, within 51 tag requests and one token request; the requests
  made are exactly those of the chain, and the exit for exhausted attempts is unreachable.
- The status of a record from a registry is the one its tags call for, and that of a record
  from an index the one its first entry calls for; each comes with the exact condition under
  which that is what all versions call for (below).
- The merge of all sources is a canonical form: it depends on the set of records only,
  exactly when no record that shares its ID with a different one can win its group.
- Publications show the last good records of ever more attempts, of at least one whenever
  the publisher waited for the first, however the run ends later.

## Where the code differs from what one would expect

The model does what the code does. These are the places where an expected property fails,
each with the exact condition under which it holds.

- A picked tag that starts with `vv` is accepted by the picker, which strips one `v` before
  a parser that tolerates another, and rejected by the engine. The status is then `unknown`
  although a newer tag exists (`VersionEngine.OutdatedIffNewerExists`, `DoubleVTagIsUnknown`).
- The index resolver trusts the order of the index. If its first entry does not parse while
  another does, or is not newer than the current version while another is, the status is wrong: 1.0.0 is up
  to date against an index that lists 1.0.0 before 2.0.0 (`Catalog.IndexStatusIsDeserved`,
  `VersionEngine.FirstEntryStatus`, `AscendingIndexHidesUpdate`).
- The lag is not clamped at one when its weighting is negative: from 1.200.0 to 2.0.0 it is
  2^64 - 10000 (`LagIsClampedExact`, `NegativeWeightingWraps`). It does not always grow with
  the latest version: a pre-release is one behind both its release and the next patch
  (`LagGrowsWithLatest`, `LagPlateau`).
- A next link is lost when its target contains `,` or `;`, which section 3 of RFC 8288 allows
  inside the angle brackets (`RegistryHeaders.NextLinkRoundTrip`). A quoted challenge
  parameter is misread when it contains a comma, or a quote at either end
  (`RegistryHeaders.ChallengeRoundTrip`).
- Links and challenges are followed wherever they lead: the next page is asked for with the
  authorisation of the registry it came from, and a token with the credentials configured for
  that registry's host. Authorised requests stay within a set of URLs, such as those of the
  host, exactly when the pages asked for with authorisation do and, for a host with
  credentials, the token endpoint does (`OciRequests.AuthorisedRequestsStayWithin`,
  `LinkTakesAuthorisationAlong`, `RealmIsSentCredentials`).
- A failed refresh that overlaps a successful one can write the older index back over the
  newer one, exactly when the last write in between was of a newer entry
  (`OverlappingCalls.FetchTimeDropsExactly`, `RefreshCanBeLost`).
- Two records with the same ID but different contents can make the merge depend on the order
  a sort happens to leave them in, exactly when one of them is not sure to lose its group
  (`MergeOrder.MergeIsDeterminedExactly`, `EveryMergeHappens`).
- Two workloads of one application with one chart name share their narrow series. Each
  workload has series of its own exactly when there are no such two
  (`ChartMetrics.InSyncExactly`); the vectors still agree, series by series and in their sums,
  exactly when any such two have the same info series or are both up to date
  (`GaugeAgreement.AgreementExactly`, `ChartMetrics.DuplicateApplicationsDisagree`).
- The project's README offers overrides for a repository that is missing or wrong. A
  discovered repository of no known kind can be neither resolved nor overridden
  (`Catalog.LeftUnrepaired`, `SlashlessIsLeftUnrepaired`). The comment on `applyRepoOverride` announces three cases and
  lists two; the code has the three disjuncts that `Catalog.CanOverride` has.
- A run can publish an empty snapshot before any attempt, exactly when a snapshot is taken
  before an attempt is stored, which takes a cancellation during the wait
  (`Handshake.BlankPublicationExactly`, `CancelledRunPublishesNothingFound`).

## Model

| member | source | states |
|---|---|---|
| SemVer.PrecedenceIsTotalPreorder | internal/version/engine.go:40-47 | The order behind `Equal` and `GreaterThan` is a total preorder, pre-release lists included; ties are exactly the versions that differ in build metadata only |
| SemVer.CoreVersionExamples | internal/version/engine.go:40-47 | The chain of examples in section 11.2 of Semantic Versioning 2.0.0 ascends |
| SemVer.SectionElevenExamples | internal/version/engine.go:40-47 | The chain of examples in section 11.4 of Semantic Versioning 2.0.0 ascends |
| Tags.PickLatestSemverTag | internal/resolver/oci_resolver.go:403-426 | The loop computes the pick the following lemmas are about, and fails with chart-not-found only |
| Tags.PickIsFirstMaximal | internal/resolver/oci_resolver.go:403-426 | A position is picked if and only if it is the first of maximal precedence, and then its trimmed tag is the result; picking fails if and only if nothing parses |
| Tags.PickIgnoresOrder | internal/resolver/oci_resolver.go:403-426 | Permuting the tags changes neither success nor the precedence of the pick |
| Tags.PickOfConcatenation | internal/resolver/oci_resolver.go:403-426 | Picking from two lists is picking the better of the two picks, the first winning ties |
| VersionEngine.OutdatedIffNewerExists | internal/version/engine.go:22-53 | Against the picked tag, the status is outdated, up to date or unknown as the set of tags deserves, if and only if that tag does not start with two `v`s |
| VersionEngine.PickedTagReparses | internal/version/engine.go:55-59 | The engine reads the picked tag as the version it was picked for, unless it starts with two `v`s |
| VersionEngine.DoubleVTagIsUnknown | internal/resolver/oci_resolver.go:412-412 | `vv1.0.0` as the only tag leaves 0.9.0 unknown although it is outdated |
| VersionEngine.FirstEntryStatus | internal/version/engine.go:22-53 | Against the first of several versions, the status is the one all of them call for if and only if that one parses and is newer than the current one if any is, or if none parses |
| VersionEngine.AscendingIndexHidesUpdate | internal/resolver/repository_resolver.go:71-72 | With 1.0.0 listed before 2.0.0, the current 1.0.0 counts as up to date although it is outdated |
| VersionEngine.WrappedLagIsExactModulo | internal/version/engine.go:61-66 | Although each uint64 difference may wrap, the sum is the exact integer weighting modulo 2^64 |
| VersionEngine.LagIsClampedExact | internal/version/engine.go:61-72 | The lag is the exact weighting clamped at one if and only if that weighting lies in [0, 2^64), or is negative and wraps to zero or one |
| VersionEngine.NegativeWeightingWraps | internal/version/engine.go:61-72 | From 1.200.0 to 2.0.0 the lag is 2^64 - 10000, not one |
| VersionEngine.LagMarksOutdated | internal/version/engine.go:22-53 | A lag of at least one marks exactly the outdated results; every other result has lag zero |
| VersionEngine.StatusOfTexts | internal/version/engine.go:22-53 | For any two texts: unknown unless both parse, outdated if the first is below the second, up to date otherwise; the guards for blank texts and `unknown` change nothing |
| VersionEngine.LagOfTexts | internal/version/engine.go:49-72 | For any two texts that parse, the first below the second: the lag `Compare` returns is 10000, 100 and 1 times the differences of their parts, latest minus current, at least one, or its remainder modulo 2^64 if it does not fit; zero for any other texts |
| VersionEngine.LagGrowsWithLatest | internal/version/engine.go:61-72 | With two-digit parts, a higher latest core version means a larger lag except between weightings zero and one; never a smaller one |
| VersionEngine.LagPlateau | internal/version/engine.go:67-70 | The exception occurs: 1.0.0-1 has lag one to both 1.0.0 and 1.0.1 |
| RegistryHeaders.ResolveNextPageURL | internal/resolver/oci_resolver.go:232-269 | The nested loops find the target the following lemmas are about and resolve it against the given URL |
| RegistryHeaders.NextAmongLinks | internal/resolver/oci_resolver.go:237-267 | In a header of several links with any padding and any parameters free of `,` and `;`, the link followed is the first whose parameters say next, resolved against the given URL |
| RegistryHeaders.SaysNextForms | internal/resolver/oci_resolver.go:246-253 | `rel=next` says next with or without quotes and in any case |
| RegistryHeaders.OtherRelationsSayNothing | internal/resolver/oci_resolver.go:246-253 | The relations prev, first and last do not say next |
| RegistryHeaders.NextLinkRoundTrip | internal/resolver/oci_resolver.go:237-256 | A printed next link is read back if and only if its target is not empty and free of `,` and `;` |
| RegistryHeaders.ParseAuthChallenge | internal/resolver/oci_resolver.go:343-372 | The loop computes the challenge the following lemma is about |
| RegistryHeaders.ChallengeRoundTrip | internal/resolver/oci_resolver.go:343-372 | A printed Bearer challenge (section 3 of RFC 6750) reads back, in any parameter order and padding and with scheme and names in any case, if and only if its values are free of commas and of quotes at their ends; parameters not given are empty |
| RegistryHeaders.OtherSchemesSayNothing | internal/resolver/oci_resolver.go:348-351 | A challenge of another scheme has no parameters |
| OciTags.FetchTags | internal/resolver/oci_resolver.go:114-227 | The paging and retry loops return the result and make the requests of the page-by-page specification; the exit for exhausted attempts is dead |
| OciTags.AuthenticateGrants | internal/resolver/oci_resolver.go:146-181 | A 401 leads to a usable token, to the host's own credentials, or to an error that is no sentinel, after at most one token request |
| OciTokens.ChallengeNamesEndpoint | internal/resolver/oci_resolver.go:274-299 | A Bearer challenge with a realm, its parameters in any order, names exactly one token request: the realm, the scope or that of pulling the repository, and the service if there is one |
| OciTokens.EndpointOf | internal/resolver/oci_resolver.go:278-299 | Without a realm, only the hosts of GitHub and Docker have a token endpoint, the latter with its own service |
| OciTokens.GrantOrder | internal/resolver/oci_resolver.go:152-176 | A challenge grants the token its endpoint sends, `token` before `access_token`; else the credentials of the host; else it fails with the reason why there is no token |
| OciReplies.RepliesDecide | internal/resolver/oci_resolver.go:114-227 | Against any registry, told from requests and replies alone: every reply but the last is a readable page or the first challenge; no reply, another status, a second 401, an unreadable or undecodable body each fail with their own cause; after a 404 or a page that no other follows, the tags of all pages are returned, or chart-not-found; 50 pages at most |
| OciReplies.SuccessExactly | internal/resolver/oci_resolver.go:183-226 | Tags, and chart-not-found, are returned only after a 404 or a page that no other follows |
| OciPaging.RequestBudget | internal/resolver/oci_resolver.go:114-227 | Against any registry, one that changes its answers from page to page included: at most 51 tag requests, one token request and two attempts a page; the authorisation changes at most once, from none to the granted one |
| OciPaging.PagingRefinement | internal/resolver/oci_resolver.go:114-227 | Fetching is the in-order concatenation of the chain of pages the registry shows, cut at no next link, a 404 after a tag, or 50 pages; otherwise the failure the chain runs into |
| OciPaging.EveryRegistryShows | internal/resolver/oci_resolver.go:114-227 | Every registry shows some chain of pages, so the refinement asks nothing of it |
| OciPaging.FetchingIsListing | internal/resolver/oci_resolver.go:114-227 | Against any registry at all, fetching lists the pages it shows the fetcher |
| OciPaging.PagingByUrl | internal/resolver/oci_resolver.go:114-227 | If what the registry shows along the chain is a function of the URL, fetching lists the chain of that function |
| OciPaging.AuthTransparency | internal/resolver/oci_resolver.go:146-181 | A registry that guards its chain with a first challenge whose grant opens that page and those after it gives the tags or the error of one that shows the chain to anyone, wherever that challenge comes |
| OciPaging.ServingShows | internal/resolver/oci_resolver.go:146-181 | A chain served openly up to a first challenge whose grant opens the rest is shown to the fetcher as it is; what later pages would answer anonymously does not matter |
| OciPaging.RefusedGrant | internal/resolver/oci_resolver.go:152-176 | Against any registry: if the first page of the chain that challenges refuses its grant, the fetch fails with the error of that negotiation |
| OciRequests.RequestsFollowChain | internal/resolver/oci_resolver.go:122-221 | Against any registry, the requests made are exactly those of the chain: each page reached is asked for under its own URL, with the authorisation of before or after it, and only the first challenge sends for a token, with the credentials of the host |
| OciRequests.AuthorisedRequestsStayWithin | internal/resolver/oci_resolver.go:133-139 | Against any registry, all authorised requests, for pages and for a token, stay within a given set of URLs if and only if the pages asked for with authorisation do and, if the host has credentials, the token endpoint asked does |
| OciRequests.LinkTakesAuthorisationAlong | internal/resolver/oci_resolver.go:133-139 | It can leave the host: the link of a first page is asked for with the credentials of the host, wherever it leads |
| OciRequests.RealmIsSentCredentials | internal/resolver/oci_resolver.go:296-307 | It can leave the host: the realm of a challenge is asked for a token with the credentials of the host, wherever it is |
| OciPaging.NotFoundExactly | internal/resolver/oci_resolver.go:183-226 | Against any registry: a list of tags is never empty; chart-not-found is returned if and only if the chain ends without failure and without tags |
| OciResolver.AddressRoundTrip | internal/resolver/oci_resolver.go:376-399 | Host and path are recovered from an address with any of the three schemes or none |
| OciResolver.ArtifactAddress | internal/resolver/oci_resolver.go:61-75 | A chart is stored under its own name below the path of its repository, if that has one |
| OciResolver.RefusedExactly | internal/resolver/oci_resolver.go:61-70 | An address is refused when it is blank or holds nothing but schemes and slashes, and after it a blank chart name; nothing else is refused |
| OciResolver.ParsedHostIsSlashFree | internal/resolver/oci_resolver.go:376-399 | A parsed host is not empty and contains no slash |
| OciResolver.CacheKeyIsInjective | internal/resolver/oci_resolver.go:75-75 | Artifacts with slash-free hosts and equal cache keys are equal |
| OciResolver.StoringKeepsFaith | internal/resolver/oci_resolver.go:103-107 | Storing what the registry answered leaves every cached entry right for every artifact that shares its key |
| OciResolver.OCIResolver.constructor | internal/resolver/oci_resolver.go:42-55 | A new resolver has an empty cache and a positive lifetime, five minutes by default |
| OciResolver.OCIResolver.ResolveLatest | internal/resolver/oci_resolver.go:61-107 | Live entries answer without a change, misses and expiries fetch and store, failures store nothing; with a faithful cache the answer is the uncached one and the cache stays faithful |
| IndexCache.ParseRepoIndex | internal/resolver/repository_resolver.go:202-222 | Exactly the charts with a non-blank version, with those versions in order, whatever the order of map iteration |
| IndexCache.NonBlankKeeps | internal/resolver/repository_resolver.go:210-216 | Exactly the versions that are not blank are kept, in their order |
| IndexCache.RepositoryResolver.constructor | internal/resolver/repository_resolver.go:37-50 | A new resolver has an empty cache and a positive lifetime |
| IndexCache.RepositoryResolver.RefreshRepoIndex | internal/resolver/repository_resolver.go:75-128 | Only a successful answer changes the cache, to an entry stamped with its full lifetime |
| IndexCache.RepositoryResolver.GetEntry | internal/resolver/repository_resolver.go:130-150 | The new cache and the answer are those of the sequential look-up the following lemmas are about |
| IndexCache.RepositoryResolver.ResolveLatest | internal/resolver/repository_resolver.go:52-73 | Refusals touch nothing; otherwise the first version of the entry looked up, or chart-not-found |
| IndexCache.LookupByAge | internal/resolver/repository_resolver.go:130-170 | An entry answers to the last moment of its lifetime; after that the repository does; if that fails an old entry answers, marked with the failure and otherwise as it was |
| IndexCache.ResolutionExactly | internal/resolver/repository_resolver.go:52-73 | Refused for an empty argument or an `oci://` address; else the failure to get the index, the first version of the chart, or chart-not-found |
| IndexCache.CacheHoldsLatestFetch | internal/resolver/repository_resolver.go:115-150 | For calls that do not overlap, a URL is cached if and only if it was fetched, with what its latest fetch got and that fetch's stamp: a failure loses nothing and extends nothing |
| IndexCache.SequentialAnswers | internal/resolver/repository_resolver.go:130-150 | An answer comes from the latest successful fetch, is expired only if this very call's refresh failed, and is an error if and only if that refresh failed and the URL was never fetched |
| IndexCache.SequentialFetchTimesAdvance | internal/resolver/repository_resolver.go:115-150 | For calls that do not overlap and a clock that advances, fetch times never go back |
| OverlappingCalls.EntriesAreGenuine | internal/resolver/repository_resolver.go:115-170 | In every interleaving, cached and returned entries were fetched for their own URL at their stamp and have their full lifetime |
| OverlappingCalls.ReachableIsGenuine | internal/resolver/repository_resolver.go:115-170 | So it is in every state that is reachable from an empty cache |
| OverlappingCalls.UrlsAreKept | internal/resolver/repository_resolver.go:115-170 | In every interleaving, no URL leaves the cache |
| OverlappingCalls.NoFailureAfterSuccess | internal/resolver/repository_resolver.go:140-149 | Once a URL is cached, no call for it that has not already failed fails |
| OverlappingCalls.CacheIsLastWritten | internal/resolver/repository_resolver.go:123-145 | In every interleaving, the cache holds what a run wrote last, and is unchanged where it wrote nothing |
| OverlappingCalls.FetchTimeDropsExactly | internal/resolver/repository_resolver.go:141-145 | From a call's stale read, or the stamping of its answer, to its write: the write sets the fetch time back if and only if the last write of other calls in between was of an entry fetched after its own |
| OverlappingCalls.RefreshCanBeLost | internal/resolver/repository_resolver.go:141-145 | It happens: a stale read before another call's successful refresh is written back after it, and sets the fetch time back |
| OverlappingCalls.AloneIsSequential | internal/resolver/repository_resolver.go:130-150 | A call that runs alone finishes in four steps with the sequential answer and cache |
| ResolverAgreement.FirstIsPickedExactly | internal/resolver/repository_resolver.go:66-72 | The first entry is what comparing all versions would pick if and only if it parses and none is greater |
| ResolverAgreement.ResolversAgree | internal/resolver/repository_resolver.go:66-72 | On versions that parse and do not increase, the index resolver's answer is, trimmed, the tag picker's |
| ArgoApplications.DiscoverApplications | internal/discovery/argocd.go:29-60 | Exactly the applications that use Helm, in order, or the listing's error |
| ArgoApplications.RecordsAreOfApps | internal/discovery/argocd.go:35-58 | A record is reported if and only if each of its fields is that of a listed application that uses Helm: known by where it lives, placed where it deploys to |
| HelmReleases.RevisionRoundTrip | internal/discovery/helm_release.go:114-127 | A printed revision is read back if and only if it fits 64 bits; otherwise it counts as -1 |
| ReleaseObjects.SignedRevision | internal/discovery/helm_release.go:122-126 | A sign before the digits is read |
| ReleaseObjects.NoRevision | internal/discovery/helm_release.go:114-127 | A label that is absent, empty or no number counts as -1 |
| HelmReleases.ReleaseKeyIsInjective | internal/discovery/helm_release.go:129-131 | For slash-free namespaces, equal keys mean the same release |
| HelmReleases.LatestIsFirstMaximal | internal/discovery/helm_release.go:133-138 | The stored candidate of a release is the first-listed one of maximal revision, so a Secret wins a tie |
| HelmReleases.RecordsOf | internal/discovery/helm_release.go:80-84 | One record per stored release, in whatever order the map is iterated |
| HelmReleases.DiscoverWithSelector | internal/discovery/helm_release.go:34-85 | Fails if and only if a listing failed; otherwise lists the store folded over Secrets, then config maps |
| HelmReleases.DiscoverReleases | internal/discovery/helm_release.go:25-32 | Deployed releases count unless their listing failed or is empty; then all Helm-owned objects do |
| HelmReleases.ReleaseSelection | internal/discovery/helm_release.go:34-85 | For each release listed, exactly one record is reported: that of the first-listed candidate of maximal revision |
| ReleaseObjects.ReportedExactly | internal/discovery/helm_release.go:34-138 | Told from objects and labels alone: a record is reported if and only if each of its fields is that of the object of highest revision of its release, the first listed of equals; a release is a namespace and the label `name`, or the object's name without it |
| ReleaseObjects.LowerRevisionIsDropped | internal/discovery/helm_release.go:133-138 | Of two objects of one namespace and label, the one with the lower decimal revision, or the later listed of equals, is never reported |
| HelmReleases.MergedSelection | internal/discovery/discovery.go:82-123 | After the merge an application shows its smallest-ID Argo CD record if it has one, and its maximal-revision Helm record otherwise |
| HelmReleases.MergedCoverage | internal/discovery/discovery.go:95-123 | The merge loses no application of either source |
| Discovery.SortByID | internal/discovery/discovery.go:42-44 | Some sorted permutation; the order of equal IDs is left open |
| Discovery.Deduplicate | internal/discovery/discovery.go:60-75 | The loop keeps the first record of each ID, in order |
| Discovery.FirstPerIDAscends | internal/discovery/discovery.go:60-75 | Over sorted records the result is strictly ascending by ID |
| Discovery.DeduplicateByApp | internal/discovery/discovery.go:101-123 | One record for each application, sorted by ID, in spite of map iteration |
| Discovery.BestIsPreferred | internal/discovery/discovery.go:101-113 | Over records ascending by ID, the survivor of a group is least by source priority, then ID |
| Discovery.Discover | internal/discovery/discovery.go:25-47 | Fails if and only if every source failed; the result is ascending by ID with unique applications, canonical for a choice of one record per ID, and canonical for all records when equal IDs mean equal records |
| Discovery.ReportedExactly | internal/discovery/discovery.go:28-36 | What is merged is what the sources that did not fail reported, and nothing else |
| Discovery.PreferenceExactly | internal/discovery/discovery.go:82-93 | Argo CD applications go before Secrets before config maps before anything else, and records of one source by ID |
| Discovery.CanonicalFormIsUnique | internal/discovery/discovery.go:25-123 | The canonical form depends on the set of records alone: source order, record order, sort instability and map order cannot show |
| Discovery.CanonicalFormIsStable | internal/discovery/discovery.go:25-123 | Merging a merged list again changes nothing |
| Discovery.CanonicalIsOnePerApp | internal/discovery/discovery.go:95-100 | Each (namespace, app) pair of the input has exactly one record |
| MergeOrder.MergeIsDeterminedExactly | internal/discovery/discovery.go:42-46 | The merge has one possible result if and only if every record that shares its ID with a different one loses its group whatever is kept for the other IDs |
| MergeOrder.EveryMergeHappens | internal/discovery/discovery.go:42-46 | Every result that a choice of one record per ID explains is what some order left by the sort leads to |
| MergeOrder.ConflictingIDsAreOrderDependent | internal/discovery/discovery.go:42-46 | Of two different records with one ID and no others, either may be the whole result |
| ClusterDiscovery.SourcesAgree | internal/discovery/discovery.go:129-131 | Across Argo CD applications and Helm storage objects, equal IDs mean equal records |
| ClusterDiscovery.DiscoverCluster | internal/server/server.go:56-59 | From what the cluster lists to the merged result: one right record per application of either source, a failed source contributing nothing, failure only if both fail |
| ClusterDiscovery.HelmRecordFindsItsObject | internal/catalog/builder.go:159-171 | Enrichment looks up the very object a Helm record was discovered from |
| Catalog.SplitChartLabel | internal/catalog/builder.go:296-308 | The downward loop splits at the last dash that a digit follows |
| Catalog.ChartLabelRoundTrip | internal/catalog/builder.go:296-308 | `name-version` splits back if and only if the version starts with a digit and contains no dash that a digit follows |
| Catalog.ObjectNameRoundTrip | internal/catalog/builder.go:270-276 | For a source and namespace without colons, the object name is recovered from a workload ID, colons in it included, if and only if it is not blank |
| Catalog.WorkloadIDIsInjective | internal/discovery/discovery.go:129-131 | For colon-free namespaces, equal IDs mean equal source, namespace and name |
| Catalog.HelmPopulation | internal/catalog/builder.go:159-201 | A Helm record's name, version and repository come from the payload of its own Secret or config map first, the chart label second, the workload last; only an undecodable payload leaves an error |
| Enrichment.ArgoPopulation | internal/catalog/builder.go:126-157 | An Argo CD record says the application's chart, repository and revision, each with its default, looked up where the application lives; or nothing but why there is none |
| Enrichment.ArgoRecordFindsItsApp | internal/discovery/argocd.go:41-57 | Enrichment asks for the very application a record was discovered from, wherever it deploys to |
| Enrichment.HelmRecordSaysItsObject | internal/catalog/builder.go:159-201 | Enrichment asks for the very object a record was discovered from and records what it says |
| Enrichment.HelmFailures | internal/catalog/builder.go:159-189 | Without an object, a Helm record says nothing but why |
| Enrichment.OtherSourcesSayNothing | internal/catalog/builder.go:90-105 | A record of any other source says nothing |
| Enrichment.ResolvedByKind | internal/catalog/builder.go:244-254 | A record of a named chart is resolved if and only if its repository is an index or a registry, and is then not overridden |
| Enrichment.ResolutionErrors | internal/catalog/builder.go:109-119 | A failed resolution replaces the error; chart-not-found, an unsupported repository and a success leave it |
| Enrichment.KnownRegistriesAreRegistries | internal/catalog/builder.go:383-426 | The addresses of the five known registries, in any case, are registries |
| Enrichment.WebSources | internal/catalog/builder.go:388-410 | Any other web address is a Git source if it is on GitHub or ends in `.git`, and an index otherwise |
| Enrichment.OtherSources | internal/catalog/builder.go:388-412 | An address of another scheme is an index only if it looks like one; one without a host is of no known kind |
| Catalog.SourceKindInvariant | internal/catalog/builder.go:89-124 | Through population, override and resolution, the source kind is the classification of the repository URL |
| Catalog.ResolvableIsNotOverridden | internal/catalog/builder.go:428-445 | Records of kind helm_repo and oci_registry are never changed by an override |
| Catalog.LeftUnrepaired | internal/catalog/builder.go:439-445 | A named chart is neither resolvable nor overridable if and only if its repository was discovered but is of no known kind |
| Catalog.SlashlessIsLeftUnrepaired | internal/catalog/builder.go:388-398 | It happens: a repository given as a host name alone stays unresolved whatever the overrides |
| Catalog.OverrideIsIdempotent | internal/catalog/builder.go:439-459 | Overriding twice is overriding once |
| Catalog.OverrideIgnoresCase | internal/catalog/builder.go:450-457 | Chart names that differ in case or surrounding space are overridden alike |
| Catalog.IndexDispatchIsAccepted | internal/catalog/builder.go:244-264 | No record the build sends to the index resolver is refused by it, so its `oci://` guard never fires from there |
| Catalog.BuildSingleResult | internal/catalog/builder.go:89-124 | A record keeps its workload's ID, and its status is the engine's verdict on its own versions |
| Catalog.UnresolvedIsUnknown | internal/catalog/builder.go:109-122 | A workload that cannot be resolved, or whose resolution fails in any way, is reported as unknown |
| Catalog.RegistryStatusIsDeserved | internal/catalog/builder.go:109-122 | From fetched tags to the record: the status is the one the tags call for, if and only if the picked tag does not start with two `v`s |
| Catalog.IndexStatusIsDeserved | internal/catalog/builder.go:109-122 | From a fetched index to the record: the status is the one all versions call for, if and only if the first parses and is newer than the current one if any is, or none parses |
| Enrichment.ArgoRegistryVerdict | internal/catalog/builder.go:89-157 | From an application and the tags of its chart to the record: its revision, the picked tag, and the status the tags call for, if and only if that tag does not start with two `v`s |
| Enrichment.ArgoIndexVerdict | internal/catalog/builder.go:89-157 | The same from the versions of its chart in an index, of which the first is recorded |
| Overrides.GetEnvRepoOverrides | internal/config/config.go:196-220 | The loop computes the map the following lemmas are about |
| Overrides.LastValidPairWins | internal/config/config.go:202-217 | Per case-folded chart name the last valid pair wins, and nothing else is in the map |
| Overrides.PaddedPairIsRead | internal/config/config.go:203-216 | A pair is read with any space around it and its parts, its name in any case |
| Overrides.ConfiguredOverride | internal/catalog/builder.go:450-457 | From the configured text to a record: it gets the repository of the last valid pair for its chart, whatever the case, and is left alone without one |
| Overrides.OverridesRoundTrip | deploy/helm-watch/templates/deployment.yaml:48-56 | The pairs the template prints are read back if and only if names are trimmed, unchanged by ASCII lower-casing and free of `,` and `=`, and repositories trimmed and free of `,` |
| WorkerPool.StepKeepsAccounts | internal/catalog/builder.go:66-87 | Every step keeps each sent index either held by exactly one worker or written, and nothing else held or written |
| WorkerPool.RunKeepsAccounts | internal/catalog/builder.go:66-87 | So does every run |
| WorkerPool.WrittenOnce | internal/catalog/builder.go:74-76 | Over any run a slot is written at most once, exactly when it goes from empty to filled |
| WorkerPool.JoinedMeansWritten | internal/catalog/builder.go:80-86 | When the build returns, every slot has been written exactly once |
| WorkerPool.MeasureFalls | internal/catalog/builder.go:60-87 | Whatever the schedule and the answers, every step but the passing of time lowers a natural number |
| WorkerPool.NeverStuck | internal/catalog/builder.go:42-45 | An unfinished build can always take such a step, because at least one worker runs |
| WorkerPool.RunsAreBounded | internal/catalog/builder.go:60-87 | Together with the starting measure: a build takes at most 8 steps a workload, one a worker and two more |
| WorkerPool.InitMeasure | internal/catalog/builder.go:42-71 | The starting measure: 8 steps a workload, two more, and one for each worker, of which there is at least one |
| WorkerPool.LookupByAge | internal/resolver/oci_resolver.go:90-101 | Cached tags answer to the last moment of their lifetime and never after |
| WorkerPool.StoreByClock | internal/resolver/oci_resolver.go:103-107 | Fetched tags are given the configured lifetime from when they are stored |
| CacheTransparency.CachesAreTransparent | internal/catalog/builder.go:60-124 | Any number of workers, any interleaving, duplicate misses and expiries: a finished build holds exactly the records of the sequential, uncached one, and leaves faithful caches for the next |
| CacheTransparency.FirstBuildIsUncached | internal/catalog/builder.go:60-124 | So the first build of a process, with empty caches, holds the uncached records |
| CacheTransparency.StepStaysTrue | internal/catalog/builder.go:256-264 | Every step keeps each worker's holdings, each record and both caches as a worker without caches would have them |
| CacheTransparency.Build | internal/catalog/builder.go:60-87 | Driven by an arbitrary scheduler, the build terminates with the uncached records |
| Provenance.LatestVersionsAreHeard | internal/catalog/builder.go:60-124 | Under every schedule and whatever upstream answers: a latest version is unknown, or was picked from what the run heard, or the caches it started with held, for the record's own artifact or repository |
| ChartMetrics.ChartMetrics.constructor | internal/metrics/charts.go:20-66 | No series before the first publication |
| ChartMetrics.ChartMetrics.Publish | internal/metrics/charts.go:68-115 | The series afterwards depend on the arguments alone: nothing of an earlier publication survives |
| PublishedSeries.InfoSeriesExactly | internal/metrics/charts.go:79-100 | An info series is published, with value 1, if and only if each of its nine labels is that of a record and of the workload its ID names, empty texts shown as unknown |
| PublishedSeries.NarrowSeriesShowLast | internal/metrics/charts.go:102-113 | The narrow series of some labels show the last record with them: whether it is outdated or unknown, and its lag, told from its two versions |
| PublishedSeries.EveryWorkloadIsShown | internal/metrics/charts.go:68-115 | With unique IDs and applications, every workload's own series show its own record, label by label and value by value |
| ChartMetrics.AddSeriesInSync | internal/metrics/charts.go:79-114 | Publishing a record of a new application keeps shapes, series and sums of the four vectors in agreement |
| ChartMetrics.InSyncExactly | internal/metrics/charts.go:68-115 | With unique IDs, the four vectors have one series for each workload and agree if and only if no two workloads are of one application with one chart name |
| GaugeAgreement.AgreementExactly | internal/metrics/charts.go:68-115 | With unique IDs, the vectors agree series by series and in their sums if and only if any two workloads of one application with one chart name have the same info series or are both up to date |
| GaugeAgreement.SumsMatchExactly | internal/metrics/charts.go:102-113 | For gauges that agree series by series, the sums match if and only if no two outdated and no two unknown series share their narrow labels |
| ChartMetrics.GaugesAgree | internal/metrics/charts.go:68-115 | With unique IDs and applications, every workload has one series in each vector, the sums of the outdated and unknown gauges count the info series of that status, and each series agrees with its info series |
| ChartMetrics.NeverBoth | internal/metrics/charts.go:102-113 | No application is both outdated and unknown |
| ChartMetrics.DuplicateApplicationsDisagree | internal/discovery/discovery.go:95-100 | How they fail to: of two workloads of one application with one chart name, the second overwrites the narrow series of the first, whose outdated status is then shown by the info series alone |
| Handshake.Manager.constructor | internal/discovery/manager.go:26-32 | No records and an open channel |
| Handshake.Manager.SignalFirstReconcileDone | internal/discovery/manager.go:80-82 | The channel is closed afterwards and was never closed twice |
| Handshake.Manager.ReconcileOnce | internal/discovery/manager.go:59-78 | A failure keeps the stored records, a success replaces them, and either is signalled |
| Handshake.Manager.Run | internal/discovery/manager.go:34-48 | Over any number of ticks the records are the last good ones and the channel is closed exactly once |
| Handshake.LastGoodIsLatestSuccess | internal/discovery/manager.go:63-71 | The last good records are those of the attempt after which none succeeded |
| Handshake.StepStaysSound | internal/server/server.go:105-120 | Every step of manager and publisher keeps the handshake's invariant |
| Handshake.HandshakeHolds | internal/server/server.go:105-126 | In every run: closed at most once, stored records always the last good ones, publications never from fewer attempts than before. If the publisher left its wait on a closed channel, as every run not cancelled has it, each publication reflects at least the first attempt, and a successful one once the first succeeded, also when the run is cancelled later |
| Handshake.BlankPublicationExactly | internal/server/server.go:105-126 | Something is published that reflects no attempt if and only if a snapshot published later is taken before any attempt is stored, which takes a cancellation during the wait |
| Handshake.CancelledRunPublishesNothingFound | internal/discovery/manager.go:87-92 | Cancelled before the first attempt ends, a run publishes an empty snapshot |
| Pipeline.RunStamps | internal/catalog/builder.go:66-86 | Whatever upstream answers, records carry their own workload's ID and the engine's verdict on their own versions |
| Pipeline.EndToEndGauges | internal/server/server.go:122-126 | From merged workloads, under every schedule, all caches and all upstream answers: the gauges agree, and the published status of each record is the one the build gave it |
| Pipeline.Cycle | internal/server/server.go:122-126 | Discovery, build and publication in one: the gauges show the stored records as built without caches, and agree; if every source fails the earlier records are shown |
| Pipeline.EveryPublicationIsMerged | internal/server/server.go:105-126 | In every run of the handshake every published snapshot has the uniqueness the gauges rest on |
| Pipeline.EveryPublicationAgrees | internal/server/server.go:105-126 | In every run of the handshake, every finished build over a published snapshot, under any schedule, caches and answers, publishes gauges that agree |

## Left out

- HTTP transport, redirects, and the decoding of tokens, YAML, JSON, gzip and base64: a registry, token endpoint or repository is its answers.
- The deadline a cancelled context puts on requests: an answer may be a failure, but not because of the step it came at.
- URL parsing and reference resolution: functions; the only law used is that a URL has a host only after a slash.
- The version parser: an abstract function that tolerates one leading `v` before a text that starts with a digit; its source is not part of this model. Precedence is modelled from the standard.
- The conversion of the lag to a float: the integer before it.
- Case folding outside ASCII: `ToLower` changes A to Z only, so a name such as `É`, which the code folds, counts as lower case in `Overrides.OverridesRoundTrip`.
- Extraction of chart, repository and revision from an application's spec: an application answers with them.
- Matching a host to its configured credentials: whether a host has any is a function.
- A builder without an OCI resolver: the server always supplies one.
- Error texts: causes.
- Goroutines as such: the pool, overlapping look-ups and the handshake are transition systems on values, so data races and the Go memory model are not captured; that each shared access is locked is read off the code.
- A tag fetch is one step of a worker: its requests do not interleave with other workers' requests, which matters only to a registry that answers differently in between.
- CacheTransparency.CachesAreTransparent: assumes that upstream and the cluster answer alike throughout the build, as the equality could not hold otherwise; `Pipeline.EndToEndGauges` assumes this of the cluster only.
- ClusterDiscovery.DiscoverCluster: assumes what Kubernetes guarantees of a listing, namespaces without `:` and `/` and one object per namespace and name.
- VersionEngine.LagGrowsWithLatest: assumes minor and patch parts below 100 and a weighting below 2^64, outside of which the code's weights do not order versions.
- Timestamps of discovery, logging, the reconcile duration and error metrics, environment getters, file checks and the HTTP server: no property worth a proof.
