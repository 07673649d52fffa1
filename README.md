# Switchboard version catalogs, in Dafny

Switchboard is a small HTTP service that answers questions about Minecraft
versions and the mod-loader and mapping releases built on them. This project
models its core and proves properties of that model:

- **`TtlCache`** (`cache.dfy`): the generic time-to-live cache with its
  active-entry test, lazy eviction on `get` and `getOrFetch`.
- **`Upstream`** (`upstream.dfy`): what the Forge, Yarn and Fabric services
  share: the `"all"` cache entry they keep, a request outcome as a parameter
  (`Fetched` or `FetchFailed`), and the reading of Maven `<version>` texts.
- **`Catalog`** (`catalog.dfy`): the Minecraft version catalog. It covers
  ingesting the launcher manifest and the latest-release and latest-snapshot
  references. It also covers navigation (previous, next, versions after),
  best fit, closest release and major version.
- **`Forge`**, **`Yarn`**, **`Fabric`** (`forge.dfy`, `yarn.dfy`,
  `fabric.dfy`): the three version services.
  - Forge: its version comparator, sorted listings, latest and recommended
    builds, promotions cache.
  - Yarn: its pre-release gate.
  - Fabric: loader-version decoding, per-version cache keys, fall-back to
    stale entries, and the memoised `latest()` scan.
- **`Parchment`** and **`ParchmentVersions`** (`parchment_version.dfy`,
  `parchment_manager.dfy`): Parchment releases ordered by the date their
  version text denotes. The manager reads git tags, then sorts, filters,
  groups and picks the latest, all behind a three-hour cache. Both copies of
  the manager are modelled by the one module.
- **`FieldProjection`** (`projection.dfy`): the `fields` request body of the
  Minecraft routes, and the projection of a JSON document onto dotted field
  paths with `*` wildcards.
- **`JavaString`**, **`Streams`**, **`Json`**, **`Wrappers`**: the Java
  library behaviour the core relies on.
  - Java library: `split`, `trim`, `isBlank`, `compareTo`, `replace`, `Integer.parseInt`,
    `toLowerCase`.
  - Streams: filter, stable sort, first maximum.
  - The Gson tree and `Option`/`Result`.

State that the Java code updates in place becomes Dafny classes: the caches
and the services. Each method is proved against specification functions,
and the lemmas are stated about those functions. Network requests, git
clones and clocks are parameters. A request that throws is `FetchFailed`.
An exception that escapes to the caller is `Err`.

## Model

| member | source | states |
|---|---|---|
| TtlCache.EntryActiveUntilExpiry | src/main/java/dev/railroadide/switchboard/util/Cache.java:71-75 | an entry is active exactly while the clock is strictly before its expiry instant, so never at the instant itself |
| TtlCache.Cache.constructor | src/main/java/dev/railroadide/switchboard/util/Cache.java:9-15 | a new cache is empty and uses the default time-to-live of one hour |
| TtlCache.Cache.WithTtl | src/main/java/dev/railroadide/switchboard/util/Cache.java:17-19 | a cache built with a duration is empty and uses that duration |
| TtlCache.Cache.SetTtl | src/main/java/dev/railroadide/switchboard/util/Cache.java:25-30 | a null duration is rejected and leaves the configured one; any other replaces it; entries are untouched |
| TtlCache.Cache.Put | src/main/java/dev/railroadide/switchboard/util/Cache.java:32-35 | the key's entry becomes the value expiring at now plus the given milliseconds; other keys keep theirs |
| TtlCache.Cache.PutDefault | src/main/java/dev/railroadide/switchboard/util/Cache.java:37-39 | as put, with the configured time-to-live |
| TtlCache.Cache.ContainsKey | src/main/java/dev/railroadide/switchboard/util/Cache.java:54-57 | true exactly when the key has an entry that is still active |
| TtlCache.Cache.Get | src/main/java/dev/railroadide/switchboard/util/Cache.java:41-48 | an active entry's value is returned and nothing changes; otherwise null is returned and that key alone is removed |
| TtlCache.Cache.Clear | src/main/java/dev/railroadide/switchboard/util/Cache.java:50-52 | afterwards no key is contained, at any instant; the time-to-live is kept |
| TtlCache.Cache.GetOrFetch | src/main/java/dev/railroadide/switchboard/util/Cache.java:59-69 | the fetcher is called exactly when no active entry exists; its non-null result is stored with the configured time-to-live and returned, a null one is returned and the stale entry is gone |
| Upstream.VersionTexts | src/main/java/dev/railroadide/switchboard/minecraft/forge/ForgeVersionService.java:238-244 | a single text contributes nothing when blank and its trim otherwise; with the append lemma, the kept versions are exactly the trimmed non-blank texts in document order |
| Upstream.VersionTextsAppend | src/main/java/dev/railroadide/switchboard/minecraft/forge/ForgeVersionService.java:238-244 | reading texts one after the other keeps each text's contribution in order (the reading is a homomorphism over concatenation) |
| Upstream.NulTextKeptEmpty | src/main/java/dev/railroadide/switchboard/minecraft/forge/ForgeVersionService.java:241-242 | a text holding only NUL is not blank, yet trims to the empty string, which is kept |
| Upstream.ParseVersionTexts | src/main/java/dev/railroadide/switchboard/minecraft/mappings/YarnVersionService.java:129-135 | the parse loop returns exactly the kept versions of the texts |
| Upstream.ServiceCache.constructor | src/main/java/dev/railroadide/switchboard/minecraft/forge/ForgeVersionService.java:32-34 | a service starts with no cached entry and the given time-to-live |
| Upstream.ServiceCache.Active | src/main/java/dev/railroadide/switchboard/minecraft/forge/ForgeVersionService.java:197-199 | a value is available exactly when the key has an entry whose expiry is after now, and it is that entry's value |
| Upstream.ServiceCache.Store | src/main/java/dev/railroadide/switchboard/minecraft/forge/ForgeVersionService.java:202 | the key's entry becomes the value expiring one time-to-live from now; all else is kept |
| Upstream.ServiceCache.Remove | src/main/java/dev/railroadide/switchboard/minecraft/fabric/FabricLoaderVersionService.java:101 | the key's entry is removed and no other |
| Upstream.ServedVersions | src/main/java/dev/railroadide/switchboard/minecraft/forge/ForgeVersionService.java:196-204 | an active listing is served as it is; otherwise the request's versions are served, and a failed request is an error |
| Upstream.CachedMavenVersions | src/main/java/dev/railroadide/switchboard/minecraft/mappings/YarnVersionService.java:96-104 | serves as above; only a fresh successful request replaces `"all"`, expiring one time-to-live later; a failure changes nothing |
| Upstream.RefreshMavenVersions | src/main/java/dev/railroadide/switchboard/minecraft/mappings/YarnVersionService.java:86-94 | a successful request replaces `"all"`; a failed one leaves the cache unchanged |
| Catalog.TypeFromString | src/main/java/dev/railroadide/switchboard/minecraft/MinecraftVersion.java:321-329 | a recognised type is the one whose name is the lower-cased text |
| Catalog.TypeFromStringOfName | src/main/java/dev/railroadide/switchboard/minecraft/MinecraftVersion.java:321-329 | every spelling that lower-cases to a type name is recognised as that type (the inverse direction) |
| Catalog.CompareTo | src/main/java/dev/railroadide/switchboard/minecraft/MinecraftVersion.java:273-276 | the sign is the order of the release instants: negative, zero, positive exactly when earlier, equal, later |
| Streams.IndexOf | src/main/java/dev/railroadide/switchboard/minecraft/MinecraftVersion.java:47 | -1 exactly when absent; otherwise the first index holding the element, for the version list as for a string |
| Catalog.FromId | src/main/java/dev/railroadide/switchboard/minecraft/MinecraftVersion.java:194-198 | none exactly when no entry has the identifier; otherwise the first entry that has it |
| Catalog.IdIndex | src/main/java/dev/railroadide/switchboard/minecraft/MinecraftVersion.java:194-198 | -1 exactly when no entry has the identifier; otherwise the first index whose entry has it |
| Catalog.PreviousVersion | src/main/java/dev/railroadide/switchboard/minecraft/MinecraftVersion.java:46-52 | present exactly when the version is listed and not last; then it is the entry one index further on |
| Catalog.NextVersion | src/main/java/dev/railroadide/switchboard/minecraft/MinecraftVersion.java:54-60 | present exactly when the version is listed at an index above 0; then it is the entry one index back |
| Catalog.NextOfPrevious | src/main/java/dev/railroadide/switchboard/minecraft/MinecraftVersion.java:46-60 | in a list without repeats, the next of the previous version is the version itself |
| Catalog.PreviousOfNext | src/main/java/dev/railroadide/switchboard/minecraft/MinecraftVersion.java:46-60 | in a list without repeats, the previous of the next version is the version itself |
| Catalog.VersionsAfter | src/main/java/dev/railroadide/switchboard/minecraft/MinecraftVersion.java:62-72 | empty when the version is absent or last (even inclusive); otherwise the entries before it, plus itself when inclusive |
| Catalog.VersionsAfterInclusive | src/main/java/dev/railroadide/switchboard/minecraft/MinecraftVersion.java:66-72 | the inclusive list is the exclusive one followed by the version, which the exclusive one never holds |
| Catalog.MaxRelease | src/main/java/dev/railroadide/switchboard/minecraft/MinecraftVersion.java:75-77 | none exactly when there is no release; otherwise a release released no earlier than any other, the first such on ties |
| Catalog.DetermineBestFit | src/main/java/dev/railroadide/switchboard/minecraft/MinecraftVersion.java:74-79 | null exactly for an empty list; the latest release when there is a release, else the first entry |
| Catalog.LatestVersion | src/main/java/dev/railroadide/switchboard/minecraft/MinecraftVersion.java:165-176 | empty only when both references are null; one null reference yields the other; the stable one wins exactly when released strictly later |
| Catalog.LatestVersionIsNewest | src/main/java/dev/railroadide/switchboard/minecraft/MinecraftVersion.java:165-176 | the answer is one of the latest versions (as `isLatest` tests) and neither reference was released after it |
| Catalog.IsLatest | src/main/java/dev/railroadide/switchboard/minecraft/MinecraftVersion.java:200-202 | a version that tests as latest implies a latest version exists, released no earlier than it |
| Catalog.ReferencesAreLatest | src/main/java/dev/railroadide/switchboard/minecraft/MinecraftVersion.java:200-202 | each present reference tests as latest, and a version tests as latest only when it equals one of the two references |
| Catalog.LastIndexOfType | src/main/java/dev/railroadide/switchboard/minecraft/MinecraftVersion.java:212-216 | -1 exactly when no smaller index holds the type; otherwise the largest such index |
| Catalog.FirstIndexOfType | src/main/java/dev/railroadide/switchboard/minecraft/MinecraftVersion.java:218-222 | -1 exactly when no larger index holds the type; otherwise the smallest such index |
| Catalog.LastOfType | src/main/java/dev/railroadide/switchboard/minecraft/MinecraftVersion.java:182-189 | none exactly when no entry has the type; otherwise the entry of that type at the largest index |
| Catalog.ClosestRelease | src/main/java/dev/railroadide/switchboard/minecraft/MinecraftVersion.java:204-225 | a release is its own answer; an unlisted non-release has none; otherwise the nearest release at a smaller index, else the nearest at a larger index when none is below; none exactly when the catalog holds no release |
| Catalog.MajorVersion | src/main/java/dev/railroadide/switchboard/minecraft/MinecraftVersion.java:227-237 | a release with two or more `.` components gives the entry named by its first two joined by `.`, and none otherwise; a non-release gives the major version of its closest release, and none without one |
| Catalog.MajorPrefix | src/main/java/dev/railroadide/switchboard/minecraft/MinecraftVersion.java:231-235 | present exactly when the identifier has two or more `.` components; then the first two joined by `.`, a prefix of the identifier |
| Catalog.MajorVersionLabel | src/main/java/dev/railroadide/switchboard/minecraft/MinecraftVersion.java:247-261 | a release gives its first two `.` components, or its identifier when it has fewer; a non-release gives the label of its closest release, or its own identifier without one |
| Catalog.EntryVersion | src/main/java/dev/railroadide/switchboard/minecraft/MinecraftVersion.java:103-118 | an entry survives exactly when it is an object with all five fields and a recognised type, and becomes the version built from those fields |
| Catalog.EntryThrows | src/main/java/dev/railroadide/switchboard/minecraft/MinecraftVersion.java:102-118 | a non-object element throws; an object missing a member is skipped without throwing; a throw needs a non-object or a present but unreadable (null or non-string) member; an entry that becomes a version never throws |
| Catalog.UnknownTypeSkipsRest | src/main/java/dev/railroadide/switchboard/minecraft/MinecraftVersion.java:103-113 | an entry with every member and an unrecognised type is skipped, and throws exactly when its `id`, read before the type is checked, is unreadable |
| Catalog.MajorVersionMatchesLabel | src/main/java/dev/railroadide/switchboard/minecraft/MinecraftVersion.java:227-261 | whenever the static major version exists, its identifier is the instance major-version label |
| Catalog.MajorPrefixIdempotent | src/main/java/dev/railroadide/switchboard/minecraft/MinecraftVersion.java:256-260 | a label's own label is itself |
| Catalog.Survivors | src/main/java/dev/railroadide/switchboard/minecraft/MinecraftVersion.java:101-119 | at most one version per manifest entry |
| Catalog.SurvivorsAppend | src/main/java/dev/railroadide/switchboard/minecraft/MinecraftVersion.java:101-119 | ingestion keeps feed order over consecutive slices |
| Catalog.SurvivorKept | src/main/java/dev/railroadide/switchboard/minecraft/MinecraftVersion.java:103-118 | every complete entry with a known type contributes its version |
| Catalog.SurvivorOrigin | src/main/java/dev/railroadide/switchboard/minecraft/MinecraftVersion.java:103-118 | every surviving version comes from a manifest entry |
| Catalog.ParseEntries | src/main/java/dev/railroadide/switchboard/minecraft/MinecraftVersion.java:101-119 | the loop fails exactly when some element is not an object or has an unreadable member that the loop reads; otherwise it yields the survivors |
| Catalog.VersionCatalog.constructor | src/main/java/dev/railroadide/switchboard/minecraft/MinecraftVersion.java:25-27 | the catalog starts empty with both references null |
| Catalog.VersionCatalog.Ingest | src/main/java/dev/railroadide/switchboard/minecraft/MinecraftVersion.java:97-136 | a missing array, or an element that makes the loop throw, changes nothing; else the list becomes the survivors; the references are set to the first matching entries only when `latest` names both |
| Catalog.VersionCatalog.LatestVersionOfType | src/main/java/dev/railroadide/switchboard/minecraft/MinecraftVersion.java:178-192 | releases and snapshots answer their reference; the legacy types answer the entry of that type at the largest index |
| Catalog.VersionCatalog.FindClosestRelease | src/main/java/dev/railroadide/switchboard/minecraft/MinecraftVersion.java:204-225 | the two index loops return the closest release as defined above: nearest below first, then nearest above |
| Catalog.VersionCatalog.ReleaseBelow | src/main/java/dev/railroadide/switchboard/minecraft/MinecraftVersion.java:212-216 | the downward loop returns the largest release index below `k`, or -1 when there is none |
| Catalog.VersionCatalog.ReleaseFrom | src/main/java/dev/railroadide/switchboard/minecraft/MinecraftVersion.java:218-222 | the upward loop returns the smallest release index from `k` on, or -1 when there is none |
| Catalog.ClosestReleaseSteps | src/main/java/dev/railroadide/switchboard/minecraft/MinecraftVersion.java:204-225 | for a listed non-release, the closest release is what the downward search finds, else what the upward search finds, else none |
| Forge.BaseVersion | src/main/java/dev/railroadide/switchboard/minecraft/forge/ForgeVersionService.java:101-110 | none when there is no `-` or it is first; otherwise the first catalog entry named by the text before the first `-`, none exactly when no entry has that name |
| Forge.FallbackVerdict | src/main/java/dev/railroadide/switchboard/minecraft/forge/ForgeVersionService.java:65-93 | zero exactly for equal elements; `-` sorts before any other element; otherwise, when either element has no `-`, the text order |
| Forge.Build | src/main/java/dev/railroadide/switchboard/minecraft/forge/ForgeVersionService.java:53-54 | the whole text when it has no `-`; otherwise the text splits as head, `-`, build |
| Forge.SplitOnce | src/main/java/dev/railroadide/switchboard/minecraft/forge/ForgeVersionService.java:76-77 | one piece without `-`; otherwise two pieces joined by the first `-` |
| Forge.FallbackComparesTails | src/main/java/dev/railroadide/switchboard/minecraft/forge/ForgeVersionService.java:75-91 | with equal heads, two elements holding `-` always compare their tails: lines 84-90 are never reached |
| Forge.StepVerdict | src/main/java/dev/railroadide/switchboard/minecraft/forge/ForgeVersionService.java:59-94 | two integer elements move on exactly when equal and otherwise order by value; anything else is decided by the string fallback |
| Forge.CompareBuildsFrom | src/main/java/dev/railroadide/switchboard/minecraft/forge/ForgeVersionService.java:59-97 | builds with no elements left compare equal |
| Forge.Compare | src/main/java/dev/railroadide/switchboard/minecraft/forge/ForgeVersionService.java:44-98 | resolved base versions with different release instants order by release time and never tie; otherwise the builds decide |
| Forge.CompareForgeVersions | src/main/java/dev/railroadide/switchboard/minecraft/forge/ForgeVersionService.java:44-98 | the loop with its early returns computes the comparator |
| Forge.CompareReflexive | src/main/java/dev/railroadide/switchboard/minecraft/forge/ForgeVersionService.java:44-98 | every version compares equal to itself |
| Forge.CompareAntisymmetric | src/main/java/dev/railroadide/switchboard/minecraft/forge/ForgeVersionService.java:44-98 | swapping the arguments negates the answer exactly |
| Forge.FallbackAntisymmetric | src/main/java/dev/railroadide/switchboard/minecraft/forge/ForgeVersionService.java:65-93 | swapping the elements negates the fallback's answer exactly |
| Forge.CompareBuildsFromReflexive | src/main/java/dev/railroadide/switchboard/minecraft/forge/ForgeVersionService.java:59-97 | a build compares equal to itself from any position |
| Forge.CompareBuildsFromAntisymmetric | src/main/java/dev/railroadide/switchboard/minecraft/forge/ForgeVersionService.java:59-97 | swapping two builds negates their comparison exactly |
| Forge.SameBaseVersion | src/main/java/dev/railroadide/switchboard/minecraft/forge/ForgeVersionService.java:47-58 | two versions over the same base identifier are ordered by their builds |
| Forge.NumericBuildOrder | src/main/java/dev/railroadide/switchboard/minecraft/forge/ForgeVersionService.java:59-64 | numeric elements compare as numbers: build 58.0.9 precedes 58.0.10 |
| Forge.SuffixedBuildOrder | src/main/java/dev/railroadide/switchboard/minecraft/forge/ForgeVersionService.java:65-93 | a suffixed element is not a number and `58` precedes `58-rc1` as strings |
| Forge.FallbackVerdictIsFinal | src/main/java/dev/railroadide/switchboard/minecraft/forge/ForgeVersionService.java:65-93 | the first non-integer pair decides even when it ties: `a.1` and `a.2` compare equal |
| Forge.BaseOfJoin | src/main/java/dev/railroadide/switchboard/minecraft/forge/ForgeVersionService.java:101-110 | an identifier, `-` and a build resolves to that catalog entry |
| Forge.UnresolvedByBuild | src/main/java/dev/railroadide/switchboard/minecraft/forge/ForgeVersionService.java:45-58 | a version naming no base version is ordered by builds alone |
| Forge.NewerBeforeBare | src/main/java/dev/railroadide/switchboard/minecraft/forge/ForgeVersionService.java:44-98 | `<newer>-1` sorts before the bare version `5`, since the bare version names no base version and the builds decide |
| Forge.BareBeforeOlder | src/main/java/dev/railroadide/switchboard/minecraft/forge/ForgeVersionService.java:44-98 | the bare version `5` sorts before `<older>-9` by build |
| Forge.CompareNotTransitive | src/main/java/dev/railroadide/switchboard/minecraft/forge/ForgeVersionService.java:44-98 | for any two base versions with different release instants there are three versions ordered in a cycle |
| Forge.ComparatorSignAntisymmetric | src/main/java/dev/railroadide/switchboard/minecraft/forge/ForgeVersionService.java:161 | the comparator handed to the sort answers "before" one way round whenever it answers "after" the other way |
| Forge.ReverseIsDescending | src/main/java/dev/railroadide/switchboard/minecraft/forge/ForgeVersionService.java:160-163 | reversing an ascending list gives one in which each version is at least as new as the next |
| Forge.SortedListing | src/main/java/dev/railroadide/switchboard/minecraft/forge/ForgeVersionService.java:158-164 | the listing is a permutation of the feed in which each version is at least as new as the next |
| Forge.VersionsFor | src/main/java/dev/railroadide/switchboard/minecraft/forge/ForgeVersionService.java:171-177 | exactly the feed versions over the base version are kept |
| Forge.LatestFor | src/main/java/dev/railroadide/switchboard/minecraft/forge/ForgeVersionService.java:112-117 | a result is a feed version over the base version |
| Forge.LastOf | src/main/java/dev/railroadide/switchboard/minecraft/forge/ForgeVersionService.java:116 | empty exactly for an empty list, else its last entry |
| Forge.LatestForIsLastMatch | src/main/java/dev/railroadide/switchboard/minecraft/forge/ForgeVersionService.java:112-117 | the result is the feed entry at the largest index over the base version, none when no entry is |
| Forge.RecommendedFor | src/main/java/dev/railroadide/switchboard/minecraft/forge/ForgeVersionService.java:124-137 | present exactly when the promotions hold a non-blank build under `<id>-recommended`; then it is `<id>-<build>` |
| Forge.IsRecommended | src/main/java/dev/railroadide/switchboard/minecraft/forge/ForgeVersionService.java:139-156 | true exactly when the version resolves and is the recommended coordinate of its base version |
| Forge.RecommendedIsRecommended | src/main/java/dev/railroadide/switchboard/minecraft/forge/ForgeVersionService.java:124-156 | the recommended coordinate of a base version is recognised as recommended |
| Forge.ForgeService.constructor | src/main/java/dev/railroadide/switchboard/minecraft/forge/ForgeVersionService.java:26-34 | nothing is cached and there is no promotions entry |
| Forge.ForgeService.ActivePromotions | src/main/java/dev/railroadide/switchboard/minecraft/forge/ForgeVersionService.java:207-208 | available exactly when the promotions entry has not expired |
| Forge.ForgeService.Promotions | src/main/java/dev/railroadide/switchboard/minecraft/forge/ForgeVersionService.java:206-213 | an active entry is reused; otherwise a fetched value is stored and returned, and a failure propagates and changes nothing |
| Forge.ForgeService.ListAllVersions | src/main/java/dev/railroadide/switchboard/minecraft/forge/ForgeVersionService.java:158-169 | the sorted listing of the served feed, with the cache updated as for `versions()` |
| Forge.ForgeService.ListVersionsFor | src/main/java/dev/railroadide/switchboard/minecraft/forge/ForgeVersionService.java:171-182 | the served feed filtered to the base version |
| Forge.ForgeService.LatestVersionFor | src/main/java/dev/railroadide/switchboard/minecraft/forge/ForgeVersionService.java:112-122 | the last version of that filtered list |
| Forge.ForgeService.RecommendedVersionFor | src/main/java/dev/railroadide/switchboard/minecraft/forge/ForgeVersionService.java:124-137 | the recommended coordinate over the served promotions; a failed request is an error |
| Forge.ForgeService.CheckRecommended | src/main/java/dev/railroadide/switchboard/minecraft/forge/ForgeVersionService.java:139-156 | a version naming no base version is not recommended and no promotions are requested |
| Forge.ForgeService.ForceRefresh | src/main/java/dev/railroadide/switchboard/minecraft/forge/ForgeVersionService.java:184-194 | a successful listing replaces `"all"` and then successful promotions replace theirs; the first failure stops the refresh |
| Yarn.BaseId | src/main/java/dev/railroadide/switchboard/minecraft/mappings/YarnVersionService.java:41-44 | the text before the first `+` when that is not the first character, else the whole text |
| Yarn.BaseVersion | src/main/java/dev/railroadide/switchboard/minecraft/mappings/YarnVersionService.java:41-44 | the first catalog entry named by the base identifier, none exactly when no entry has it |
| Yarn.ListAll | src/main/java/dev/railroadide/switchboard/minecraft/mappings/YarnVersionService.java:63-69 | exactly the included feed versions: all of them with pre-releases, else those over a release; the snoc lemma gives the order for both flags |
| Yarn.ListAllWithPrereleases | src/main/java/dev/railroadide/switchboard/minecraft/mappings/YarnVersionService.java:63-69 | with pre-releases the listing is the feed reversed |
| Yarn.ListAllSnoc | src/main/java/dev/railroadide/switchboard/minecraft/mappings/YarnVersionService.java:63-69 | one more feed version is put first when it is included, for both settings of pre-releases |
| Yarn.ListFor | src/main/java/dev/railroadide/switchboard/minecraft/mappings/YarnVersionService.java:76-84 | exactly the feed versions over the base version, and only when pre-releases are asked for or it is a release |
| Yarn.PrereleaseListsNothing | src/main/java/dev/railroadide/switchboard/minecraft/mappings/YarnVersionService.java:81 | a pre-release base version lists nothing without the flag |
| Yarn.ReleaseIgnoresFlag | src/main/java/dev/railroadide/switchboard/minecraft/mappings/YarnVersionService.java:79-83 | when pre-releases are allowed or the base version is a release, the gate lets every entry through: the listing is the matches, reversed |
| Yarn.LatestFor | src/main/java/dev/railroadide/switchboard/minecraft/mappings/YarnVersionService.java:51-56 | a result is a feed version over the base version that passes the release gate |
| Yarn.LatestForIsLastMatch | src/main/java/dev/railroadide/switchboard/minecraft/mappings/YarnVersionService.java:51-56 | the result is the feed entry at the largest index over the base version when the gate is open, none otherwise |
| Yarn.YarnService.constructor | src/main/java/dev/railroadide/switchboard/minecraft/mappings/YarnVersionService.java:29-31 | nothing is cached |
| Yarn.YarnService.ListAllVersions | src/main/java/dev/railroadide/switchboard/minecraft/mappings/YarnVersionService.java:58-69 | the listing of the served feed, with the cache updated as for `versions()` |
| Yarn.YarnService.ListVersionsFor | src/main/java/dev/railroadide/switchboard/minecraft/mappings/YarnVersionService.java:71-84 | the listing for the base version over the served feed |
| Yarn.YarnService.LatestVersionFor | src/main/java/dev/railroadide/switchboard/minecraft/mappings/YarnVersionService.java:46-56 | the first entry of that listing |
| Yarn.YarnService.ForceRefresh | src/main/java/dev/railroadide/switchboard/minecraft/mappings/YarnVersionService.java:86-94 | a successful request replaces `"all"`; a failure changes nothing |
| Fabric.StringField | src/main/java/dev/railroadide/switchboard/minecraft/fabric/FabricLoaderVersionService.java:218 | a missing or null member is null; a string is kept; a boolean becomes `true` or `false`; a number becomes its decimal text; an object or array, and only those, fail |
| Fabric.IntField | src/main/java/dev/railroadide/switchboard/minecraft/fabric/FabricLoaderVersionService.java:218 | a missing member is 0; a number is narrowed to its low 32 bits (unchanged when it fits); a string decodes exactly when `Integer.parseInt` accepts it, to its value; null and every other kind fail |
| Fabric.BoolField | src/main/java/dev/railroadide/switchboard/minecraft/fabric/FabricLoaderVersionService.java:218 | a missing member is false; a boolean is kept; a string is read by `Boolean.parseBoolean`; null and every other kind fail |
| Fabric.Decode | src/main/java/dev/railroadide/switchboard/minecraft/fabric/FabricLoaderVersionService.java:212 | decoding succeeds exactly when all five components decode, and the record holds each of the five decoded values |
| Fabric.Encode | src/main/java/dev/railroadide/switchboard/minecraft/fabric/FabricLoaderVersionService.java:218 | the JSON form of a record has no `loader` member, always has `build` and `stable`, and has a string component's member exactly when that component is not null, as `Switchboard.GSON` does not serialise nulls |
| Fabric.DecodeEncode | src/main/java/dev/railroadide/switchboard/minecraft/fabric/FabricLoaderVersionService.java:212-218 | every record whose build fits an int decodes back from its JSON form |
| Fabric.IntFieldOfText | src/main/java/dev/railroadide/switchboard/minecraft/fabric/FabricLoaderVersionService.java:218 | an `int` component written as the text of an `int` decodes as if written as the number |
| Fabric.ElementVersions | src/main/java/dev/railroadide/switchboard/minecraft/fabric/FabricLoaderVersionService.java:199-212 | a non-object element, or one whose `loader` is not an object, contributes nothing; otherwise at most one record |
| Fabric.Entries | src/main/java/dev/railroadide/switchboard/minecraft/fabric/FabricLoaderVersionService.java:198-215 | at most one record per element |
| Fabric.EntriesAppend | src/main/java/dev/railroadide/switchboard/minecraft/fabric/FabricLoaderVersionService.java:198-215 | parsing keeps array order over consecutive slices, and a failure anywhere fails the whole |
| Fabric.UnwrapLoader | src/main/java/dev/railroadide/switchboard/minecraft/fabric/FabricLoaderVersionService.java:203-212 | a record parses the same whether it is the element or wrapped in its `loader` member |
| Fabric.ParsedArray | src/main/java/dev/railroadide/switchboard/minecraft/fabric/FabricLoaderVersionService.java:194-196 | a null array parses to the empty list |
| Fabric.ParseArray | src/main/java/dev/railroadide/switchboard/minecraft/fabric/FabricLoaderVersionService.java:194-216 | the loop succeeds exactly when every element parses, and yields the parsed records |
| Fabric.EntriesStuck | src/main/java/dev/railroadide/switchboard/minecraft/fabric/FabricLoaderVersionService.java:212 | once a prefix fails to decode, the whole array fails |
| Fabric.CacheKeyFor | src/main/java/dev/railroadide/switchboard/minecraft/fabric/FabricLoaderVersionService.java:31-33 | the key is `mc:` then the identifier, never `"all"` |
| Fabric.CacheKeyInjective | src/main/java/dev/railroadide/switchboard/minecraft/fabric/FabricLoaderVersionService.java:31-33 | two base versions share a key exactly when they share an identifier |
| Fabric.Served | src/main/java/dev/railroadide/switchboard/minecraft/fabric/FabricLoaderVersionService.java:109-122 | an active entry is served; else a successful request; else the expired entry; else the empty list |
| Fabric.Stored | src/main/java/dev/railroadide/switchboard/minecraft/fabric/FabricLoaderVersionService.java:124-138 | the entry is replaced exactly when a request was made and succeeded |
| Fabric.StoredIsServed | src/main/java/dev/railroadide/switchboard/minecraft/fabric/FabricLoaderVersionService.java:109-117 | a stored list is served again until it expires, whatever later requests yield |
| Fabric.FailureFallsBack | src/main/java/dev/railroadide/switchboard/minecraft/fabric/FabricLoaderVersionService.java:118-121 | a failed request serves the previous value, expired or not, and keeps it |
| Fabric.FirstWithVersion | src/main/java/dev/railroadide/switchboard/minecraft/fabric/FabricLoaderVersionService.java:60-62 | the first listed record with that version text; none exactly when no record has it |
| Fabric.SingleVersion | src/main/java/dev/railroadide/switchboard/minecraft/fabric/FabricLoaderVersionService.java:140-162 | a result comes only from a successful request whose body is an object, and every such body gives its decoded record |
| Fabric.ScanDown | src/main/java/dev/railroadide/switchboard/minecraft/fabric/FabricLoaderVersionService.java:39-49 | a record is found only when some index is scanned |
| Fabric.ColdScanFindsLastIndex | src/main/java/dev/railroadide/switchboard/minecraft/fabric/FabricLoaderVersionService.java:39-49 | with nothing cached, the scan returns the first record of the catalog version at the largest index that has any (the oldest base version) |
| Fabric.ColdServed | src/main/java/dev/railroadide/switchboard/minecraft/fabric/FabricLoaderVersionService.java:124-137 | serving an uncached key yields the request's records or the empty list and adds at most that key |
| Fabric.FabricService.constructor | src/main/java/dev/railroadide/switchboard/minecraft/fabric/FabricLoaderVersionService.java:25-29 | nothing is cached and no latest answer is memoised |
| Fabric.FabricService.Lookup | src/main/java/dev/railroadide/switchboard/minecraft/fabric/FabricLoaderVersionService.java:109-138 | serves and stores as described by the serving and storing rules |
| Fabric.FabricService.AllVersions | src/main/java/dev/railroadide/switchboard/minecraft/fabric/FabricLoaderVersionService.java:77-85 | the lookup of `"all"`, whatever the flag |
| Fabric.FabricService.VersionsFor | src/main/java/dev/railroadide/switchboard/minecraft/fabric/FabricLoaderVersionService.java:87-96 | the lookup of the base version's key, whatever the flag |
| Fabric.FabricService.LatestFor | src/main/java/dev/railroadide/switchboard/minecraft/fabric/FabricLoaderVersionService.java:66-75 | the first record served for the base version, none for an empty list |
| Fabric.FabricService.FindVersion | src/main/java/dev/railroadide/switchboard/minecraft/fabric/FabricLoaderVersionService.java:56-64 | nothing for a null or empty text; the first listed match; the single-version request exactly when nothing is listed |
| Fabric.FabricService.Latest | src/main/java/dev/railroadide/switchboard/minecraft/fabric/FabricLoaderVersionService.java:35-50 | a memoised answer is returned unchanged; otherwise the scan's record is returned and memoised |
| Fabric.FabricService.ForceRefresh | src/main/java/dev/railroadide/switchboard/minecraft/fabric/FabricLoaderVersionService.java:98-107 | `"all"` is removed and served again, then every catalog version's key is removed; the memoised answer is kept |
| Fabric.FabricService.RemoveKeysOf | src/main/java/dev/railroadide/switchboard/minecraft/fabric/FabricLoaderVersionService.java:103 | the removal loop leaves the cache without exactly the keys of the given catalog versions, all else unchanged |
| Parchment.DaysInMonth | src/main/java/dev/railroadide/switchboard/parchment/ParchmentVersion.java:11-13 | every month has 28 to 31 days |
| Parchment.ParseIsoDate | src/main/java/dev/railroadide/switchboard/parchment/ParchmentVersion.java:11-13 | a parsed text has the `YYYY-MM-DD` shape and gives a valid calendar date |
| Parchment.FormatIso | src/main/java/dev/railroadide/switchboard/parchment/ParchmentVersion.java:11-13 | the ISO text of a date is ten characters |
| Parchment.ParseFormatIso | src/main/java/dev/railroadide/switchboard/parchment/ParchmentVersion.java:11-13 | every valid date parses back from its ISO text |
| Parchment.DateOf | src/main/java/dev/railroadide/switchboard/parchment/ParchmentVersion.java:11-13 | a version's date, when it has one, is a valid date |
| Parchment.DateOfDotted | src/main/java/dev/railroadide/switchboard/parchment/ParchmentVersion.java:11-13 | every valid date reads back from its dotted version text `YYYY.MM.DD` |
| Parchment.DateOfIso | src/main/java/dev/railroadide/switchboard/parchment/ParchmentVersion.java:11-13 | a version written with `-` denotes its date too |
| Parchment.ReplaceAllOnce | src/main/java/dev/railroadide/switchboard/parchment/ParchmentVersion.java:12 | replacing a one-character target where it first occurs replaces just that occurrence before the rest is processed |
| Parchment.CompareDates | src/main/java/dev/railroadide/switchboard/parchment/ParchmentVersion.java:7-9 | zero exactly for equal dates, negative exactly when the first is earlier by year, month, day |
| Parchment.Compare | src/main/java/dev/railroadide/switchboard/parchment/ParchmentVersion.java:5-13 | an answer exactly when both versions are dates, and then it is their date order |
| Parchment.SortCompareIsCompare | src/main/java/dev/railroadide/switchboard/parchment/ParchmentVersion.java:7-9 | on two dates the sort's comparator is `compareTo` |
| Parchment.CompareDatesAntisymmetric | src/main/java/dev/railroadide/switchboard/parchment/ParchmentVersion.java:7-9 | swapping negates the comparison exactly |
| Parchment.CompareDatesTransitive | src/main/java/dev/railroadide/switchboard/parchment/ParchmentVersion.java:7-9 | "not after" chains |
| Parchment.SameVersionEqual | src/main/java/dev/railroadide/switchboard/parchment/ParchmentVersion.java:5-9 | two versions with the same text compare equal, whatever their base versions and flags |
| ParchmentVersions.TagVersion | src/main/java/dev/railroadide/switchboard/parchment/ParchmentVersionManager.java:44-56 | a valid tag gives a stable version whose two parts hold no `-` |
| ParchmentVersions.WellFormedTag | src/main/java/dev/railroadide/switchboard/parchment/ParchmentVersionManager.java:45-55 | `refs/tags/releases/<mc>-<version>` reads as that pair |
| ParchmentVersions.ExtraPartDropped | src/main/java/dev/railroadide/switchboard/parchment/ParchmentVersionManager.java:46-54 | only the first two parts count |
| ParchmentVersions.DashlessTagSkipped | src/main/java/dev/railroadide/switchboard/parchment/ParchmentVersionManager.java:48-51 | a tag without `-` is skipped |
| ParchmentVersions.Tags | src/main/java/dev/railroadide/switchboard/parchment/ParchmentVersionManager.java:43-58 | at most one version per tag |
| ParchmentVersions.TagsExactly | src/main/java/dev/railroadide/switchboard/parchment/ParchmentVersionManager.java:43-58 | every valid tag contributes its version, and every kept version is stable with both parts free of `-` |
| ParchmentVersions.ParseTags | src/main/java/dev/railroadide/switchboard/parchment/ParchmentVersionManager.java:43-58 | the tag loop yields exactly the tag versions |
| ParchmentVersions.FetchAllVersions | src/main/java/dev/railroadide/switchboard/parchment/ParchmentVersionManager.java:19-63 | the parsed tags, or the empty list when the clone fails |
| ParchmentVersions.SortedListing | src/main/java/dev/railroadide/switchboard/parchment/ParchmentVersionManager.java:65-67 | an error exactly when two or more entries include a non-date; otherwise a permutation in which every earlier entry is no later than every later one |
| ParchmentVersions.SortedListingStable | src/main/java/dev/railroadide/switchboard/parchment/ParchmentVersionManager.java:65-67 | the sort is stable: versions of the same date keep their tag order in a successful listing |
| ParchmentVersions.SortCompareOrder | src/main/java/dev/railroadide/switchboard/parchment/ParchmentVersionManager.java:66 | the sort comparator is a total preorder |
| ParchmentVersions.SortedByCompare | src/main/java/dev/railroadide/switchboard/parchment/ParchmentVersionManager.java:66 | sorted by the sort comparator over dates means ordered by `compareTo` |
| ParchmentVersions.SingleEntryListed | src/main/java/dev/railroadide/switchboard/parchment/ParchmentVersionManager.java:66 | a single entry is listed even when it is not a date |
| ParchmentVersions.NonDateFailsListing | src/main/java/dev/railroadide/switchboard/parchment/ParchmentVersionManager.java:66 | two entries, one not a date, make the listing fail |
| ParchmentVersions.FilterByMinecraft | src/main/java/dev/railroadide/switchboard/parchment/ParchmentVersionManager.java:69-79 | the loop keeps exactly the entries over the base version, in order |
| ParchmentVersions.FilterKeepsOrder | src/main/java/dev/railroadide/switchboard/parchment/ParchmentVersionManager.java:69-79 | filtering keeps the date order of the listing |
| ParchmentVersions.InsertKey | src/main/java/dev/railroadide/switchboard/parchment/ParchmentVersionManager.java:87 | a new key joins the keys and nothing else does |
| ParchmentVersions.InsertKeyAscending | src/main/java/dev/railroadide/switchboard/parchment/ParchmentVersionManager.java:87 | inserting a new key keeps the keys strictly ascending |
| ParchmentVersions.GroupByMinecraftVersion | src/main/java/dev/railroadide/switchboard/parchment/ParchmentVersionManager.java:85-93 | keys are strictly ascending and are the groups; a group exists exactly when a version is over it, and holds exactly those versions in order |
| ParchmentVersions.GroupAppend | src/main/java/dev/railroadide/switchboard/parchment/ParchmentVersionManager.java:89-91 | a version over a base version that already has a group is appended to that group, and the grouping invariant still holds |
| ParchmentVersions.GroupCreate | src/main/java/dev/railroadide/switchboard/parchment/ParchmentVersionManager.java:89-91 | a version over a new base version opens a group holding just it, its key joins the keys, and the grouping invariant still holds |
| ParchmentVersions.InOwnGroup | src/main/java/dev/railroadide/switchboard/parchment/ParchmentVersionManager.java:88-90 | every version lies in the group of its base version |
| ParchmentVersions.FirstMaxIndex | src/main/java/dev/railroadide/switchboard/parchment/ParchmentVersionManager.java:96 | the first index whose version text is greatest: no text is greater, and every earlier is smaller |
| ParchmentVersions.Latest | src/main/java/dev/railroadide/switchboard/parchment/ParchmentVersionManager.java:95-103 | empty exactly for an empty list; otherwise a listed version with no greater version text |
| ParchmentVersions.JanuaryDotted | src/main/java/dev/railroadide/switchboard/parchment/ParchmentVersion.java:11-13 | `2024.01.01` denotes the first of January 2024 |
| ParchmentVersions.DecemberDashed | src/main/java/dev/railroadide/switchboard/parchment/ParchmentVersion.java:11-13 | `2024-12-01` denotes the first of December 2024 |
| ParchmentVersions.DashBeforeDot | src/main/java/dev/railroadide/switchboard/parchment/ParchmentVersionManager.java:96 | as text, `2024.01.01` is greater than `2024-12-01` |
| ParchmentVersions.LatestIsByText | src/main/java/dev/railroadide/switchboard/parchment/ParchmentVersionManager.java:95-97 | the latest is chosen by text: `2024.01.01` beats the later date `2024-12-01` |
| ParchmentVersions.FailedCloneCached | src/main/java/dev/railroadide/switchboard/parchment/ParchmentVersionManager.java:59-67 | a failed clone is cached as an empty listing, which lists as empty |
| ParchmentVersions.RefilledServes | src/main/java/dev/railroadide/switchboard/parchment/ParchmentVersionManager.java:65-67 | a refilled listing is served until it expires, whatever a later clone would yield |
| ParchmentVersions.VersionManager.constructor | src/main/java/dev/railroadide/switchboard/parchment/ParchmentVersionManager.java:17 | the cache is empty with a three-hour time-to-live |
| ParchmentVersions.VersionManager.ListAllVersions | src/main/java/dev/railroadide/switchboard/parchment/ParchmentVersionManager.java:65-67 | the sorted cached or fetched listing; the fetched list is stored first, so it stays cached when the sort throws |
| ParchmentVersions.VersionManager.ListVersionsFor | src/main/java/dev/railroadide/switchboard/parchment/ParchmentVersionManager.java:69-79 | the listing filtered to the base version |
| ParchmentVersions.VersionManager.DoesParchmentExist | src/main/java/dev/railroadide/switchboard/parchment/ParchmentVersionManager.java:81-83 | true exactly when some listed version is over the base version |
| ParchmentVersions.VersionManager.GroupedByMinecraftVersion | src/main/java/dev/railroadide/switchboard/parchment/ParchmentVersionManager.java:85-93 | the grouping of the listing, an error exactly when the listing fails |
| ParchmentVersions.VersionManager.LatestFor | src/main/java/dev/railroadide/switchboard/parchment/ParchmentVersionManager.java:95-97 | the greatest version text over the base version |
| ParchmentVersions.VersionManager.LatestOverall | src/main/java/dev/railroadide/switchboard/parchment/ParchmentVersionManager.java:99-103 | the greatest version text of the listing, null for an empty one |
| ParchmentVersions.VersionManager.ForceRefresh | src/main/java/dev/railroadide/switchboard/parchment/ParchmentVersionManager.java:105-108 | the cache then holds exactly the fresh `"all"` listing; the refresh fails exactly when that listing does not sort |
| FieldProjection.DropCarriageReturns | src/main/java/dev/railroadide/switchboard/routing/MinecraftRouting.java:85 | one line per piece; every piece but the last loses exactly one trailing carriage return when it has one, the last is unchanged |
| FieldProjection.Lines | src/main/java/dev/railroadide/switchboard/routing/MinecraftRouting.java:85 | a body without a line break is one line; otherwise each line is its piece between line breaks minus one trailing carriage return, trailing empty lines dropped |
| FieldProjection.LineItems | src/main/java/dev/railroadide/switchboard/routing/MinecraftRouting.java:86-91 | no items unless the trimmed line starts with `fields `; then the non-empty trims of the rest split on `,` |
| FieldProjection.NonEmptyTrimmed | src/main/java/dev/railroadide/switchboard/routing/MinecraftRouting.java:89-91 | the kept items are non-empty and trimmed, and free of `,` when the pieces are; one piece gives its trim when non-empty; with the append and members lemmas, exactly the non-empty trims in order |
| FieldProjection.AllItems | src/main/java/dev/railroadide/switchboard/routing/MinecraftRouting.java:85-91 | one line gives its items; with the append lemma, the items of the lines concatenated in order |
| FieldProjection.Distinct | src/main/java/dev/railroadide/switchboard/routing/MinecraftRouting.java:92 | the same items without repeats |
| FieldProjection.DistinctKeepsFirstOrder | src/main/java/dev/railroadide/switchboard/routing/MinecraftRouting.java:92 | items stay in the order of their first occurrence |
| FieldProjection.GetFieldsFromBody | src/main/java/dev/railroadide/switchboard/routing/MinecraftRouting.java:81-94 | no fields for a missing or blank body; otherwise a field is returned exactly when some line of the body names it, each once, in the order of first occurrence |
| FieldProjection.OneField | src/main/java/dev/railroadide/switchboard/routing/MinecraftRouting.java:81-94 | a body that is one `fields ` line with one name yields exactly that name |
| FieldProjection.DuplicateKeptOnce | src/main/java/dev/railroadide/switchboard/routing/MinecraftRouting.java:92 | a name given twice is kept once, in first-occurrence order |
| FieldProjection.ApplyPath | src/main/java/dev/railroadide/switchboard/routing/MinecraftRouting.java:98-124 | only keys of the filtered or original object appear, none is lost, keys the original lacks keep their values, a path that leads to a value of the original succeeds and puts that value at the same place, and unless the path opens with a `*` the original lacks every key but its first segment is left as it was |
| FieldProjection.ApplyFields | src/main/java/dev/railroadide/switchboard/routing/MinecraftRouting.java:96-128 | only keys of the filtered or original object appear; a single field is its dotted path |
| FieldProjection.ProjectionKeysFromOriginal | src/main/java/dev/railroadide/switchboard/routing/MinecraftRouting.java:96-128 | the projection never invents a top-level key, and without a level-copying `*` every key it holds is the first segment of some field |
| FieldProjection.ApplyFieldsTouchesHeads | src/main/java/dev/railroadide/switchboard/routing/MinecraftRouting.java:96-128 | without a level-copying `*`, a successful projection leaves every top-level key that no field starts with present and valued exactly as in the filtered object |
| FieldProjection.TwoSegmentPath | src/main/java/dev/railroadide/switchboard/routing/MinecraftRouting.java:102-113 | a full path copies the terminal value at the same nesting |
| FieldProjection.MissingSegmentLeavesObject | src/main/java/dev/railroadide/switchboard/routing/MinecraftRouting.java:108-122 | a missing inner segment ends the path but leaves the object created before it |
| FieldProjection.WildcardCopiesLevel | src/main/java/dev/railroadide/switchboard/routing/MinecraftRouting.java:114-120 | a `*` that is not a key copies the whole level and ends the path |
| FieldProjection.DescentThroughLeafFails | src/main/java/dev/railroadide/switchboard/routing/MinecraftRouting.java:111 | descending through a value that is not an object fails |
| FieldProjection.ApplyPathFailsExactly | src/main/java/dev/railroadide/switchboard/routing/MinecraftRouting.java:102-123 | at any depth, a path fails exactly when it descends through a value of the original that is not an object (PassesLeaf); a missing segment, or a `*` the level lacks, ends it without error |
| FieldProjection.PassesLeafAt | src/main/java/dev/railroadide/switchboard/routing/MinecraftRouting.java:104-112 | the failing descent named by its index: some segment before the last, reached through objects, holds a non-object value in the original |
| FieldProjection.ProjectionExample | src/main/java/dev/railroadide/switchboard/routing/MinecraftRouting.java:96-128 | `{"a":{"b":1,"c":2},"d":3}` on `a.b` and `d` gives `{"a":{"b":1},"d":3}` |
| FieldProjection.Project | src/main/java/dev/railroadide/switchboard/routing/MinecraftRouting.java:66-75 | no fields, or `*` among them, leaves the document as it is; a projection only keeps keys of the document |
| FieldProjection.CopyAll | src/main/java/dev/railroadide/switchboard/routing/MinecraftRouting.java:116-118 | every key of the level is added, replacing what the filtered object held |
| FieldProjection.ApplyPathInPlace | src/main/java/dev/railroadide/switchboard/routing/MinecraftRouting.java:99-124 | the cursor loop computes the value-level path application |
| FieldProjection.FilterJsonObject | src/main/java/dev/railroadide/switchboard/routing/MinecraftRouting.java:96-128 | the field loop computes the projection of all fields from an empty object |
| FieldProjection.LineItemsMembers | src/main/java/dev/railroadide/switchboard/routing/MinecraftRouting.java:86-91 | an item of a line is exactly a non-empty trimmed comma piece of a `fields ` line |
| FieldProjection.NonEmptyTrimmedMembers | src/main/java/dev/railroadide/switchboard/routing/MinecraftRouting.java:89-91 | an item is kept exactly when it is the non-empty trim of some piece |
| FieldProjection.NonEmptyTrimmedAppend | src/main/java/dev/railroadide/switchboard/routing/MinecraftRouting.java:89-91 | the pieces one after the other keep their items in order |
| FieldProjection.AllItemsMembers | src/main/java/dev/railroadide/switchboard/routing/MinecraftRouting.java:85-91 | an item appears exactly when some line names it |
| FieldProjection.AllItemsAppend | src/main/java/dev/railroadide/switchboard/routing/MinecraftRouting.java:85-91 | the items of the lines one after the other are concatenated |
| FieldProjection.ApplyFieldsAppend | src/main/java/dev/railroadide/switchboard/routing/MinecraftRouting.java:96-128 | the fields `a` then `b` are the fields `a` followed by the fields `b` on the result, a failure ending it |
| FieldProjection.ApplyPathSelf | src/main/java/dev/railroadide/switchboard/routing/MinecraftRouting.java:98-124 | a path applied to the object it reads from leaves it as it is |
| FieldProjection.ApplyPathKeeps | src/main/java/dev/railroadide/switchboard/routing/MinecraftRouting.java:98-124 | a value already copied from the original stays after any further path |
| FieldProjection.ApplyFieldsKeeps | src/main/java/dev/railroadide/switchboard/routing/MinecraftRouting.java:96-128 | the same over any sequence of fields |
| FieldProjection.ApplyFieldsCopies | src/main/java/dev/railroadide/switchboard/routing/MinecraftRouting.java:96-128 | every field whose dotted path leads to a value of the original has that value at the same place in a successful projection |
| JavaString.Split | src/main/java/dev/railroadide/switchboard/minecraft/MinecraftVersion.java:231 | pieces never hold the separator; a text without it is returned whole; with the join lemma, the pieces joined give the text up to trailing separators |
| JavaString.Trim | src/main/java/dev/railroadide/switchboard/routing/MinecraftRouting.java:86 | the result starts and ends with a character above U+0020; with the middle lemma, it is the text with only such lower characters removed, at the ends only |
| JavaString.ParseInt | src/main/java/dev/railroadide/switchboard/minecraft/forge/ForgeVersionService.java:61-62 | a parse succeeds only on an optional sign followed by at least one ASCII digit, and then exactly when the value is in the 32-bit range; it is that value, negated after `-` |
| JavaString.ParseIntNonDigit | src/main/java/dev/railroadide/switchboard/minecraft/forge/ForgeVersionService.java:61-65 | an unsigned text holding a non-digit does not parse |
| JavaString.CompareToAntisymmetric | src/main/java/dev/railroadide/switchboard/parchment/ParchmentVersionManager.java:96 | swapping version texts negates the comparison |
| JavaString.CompareToTransitive | src/main/java/dev/railroadide/switchboard/parchment/ParchmentVersionManager.java:96 | text order is transitive |
| JavaString.ReplaceAllAbsent | src/main/java/dev/railroadide/switchboard/parchment/ParchmentVersion.java:12 | a text without the target is unchanged by `replace` |
| JavaString.ToLowerAscii | src/main/java/dev/railroadide/switchboard/minecraft/MinecraftVersion.java:322 | letters A to Z are lowered and nothing else changes |
| JavaString.SplitJoin | src/main/java/dev/railroadide/switchboard/minecraft/MinecraftVersion.java:231 | the pieces joined by the separator give the text up to a run of trailing separators, and the last piece is not empty |
| JavaString.PiecesJoin | src/main/java/dev/railroadide/switchboard/minecraft/MinecraftVersion.java:231 | the raw pieces joined by the separator give back the text |
| JavaString.TrimIsMiddle | src/main/java/dev/railroadide/switchboard/routing/MinecraftRouting.java:86 | the trim is a middle substring with only characters up to U+0020 removed before and after |
| JavaString.ReplaceAll | src/main/java/dev/railroadide/switchboard/parchment/ParchmentVersion.java:12 | every character of the result comes from the text or the replacement, and a replacement equal to the target changes nothing |
| JavaString.CompareTo | src/main/java/dev/railroadide/switchboard/parchment/ParchmentVersionManager.java:96 | zero exactly for equal texts; a prefix compares as the difference of lengths |
| JavaString.IntToString | src/main/java/dev/railroadide/switchboard/minecraft/fabric/FabricLoaderVersionService.java:218 | a leading `-` exactly for a negative number, followed by its decimal digits without leading zeros |
| JavaString.ParseIntOfIntToString | src/main/java/dev/railroadide/switchboard/minecraft/fabric/FabricLoaderVersionService.java:218 | the text of a 32-bit value parses back to that value |
| JavaString.NarrowToInt | src/main/java/dev/railroadide/switchboard/minecraft/fabric/FabricLoaderVersionService.java:218 | the result lies in the 32-bit range, agrees with the number modulo 2^32, and is the number when it fits |
| JavaString.ParseBoolean | src/main/java/dev/railroadide/switchboard/minecraft/fabric/FabricLoaderVersionService.java:218 | true exactly for the four letters of `true`, each in either case |
| Streams.InsertionSortSorted | src/main/java/dev/railroadide/switchboard/parchment/ParchmentVersionManager.java:66 | under a comparator that is a total preorder, the stable sort gives a sorted permutation of its input |
| Streams.InsertStable | src/main/java/dev/railroadide/switchboard/parchment/ParchmentVersionManager.java:66 | inserting an element keeps the order of the elements of a class the comparator never orders strictly, and puts the new element after them when it belongs to that class |
| Streams.InsertionSortStable | src/main/java/dev/railroadide/switchboard/parchment/ParchmentVersionManager.java:66 | the sort keeps the order of the elements of any class the comparator never orders strictly |
| Streams.Filter | src/main/java/dev/railroadide/switchboard/parchment/ParchmentVersionManager.java:72-77 | exactly the elements that satisfy the predicate are kept |

The two copies of `ParchmentVersionManager` differ only in how the clone
directory is prepared and in `doesParchmentExist`. The rows above cite the
`parchment` copy. The same members model the
`minecraft/parchment/ParchmentVersionManager.java` copy:

- its cache: line 18;
- `fetchAllVersions`: lines 20-59, with its tag loop at 39-52 and its
  failure paths at 22-23, 28-30 and 55-57;
- `listAllVersions`: 79-81;
- `listVersionsFor`: 83-93;
- `getAllVersionsGroupedByMinecraftVersion`: 95-103;
- `latestFor`: 105-107;
- `latestOverall`: 109-113;
- `forceRefresh`: 115-118.

Some behaviour of the source is kept as written:

- The Fabric service memoises the answer of `latest()` for its whole
  lifetime, and `forceRefresh` does not clear it.
- Fabric's `latest()` scans the catalog from its last index (the oldest
  version) towards the first. The answer is that of the oldest version
  with any loader (Fabric.ColdScanFindsLastIndex).
- A single-version Fabric response is decoded as it is. Unlike the elements
  of a list, it does not unwrap a `loader` member.
- Parchment's latest version is chosen by comparing version texts, not
  dates (ParchmentVersions.LatestIsByText).
- `Cache.getOrFetch` removes a stale entry when the fetcher returns null.

## Left out

- Network, threads and time: HTTP requests, XML and JSON parsing of
  response bodies, and the asynchronous manifest request are not modelled.
  Each service takes the parsed outcome as a parameter. The clock `Instant.now()` is
  the parameter `now`, in milliseconds. Logging is dropped.
- `requestPistonMeta` and the HTTP routes other than the field projection
  are outside this model.
- Catalog.CompareTo: only the sign of `LocalDateTime.compareTo` is modelled,
  not its magnitude. Release instants are integers, so `LocalDateTime.parse`
  and the `split("\\+")` that drops a time-zone suffix are left out. A time
  text that `LocalDateTime.parse` rejects is that member's `Unreadable` case.
- Catalog.VersionCatalog.Ingest: the list is updated as one assignment. A
  reader running concurrently with the clear-then-add sequence is not modelled.
- Forge.Compare: `compareForgeVersions` returns the catalog comparison
  unchanged. So, like Catalog.CompareTo, only its sign is stated.
- Forge.SortedListing: `List.sort` (TimSort) is modelled as a stable
  insertion sort. The Forge comparator is not transitive
  (Forge.CompareNotTransitive). The order TimSort would actually produce on
  such input, or its "Comparison method violates its general contract"
  exception, is therefore not modelled. The model states only that the
  listing is a permutation with each neighbour pair ordered.
- Lines 84-90 of `ForgeVersionService.java` cannot be reached
  (Forge.FallbackComparesTails), so no member models them.
- Parchment.ParseIsoDate: only unsigned four-digit years 0000-9999 are
  modelled. `LocalDate.parse` also accepts a negative year of four or more
  digits and a `+` year of five or more digits. For example, the version
  text `.2024.01.01` becomes `-2024-01-01`. The source reads it as a date
  in the year -2024, while the model treats it as not a date, so the sort
  fails.
- JavaString.ParseInt: only the ASCII digits `0`-`9` are read.
  `Integer.parseInt` also accepts other Unicode decimal digits.
- JavaString.ToLowerAscii: `String.toLowerCase` is modelled for ASCII
  letters only, which covers every version-type name.
- The order of members in a JSON object is not modelled (objects are maps). This affects the
  order in which keys appear in a projection and in `*` copies, but not which
  keys appear.
- FieldProjection.ApplyPath: member values are copied, not shared, so the
  aliasing in `filterJsonObject` is not modelled. In the source, `add(key,
  value)` after a `*` or a full path puts the original's own object into the
  result. A later path that descends through that key can then mutate the
  original. For example, fields `a` then `a.b.c` on `{"a":{"b":5}}`: the
  source replaces the original's `b` with `{}` and answers `{"a":{"b":{}}}`.
  The model fails the second path, because it descends through a leaf.
- Cloning the Parchment repository with JGit, and deleting or creating the local
  clone directory, are a parameter: the tag names, or `FetchFailed`, which
  gives the empty tag list. `FetchFailed` stands for a clone that throws
  `GitAPIException`, in both copies of the manager. In the
  `minecraft/parchment` copy it also stands for a failed walk of the old
  clone (`deleteDirectory` returning false) or a failed
  `createDirectories`. A file that cannot be deleted is only logged, in both
  copies. In the `parchment` copy, a failed walk of the old clone is only
  logged too, and the clone still runs.
- ParchmentVersions.FetchAllVersions: an unchecked exception from the clone
  or the tag listing is not modelled. Neither copy catches it, so in the
  source it leaves `fetchAllVersions` and `Cache.get` with nothing cached,
  and `listAllVersions` throws.
- `minecraft/parchment/ParchmentVersion.java` is not part of this model. It
  is taken to match `parchment/ParchmentVersion.java`.
- JavaString.CompareTo: texts are compared by Unicode scalar values, while
  `String.compareTo` compares UTF-16 code units. The two orders differ only
  when a character above U+FFFF meets one in U+E000-U+FFFF at the first
  difference: Java sorts the former first. Only such texts are affected,
  in the Forge string fallback and in Parchment's grouping and
  latest-by-text choice.
- TtlCache.Cache.Put: times are unbounded integers, so the `long` overflow of
  `System.currentTimeMillis() + ttlMillis` is not modelled. In the source, a
  time-to-live near `Long.MAX_VALUE` wraps to an instant in the past and
  stores an entry that is already expired, while the model keeps it active.
  The `ArithmeticException` of `Duration.toMillis` on a huge duration
  (PutDefault) is left out for the same reason.
- TtlCache.Cache.GetOrFetch: stored values are never null in the model. The
  source allows `put(key, null)`; `get(key, fetcher)` then calls the fetcher
  although the entry is still active, because `get(key)` answers null for it
  (`Cache.java` lines 60-64). The services in this model only store lists,
  which are never null.
- StringField, IntField: JSON numbers are integers in this model. A number
  written with a fraction or an exponent (`1.5`, `1e3`) is not represented,
  so neither its literal text (which Gson gives a `String` component) nor the
  truncation Gson applies for an `int` component is modelled. An integer is
  given the text of its decimal value, which matches the literal unless it
  was written with leading zeros or as `-0`.
- IntField, BoolField: an explicit `null` for the `int build` or
  `boolean stable` component fails to decode. That is what the record
  adapter of Gson 2.10 and later does. Older Gson versions cannot build a
  record at all, and the Gson version is not visible in these sources.
