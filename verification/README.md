# Verified models of the guardrail platform's self-contained cores

This project models, in Dafny, the parts of the platform whose correctness rests on an argument rather
than on a glance at the code, and proves what they are for. One module covers one source component;
`Wrappers`, `Numbers`, `OrderedDict`, `Sorting`, `Selection`, `Decimal`, `Utf8` and `UrlEncoded` hold what several
of them share: insertion-ordered dictionaries, stable sorting, decimal numerals, UTF-8 and
application/x-www-form-urlencoded text (sections 5.1 and 5.2 of the WHATWG URL Standard).

`dafny verify dfyconfig.toml` checks everything. In-place code is modelled in place: the limiter, the
project client, the project service, the JSON leaf collector, the resource hook, the chart buckets, the
catalog's tenants and the snapshot result are classes; their methods are proved against functions, and the
theorems are about those functions and about runs of them. Whatever the source leaves to the outside (clock
readings, replies, the text analyser, the JSON decoder, the JSON Schema validator, the UUID and digit parsers, hashing
and time stamps, `localeCompare`) is a parameter over which every theorem quantifies. Arithmetic on times
and tokens is exact.

## Main results

- **Project config cache.** All interleavings of commits, publishes, lost events, deliveries, clearings, cache
  hits, and the separate steps of a fetch are runs of one state machine. A returned project was the committed
  one less than TTL plus fetch time ago (`StalenessIsBounded`). After the delivery of a change's event, the old
  project never comes back if and only if no fetch that read before the commit is unfinished
  (`EvictionMakesFresh`); a run shows the premise at work. Every sequence of requests to project-service is a run of
  that machine, with the same commits and publishes (`ServiceRefinesProtocol`).
- **Rate limiter.** At most `per_minute + rate * (t2 - t1)` calls of a key are admitted in any window of any run,
  whatever other keys do and whatever the clock reads (`RateBound`); after a refusal, polling is harmless and the
  first call at or after the promised time, and no earlier one, is admitted (`RetryTimeIsExact`, and over runs with
  other keys in between `RetryTimeInRun`). The limit is the one the settings name for the scope (`LimitOfScope`).
- **Verhoeff digit.** Every single wrong digit and every exchange of unequal neighbours is detected, at every
  length, the check digit included.
- **Event log tail.** Reading blocks from the end gives the newest events of the whole file, for every block size,
  file length, kind of line break and half-written last line, if the terminated lines decode (`TailSuffices`); for any
  lines, exactly when the cut of the tail is harmless (`TailExactlyWhen`). A log written by appending encoded events
  gives those events back, newest first (`AppendedEventsComeBack`).
- **JSON redaction.** Flatten, look up and rebuild is the direct structural map, for every analyser, if and only if
  string leaves that share a path share their text (`RedactionIsMapExactlyWhen`); keys without `.` and `[` suffice.
  Following a reported path then leads to exactly the text it was reported for (`PathsLeadToTheirTexts`).
- **Catalog and snapshot compiler.** The catalog is the same for every order of its records if and only if no two
  records of a known tenant share a sort key and differ in what is published (`CanonicalExactlyWhen`); the database's
  unique constraints guarantee it. A gateway is let in by a published key exactly when a stored, active, unexpired key
  of that tenant allows it (`AdmittedExactlyWhen`). A snapshot is released if and only if every assignment is ready
  (`ReleasedExactlyWhen`). Its document, errors and warnings do not depend on the order of the assignments, and on that
  of the gateways if and only if no gateway goes stale while they are listed (`GatewayOrderIrrelevantExactlyWhen`).
- **Console logic.** The hash round trip, the latest-wins loader, the time buckets, the assignment diff and the
  fresh id.
- **Review polling.** For every positive interval both loops stop within ceil(T/p) + 1 polls at the same poll, and a
  hook releases a payload exactly when it was allowed or approved in time.

## Where the code does less than one might expect

Each of these is a theorem with a concrete instance, named first, and an exact condition, named second.

- A query entry named `__proto__` is lost by `parseHash`, because assigning it to a plain object makes no entry
  (`Router.ProtoIsLost`, `Router.RoundTripExactlyWhen`).
- `useResource` drops the data but not the error when the deps change: an old error stays visible until the first
  call for the new deps has settled (`LatestWins.OldErrorOutlivesDeps`,
  `LatestWins.ErrorIsForCurrentDepsExactlyWhen`). Before the effect has run once, `loading` is true though no call was
  started (`LatestWins.LatestCallWins`).
- A fetch that read before a commit and finishes after the eviction puts the old project back
  (`CacheProtocol.UnfinishedFetchBringsBackOld`, `CacheProtocol.EvictionMakesFresh`).
- The project id is a cache key in the caller's spelling, while the database parses it: a change made under
  another spelling of the same UUID evicts nothing that earlier callers look up
  (`CacheProtocol.OtherSpellingStaysOld`, `CacheProtocol.FreshExactlyWhen`, which holds of any key).
- The limiter reads the clock before it takes the lock. Two readings that reach the lock in the wrong order can
  make a bucket negative; the rate bound holds all the same (`RateLimit.TokensCanTurnNegative`,
  `RateLimit.TokensInRangeExactlyWhen`).
- `Retry-After` adds 0.999 and truncates, so it falls short of a wait that ends less than a millisecond after a
  full second; below 60 calls a minute the limiter gives such waits (`RateLimit.HeaderFallsShort`,
  `RateLimit.HeaderCoversExactlyWhen`).
- Lines of the event log that do not decode count as lines when the tail is cut: behind enough of them older
  events are not returned (`EventLog.UndecodableLinesHideEvents`, `EventLog.TailExactlyWhen`).
- JSON keys with `.` or `[` can make two leaves share a path; then one text gets the other's redaction
  (`JsonRedaction.DottedKeyCollides`, `JsonRedaction.RedactionIsMapExactlyWhen`).
- The snapshot compiler reads the clock once per gateway: a gateway that goes stale while the list is being filtered
  makes the listing order visible (`Snapshot.ClockCanShow`, `Snapshot.GatewayOrderIrrelevantExactlyWhen`).
- Unique ids do not make the catalog canonical; the unique constraints on action and modifier keys do
  (`Catalog.UniqueIdsAreNotEnough`, `Catalog.CanonicalExactlyWhen`).

## Model

| member | source | states |
|---|---|---|
| ProjectClient.ProjectClient.constructor | services/ai-gateway/instant-redaction-service/clients/project_client.py:19-23 | a new client has the given TTL and an empty cache |
| ProjectClient.ProjectClient.Invalidate | services/ai-gateway/instant-redaction-service/clients/project_client.py:25-29 | evicts the one key, or everything without a key, and nothing else |
| ProjectClient.ProjectClient.BeginGet | services/ai-gateway/instant-redaction-service/clients/project_client.py:31-35 | a hit exactly for an entry that has not expired while caching is on; the cache is left alone |
| ProjectClient.ProjectClient.EndGet | services/ai-gateway/instant-redaction-service/clients/project_client.py:36-54 | only a 200 reply is stored and returned; 404, any other status and no reply raise 404, 502 and 503 and store nothing |
| ProjectClient.ProjectClient.Listen | services/ai-gateway/instant-redaction-service/utils/project_events.py:20-34 | a message evicts the id it carries, an empty one or an error evicts everything, other items nothing |
| ProjectClient.RaisedExactlyWhen | services/ai-gateway/instant-redaction-service/clients/project_client.py:41-54 | 404 is raised exactly for a 404, 503 exactly for no reply, 502 exactly for any other status but 200 |
| ProjectClient.StoredIsFound | services/ai-gateway/instant-redaction-service/clients/project_client.py:31-39 | what is stored is found for exactly the TTL, and other keys as before |
| ProjectClient.EvictedIsGone | services/ai-gateway/instant-redaction-service/clients/project_client.py:25-29 | what is evicted is not found, and other keys are found as before |
| CacheProtocol.StalenessIsBounded | services/ai-gateway/instant-redaction-service/clients/project_client.py:31-39 | in every interleaving a returned project was the committed one at an earlier state, less than TTL plus fetch time ago; without caching at most the fetch time ago |
| CacheProtocol.StalenessBoundIsTight | services/ai-gateway/instant-redaction-service/clients/project_client.py:31-39 | for every age short of the bound a run returns a project that was replaced that long ago, its event lost |
| CacheProtocol.HitExactlyWithinTtl | services/ai-gateway/instant-redaction-service/clients/project_client.py:31-39 | in every run, while its key is neither stored again nor evicted, a fetched project is answered from the cache if and only if less than the TTL has passed |
| CacheProtocol.NoTtlNoCache | services/ai-gateway/instant-redaction-service/clients/project_client.py:32-38 | with a TTL of zero or less the cache is empty in every reachable state |
| CacheProtocol.FreshExactlyWhen | services/ai-gateway/instant-redaction-service/clients/project_client.py:25-39 | from a state on, no continuation ever returns a reading from step `since` or before, if and only if no live entry and no unfinished fetch of that key holds one |
| CacheProtocol.CommitPrecedesDelivery | services/ai-gateway/project-service/services/project_service.py:83-84 | in every run each event waiting or under way names the step of an earlier commit under that spelling |
| CacheProtocol.EvictionMakesFresh | services/ai-gateway/instant-redaction-service/utils/project_events.py:20-34 | after a change's event is delivered, or everything is cleared behind the commit, the old project never comes back under that spelling if and only if no fetch that read before the commit is unfinished |
| CacheProtocol.UnfinishedFetchBringsBackOld | services/ai-gateway/instant-redaction-service/clients/project_client.py:36-39 | a run in which a fetch that read before the commit finishes after the delivery, and the old project is returned from the cache |
| CacheProtocol.OtherSpellingStaysOld | services/ai-gateway/project-service/repositories/project_repository.py:14-25 | a run in which a change under another spelling of the id is delivered, no fetch is unfinished, and the old project is still returned |
| ProjectService.ProjectService.CreateProject | services/ai-gateway/project-service/services/project_service.py:28-46 | refuses a taken name, and otherwise takes the step of the service's runs: store, commit, publish nothing |
| ProjectService.ProjectService.UpdateProject | services/ai-gateway/project-service/services/project_service.py:59-86 | takes that step for an update: commit the merged project, then publish the caller's spelling, or raise without a trace |
| ProjectService.ProjectService.DeleteProject | services/ai-gateway/project-service/services/project_service.py:88-95 | takes that step for a deletion: remove exactly that project, commit, then publish, or raise without a trace |
| ProjectService.UpdateReplacesGivenFields | services/ai-gateway/project-service/services/project_service.py:68-83 | an update replaces exactly the fields that it gives |
| ProjectService.RefusedExactlyWhen | services/ai-gateway/project-service/services/project_service.py:60-81 | which update is refused for a missing project, for a taken name, and for leaving nothing to redact |
| ProjectService.StepChangesOneProject | services/ai-gateway/project-service/services/project_service.py:28-95 | a request changes at most its own project; a created one is the one given, a deleted one is gone |
| ProjectService.RunsKeepSound | services/ai-gateway/project-service/services/project_service.py:28-95 | from the empty repository every sequence of requests that pass the schema keeps names unique and every project with something to redact, and every publish directly follows the commit of the project its spelling stands for |
| ServiceTraces.ServiceRefinesProtocol | services/ai-gateway/project-service/services/project_service.py:28-95 | every sequence of such requests is a run of the cache protocol, with the same committed projects and the same commits and publishes in order |
| RateLimit.RateLimiter.constructor | services/ai-gateway/instant-redaction-service/utils/rate_limit.py:16-19 | no buckets at first |
| RateLimit.RateLimiter.Check | services/ai-gateway/instant-redaction-service/utils/rate_limit.py:21-35 | answer and new buckets of one call, as in the runs below, for every scope |
| RateLimit.LimitOfScope | services/ai-gateway/instant-redaction-service/utils/rate_limit.py:23-35 | a new key of a scope with a positive limit in the map is let through exactly that many times at one instant, then refused and told 60 seconds over the limit |
| RateLimit.NoLimit | services/ai-gateway/instant-redaction-service/utils/rate_limit.py:23-25 | a scope limited to zero or less is never refused and leaves no trace |
| RateLimit.OtherScopes | services/ai-gateway/instant-redaction-service/utils/rate_limit.py:23-25 | a scope that the map does not name is treated as "client", and without that entry is never refused |
| RateLimit.KeysAreIndependent | services/ai-gateway/instant-redaction-service/utils/rate_limit.py:21-35 | over every run the calls of one key get the answers, and leave the bucket, that they would alone |
| RateLimit.RateBound | services/ai-gateway/instant-redaction-service/utils/rate_limit.py:21-35 | in every run and every window at most per_minute + rate * (t2 - t1) calls of a key are admitted, whatever the buckets were and whatever the clock reads |
| RateLimit.RateBoundOfScope | services/ai-gateway/instant-redaction-service/utils/rate_limit.py:21-35 | the same in terms of the map: the limit of the scope, plus a sixtieth of it per second |
| RateLimit.BurstIsAdmitted | services/ai-gateway/instant-redaction-service/utils/rate_limit.py:29-33 | with n tokens exactly n calls at one instant are admitted and the next is refused |
| RateLimit.TokensInRange | services/ai-gateway/instant-redaction-service/utils/rate_limit.py:29-34 | under a clock that never goes back the tokens of a key stay between 0 and per_minute |
| RateLimit.TokensInRangeExactlyWhen | services/ai-gateway/instant-redaction-service/utils/rate_limit.py:27-34 | in any run they do so in every state if and only if no reading of the key goes back by more than the tokens it meets are worth |
| RateLimit.TokensCanTurnNegative | services/ai-gateway/instant-redaction-service/utils/rate_limit.py:27-34 | two readings that reach the lock in the wrong order leave half a token owed |
| RateLimit.RefillsCompose | services/ai-gateway/instant-redaction-service/utils/rate_limit.py:29-30 | refilling in two steps is refilling in one, for any bucket and any two readings in order |
| RateLimit.RetryTimeIsExact | services/ai-gateway/instant-redaction-service/utils/rate_limit.py:29-35 | after a refusal with wait w every poll before t + w is refused and told exactly the time left, and the next call is admitted if and only if w has passed |
| RateLimit.RetryTimeInRun | services/ai-gateway/instant-redaction-service/utils/rate_limit.py:21-35 | the same of the answers that a key gets in a run with other keys in between |
| RateLimit.RetryAfterCoversWait | services/ai-gateway/instant-redaction-service/dependencies.py:46-52 | the advertised seconds are at least 1, otherwise less than a second too many, and cover a wait if and only if it is at most a second, whole, or at least a millisecond past a full second |
| RateLimit.HeaderCoversExactlyWhen | services/ai-gateway/instant-redaction-service/dependencies.py:46-52 | they cover every wait that the limiter gives, in every run of a key, if and only if the limit is at least 60 a minute |
| RateLimit.HeaderFallsShort | services/ai-gateway/instant-redaction-service/dependencies.py:46-52 | with 30 a minute a wait of 1.0005 is advertised as 1 |
| Verhoeff.TableIsGroup | eval/generate_pii_dataset.py:87-98 | table _D is the multiplication of the dihedral group of order 10 |
| Verhoeff.MulAssociative | eval/generate_pii_dataset.py:87-98 | that multiplication is associative |
| Verhoeff.RowFacts | eval/generate_pii_dataset.py:99-108 | each row of _P is one permutation applied to the row before, and the first row to the last |
| Verhoeff.TableIsPermutation | eval/generate_pii_dataset.py:99-115 | so row k modulo 8 is that permutation applied k times, for every position k |
| Verhoeff.Step | eval/generate_pii_dataset.py:115 | one pass of the loop multiplies the state by the permuted digit |
| Verhoeff.AntiSymmetric | eval/generate_pii_dataset.py:87-108 | x * p(y) = y * p(x) only for x = y: what makes exchanges visible |
| Verhoeff.VerhoeffDigit | eval/generate_pii_dataset.py:112-116 | for any digit parser the loop over the reversed digits computes the inverse of the group fold; it raises at the rightmost character that is no digit |
| Verhoeff.KnownCheckDigit | eval/generate_pii_dataset.py:87-116 | the check digit of 236 is 3 |
| Verhoeff.ConsistentIffFoldsToZero | eval/generate_pii_dataset.py:112-116 | a number carries its own check digit if and only if its folded checksum, check digit first, is 0 |
| Verhoeff.SingleErrorDetected | eval/generate_pii_dataset.py:112-116 | changing one digit of a number of any length changes the check digit |
| Verhoeff.TranspositionDetected | eval/generate_pii_dataset.py:112-116 | exchanging two unequal neighbours changes the check digit |
| Verhoeff.FullNumberSingleError | eval/generate_pii_dataset.py:112-116 | a full number with one wrong digit, the check digit included, is not consistent |
| Verhoeff.FullNumberTransposition | eval/generate_pii_dataset.py:112-116 | a full number with unequal neighbours exchanged, the last digit and the check digit included, is not consistent |
| EventLog.TailStart | services/memory-firewall/app/firewall.py:188-193 | the block loop stops at the start of the file or with more than `limit` line feeds read |
| EventLog.ReadTail | services/memory-firewall/app/firewall.py:186-193 | for every block size the loop ends and its data is the file from there to the size looked up, whatever was appended or cut off since |
| EventLog.Collect | services/memory-firewall/app/firewall.py:194-204 | the newest decodable lines, newest first, at most `limit` |
| EventLog.RecentEvents | services/memory-firewall/app/firewall.py:180-204 | no file, no events; else the events of the tail, which are the newest of the whole file when every terminated line decodes, and for any lines exactly when the cut is harmless |
| EventLog.SplitAtLineFeed | services/memory-firewall/app/firewall.py:195 | behind a line feed lines split as if the text began there, so a cut affects only the first line |
| EventLog.LinesComeBack | services/memory-firewall/app/firewall.py:195 | every list of lines without breaks, written with LF, CR or CR LF and a half-written last line, is split into exactly these lines |
| EventLog.AppendedEventsComeBack | services/memory-firewall/app/firewall.py:180-204 | of a log made by appending encoded events, with perhaps a half-written line, exactly the last min(limit, n) events are read, newest first |
| EventLog.LogIsPrefix | services/memory-firewall/app/firewall.py:182-193 | what counts is what the file holds up to the size that was looked up |
| EventLog.CountIsAdditive | services/memory-firewall/app/firewall.py:189 | line feeds are counted, one each |
| EventLog.TailSuffices | services/memory-firewall/app/firewall.py:186-204 | a tail that starts the file or holds more than `limit` line feeds gives the newest events of the whole file, if every terminated line decodes |
| EventLog.TailExactlyWhen | services/memory-firewall/app/firewall.py:186-204 | for any lines: the tail that the loop reads gives the newest events if and only if the cut piece completes its whole lines just as the whole file before them does |
| EventLog.UndecodableLinesHideEvents | services/memory-firewall/app/firewall.py:189-201 | one event and two undecodable lines, read byte by byte with limit 1, give nothing |
| Normalizer.NormalizeKeepsVisible | services/ai-gateway/instant-redaction-service/utils/common_utils.py:10-13 | the characters that are no white space stay, in order |
| Normalizer.NormalizeIsIdempotent | services/ai-gateway/instant-redaction-service/utils/common_utils.py:10-13 | normalising twice is normalising once |
| Normalizer.FixedPointsAreJoins | services/ai-gateway/instant-redaction-service/utils/common_utils.py:10-13 | a text is left alone if and only if it is a join of clean lines |
| Normalizer.NormalFormOfLines | services/ai-gateway/instant-redaction-service/utils/common_utils.py:10-13 | a text written as lines with any breaks becomes the join of these lines, stripped, without the blank ones |
| Normalizer.LinesComeBack | services/ai-gateway/instant-redaction-service/utils/common_utils.py:11 | lines written with any of Python's breaks are split into exactly these lines |
| Normalizer.StripCutsSpace | services/ai-gateway/instant-redaction-service/utils/common_utils.py:12 | stripping cuts all white space off both ends and nothing else; nothing is left exactly of white space alone |
| Normalizer.JoinIsPiecewise | services/ai-gateway/instant-redaction-service/utils/common_utils.py:13 | the separator stands between any two parts |
| Normalizer.SpacesAndBreaks | services/ai-gateway/instant-redaction-service/utils/common_utils.py:11-12 | Python's white space and line breaks by code point |
| JsonRedaction.JsonRedactor.Collect | services/ai-gateway/instant-redaction-service/services/redaction_service.py:411-420 | appends the non-blank strings below a value with their paths, in document order |
| JsonRedaction.JsonRedactor.RedactJson | services/ai-gateway/instant-redaction-service/services/redaction_service.py:402-437 | the rebuilt document and the findings by path |
| JsonRedaction.ListFindings | services/ai-gateway/instant-redaction-service/services/redaction_service.py:436 | the findings of every path, in the order of the dictionary |
| JsonRedaction.AnalysedLeaves | services/ai-gateway/instant-redaction-service/services/redaction_service.py:411-414 | what is analysed is every string leaf that is not blank, in order |
| JsonRedaction.RebuildKeepsShape | services/ai-gateway/instant-redaction-service/services/redaction_service.py:426-434 | shape, keys, order and non-strings survive for every document and every replacement |
| JsonRedaction.RebuildIsMap | services/ai-gateway/instant-redaction-service/services/redaction_service.py:426-434 | the rebuild is the structural map of f if and only if every leaf looks up its own image |
| JsonRedaction.RedactionIsMapExactlyWhen | services/ai-gateway/instant-redaction-service/services/redaction_service.py:408-437 | for every analyser the result is the map that replaces each non-blank text with findings by its own redaction, if and only if leaves that share a path share their text |
| JsonRedaction.PlainKeysDistinctPaths | services/ai-gateway/instant-redaction-service/services/redaction_service.py:411-420 | if no key contains '.' or '[', no two string leaves share a path |
| JsonRedaction.PlainKeysRedaction | services/ai-gateway/instant-redaction-service/services/redaction_service.py:402-437 | with such keys every text gets its own redaction and all else is untouched |
| JsonRedaction.PlainKeysFindings | services/ai-gateway/instant-redaction-service/services/redaction_service.py:423-436 | with such keys the findings are those of all non-blank texts, each with its path, in document order |
| JsonRedaction.PathsLeadToTheirTexts | services/ai-gateway/instant-redaction-service/services/redaction_service.py:405-420 | with such keys the path of a leaf, read step by step from the root, leads to exactly its text |
| JsonRedaction.FindingsPointAtTheirTexts | services/ai-gateway/instant-redaction-service/services/redaction_service.py:402-437 | every reported finding is one of the text that its path leads to, and that text is not blank |
| JsonRedaction.TextsAreRedactedInPlace | services/ai-gateway/instant-redaction-service/services/redaction_service.py:402-437 | where a text was, the result has its redaction if it has findings and is not white space, and the text otherwise |
| JsonRedaction.DottedKeyCollides | services/ai-gateway/instant-redaction-service/services/redaction_service.py:417-429 | two leaves at one path: a text without findings is replaced by the other leaf's redaction |
| Selection.PublishedIsExact | services/guardrail-control-plane/app/domain/compiler.py:138-170 | a sorted, filtered list holds every wanted record as often as it is stored, in key order |
| Selection.FlatIsConcatenation | services/guardrail-control-plane/app/domain/compiler.py:89-107 | what the assignments contribute follows in their order |
| Selection.OrderFreeExactlyWhen | services/guardrail-control-plane/app/domain/compiler.py:138-170 | such a list is the same for every stored order if and only if wanted records with one sort key render alike |
| Sorting.StringLeIsLexicographic | services/guardrail-control-plane/app/domain/compiler.py:136-138 | strings are sorted by code points at the first difference, a prefix first |
| Sorting.TupleLeIsLexicographic | services/guardrail-control-plane/app/domain/compiler.py:152-168 | tuples are sorted by the first component that differs |
| Catalog.SortedSetIsCanonical | services/guardrail-control-plane/app/domain/compiler.py:160 | however a set of strings is enumerated, sorting it gives the one list |
| Catalog.OnlySortedSet | services/guardrail-control-plane/app/domain/compiler.py:160 | it is the only list that is sorted, without repetition, and has these elements |
| Catalog.CreateTenants | services/guardrail-control-plane/app/domain/compiler.py:134-137 | fresh tenant objects with nothing but their heads, one per id, the last record of an id winning |
| Catalog.AddKeys | services/guardrail-control-plane/app/domain/compiler.py:138-151 | gives each known tenant its active, unexpired keys, in order, and touches nothing else; raises if and only if one of them has a hash that cannot be published |
| Catalog.AddAgents | services/guardrail-control-plane/app/domain/compiler.py:152-162 | appends to each known tenant its agents with their sorted open findings |
| Catalog.AddActions | services/guardrail-control-plane/app/domain/compiler.py:163-167 | appends to each known tenant its actions |
| Catalog.AddModifiers | services/guardrail-control-plane/app/domain/compiler.py:168-170 | appends to each known tenant its modifiers |
| Catalog.AddFlaggedTools | services/guardrail-control-plane/app/domain/compiler.py:171-173 | sets the sorted flagged tools of each known tenant that has some |
| Catalog.BuildCatalog | services/guardrail-control-plane/app/domain/compiler.py:124-176 | the six in-place loops together give the catalog as a function of the records, and its version from that catalog's digest; nothing if and only if a key hash is refused |
| Catalog.HeadsAreTenants | services/guardrail-control-plane/app/domain/compiler.py:134-137 | an id is published if and only if a tenant with it is stored, and under that id |
| Catalog.HeadPublished | services/guardrail-control-plane/app/domain/compiler.py:134-137 | name, status and data classes are those of the tenant stored last under the id |
| Catalog.TenantsOnceInOrder | services/guardrail-control-plane/app/domain/compiler.py:134-174 | tenants are listed once each, in the order of their ids |
| Catalog.CatalogHoldsExactly | services/guardrail-control-plane/app/domain/compiler.py:138-170 | under each tenant exactly its own usable keys, agents, actions and modifiers, with multiplicity, sorted |
| Catalog.CatalogIsSorted | services/guardrail-control-plane/app/domain/compiler.py:138-170 | keys are listed by id, agents by id, actions by action and pattern, modifiers by kind and value |
| Catalog.PublishedOnceEach | services/guardrail-control-plane/app/domain/compiler.py:138-170 | records with distinct sort keys are published once each |
| Catalog.KeyPublishedExactlyWhen | services/guardrail-control-plane/app/domain/compiler.py:138-151 | a key entry is published under a tenant if and only if a stored key of that tenant is active, unexpired and equal to it in every field |
| Catalog.AdmittedExactlyWhen | services/guardrail-control-plane/app/domain/compiler.py:138-151 | from publication on a hash is admitted in an environment, with given scopes, rate limit and agent, if and only if a stored, active, unexpired key of that tenant has it, these rights and that environment |
| Catalog.AgentPublishedExactlyWhen | services/guardrail-control-plane/app/domain/compiler.py:152-162 | the same for agents with trust and tools, and the findings are those of the inventory as a sorted set |
| Catalog.ActionPublishedExactlyWhen | services/guardrail-control-plane/app/domain/compiler.py:163-167 | the same for actions with pattern and score |
| Catalog.ModifierPublishedExactlyWhen | services/guardrail-control-plane/app/domain/compiler.py:168-170 | the same for modifiers with value and delta |
| Catalog.FlaggedToolsAreSet | services/guardrail-control-plane/app/domain/compiler.py:171-173 | the flagged tools are those of the inventory as a sorted set |
| Catalog.HashPattern | packages/guardrail-sdk/guardrail_sdk/documents.py:92 | a publishable hash is 64 lower-case hexadecimal digits |
| Catalog.VersionsDiffer | services/guardrail-control-plane/app/domain/compiler.py:179-185 | a version names the publication time and the digest, and versions of different times differ |
| Catalog.RevokedKeyIsGone | services/guardrail-control-plane/app/domain/compiler.py:138-139 | once every record of a key id is inactive or expired no tenant publishes it |
| Catalog.CanonicalExactlyWhen | services/guardrail-control-plane/app/domain/compiler.py:133-174 | the catalog is the same for every permutation of all five lists if and only if no two records of a known tenant share a sort key and differ in what is published |
| Catalog.OutcomeOrderFreeExactlyWhen | services/guardrail-control-plane/app/domain/compiler.py:133-174 | counting refusals, the outcome is the same for every permutation if and only if it is a refusal or the records are so |
| Catalog.ConstrainedIsCanonical | services/guardrail-control-plane/app/domain/compiler.py:133-174 | records that satisfy the database's unique constraints compile to one catalog |
| Catalog.DifferentScoresShowTheOrder | services/guardrail-control-plane/app/domain/compiler.py:163-167 | two actions on one pattern with different scores make the stored order visible |
| Catalog.UniqueIdsAreNotEnough | services/guardrail-control-plane/app/domain/compiler.py:163-167 | such records exist with unique ids |
| Snapshot.LiveGateways | services/guardrail-control-plane/app/domain/compiler.py:87 | the gateways seen recently, each judged at its own clock reading |
| Snapshot.LiveExactlyWhen | services/guardrail-control-plane/app/domain/compiler.py:87 | a gateway under a distinct id is live if and only if its reading is at most the given number of seconds after it was seen |
| Snapshot.CompileResult.CheckManifest | services/guardrail-control-plane/app/domain/compiler.py:98-103 | appends the messages on stages, parallel group and config, in this order |
| Snapshot.CompileResult.Check | services/guardrail-control-plane/app/domain/compiler.py:90-107 | appends what one assignment adds to the errors and to the warnings; an unregistered version stops the other checks, and a stored manifest that is refused raises |
| Snapshot.CompileSnapshot | services/guardrail-control-plane/app/domain/compiler.py:77-113 | document, errors and warnings, or what is raised, as a function of the input |
| Snapshot.NoErrorExactlyWhenReady | services/guardrail-control-plane/app/domain/compiler.py:89-107 | the check of an assignment neither raises nor adds an error if and only if it is registered with a valid manifest, not deprecated, supported, parallel safe if grouped, valid and installed on every live gateway (two of them waived by force) |
| Snapshot.ReleasedExactlyWhen | services/guardrail-control-plane/app/domain/compiler.py:108-113 | a document comes out if and only if every assignment is ready, ids are distinct and the environment is known |
| Snapshot.SnapshotReleasedExactlyWhen | services/guardrail-control-plane/app/domain/compiler.py:77-113 | the same in terms of the arguments alone: versions, stages, groups, configs, installations on the gateways whose reading is in time, ids and the three environments |
| Snapshot.WarnedExactlyWhenNoneSeen | services/guardrail-control-plane/app/domain/compiler.py:108-109 | the run warns that no gateway is live if and only if no reading is in time |
| Snapshot.MessagesAreTrue | services/guardrail-control-plane/app/domain/compiler.py:92-107 | what a message says about its assignment is so, and force makes warnings of exactly two kinds |
| Snapshot.MessagesAreComplete | services/guardrail-control-plane/app/domain/compiler.py:92-107 | whatever there is to say about an assignment is said |
| Snapshot.ReleasedIsSorted | services/guardrail-control-plane/app/domain/compiler.py:88-112 | the document is a draft for the environment and lists exactly the assignments given, by order and id |
| Snapshot.NamedExactlyWhenUnready | services/guardrail-control-plane/app/domain/compiler.py:89-107 | if nothing is raised, the errors name an id if and only if an assignment with that id is not ready |
| Snapshot.ForceOnlySoftens | services/guardrail-control-plane/app/domain/compiler.py:95-107 | with force, errors and warnings together are the same messages |
| Snapshot.RaisesExactlyWhen | services/guardrail-control-plane/app/domain/compiler.py:97 | the check raises if and only if a stored manifest is refused |
| Snapshot.ForceRaisesAlike | services/guardrail-control-plane/app/domain/compiler.py:95-97 | it does so with force if and only if it does without |
| Snapshot.ForceKeepsDocuments | services/guardrail-control-plane/app/domain/compiler.py:95-113 | what is released without force is released with it, unchanged |
| Snapshot.SnapshotIsCanonical | services/guardrail-control-plane/app/domain/compiler.py:77-113 | with distinct ids document, errors and warnings are the same for every order of assignments and gateways, as long as no gateway crosses the staleness limit meanwhile |
| Snapshot.GatewayOrderIrrelevantExactlyWhen | services/guardrail-control-plane/app/domain/compiler.py:77-113 | every working set compiles alike for every order of the gateways if and only if each gateway is judged alike at every reading of the clock |
| Snapshot.FirstAndLastReadingDecide | services/guardrail-control-plane/app/domain/compiler.py:87 | under a clock that does not go back that is so if and only if no gateway alive at the first reading is stale at the last |
| Snapshot.ClockCanShow | services/guardrail-control-plane/app/domain/compiler.py:87-113 | two gateways, a forward clock and an assignment whose errors differ between the two orders |
| Utf8.DecodeEncode | apps/console/src/lib/router.ts:16-25 | decoding the UTF-8 of any text gives it back |
| Utf8.EncodingIsStandard | apps/console/src/lib/router.ts:16-25 | the bytes of a character are those of section 3 of RFC 3629 |
| Utf8.StrayByteIsReplaced | apps/console/src/lib/router.ts:16 | a byte that cannot start a character is read as U+FFFD |
| UrlEncoded.FieldRoundTrip | apps/console/src/lib/router.ts:16-25 | a name or value of any Unicode text survives percent-encoding |
| UrlEncoded.RoundTrip | apps/console/src/lib/router.ts:16-25 | parsing serialized pairs gives every pair back, in order |
| UrlEncoded.WrittenBytes | apps/console/src/lib/router.ts:25 | which bytes are written as they are, as + and as % with two upper-case digits |
| UrlEncoded.EscapesAreRead | apps/console/src/lib/router.ts:16 | escapes are read with digits in either case |
| UrlEncoded.StrayPercentIsRead | apps/console/src/lib/router.ts:16 | a % without two digits stands for itself |
| UrlEncoded.PiecesAreSplit | apps/console/src/lib/router.ts:16 | a piece is split at its first =, and without one has an empty value |
| UrlEncoded.QueryIsRead | apps/console/src/lib/router.ts:16 | pieces are read one by one between &, empty ones are skipped |
| Router.ParseHash | apps/console/src/lib/router.ts:11-20 | path and query of any hash |
| Router.BuildHash | apps/console/src/lib/router.ts:22-27 | the hash of the path and the serialized non-empty entries |
| Router.ParsedPathIsPlain | apps/console/src/lib/router.ts:13-14 | every parsed path has one leading slash, none at the end and no '?' |
| Router.PathRoundTrip | apps/console/src/lib/router.ts:11-27 | the path comes back if and only if it has one leading slash, none at the end and no '?' |
| Router.RoundTripHash | apps/console/src/lib/router.ts:11-27 | path and the non-empty entries other than `__proto__` come back, for all Unicode keys and values |
| Router.RoundTripExactlyWhen | apps/console/src/lib/router.ts:11-27 | path and exactly the non-empty entries come back if and only if none of them has the key `__proto__` |
| Router.EntryRoundTrip | apps/console/src/lib/router.ts:11-27 | an entry of a built hash is parsed back if and only if it has a non-empty value and is not `__proto__` |
| Router.ProtoIsLost | apps/console/src/lib/router.ts:15-18 | that entry is lost |
| Router.MarkIsOptional | apps/console/src/lib/router.ts:12 | the # may be missing, and an empty hash is the root |
| Router.QueryIsBetweenMarks | apps/console/src/lib/router.ts:13 | the query lies between the first ? and the second |
| Router.SlashesAreTrimmed | apps/console/src/lib/router.ts:14 | slashes at both ends are reduced to one in front |
| Router.LastValueIsKept | apps/console/src/lib/router.ts:15-18 | the query has every name but `__proto__`, with its last value |
| Router.BuiltText | apps/console/src/lib/router.ts:22-27 | the text of a built hash |
| Router.Reparse | apps/console/src/lib/router.ts:11-27 | writing a parsed route and parsing it again loses only empty values |
| LatestWins.Resource.Begin | apps/console/src/lib/hooks.ts:22-24 | a call takes the next number and sets loading |
| LatestWins.Resource.Resolve | apps/console/src/lib/hooks.ts:26-35 | only the newest call writes its result, clears the error and ends loading |
| LatestWins.Resource.Reject | apps/console/src/lib/hooks.ts:31-35 | only the newest call writes its error, and it keeps the data |
| LatestWins.Resource.OnNewDeps | apps/console/src/lib/hooks.ts:38-42 | new deps drop the data, keep the error and start a call |
| LatestWins.LatestCallWins | apps/console/src/lib/hooks.ts:20-42 | in every interleaving writes come in strictly increasing call order, late older answers change nothing, loading is true exactly while the newest started call is unsettled or none has started; what the newest answer or failure, a reload and new deps show |
| LatestWins.DataIsForCurrentDeps | apps/console/src/lib/hooks.ts:38-42 | data shown always comes from a call for the current deps |
| LatestWins.ErrorIsForCurrentDepsExactlyWhen | apps/console/src/lib/hooks.ts:38-42 | an error shown comes from a call for the current deps if and only if such a call has written |
| LatestWins.OldErrorOutlivesDeps | apps/console/src/lib/hooks.ts:38-42 | a run in which the error of the old deps is shown for the new ones |
| ChartBuckets.FloorToIsStart | apps/console/src/components/chartData.ts:12-17 | an aligned time is the floor of exactly the times in its hour or day |
| ChartBuckets.BucketCountIsLeast | apps/console/src/components/chartData.ts:29-31 | the buckets cover the last hours and one fewer would not |
| ChartBuckets.OnePointMore | apps/console/src/components/chartData.ts:40-47 | one more point adds its requests to exactly the intervals that hold it, for its decision and in total |
| ChartBuckets.EmptyBuckets | apps/console/src/components/chartData.ts:33-39 | empty buckets one step apart up to the last one, all in the index |
| ChartBuckets.AddPoint | apps/console/src/components/chartData.ts:40-47 | a point goes into the one bucket of its interval, by decision and in total |
| ChartBuckets.BuildBuckets | apps/console/src/components/chartData.ts:23-49 | exactly `count` contiguous buckets ending at the one that holds now, each holding the requests of its interval; their totals add up to all requests in the window with a known decision |
| ChartBuckets.TotalIsSumOfCounts | apps/console/src/components/chartData.ts:45-46 | each total is the sum of its counts |
| ChartBuckets.BucketsConserve | apps/console/src/components/chartData.ts:40-48 | in any contiguous buckets that hold their intervals nothing is lost and nothing counted twice |
| AssignmentDiff.DiffAssignments | apps/console/src/pages/Approvals.tsx:30-41 | the two loops and the sort compute the diff |
| AssignmentDiff.DiffIsExact | apps/console/src/pages/Approvals.tsx:30-41 | an entry is in the diff if and only if it is what should be said about its id |
| AssignmentDiff.KindsAreRight | apps/console/src/pages/Approvals.tsx:34-39 | which kind an entry has, and what it shows of both lists |
| AssignmentDiff.ByIdIsLast | apps/console/src/pages/Approvals.tsx:31-32 | of entries with one id the last one counts |
| AssignmentDiff.EmptyExactlyWhenAgree | apps/console/src/pages/Approvals.tsx:30-41 | the diff is empty if and only if the two maps agree |
| AssignmentDiff.DiffListsIdsOnce | apps/console/src/pages/Approvals.tsx:33-40 | every id at most once, in locale order |
| AssignmentDiff.ApplyDiffGivesNext | apps/console/src/pages/Approvals.tsx:30-41 | applying the diff to the base gives the next list as a map |
| AssignmentDiff.RevertDiffGivesBase | apps/console/src/pages/Approvals.tsx:30-41 | taking it back from the next list gives the base as a map |
| Decimal.RenderInjective | apps/console/src/lib/memoryFirewall.ts:28 | different numbers have different numerals |
| Decimal.ReadRender | apps/console/src/lib/memoryFirewall.ts:28 | reading a numeral gives its number, and there are no leading zeros |
| FreshId.UsedRunIsShort | apps/console/src/lib/memoryFirewall.ts:27-28 | a list uses at most as many consecutive numbers as it has items |
| FreshId.BlankItem | apps/console/src/lib/memoryFirewall.ts:26-30 | the search ends at the smallest unused number above the length, at most twice the length plus one, and the id is memory- with its numeral |
| FreshId.BoundIsReached | apps/console/src/lib/memoryFirewall.ts:27-28 | for every length some list needs that many |
| ReviewPolling.WaitForEscalation | packages/guardrail-sdk/guardrail_sdk/client.py:121-131 | for any interval, the answer of the first poll that is not pending or not before the deadline; pending only once the deadline has passed; within ceil(T/p) + 1 polls for a positive interval p and a clock that keeps up |
| ReviewPolling.LoopEnds | packages/guardrail-sdk/guardrail_sdk/client.py:126-131 | with these, the loop has ended by that poll, whatever the gateway answers |
| ReviewPolling.PollBoundIsLeast | packages/guardrail-sdk/guardrail_sdk/client.py:126-131 | the bound is one poll more than the least number of intervals that cover the timeout |
| ReviewPolling.PollsAreOnTime | packages/guardrail-sdk/guardrail_sdk/client.py:124-131 | on a clock moved by the sleeps alone, poll i is at i intervals, or at the deadline if that is earlier |
| ReviewPolling.NoSleepOutrunsDeadline | packages/guardrail-sdk/guardrail_sdk/client.py:131 | a sleep lasts the interval, or exactly the rest up to the deadline if that is less, and never goes past it |
| ReviewPolling.PollBoundIsReached | packages/guardrail-sdk/guardrail_sdk/client.py:126-131 | on such a clock a review that stays pending is polled exactly as often as the bound allows |
| ReviewPolling.GuardAsync | packages/guardrail-sdk/guardrail_sdk/hooks.py:153-162 | the asynchronous hook returns or raises what the poll that ends the waiting decides, and that poll is within the bound |
| ReviewPolling.GuardSync | packages/guardrail-sdk/guardrail_sdk/hooks.py:283-292 | the synchronous hook's own loop gives the same, within the same bound, except that a negative interval raises at the first sleep |
| ReviewPolling.ReleasedExactlyWhen | packages/guardrail-sdk/guardrail_sdk/hooks.py:100-115 | over every run a payload is returned if and only if it was allowed or modified without confirmation, or some poll found it approved in time |
| ReviewPolling.RaisedWhen | packages/guardrail-sdk/guardrail_sdk/hooks.py:100-115 | which exception a pending, rejected, expired or unusable review raises, and which a response without waiting |
| ReviewPolling.ApprovalReleasesExactlyInTime | packages/guardrail-sdk/guardrail_sdk/hooks.py:153-162 | an approval at poll n releases if and only if every poll before it was before the deadline |
| Percentile.RankedSplits | services/guardrail-gateway/app/bench.py:165-170 | the ranked sample is a sample, at least `target` samples are at most it and fewer are below it |
| Percentile.PercentileSplits | services/guardrail-gateway/app/bench.py:165-170 | the same for the percentile q, with target q * n, before rounding |
| Percentile.PercentileIsUnique | services/guardrail-gateway/app/bench.py:165-170 | only one sample value has that property |
| Percentile.PercentileMonotone | services/guardrail-gateway/app/bench.py:165-170 | the percentile is monotone in q |
| Percentile.SummaryIsOrdered | services/guardrail-gateway/app/bench.py:173-181 | also after rounding p50 <= p95 <= p99 <= max, and the mean is at most the maximum |
| Percentile.SummaryReports | services/guardrail-gateway/app/bench.py:173-181 | p50, p95 and p99 are samples that split at 0.50, 0.95 and 0.99, with the maximum and the mean, each rounded; zero without samples |
| Percentile.RoundIsNearest | services/guardrail-gateway/app/bench.py:170 | rounding moves a figure by at most half a thousandth |

## Left out

- The gateway flow, the risk engine, the audit hash chain, publishing and the review service.
- Presidio analysis, image, PDF and dataframe redaction, encryption and TLS; the analyser is an unknown function.
- HTTP, Redis, Postgres and FastAPI wiring. Of the event channel only that events can be
  delayed, overtaken and lost.
- React rendering; a state update takes effect at once, and a component that goes away is not modelled.
- Floating-point rounding: times, tokens and samples are exact numbers.
- RateLimit.RateBound: needs all calls of the key to have one limit, because a key whose scope changes keeps its bucket.
- CacheProtocol.StalenessIsBounded: the fetch time is a bound that runs must respect, as the HTTP timeout makes them.
- ProjectService.RunsKeepSound: requests run one after the other; two that overlap between the name check and the
  commit are not modelled, and the database's unique index decides there.
- Router.RoundTripHash: a `char` is a Unicode scalar value, so lone surrogates do not occur.
- ReviewPolling.WaitForEscalation: needs a run in which some poll ends the loop; a run without one returns nothing.
- Snapshot.CompileSnapshot: messages are kept as their parts, not as text.
- AssignmentDiff.ApplyDiffGivesNext: up to what JSON.stringify tells apart; exact if it tells all values apart.
- JsonRedaction.JsonRedactor.RedactJson: member names are strings, and the project lookup is part of the analyser.
- Wall-clock formatting, hashing and the digits of versions beyond the first eight of the digest.
- Discovery rules, signature tables and decision precedence: finite case tables.
