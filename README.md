# foomo/redirects in Dafny

A model of the redirect service of foomo/redirects, with proofs about it.

The service keeps a store of redirect definitions, one set per dimension (a site or language). Each definition has:

- a source and a target;
- a code;
- a type, manual or automatic;
- a stale flag, for a redirect kept for audit but not served.

The model covers these parts of the service:

- **Automatic redirects.** When the content server publishes, a command compares the old and new page trees of every dimension. Each page whose URI changed yields an automatic redirect.
- **Consolidation.** The derived redirects are consolidated against what the store holds:
  - a new redirect that closes a cycle is marked stale;
  - a new redirect that takes over an automatic one re-points the redirects pointing at it;
  - automatic redirects whose target is no page any more are deleted.
- **Manual redirects.** A redirect created by hand is validated first: not from the homepage, not to itself, not from a restricted source, and closing no cycle.
- **Flattening.** A pass re-points every redirect at the end of its chain.
- **Request providers.** Sites embed a provider that answers a request from a snapshot of the store. It tries, in order:
  - an exact lookup;
  - a path-only lookup, for definitions that respect query parameters;
  - matcher functions;
  - optional standard rules.
- **The older generation.** The older versions of the auto-create walk, the consolidation and the provider are modelled beside the current ones.

## Project layout

Each file holds one module.

- `store.dfy`, `redirection.dfy`: the value types, codes, filters and sort order.
- `content.dfy`: the page tree.
- `collections.dfy`: facts about sequences used as iteration orders.
- `cycles.dfy`: `HasCycle`.
- `autocreate.dfy`: flat node maps and the derived redirects.
- `consolidation.dfy`: the current consolidation, on values with references standing for Go pointers.
- `flattening.dfy`: the flattening pass.
- `backend.dfy`: the repository and the update signal.
  - These are a class holding a snapshot of the store.
  - The class also keeps the log of calls made, so contracts can name the calls each command makes.
- `create_redirects.dfy`: the content-server command with its three middlewares.
- `validation.dfy`, `create_redirect.dfy`: the manual create command.
- `search.dfy`: the search query.
- `urls.dfy`, `provider.dfy`: the current provider.
- `legacy_autocreate.dfy`, `legacy_consolidate.dfy`, `legacy_provider.dfy`: the older code.

### Nondeterminism and library calls

- **Map iteration order.** Go visits map entries in no fixed order.
  - Methods pick the next key with `:|`, and return the order they took as a ghost value.
  - Contracts hold for every order.
- **Library calls.** `net/url`, `path.Match`, `filepath` and the `RedirectRequest` helpers are passed in as function values: the `Lib`, `PathLib` and `RequestLib` records and the `Matcher` parameter. Their results are uninterpreted.
- **Entity ids.** The UUIDs of derived redirects come from a `freshIds` parameter.

## Model

| member | source | states |
|---|---|---|
| Store.CodeValid | domain/redirectdefinition/store/redirect.go:15-26 | a code is valid iff it is 301 or 307 |
| Store.CodeValidRejectsOtherRedirectCodes | domain/redirectdefinition/store/redirect.go:3-26 | the permanent and temporary codes are accepted; 302, 308, 404 and 410 are refused |
| Store.ActiveStateToFilter | domain/redirectdefinition/store/filters.go:12-25 | a filter is applied iff the state is valid and not "all"; the filter value is true iff the state is "enabled" |
| Store.ActiveStateValidity | domain/redirectdefinition/store/filters.go:12-14 | an active state is valid exactly when it is "all" or one the "active" column is filtered on |
| Store.RedirectionTypeToFilter | domain/redirectdefinition/store/filters.go:33-46 | a filter is applied iff the type is valid and not "all", and then it filters on that type |
| Store.RedirectionTypeValidity | domain/redirectdefinition/store/filters.go:33-35 | a redirection type is valid exactly when it is "all" or one the redirects are filtered on |
| Store.GetSortValue | domain/redirectdefinition/store/sorting.go:28-37 | the sort value is -1 iff the direction is descending, and 1 otherwise |
| Redirection.CodeValid | redirection/vo.go:29-40 | a response code is valid iff it is the permanent or the temporary code |
| Redirection.CodeValidAgreesWithStore | redirection/vo.go:10-40 | the redirection package and the store accept exactly the same codes |
| Cycles.HasCycle | domain/redirectdefinition/utils/consolidateredirectdefinitions.go:98-134 | the loop computes the cycle search's answer |
| Cycles.CyclicIff | domain/redirectdefinition/utils/consolidateredirectdefinitions.go:98-134 | a cycle is reported iff the chain of targets from the new target reaches the non-empty source, or never ends |
| Cycles.SearchSound | domain/redirectdefinition/utils/consolidateredirectdefinitions.go:108-133 | a reported cycle means the chain reaches the source or is endless |
| Cycles.SearchFindsSource | domain/redirectdefinition/utils/consolidateredirectdefinitions.go:108-133 | a chain that reaches the source is reported |
| Cycles.SearchFindsLoop | domain/redirectdefinition/utils/consolidateredirectdefinitions.go:108-133 | an endless chain is reported, through the visited set |
| Cycles.RepeatIsEndless | domain/redirectdefinition/utils/consolidateredirectdefinitions.go:119-122 | a chain that visits a target twice never ends |
| Cycles.RingIsCyclicFromEveryEdge | domain/redirectdefinition/utils/consolidateredirectdefinitions.go:98-134 | a ring of three redirects is reported from each of its edges |
| Cycles.SharedSuffixIsNotCyclic | domain/redirectdefinition/utils/consolidateredirectdefinitions.go:98-134 | a redirect into the middle of an acyclic chain is not reported |
| AutoCreate.AddTree | domain/redirectdefinition/utils/autocreateredirectdefinitions.go:47-58 | every page of the tree is filed under its id; every other key keeps its entry |
| AutoCreate.CreateFlatRepoNodeMap | domain/redirectdefinition/utils/autocreateredirectdefinitions.go:47-58 | a nil tree leaves the map unchanged; otherwise the pages of the tree are added under their ids |
| AutoCreate.FlatMapEmptyIffNoTree | domain/redirectdefinition/utils/autocreateredirectdefinitions.go:47-58 | the flat map of a tree is empty iff there is no tree |
| AutoCreate.AutoCreateRedirectDefinitions | domain/redirectdefinition/utils/autocreateredirectdefinitions.go:13-44 | error iff either map is empty; otherwise one permanent automatic redirect per moved page, from its old URI to its new one, in iteration order |
| AutoCreate.CountOfDerivedRedirects | domain/redirectdefinition/utils/autocreateredirectdefinitions.go:23-41 | the count of derived redirects is the count of pages present in both maps under different URIs |
| AutoCreate.CoverAllMovesThreePages | domain/redirectdefinition/utils/autocreateredirectdefinitions_test.go:45-155 | in the "cover all" test, with its trees' flat maps written out by hand, the moved pages are exactly 4, 6 and 7; deleted pages yield nothing |
| AutoCreate.TwoRenamedLeavesMoveTwo | domain/redirectdefinition/utils/autocreateredirectdefinitions_test.go:156-232 | for any flat maps CreateFlatRepoNodeMap can make of the test's two trees, exactly the two renamed leaves 4 and 5 moved, so two redirects are derived |
| AutoCreate.EmptyRootsMoveNothing | domain/redirectdefinition/utils/autocreateredirectdefinitions_test.go:514-540 | two empty one-page trees are not an error and yield no redirect |
| Consolidation.PropagateTarget | domain/redirectdefinition/utils/consolidateredirectdefinitions.go:47-57 | every current redirect pointing at the source is re-pointed at the new target; the chained sources are exactly those, each once |
| Consolidation.ConsolidateOne | domain/redirectdefinition/utils/consolidateredirectdefinitions.go:31-68 | one new definition is one Step; it is upserted once, together with exactly the chained current redirects |
| Consolidation.AvailableTargets | domain/redirectdefinition/utils/consolidateredirectdefinitions.go:71-74 | the URIs collected are those of the new tree's pages |
| Consolidation.DeletionCandidates | domain/redirectdefinition/utils/consolidateredirectdefinitions.go:76-92 | the ids deleted are those of the automatic redirects whose target is no page, each once |
| Consolidation.ConsolidateRedirectDefinitions | domain/redirectdefinition/utils/consolidateredirectdefinitions.go:15-95 | the final state is After(all new definitions); every new definition is upserted once, in order; the chained current redirects are upserted; the doomed automatic redirects are deleted by id |
| Consolidation.StaleIffCyclic | domain/redirectdefinition/utils/consolidateredirectdefinitions.go:33-39 | a new definition is upserted unchanged, except that it is stale iff it closes a cycle over the redirects as they stand when it is handled |
| Consolidation.MarkedKeepsLater | domain/redirectdefinition/utils/consolidateredirectdefinitions.go:31-68 | handling a definition writes that definition only; later ones are as given |
| Consolidation.ChainedAfterIff | domain/redirectdefinition/utils/consolidateredirectdefinitions.go:40-60 | a current redirect is upserted iff some new definition took over an automatic redirect at its target or at its own source |
| Consolidation.OnlyTargetsChange | domain/redirectdefinition/utils/consolidateredirectdefinitions.go:47-57 | consolidation changes only the targets of current redirects, never another field |
| Consolidation.RetargetedByTakeover | domain/redirectdefinition/utils/consolidateredirectdefinitions.go:40-57 | a current redirect's target changes only by a takeover, and then it equals the taking-over definition's target |
| Consolidation.DoomedAreAutomatic | domain/redirectdefinition/utils/consolidateredirectdefinitions.go:76-92 | only automatic redirects with a target that is no page are deleted; manual ones are kept |
| Consolidation.IndexAfterSeesPlacementOnly | domain/redirectdefinition/utils/consolidateredirectdefinitions.go:31-68 | step 2 reads a new definition's source and target only |
| Consolidation.UpstreamOfNewSourceIsDeletedNotRetargeted | domain/redirectdefinition/utils/consolidateredirectdefinitions.go:40-92 | /a -> /b plus a new /b -> /c: /a is not re-pointed, and it is deleted once /b is no page |
| Consolidation.TakeoverRetargetsUpstream | domain/redirectdefinition/utils/consolidateredirectdefinitions.go:40-60 | taking over the automatic /b -> /old re-points /a -> /b at /c; both are upserted |
| Consolidation.PropagationCanCreateUnmarkedSelfRedirect | domain/redirectdefinition/utils/consolidateredirectdefinitions.go:33-57 | propagation can leave /a -> /a without the stale mark |
| Consolidation.UpsertedRedirectCanAlsoBeDeleted | domain/redirectdefinition/utils/consolidateredirectdefinitions.go:47-92 | a re-pointed redirect can be on both the upsert list and the delete list |
| Flattening.ResolveFinalTarget | domain/redirectdefinition/command/flattening.go:64-81 | the loop computes the resolver's answer |
| Flattening.ResolveSearchNonEmpty | domain/redirectdefinition/command/flattening.go:64-81 | a non-empty target never resolves to the empty one |
| Flattening.FinalTargetIsChainEnd | domain/redirectdefinition/command/flattening.go:64-81 | on an acyclic index the resolver returns the end of the chain |
| Flattening.FlattenDimension | domain/redirectdefinition/command/flattening.go:48-58 | one dimension's pass rewrites the index in place, in some order covering every source once |
| Flattening.FlattenInOrderOnAcyclic | domain/redirectdefinition/command/flattening.go:48-58 | on an acyclic index where no redirect has the empty source, the in-place pass, in any order, equals re-pointing every visited redirect at its original chain end |
| Flattening.PartialKeepsChainEnds | domain/redirectdefinition/command/flattening.go:48-58 | on an acyclic index where no redirect has the empty source, re-pointing any set of redirects keeps the index acyclic and every chain's end |
| Flattening.FlattenIsOrderIndependentAndIdempotent | domain/redirectdefinition/command/flattening.go:44-61 | over an acyclic index where no redirect has the empty source, the pass computes Flattened in any order, and a second pass changes and reports nothing |
| Flattening.FlattenedIsFlat | domain/redirectdefinition/command/flattening.go:44-81 | when no redirect has the empty source, the flattened form of an acyclic index is acyclic and every redirect already points at its chain end |
| Flattening.FlatIsFixedPoint | domain/redirectdefinition/command/flattening.go:48-58 | a pass over a flat index changes and reports nothing |
| Flattening.AcyclicHasNoCycles | domain/redirectdefinition/utils/consolidateredirectdefinitions.go:98-134 | on an acyclic index no existing redirect is reported as a cycle |
| Flattening.ChangedInCount | domain/redirectdefinition/command/flattening.go:48-58 | the pass reports each re-pointed redirect exactly once |
| Flattening.SimpleChainFlattensWithTwoChanges | domain/redirectdefinition/command/flattening_test.go:11-26 | /a -> /b -> /c -> /final: all point at /final and two redirects are reported, in any order |
| Flattening.TwoFlattenChangesOne | domain/redirectdefinition/command/flattening_test.go:28-44 | /a -> /b -> /f and /c -> /e: /a and /b point at /f, /c at /e, and one redirect is reported, in any order |
| Flattening.SharedTargetChangesTwo | domain/redirectdefinition/command/flattening_test.go:46-62 | /a and /b -> /c -> /final: all point at /final and two redirects are reported, in any order |
| Flattening.EmptySourceMakesOrderMatter | domain/redirectdefinition/command/flattening.go:48-81 | a redirect under the empty source makes the outcome depend on the iteration order, on an index with no loop |
| Flattening.FlattenRedirects | domain/redirectdefinition/command/flattening.go:44-61 | every dimension is flattened once, against its own index; the reported redirects are concatenated dimension after dimension |
| Flattening.FlatStoreReportsNothing | domain/redirectdefinition/command/flattening.go:44-61 | a store whose dimensions are all flat reports nothing |
| Flattening.FlattenStoreIdempotent | domain/redirectdefinition/command/flattening.go:44-61 | over an acyclic store where no redirect has the empty source, a second pass, in any order, reports nothing |
| Flattening.ApplyFlattening | domain/redirectdefinition/command/flattening.go:13-41 | reads the active redirects; a read error ends it and leaves the store unchanged; only changed redirects are upserted, and the store is left unchanged when none changed or the upsert fails, and otherwise holds them upserted |
| Validation.FirstRestrictedIff | domain/redirectdefinition/command/validation.go:42-48 | no pattern is reported iff none matches; a reported one matches and no earlier one does |
| Validation.MatchRestricted | domain/redirectdefinition/command/validation.go:42-48 | the loop returns the first lower-cased pattern matching the source |
| Validation.ValidatedIff | domain/redirectdefinition/command/validation.go:16-70 | a definition is passed on, unchanged, iff all checks hold: source not the homepage, source and target differ, no restricted pattern matches, the read succeeds, no cycle, a known handler kind |
| Validation.RejectionOrder | domain/redirectdefinition/command/validation.go:34-69 | each rejection is reported only when every earlier check passed |
| Validation.NilProviderRestrictsNothing | domain/redirectdefinition/command/validation.go:24-28 | a nil restricted-sources provider validates like one returning no pattern |
| Validation.ValidateRedirect | domain/redirectdefinition/command/validation.go:16-70 | the store is read once, and only after the pre-checks pass; the verdict is Validated; nothing is written |
| Validation.MixedCaseSelfRedirectRejected | domain/redirectdefinition/command/validation.go:30-40 | "/Home" -> "/home" is refused as a self-redirect |
| Validation.LoopWithStoredRedirectRejected | domain/redirectdefinition/command/validation.go:56-59 | /a -> /b is refused when /b -> /a is stored |
| CreateRedirectCommand.MiddlewareCheckIff | domain/redirectdefinition/command/createredirect.go:74-105 | the middleware passes a definition iff source and target differ and no restricted pattern matches, case-insensitively |
| CreateRedirectCommand.ValidateRedirectMiddleware | domain/redirectdefinition/command/createredirect.go:74-105 | the loop's verdict is the middleware check |
| CreateRedirectCommand.MiddlewareLetsHomepageThrough | domain/redirectdefinition/command/createredirect.go:85-99 | a redirect from "/" passes this middleware, but validateRedirect refuses it |
| CreateRedirectCommand.Handle | domain/redirectdefinition/command/createredirect.go:31-35 | one Insert of the definition; its error is returned |
| CreateRedirectCommand.HandleAndPublish | domain/redirectdefinition/command/createredirect.go:58-72 | the signal is published only after a successful insert; a publish error is returned |
| CreateRedirectCommand.CreateRedirectComposed | domain/redirectdefinition/api.go:60-64 | the definition is inserted once, only when validation passes, and the signal follows a successful insert only |
| CreateRedirectsCommand.Handle | domain/redirectdefinition/command/createredirectsfromcontentserver.go:35-54 | each non-empty list is written once, upserts first; nothing follows a failed upsert; the first error is returned |
| CreateRedirectsCommand.HandlerKeepsKeyed | domain/redirectdefinition/command/createredirectsfromcontentserver.go:35-54 | the handler's writes keep every redirect under its own source |
| CreateRedirectsCommand.Compose | domain/redirectdefinition/command/createredirectsfromcontentserver.go:57-74 | composition wraps in list order, so the layers run outside-in in reverse list order |
| CreateRedirectsCommand.ApiLayers | domain/redirectdefinition/api.go:53-59 | with api.go's list, publish runs first, then auto-create, then consolidate |
| CreateRedirectsCommand.Dimensions | domain/redirectdefinition/command/createredirectsfromcontentserver.go:99-106 | the dimensions visited are those of either state |
| CreateRedirectsCommand.DeriveDimension | domain/redirectdefinition/command/createredirectsfromcontentserver.go:109-121 | a dimension fails iff one of its trees is missing; otherwise its derived redirects are those of its two flat maps |
| CreateRedirectsCommand.AutoCreateStage | domain/redirectdefinition/command/createredirectsfromcontentserver.go:95-127 | fails iff some dimension lacks a tree on one side; otherwise each dimension's derived redirects are appended to the upsert list |
| CreateRedirectsCommand.ConsolidateDimension | domain/redirectdefinition/command/createredirectsfromcontentserver.go:144-151 | one store dimension consolidates the upsert list against its redirects and its new tree |
| CreateRedirectsCommand.ConsolidateDimensions | domain/redirectdefinition/command/createredirectsfromcontentserver.go:134-154 | both lists are replaced by the per-dimension results, concatenated over every store dimension |
| CreateRedirectsCommand.ConsolidateStage | domain/redirectdefinition/command/createredirectsfromcontentserver.go:130-159 | one FindAll read of every redirect, stale ones included; it fails exactly when the read fails, with its error; otherwise the command handed on is the consolidation against every store dimension; the store is not written |
| CreateRedirectsCommand.StaleAcrossDimensions | domain/redirectdefinition/command/createredirectsfromcontentserver.go:143-152 | a new definition leaves stale iff it closes a cycle in some store dimension; stale marks carry over to later dimensions |
| CreateRedirectsCommand.NewDefinitionOncePerDimension | domain/redirectdefinition/command/createredirectsfromcontentserver.go:143-153 | each new definition is on the upsert list once per store dimension |
| CreateRedirectsCommand.EmptyStoreSendsNothing | domain/redirectdefinition/command/createredirectsfromcontentserver.go:134-154 | with no dimension in the store, both lists reach the handler empty |
| CreateRedirectsCommand.DimensionWithoutTreeLosesAutomatic | domain/redirectdefinition/command/createredirectsfromcontentserver.go:148 | a store dimension without a new tree loses every automatic redirect |
| CreateRedirectsCommand.OneSidedDimensionFails | domain/redirectdefinition/command/createredirectsfromcontentserver.go:108-121 | a dimension in the new state only makes the command fail |
| CreateRedirectsCommand.CreateRedirectsComposed | domain/redirectdefinition/api.go:53-59 | a missing tree fails before any call; a failed read writes nothing; otherwise the handler gets the consolidated command, and the signal is published only after both writes succeed |
| CreateRedirectsCommand.HandleAndPublish | domain/redirectdefinition/command/createredirectsfromcontentserver.go:77-92 | the signal is published only when the handler succeeded; the first error is returned |
| SearchQuery.SearchRequest | domain/redirectdefinition/query/search.go:34-56 | pages and page sizes below 1 become 1 and 20; an invalid type is refused before any read; other fields are forwarded as given |
| SearchQuery.SearchableIffFilteredOrNone | domain/redirectdefinition/query/search.go:46-49 | a search accepts exactly no type or a type the store filters on; "all" is refused |
| SearchQuery.SearchRequestIdempotent | domain/redirectdefinition/query/search.go:36-44 | a forwarded search is forwarded unchanged |
| Urls.TrimSuffix | domain/redirectdefinition/provider/util.go:22-37 | at most one copy of the suffix is removed, and one is removed whenever the string ends with it |
| Urls.NormalizeQueryString | pkg/provider/util.go:19-25 | error iff the query does not parse; otherwise the parsed values, encoded again |
| Urls.NormalizeIdempotent | pkg/provider/util.go:19-25 | normalising a normalised query changes nothing |
| Urls.MergeValues | pkg/provider/util.go:36-43 | the merged keys are both inputs' keys; the override's value lists win |
| Urls.MergedQueryMeaning | pkg/provider/util.go:27-48 | the merged query parses to the override's values for its keys, and the base's values for the rest |
| Urls.MergeQueryStrings | pkg/provider/util.go:27-48 | either parse error is returned; otherwise the normalised merge |
| Urls.MergedUrl | pkg/provider/util.go:50-65 | the result is the override URL's request URI with the merged query |
| Urls.MergeQueryStringsFromURLs | pkg/provider/util.go:50-65 | the method computes MergedUrl, with the errors in order |
| Urls.NormalizedRequest | pkg/provider/util.go:8-17 | the request keeps its path and everything else; only its query is normalised |
| Urls.NormalizedRequestIdempotent | pkg/provider/util.go:8-17 | normalising a normalised request changes nothing |
| Provider.ConfiguredMeaning | pkg/provider/redirectsprovider.go:58-83 | standard redirects are on iff some option asks for them; the matchers are those of the last non-empty WithMatcherFuncs, none without one |
| Provider.ApplyOptions | pkg/provider/redirectsprovider.go:58-63 | the option loop yields the configuration, skipping failed options |
| Provider.LoadError | pkg/provider/redirectsprovider.go:85-100 | no error iff a snapshot came without errors; the provider's error comes first, then the client's, then "no redirects loaded" |
| Provider.DefinitionFor | pkg/provider/redirectsprovider.go:214-225 | a definition is found iff the dimension and source are both present |
| Provider.ExecMatchersMeaning | pkg/provider/redirectsprovider.go:244-251 | with no matchers, nothing; the first decisive matcher gives its definition with no error; otherwise the last matcher's answer |
| Provider.DecisiveHidesError | pkg/provider/redirectsprovider.go:244-251 | a decisive matcher anywhere means a definition and no error |
| Provider.MatchOrder | pkg/provider/redirectsprovider.go:190-212 | lookup order: the whole URI; then the path, for a definition respecting parameters; then the matchers |
| Provider.PathHitWithoutRespectParamsIgnored | pkg/provider/redirectsprovider.go:198-205 | a path-only hit that does not respect parameters is skipped |
| Provider.Response | pkg/provider/redirectsprovider.go:254-272 | the definition's code, and its target, with the request's query merged in only when transferParams is set and the request has a query |
| Provider.CreateRedirect | pkg/provider/redirectsprovider.go:254-272 | the method returns Response for the request URI |
| Provider.StandardRedirect | pkg/provider/redirectsprovider.go:276-294 | the transformation's error; no definition when no redirect is needed; otherwise a permanent one to the transformed request |
| Provider.StandardResponseIsTransformed | pkg/provider/redirectsprovider.go:254-294 | a standard redirect answers 301 with the transformed request |
| Provider.ProcessOrder | pkg/provider/redirectsprovider.go:125-187 | the dimension error comes first, then normalisation; a blacklisted request gets nothing; no definition and no standard rules means nothing |
| Provider.ProcessedRedirectOrigin | pkg/provider/redirectsprovider.go:125-187 | every redirect answered comes from a matched definition with its code, or from the standard rules with 301 |
| Provider.Blacklisted | pkg/provider/redirectsprovider.go:227-241 | a failing homepage check never blacklists; otherwise the homepage, the prefixes /services and /gateway, and anything containing /_next/ are blacklisted, and nothing else |
| Provider.RedirectsProvider.constructor | pkg/provider/redirectsprovider.go:44-66 | no redirects until the first load; matchers and the standard-redirects flag as the options set them in order, a failing option skipped |
| Provider.RedirectsProvider.LoadRedirects | pkg/provider/redirectsprovider.go:85-100 | the snapshot is replaced only by a successful load |
| Provider.RedirectsProvider.ExecMatcherFuncs | pkg/provider/redirectsprovider.go:244-251 | the loop computes the matchers' outcome |
| Provider.RedirectsProvider.MatchRedirectDefinition | pkg/provider/redirectsprovider.go:190-212 | the method computes the lookup over the current snapshot |
| Provider.RedirectsProvider.Process | pkg/provider/redirectsprovider.go:125-187 | the method computes Processed over the current snapshot |
| LegacyProvider.LegacyID | domain/redirectdefinition/provider/util.go:11-20 | error iff the URL does not parse; otherwise the path's file name without its extension |
| LegacyProvider.NormalizedUrl | domain/redirectdefinition/provider/util.go:22-37 | one trailing slash is removed from the path and the query is normalised |
| LegacyProvider.NormalizedRequestString | domain/redirectdefinition/provider/util.go:22-37 | parse, normalise, render the request URI again; errors in order |
| LegacyProvider.TrimsOneSlash | domain/redirectdefinition/provider/util.go:22-37 | only one trailing slash is dropped, and "/" becomes empty |
| LegacyProvider.FirstDecisiveMeaning | domain/redirectdefinition/provider/redirectsprovider.go:194-201 | a definition is found iff some matcher is decisive, and then it agrees with the newer loop |
| LegacyProvider.LegacyAgreesWithoutMatchers | domain/redirectdefinition/provider/redirectsprovider.go:146-175 | without matchers, the older and newer lookups agree |
| LegacyProvider.LookupOrdersDiffer | domain/redirectdefinition/provider/redirectsprovider.go:146-175 | with a path hit and a decisive matcher, the older lookup picks the matcher and the newer one picks the path |
| LegacyProvider.LegacyProcessMeaning | domain/redirectdefinition/provider/redirectsprovider.go:84-136 | the standard rules are always tried last; matcher errors never surface |
| LegacyProvider.LegacyRedirectsProvider.LoadRedirects | domain/redirectdefinition/provider/redirectsprovider.go:46-59 | the map is replaced only on success; errors in the same order |
| LegacyProvider.LegacyRedirectsProvider.ExecMatcherFuncs | domain/redirectdefinition/provider/redirectsprovider.go:194-201 | the loop returns the first decisive matcher's definition, or nothing |
| LegacyProvider.LegacyRedirectsProvider.MatchRedirectDefinition | domain/redirectdefinition/provider/redirectsprovider.go:146-175 | the method computes the older lookup |
| LegacyProvider.LegacyRedirectsProvider.Process | domain/redirectdefinition/provider/redirectsprovider.go:84-136 | the method computes the older Process |
| LegacyProvider.LegacyRedirectsProvider.constructor | domain/redirectdefinition/provider/redirectsprovider.go:29-44 | no redirects until the first load, and the matchers as given |
| LegacyAutoCreate.FindByIdMeaning | domain/redirectdefinition/autocreateredirectdefinitions.go:77-88 | a found page has the id and lies in the tree; nothing is found iff no page has the id |
| LegacyAutoCreate.FindNodeById | domain/redirectdefinition/autocreateredirectdefinitions.go:77-88 | the loop returns at the first hit, as FindById |
| LegacyAutoCreate.AllNodesMeaning | domain/redirectdefinition/autocreateredirectdefinitions.go:64-75 | the given list stays in front, the page comes next, and exactly the tree's pages are added |
| LegacyAutoCreate.AddAllNodes | domain/redirectdefinition/autocreateredirectdefinitions.go:64-75 | the loop computes AllNodes |
| LegacyAutoCreate.GetAllNodes | domain/redirectdefinition/autocreateredirectdefinitions.go:64-75 | a nil page adds nothing |
| LegacyAutoCreate.UnchangedTreeEmitsNothing | domain/redirectdefinition/autocreateredirectdefinitions.go:25-57 | a page walked against itself yields no redirect |
| LegacyAutoCreate.GeneratedAppends | domain/redirectdefinition/autocreateredirectdefinitions.go:25-57 | the walk only appends, the pair's own redirect first, and every source is a URI of the old tree |
| LegacyAutoCreate.AutoCreatedMeaning | domain/redirectdefinition/autocreateredirectdefinitions.go:15-61 | error iff a tree is missing; otherwise the root redirect first, old-tree sources only, nothing for identical trees |
| LegacyAutoCreate.RetainedPageTombstoned | domain/redirectdefinition/autocreateredirectdefinitions.go:41-56 | as written, a kept page gets a tombstone in every order; the intended loop tombstones only the removed page |
| LegacyAutoCreate.RetainedPageTombstonedInWalk | domain/redirectdefinition/autocreateredirectdefinitions.go:15-61 | the whole walk reports a kept, unchanged page as deleted |
| LegacyAutoCreate.IntendedTombstonesMeaning | domain/redirectdefinition/autocreateredirectdefinitions.go:41-56 | the corrected loop: every removed child's URI ends up with a redirect, and only removed children get tombstones |
| LegacyAutoCreate.Walk.Generate | domain/redirectdefinition/autocreateredirectdefinitions.go:25-57 | generateRedirects appends exactly what Generated describes |
| LegacyAutoCreate.Walk.AddTombstones | domain/redirectdefinition/autocreateredirectdefinitions.go:41-56 | the tombstone loop, with its shared flag, appends exactly the as-written tombstones |
| LegacyAutoCreate.AutoCreateRedirectDefinitions | domain/redirectdefinition/autocreateredirectdefinitions.go:15-61 | a nil root gives the error and an empty list; otherwise the walk's redirects |
| LegacyConsolidate.Kept | domain/redirectdefinition/consolidateredirectdefinitions.go:16-23 | exactly the new definitions with a non-empty target, unchanged |
| LegacyConsolidate.Pruned | domain/redirectdefinition/consolidateredirectdefinitions.go:26-31 | exactly the old entries whose key the result has |
| LegacyConsolidate.CopyTargeted | domain/redirectdefinition/consolidateredirectdefinitions.go:16-23 | the copy loop yields Kept |
| LegacyConsolidate.DeleteMissing | domain/redirectdefinition/consolidateredirectdefinitions.go:26-31 | the caller's map is pruned in place |
| LegacyConsolidate.ConsolidateRedirectDefinitions | domain/redirectdefinition/consolidateredirectdefinitions.go:12-35 | returns Kept; the caller's map keeps only keys the result has |
| LegacyConsolidate.ConsolidationSettles | domain/redirectdefinition/consolidateredirectdefinitions.go:12-35 | consolidating again with the same new definitions changes nothing |
| LegacyConsolidate.DroppedAndReplacedDefinitions | domain/redirectdefinition/consolidateredirectdefinitions_test.go:12-37 | the test's scenario: the result is {3} and the old map ends up empty |
| Backend.Backend.FindAll | domain/redirectdefinition/command/flattening.go:19 | one logged read; the store is unchanged; the snapshot, active redirects only when asked, or the error |
| Backend.Backend.FindAllByDimension | domain/redirectdefinition/command/validation.go:51 | one logged read; the store is unchanged; the dimension's redirects, none for an unknown dimension, or the error |
| Backend.Backend.DeleteMany | domain/redirectdefinition/command/createredirectsfromcontentserver.go:45 | one logged call; on success the redirects with those ids are removed, on failure the store is unchanged |
| Backend.Backend.Insert | domain/redirectdefinition/repository/redirectdefinition.go:71-74 | one logged Insert call; on success the definition is stored |
| Backend.Backend.UpsertMany | domain/redirectdefinition/repository/redirectdefinition.go:86-108 | one logged call; on success every definition is written |
| Backend.Backend.Publish | pkg/nats/updatesignal.go:81-84 | one logged Publish call; the bus's error is returned |

## Left out

- Logging, tracing spans and the middleware names read by reflection are left out; they do not change what a command returns or writes.
- The MongoDB repository and the NATS update signal are not part of this model.
  - They are represented by `Backend`: a snapshot of the store, a set of operations that fail, and a log of calls.
  - Its reads and writes follow the contracts the commands rely on.
  - `Upserted` files a definition under its dimension and source, where the repository's upsert matches on the entity id.
- Pagination, sorting and the query behind `FindMany` are out of scope: `SearchQuery.SearchRequest` returns the `FindMany` call the handler makes.
- `SearchHandlerComposed` is left out: api.go passes it no middleware, and composition is modelled once, in `CreateRedirectsCommand.Compose`.
- `Start`'s goroutine, the update channel, `Close`, and the provider's lock are left out; the model is sequential.
- Concurrency, the request's HTTP plumbing and the `context` argument are left out.
- Library calls are parameters with uninterpreted results:
  - `net/url` parsing, query parsing and encoding, and request-URI rendering (`Urls.Lib`);
  - `filepath.Split` and `filepath.Ext` (`LegacyProvider.PathLib`);
  - `path.Match`, whose dropped error counts as "no match";
  - the `RedirectRequest` helpers (`Provider.RequestLib`).
  - Properties that need the encoder's round trip take it as a precondition.
- `strings.ToLower` is modelled on ASCII letters only; Unicode case mapping is left out.
- Entity UUIDs are the `freshIds` parameter, and the timestamps of derived redirects are not modelled.
- Go's map iteration order is left open: every map loop is proved for any order it may take.
  - `LegacyAutoCreate` takes one order per map of children for the whole walk; the same map visited twice is assumed to be visited in the same order.
- `AutoCreate.CreateFlatRepoNodeMap` mutates and returns the caller's map in Go. Every caller passes a fresh map, so the model returns a new map value instead.
- `LegacyProvider` assumes the older `Process` hands the request URL to `normalizeRedirectRequest`.
  - As written, the file passes an `*http.Request` where the function takes a `RedirectRequest`.
  - The model applies that function's URL transformation (`NormalizedUrl`).
- `LegacyAutoCreate.AutoCreateRedirectDefinitions`: for a nil root the model returns the error with an empty list, which is what the caller sees.
- Provider's blacklist helpers (`IsHomepage`, `HasPrefix`, `Contains`) are uninterpreted. `Provider.Blacklisted` fixes only how their answers combine.
- Flattening.FlattenInOrderOnAcyclic: holds only when no redirect has the empty source, as well as no chain looping; with one, the pass can depend on the order (`Flattening.EmptySourceMakesOrderMatter`).
- Flattening.PartialKeepsChainEnds: holds only when no redirect has the empty source; such a redirect is a hop that an empty target may or may not reach.
- Flattening.FlattenIsOrderIndependentAndIdempotent: holds only when no redirect has the empty source; with one, the pass can depend on the order (`Flattening.EmptySourceMakesOrderMatter`).
- Flattening.FlattenedIsFlat: holds only when no redirect has the empty source, for the same reason.
- Flattening.FlattenStoreIdempotent: holds only when no redirect in any dimension has the empty source, for the same reason.
- Consolidation.ConsolidateOne and Consolidation.ConsolidateRedirectDefinitions: only the set of current redirects put on the upsert list is stated, not how often the same one is appended.
- Backend.Backend.UpsertMany: fails all or nothing, and files by dimension and source. The repository's unordered bulk write can apply part of a batch before it reports an error, and it matches on the entity id.
- Backend.Backend.DeleteMany: fails all or nothing. The repository's unordered bulk write can apply part of a batch before it reports an error.
- Backend.Backend.Insert: goes through the same `Upserted`, so it replaces a redirect already filed under the same dimension and source. The repository's `InsertOne` adds a second document with that source instead.

### Where the code and its description differ (the model follows the code)

- **Flattening tests.** All three tests in flattening_test.go expect three changed redirects, and they call an exported `FlattenRedirects` where flattening.go defines `flattenRedirects`. The code reports fewer, since a redirect that already points at its chain end is not reported:
  - /a -> /b -> /c -> /final gives two, since /c already points at /final (`Flattening.SimpleChainFlattensWithTwoChanges`);
  - /a -> /b -> /f with /c -> /e gives one, since only /a moves (`Flattening.TwoFlattenChangesOne`);
  - /a and /b -> /c -> /final gives two, since /c already points at /final (`Flattening.SharedTargetChangesTwo`).
- **Empty sources.** The resolver follows a target even when it is the empty string, so a redirect stored under the empty source acts as a hop. A redirect whose target is empty then ends its chain before the pass and continues it after. The pass's outcome then depends on Go's map order even though no chain loops (`Flattening.EmptySourceMakesOrderMatter`).
- **Takeover.** A new redirect takes over a current one only when that one is automatic and at the same source.
  - An upstream redirect pointing at a new source that is not itself stored is not re-pointed. It is deleted once its target is no page (`Consolidation.UpstreamOfNewSourceIsDeletedNotRetargeted`).
- **Stale marks.** Only new definitions are checked for cycles. A current redirect that propagation turns into a self-redirect keeps `stale` false (`Consolidation.PropagationCanCreateUnmarkedSelfRedirect`).
- **Overlapping lists.** The upsert and delete lists can name the same redirect (`Consolidation.UpsertedRedirectCanAlsoBeDeleted`). The handler upserts first and deletes after.
- **Consolidation per dimension.** The consolidate middleware consolidates the whole upsert list against every store dimension. So each new definition is upserted once per store dimension (`CreateRedirectsCommand.NewDefinitionOncePerDimension`).
  - With an empty store, both lists become empty (`CreateRedirectsCommand.EmptyStoreSendsNothing`).
  - A store dimension missing from the new state loses all its automatic redirects (`CreateRedirectsCommand.DimensionWithoutTreeLosesAutomatic`).
- **One-sided dimensions.** The auto-create middleware fails when a dimension appears in only one of the two states (`CreateRedirectsCommand.OneSidedDimensionFails`).
- **Signature skew in the content-server command.** api.go calls `CreateRedirectsConsolidateMiddleware` and `CreateRedirectsAutoCreateMiddleware` with arguments their definitions do not take.
  - The model uses the definitions in command/createredirectsfromcontentserver.go.
  - The consolidate middleware's `repo.FindAll(ctx)` is modelled as a read of every redirect, stale ones included.
- **Signature skew in the create command.** api.go passes `ValidateRedirectMiddleware` a repository, which that middleware does not take.
  - The model composes the create command with `validateRedirect`, which reads the repository.
  - `CreateRedirectCommand.ValidateRedirectMiddleware` models the middleware as written. It checks neither the homepage nor cycles (`CreateRedirectCommand.MiddlewareLetsHomepageThrough`).
- **The current matcher loop.** It only stops at a matcher returning both a definition and an error, and then drops the error. Otherwise the last matcher's answer is returned, error included (`Provider.ExecMatchersMeaning`, `Provider.DecisiveHidesError`).
- **The older provider.**
  - It tries the matchers before the path-only lookup (`LegacyProvider.LookupOrdersDiffer`).
  - It always falls back to the standard rules.
  - Its matcher errors never reach the caller (`LegacyProvider.LegacyProcessMeaning`).
- **The auto-create test in utils.** utils/autocreateredirectdefinitions_test.go (lines 34, 136 and 221) passes a fifth argument, `false`, to the four-parameter `AutoCreateRedirectDefinitions` of utils/autocreateredirectdefinitions.go:13. The model follows the function.
- **The older auto-create test.** domain/redirectdefinition/autocreateredirectdefinitions_test.go:38-103 expects two redirects when /main/damen/kleidung/schuhe moves to …/schuhe-new and …/schuhe-1 is removed. The walk as written gives three: the move, and tombstones for both /schuhe and /schuhe-1. The corrected loop (`LegacyAutoCreate.IntendedTombstonesMeaning`) gives the expected two. See "## Findings".

## Findings

| source | as written | input that shows it | evidently intended | confidence | as-written member | corrected member |
|---|---|---|---|---|---|---|
| domain/redirectdefinition/autocreateredirectdefinitions.go:41-56 | the tombstone loop's `found` flag is set once and never reset per child, and kept children are not skipped, so every child visited before the first removed child that already has a redirect gets a tombstone | old parent with children a:/a and b:/b, new parent with only a:/a (unchanged): the walk emits Pair("/a", "") in either visiting order; likewise the test at domain/redirectdefinition/autocreateredirectdefinitions_test.go:38-103 expects 2 redirects where the walk gives 3 | a tombstone for each removed child without a redirect from its URI, and none for kept children | not executed | LegacyAutoCreate.RetainedPageTombstonedInWalk | LegacyAutoCreate.IntendedTombstonesMeaning |
