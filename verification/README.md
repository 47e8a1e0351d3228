# check-updates, modelled in Dafny

`check-updates` rewrites the dependency ranges of `package.json` files. Each
`^x.y.z` or `~x.y.z` range is replaced by the newest published version that the
range (or a relaxed form of it) admits. The package's own version is bumped when
anything changed. A tree of workspace packages is kept consistent through a
shared registry of package versions.

This project models the core of the tool as pure Dafny functions and proves
properties about them:

| module | file | what it holds |
|---|---|---|
| `Wrappers` | wrappers.dfy | `Option` and `Result` |
| `Text` | text.dfy | white space and digits as the regular expressions read them, `trim`, `split`/`join` on one character, the code-unit order of `<` |
| `Semver` | semver.dfy | versions, precedence (section 11 of Semantic Versioning 2.0.0), the textual form the `semver` package accepts, `inc` by major/minor/patch |
| `Ranges` | ranges.dfy | the `^`/`~` recogniser, the comparator windows (relaxed and strict), `Range.test`, first match in a newest-first list |
| `Catalog` | catalog.dfy | `VersionsCache.getVersions`: key scheme, filter/sort pipeline, memo table, one fetch per key |
| `Resolver` | resolver.dfy | `Updater._updateDependency` once the catalog is known |
| `Workspaces` | workspaces.dfy | the registry of workspace versions and its listener list |
| `Nodes` | nodes.dfy | the state of an updater tree: nodes, registry, cache, options; the termination measure of the version cascade |
| `Cascade` | cascade.dfy | the `version` setter, `Workspaces.update`, the registry listener and `_bump`, which call each other |
| `Updates` | updates.dfy | `_updateDependenciesGroup` and the group part of `update()` |
| `Tree` | tree.dfy | `update()` over the tree, `changed`, `align()`, the group rewrite of `write()` |
| `Sorting` | sorting.dfy | a stable insertion sort by a string key, as `Array.prototype.sort` behaves with a name comparator |
| `Legacy` | legacy.dfy | the two older single-file tools, `src/index.ts` and `index.js`: their resolver, catalog, group loop, bump and file de-duplication |

Everything the program reads from the outside is a parameter:
- the registry fetch is a function from a package name and its configuration to the published versions and their `deprecated` flags, or an error;
- the `.npmrc` configuration is an opaque map handed to that fetch;
- package files are given as already-parsed data.

Promises are modelled by their settled values. Where the code awaits work one
item after another, the model does the same. `Promise.all` over a group becomes a
sequential pass over its entries. Each entry writes only its own key, so the
order does not matter.

Where the repository's own description of the tool and its code differ, the
model follows the code:
- `_updateDependency` never passes `includePrerelease` (src/updater.ts:238), so the catalog it reads is always stable-only.
- A rejected fetch stays in the cache (src/versions.ts:43), so every later request for that key fails without a new fetch.
- In quick mode, when the main group has no changes, the other three groups are not processed at all (src/updater.ts:284). They are not merely left out of the report.
- When no catalog version fits, the result is the operator plus the anchor digits, without white space or tag (src/updater.ts:244). It is not the declared string.

## Model

| member | source | states |
|---|---|---|
| Text.LessTotal | src/updater.ts:296 | any two names are equal or one precedes the other under `<` |
| Text.LessTransitive | src/updater.ts:296 | the `<` order on names is transitive |
| Semver.CompareAntisymmetric | src/versions.ts:41 | swapping the arguments of the precedence comparison negates it, as `rcompare` relies on |
| Semver.CompareZero | src/updater.ts:69 | two versions have equal precedence exactly when they are the same version (build metadata is not part of a version) |
| Semver.CompareTransitive | src/versions.ts:41 | precedence is transitive |
| Semver.LtLeTransitive | src/updater.ts:68 | a strict step followed by a non-strict one (or the reverse) is strict |
| Semver.CompareTotal | src/versions.ts:41 | any two versions are ordered one way or the other |
| Semver.CompareText | src/updater.ts:68-69 | comparing two strings succeeds exactly when both are valid versions (`gte`/`eq` throw otherwise), and the result is always -1, 0 or 1 |
| Semver.CompareTextZero | src/updater.ts:139 | two strings compare equal exactly when both are valid and name the same version, build metadata aside |
| Semver.CompareTextAntisymmetric | src/updater.ts:68 | string comparison is antisymmetric whenever it is defined |
| Semver.FormatRoundTrip | src/updater.ts:204 | a stable version with components up to `MAX_SAFE_INTEGER` prints as text that parses back to the same version |
| Semver.Inc | src/updater.ts:204 | `inc(v, level)` lands on the level's boundary and is strictly above `v`; it is the least such version; for a stable `v` it is the next major, minor or patch triple |
| Ranges.Scan | src/updater.ts:219 | on success the recogniser reports leading white space, the operator, white space, one to three digit runs joined by dots, and an optional `-alpha/-beta/-rc` tag, each at its position in the string |
| Ranges.ScanIffMatches | src/updater.ts:219-223 | the recogniser succeeds exactly when white space, `^` or `~`, white space and a digit start the string; the optional tail never makes the match fail |
| Ranges.FirstMatch | src/updater.ts:239-241 | the index found admits the version, no earlier version is admitted, and none at all when the search fails |
| Ranges.FirstMatchIsGreatest | src/updater.ts:239-241 | in a newest-first catalog, the first admitted version is at least as high as every admitted version |
| Ranges.WindowFor | src/updater.ts:229-237 | the window starts at the anchor padded with zeros; it is missing only for a relaxed tilde on a partial anchor |
| Ranges.NeverBelowAnchor | src/updater.ts:231 | every version a window admits is at least the anchor |
| Ranges.RelaxedTildeKeepsMajor | src/updater.ts:232 | the relaxed tilde window `>=a <inc(a, major)` admits only versions of the anchor's major |
| Ranges.StrictCaretKeepsLeading | src/updater.ts:237 | a strict caret keeps the major, also the minor under `0.`, also the patch under `0.0.` |
| Ranges.StrictTildeKeepsMinor | src/updater.ts:237 | a strict tilde keeps the major and the minor when one is given |
| Ranges.StableAnchorStableResult | src/updater.ts:237-240 | with an untagged anchor, `Range.test` admits only stable versions |
| Ranges.PrereleaseStaysOnTrack | src/updater.ts:237-240 | with a tagged anchor, a pre-release is admitted only on the anchor's own triple |
| Catalog.KeyInjective | src/versions.ts:22 | for names without `+`, different names or flag values never share a key |
| Catalog.KeyCollision | src/versions.ts:22 | a name containing `+prerelease` can share a key with another name's pre-release entry |
| Catalog.KeptStable | src/versions.ts:31 | `>=0.0.0` without `includePrerelease` admits only stable versions |
| Catalog.CandidatesMembership | src/versions.ts:37-40 | a version survives the filters exactly when some published entry has it, is not dropped as deprecated and is admitted by `>=0.0.0` |
| Catalog.Sort | src/versions.ts:41 | the sort yields a permutation of its input, in descending precedence, and (the engine's sort being stable) the candidates of any one version stay in their input order |
| Catalog.InsertTied | src/versions.ts:41 | inserting a candidate puts it ahead of the others of its version and keeps their order |
| Catalog.Select | src/versions.ts:37-41 | the pipeline yields, newest first, exactly the published versions the filters keep; only stable ones unless pre-releases are wanted; texts naming the same version (differing only in build metadata) keep their document order |
| Catalog.CandidatesLive | src/versions.ts:38-40 | dropping deprecated entries and then filtering by range keeps the same candidates as the range filter applied to the entries that are not deprecated |
| Catalog.Settle | src/versions.ts:36-42 | a failed fetch settles as a failure; a successful one settles as exactly the versions of the document the filters keep, newest first, texts of the same version in document order |
| Catalog.Memo | src/versions.ts:22-44 | a key already stored returns its stored outcome and changes nothing; otherwise the key is recorded once, with the settled fetch |
| Catalog.GetVersions | src/versions.ts:17-45 | the key is stored afterwards, earlier entries are kept, at most one fetch happens, a repeat key changes nothing, and a fresh fetch gives the non-deprecated valid versions newest first |
| Catalog.GetVersionsMemoised | src/versions.ts:24-27 | a second request for the same key returns the first outcome, whatever fetch or configuration it passes |
| Catalog.OneFetchPerKey | src/versions.ts:33-43 | after any sequence of requests no key has been fetched twice, and the keys fetched are exactly those fetched before plus the keys of the requests |
| Resolver.ParseAnchor | src/updater.ts:226 | the captured digit runs become the anchor's major, minor and patch, one component per run |
| Resolver.QueryFor | src/updater.ts:226-237 | a matched range queries with its own operator and the bare anchor as fallback; the window is the relaxed window; in strict mode the range must end in white space, and an untagged range gets the strict window |
| Resolver.PlanFor | src/updater.ts:213-223 | the declared string is kept exactly when the name is a workspace package or the recogniser fails |
| Resolver.Finish | src/updater.ts:239-244 | the result is the operator plus the first admitted catalog version, or the fallback when none is admitted |
| Resolver.Resolve | src/updater.ts:209-245 | the resolver fails only on ranges outside the model, and returns a workspace package's range or an unrecognised string as declared |
| Resolver.VerbatimWhenRegisteredOrUnmatched | src/updater.ts:213-223 | a workspace package, or a string the regular expression does not match, is returned verbatim |
| Resolver.ResolvedShape | src/updater.ts:240-244 | a resolved range starts with the declared operator and continues with a catalog version or the bare anchor |
| Resolver.FallbackIsBareAnchor | src/updater.ts:244 | the fallback is the operator followed by the anchor's digits and dots: no white space, no tag |
| Resolver.ResolveIsBestFit | src/updater.ts:238-244 | against a newest-first catalog a queried range resolves to the bare anchor when no version fits, otherwise to the operator and a fitting version at least as high as every fitting one |
| Resolver.ResultIsGreatest | src/updater.ts:238-241 | with a newest-first catalog, when any version fits, the result carries one that fits and is at least as high as every one that fits |
| Resolver.RelaxedResultBounds | src/updater.ts:229-241 | a relaxed result is stable and not below the anchor; for tilde it keeps the major |
| Resolver.StrictResultCompatible | src/updater.ts:237-241 | for an untagged range, a strict result is stable, not below the anchor, and keeps the leading components the operator fixes |
| Workspaces.Empty | src/updater.ts:49 | a new registry is valid and holds no package |
| Workspaces.Length | src/updater.ts:52-54 | the length is the number of registered names |
| Workspaces.Register | src/updater.ts:60-63 | registering fails exactly on a name already registered; otherwise it adds that one name with its stored version |
| Workspaces.RegisterThenHas | src/updater.ts:60-76 | after registering, the name is present with its stored version, the length grows by one, other names are unaffected, and a second registration fails |
| Workspaces.Update | src/updater.ts:65-72 | update fails on an unknown name, an invalid version or a lower version; an equal version changes nothing and notifies no one; a higher one is stored and every listener is notified in subscription order |
| Workspaces.UpdateNeverLowers | src/updater.ts:68 | a successful update never lowers the stored version |
| Workspaces.UpdateMonotone | src/updater.ts:65-72 | a successful update keeps the registry valid, keeps names and listeners, and changes no other package |
| Workspaces.UpdateNotifiesOnce | src/updater.ts:69-71 | either nothing changes and no one is notified, or the version changes and each listener is notified once |
| Workspaces.UpdateIdempotent | src/updater.ts:69 | repeating an update changes nothing and notifies no one |
| Workspaces.Entries | src/updater.ts:78-82 | iteration yields every registered `[name, version]` pair once, in registration order |
| Workspaces.RegisterAsWritten | src/updater.ts:61 | as written, registration also fails on names a plain object inherits, such as `constructor` |
| Workspaces.InheritedKeyCounterexample | src/updater.ts:61 | in an empty registry, `constructor` already counts as registered as written, so registering it fails; the corrected registry accepts it |
| Workspaces.HasAgreesOffPrototype | src/updater.ts:74-76 | for every other name, the written and corrected membership tests agree |
| Nodes.EvolvesPending | src/updater.ts:131-146 | a cascade step never increases the number of nodes not yet at their bump target |
| Nodes.SettleNode | src/updater.ts:139-145 | setting a node to its target strictly lowers that number |
| Cascade.FindName | src/updater.ts:111 | the lookup finds the first entry with the name, or proves there is none |
| Cascade.Relist | src/updater.ts:109-114 | the listener rewrites a group only when it declares the name with a truthy value other than the new version; then only that entry changes, to the bare version |
| Cascade.SetterStep | src/updater.ts:131-144 | the setter refuses an invalid version and one below the original; it returns early on the original or the current version; otherwise it stores the version and marks the node changed |
| Cascade.SetVersionLands | src/updater.ts:139-145 | a successful setter call leaves its node on the given version, on its bump target, or, when the version has its original's precedence (the early return), on the version it had before the call; and every other node on its version or its bump target |
| Cascade.SetterContract | src/updater.ts:131-146 | the whole setter call, including the registry update and its listeners, fails, is a no-op, or leaves the node changed on the given version or its bump target |
| Cascade.TargetAboveOriginal | src/updater.ts:204 | a valid bump target is strictly above the original |
| Cascade.Publish | src/updater.ts:145 | publishing a version and running the listeners only moves nodes to their targets and never raises the termination measure |
| Cascade.Deliver | src/updater.ts:71 | calling the notified listeners one after another has the same bound |
| Cascade.Listen | src/updater.ts:105-118 | a listener pass over the four groups, with the bumps it triggers, has the same bound |
| Cascade.Bump | src/updater.ts:200-206 | `_bump` and the cascade it starts terminate and only move nodes to their targets |
| Cascade.SetVersion | src/updater.ts:131-146 | the setter keeps every node's identity, children and configuration, and the tree's shape |
| Cascade.BumpLandsOnTarget | src/updater.ts:203-204 | after a successful bump the node holds `inc(original, level)` |
| Cascade.BumpIdempotent | src/updater.ts:200-206 | bumping twice is the same as bumping once |
| Updates.Resolution | src/updater.ts:209-245 | with the catalog known, a kept range resolves to itself, a range outside the model has no resolution, and a queried range resolves exactly when its stable catalog was fetched successfully |
| Updates.ResolutionIsBestFit | src/updater.ts:236-244 | read from a ready cache, a queried range resolves to the operator and the greatest stable catalog version the window accepts, or to the bare anchor when none fits |
| Updates.ResolutionKept | src/updater.ts:238 | a resolution stays the same as the cache grows, since stored entries never change |
| Updates.UpdateDependency | src/updater.ts:209-245 | one dependency fetches its catalog only when the range is queried, and returns that range's resolution against the cache afterwards |
| Updates.ResolveAllEntries | src/updater.ts:254-262 | a group resolves exactly when every entry does, each entry keeping its name and taking its own resolution |
| Updates.UpdateEntries | src/updater.ts:254-266 | the sequential pass over a group's entries gives the entrywise resolution against the final cache |
| Updates.ChangesOfMembership | src/updater.ts:258-266 | a change is reported exactly for each entry whose resolved value differs from the declared one, with both values and the group |
| Updates.NoChangesSameDeps | src/updater.ts:258 | with names kept, no change is reported exactly when the group is unchanged |
| Updates.UpdateGroup | src/updater.ts:248-267 | an absent group changes nothing and reports nothing; otherwise only that group is rewritten, to its entrywise resolution, and its changes are reported; a failure comes from an entry with no resolution |
| Updates.UpdateGroups | src/updater.ts:281-288 | several groups in turn: each listed group is resolved, the others are untouched, and the changes are reported in group order |
| Updates.UpdateOwn | src/updater.ts:280-292 | `dependencies` is processed first; the other groups are processed when it changed or quick mode is off; the change list is empty exactly when no group changed |
| Updates.MainPass | src/updater.ts:281-284 | the main group reports no change exactly when it did not move, and then quick mode stops there |
| Updates.OwnChanges | src/updater.ts:284-288 | the main changes followed by those of dev, optional and peer are the changes of all four groups, and are empty exactly when nothing changed |
| Updates.AllChangesEmpty | src/updater.ts:292 | over any list of groups with names kept, no change is reported exactly when every group is unchanged |
| Tree.UpdateNode | src/updater.ts:270-322 | `update()` only grows the cache, keeps the tree's shape and dependency names, never clears `changed`, and moves versions only to bump targets; without a bump level no version moves |
| Tree.UpdateChildren | src/updater.ts:274 | the children are updated in order under the same guarantees |
| Tree.UpdateSelf | src/updater.ts:280-293 | the node's own pass grows the cache, changes no other node and not the registry, rewrites the node's groups as `UpdateOwn` describes, and sets `changed` exactly when it reports a change or was already set |
| Tree.UpdateNodeBumps | src/updater.ts:292-321 | a node whose own pass reports nothing is left as that pass left it; one that reports changes ends changed and, with a bump level, on its bump target |
| Tree.Report | src/updater.ts:296 | the report holds the same changes, sorted by name |
| Tree.ReportStable | src/updater.ts:296 | changes with the same name keep their relative order |
| Tree.AnyChangedIff | src/updater.ts:154 | the reduction over the children is true exactly when some child is changed |
| Tree.ChangedIffReaches | src/updater.ts:152-155 | `changed` holds exactly when the node or some node below it has its own flag set |
| Tree.ZeroValid | src/updater.ts:330 | the starting point `0.0.0` is a valid version |
| Tree.MaxVersionTotal | src/updater.ts:329-335 | the maximum is found exactly when every registered version is valid, and it is `0.0.0` or one of them |
| Tree.MaxVersionBound | src/updater.ts:330-333 | no registered version, and not `0.0.0`, is above the maximum |
| Tree.AlignedVersionSpec | src/updater.ts:329-335 | without an argument, the aligned version is `0.0.0` or a registered version, and no registered version is above it |
| Tree.Align | src/updater.ts:324-340 | with fewer than two registered packages nothing happens; without an argument, an invalid registered version aborts with the error of the version computation; a success keeps the tree's shape, names, originals, targets and cache, and leaves the node and each of its direct children on the aligned version, on its bump target, or (the setter's early return, when the aligned version has its original's precedence) on the version it had before the call |
| Tree.SetChildren | src/updater.ts:338 | the setter loop over the direct children leaves each child it reached on the version (or its bump target, or, when the version has its original's precedence, the version it had before the loop) and only keeps or bumps every other node |
| Tree.Normalise | src/updater.ts:347-359 | `write()` keeps exactly the non-empty groups, each with the same entries in name order |
| Tree.NormaliseFixpoint | src/updater.ts:347-359 | the rewrite yields a normalised file; it changes nothing exactly on a normalised file, and applying it twice is applying it once |
| Tree.NormaliseStable | src/updater.ts:351 | entries with the same name keep their relative order |
| Tree.WriteTree | src/updater.ts:343-365 | writing a node normalises its groups and touches nothing but groups |
| Tree.WriteTreeCovers | src/updater.ts:364 | writing a node normalises every node below it |
| Sorting.SortBy | src/updater.ts:351 | sorting by name yields a permutation in name order |
| Sorting.SortByStable | src/updater.ts:296 | the sort is stable: entries with the same key keep their order |
| Sorting.SortByIdempotent | src/updater.ts:351 | sorting a sorted list changes nothing |
| Legacy.ScanExact | src/index.ts:65 | the older recogniser accepts only what the current one accepts, without a tag and with nothing but white space after the anchor; a string the current one accepts is rejected only for text after the anchor |
| Legacy.ExactSound | src/index.ts:65 | an accepted string is white space, the operator, white space, one to three digit runs joined by dots, and white space; its pieces are the ones reported |
| Legacy.ExactComplete | index.js:44 | every string of that form is accepted, with its own operator and digit runs |
| Legacy.LegacyPlan | index.js:44-57 | a string outside that form is kept; otherwise the window is built as in the current resolver, with the bare anchor as fallback |
| Legacy.LegacyResolve | src/index.ts:64-87 | a string outside the exact form is returned verbatim; otherwise the result is what the current resolver gives a package outside the workspace |
| Legacy.TrailingTextKept | src/index.ts:65-69 | text after the anchor keeps the range verbatim here, although the current resolver would query it |
| Legacy.LegacyResultIsGreatest | src/index.ts:80-85 | with a newest-first catalog, when any version fits, the result carries one that fits and is at least as high as every one that fits |
| Legacy.LegacyRelaxedBounds | index.js:52-64 | a relaxed result is stable and not below the anchor; for tilde it keeps the major |
| Legacy.LegacyStrictCompatible | src/index.ts:80-85 | a strict result is stable, not below the anchor, and keeps the leading components the operator fixes |
| Legacy.VersionsOf | src/index.ts:46-59 | the catalog is memoised per name and fetched once; a fresh catalog holds exactly the valid stable published versions, deprecated ones included, newest first |
| Legacy.StableCatalogsAgree | index.js:25-37 | the older cache and the current one (src/versions.ts:37-41) read a package's stable catalog under the same key through the same pipeline except the deprecated filter: a fresh current read holds the older catalog of the entries not deprecated, and with no deprecated entry (or a failed fetch) the two reads are identical |
| Legacy.Resolution | index.js:43-66 | with the catalog known, a kept range resolves to itself; a queried range resolves exactly when its catalog was fetched successfully |
| Legacy.ResolutionIsBestFit | src/index.ts:80-86 | read from a ready cache, a queried range resolves to the operator and the greatest stable catalog version the window accepts, or to the bare anchor when none fits |
| Legacy.ResolutionKept | src/index.ts:47-50 | a resolution stays the same as the cache grows |
| Legacy.UpdateDependency | src/index.ts:64-87 | one dependency fetches its catalog only when the range is queried, and returns that range's resolution against the cache afterwards |
| Legacy.Kind | src/index.ts:125 | the label is empty for a twelve-character key, and otherwise ` [` + the key without its last twelve characters + `]` |
| Legacy.ResolveEntriesIndexwise | index.js:90-95 | a group resolves exactly when every entry does, each entry keeping its name and taking its own resolution |
| Legacy.ChangesOfMembership | src/index.ts:132 | a change is recorded exactly for each entry whose resolved range differs from the declared one, with name, both ranges and label |
| Legacy.ChangesOfNone | index.js:94 | no change is recorded exactly when every resolved range equals the declared one |
| Legacy.UpdateEntries | src/index.ts:128-134 | the sequential pass over a group gives its entrywise resolution against the final cache, and the recorded changes |
| Legacy.RewriteGroup | src/index.ts:121-140 | a rewritten group is dropped exactly when it has no entries; otherwise it holds the same names in name order, each with the resolution of its declared range; a change is reported exactly when some range differs |
| Legacy.RewriteAllKeepsOthers | index.js:83-103 | properties that are not dependency groups are kept in order, and every group left is a non-empty object in name order |
| Legacy.ProcessProps | src/index.ts:120-141 | the loop over all properties, threading the cache, gives the rewrite of every property against the final cache, or fails exactly when that rewrite does |
| Legacy.IncField | src/index.ts:165 | `semver.inc` on the version field gives a different, strictly higher version for a valid version, and `null` for anything else |
| Legacy.Bumped | index.js:126-130 | without a level the version stays; `index.js` bumps only a truthy version; `src/index.ts` bumps whatever is there |
| Legacy.BumpVariantsAgree | src/index.ts:164-168 | the two bump rules agree exactly when no level is given, the version is truthy, or it is already `null` |
| Legacy.ProcessPackage | src/index.ts:109-177 | a package file is written exactly when it has changes, with its rewritten properties and the bumped version |
| Legacy.Dedup | src/index.ts:103 | the file list keeps every file once and nothing else |
| Legacy.DedupOrder | src/index.ts:103 | files keep the order of their first occurrence |
| Legacy.DedupDistinct | src/index.ts:103 | a list without duplicates is kept as it is |
| Legacy.ProcessAll | index.js:144-150 | every file is processed in turn with the shared cache, giving one report per file, each written exactly when it has changes |
| Legacy.ProcessPackagesAsWritten | src/index.ts:182-190 | as written, the function resolves to `false` on every run that does not fail |
| Legacy.ProcessPackages | src/index.ts:182-190 | the corrected function resolves to whether some package file was written |
| Legacy.ProcessPackagesDiscrepancy | src/index.ts:187-190 | when some file has changes, the function as written says `false` while the corrected one says `true` |

## Left out

- File and process I/O is not modelled. This covers reading, parsing and writing package files, `JSON.stringify` and the trailing newline, dry-run writes, and `process.exit`. `init()` is not modelled as a step either. The updater tree is given as the state `init()` leaves behind: registered names, original versions (`0.0.0` when absent), children, and the parsed configuration.
- The registry fetch (`npm-registry-fetch`, `package-json`) is a parameter `Fetch`. It maps a name and its configuration to the published versions with their `deprecated` flags, or to an error.
- src/npmrc.ts is not part of this model. The configuration is an opaque map handed to the fetch.
- Console output, colours, padding and debug messages are not modelled. Neither is command-line parsing (src/main.ts, index.js:156-196) or build.ts.
- `Promise.all` concurrency in `_updateDependenciesGroup` is modelled as a sequential pass. Entries write disjoint keys and the cache stores a promise before it settles, so the order changes neither the result nor the number of fetches.
- Ranges that would reach parts of the `semver` range grammar outside this model are reported as the error `Unsupported` rather than resolved. These are:
  - strict-mode strings with text after the anchor;
  - a tag on a partial anchor;
  - a relaxed tilde on a partial anchor (`semver.inc` of a partial version);
  - leading zeros;
  - components of `MAX_SAFE_INTEGER` or more.
- Bumping covers only the `major`, `minor` and `patch` release types. The `pre*` types and `prerelease` are not modelled.
- `localeCompare` (src/updater.ts:351) is replaced by code-unit order. The comparison `<` (src/updater.ts:296) and the default sort (src/index.ts:128) are modelled over Dafny characters. Dafny characters are Unicode scalar values, so the order differs from JavaScript's UTF-16 code units only for characters outside the Basic Multilingual Plane.
- JavaScript enumerates integer-like object keys first, in numeric order. The model keeps the document order of the entries.
- In the older tools, a property whose name marks it as a dependency group but whose value is neither an object nor falsy is excluded by the precondition `Typed`.
- The `version` field is absent, `null` or a string; other JSON values are not modelled.
- `Catalog.Memo`: the memo tables in src/versions.ts:24, src/index.ts:47 and index.js:26 test `cache[key]` on a plain object. Inherited names such as `constructor` would therefore hit. The model treats every key that was never stored as missing.
- Semver.CompareText: a numeric pre-release identifier of `MAX_SAFE_INTEGER` or more is kept as text here, as the package stores it, and compared as text. The package's identifier comparison instead treats every all-digit identifier as a JavaScript number: it rounds above 2^53 and ranks such an identifier below every alphanumeric one. Versions such as `1.0.0-9007199254740993` and `1.0.0-10000000000000000` may therefore order differently here. Below `MAX_SAFE_INTEGER` the two agree.
- Updates.ResolveAllEntries: a dependency counts as a workspace package through the corrected membership test `Workspaces.Has`. The source tests `!!this._versions[name]` (src/updater.ts:74-76, used at src/updater.ts:213), so it also keeps verbatim a dependency named after an inherited object member such as `constructor`, which the model queries instead. `Workspaces.HasAgreesOffPrototype` shows that the two tests agree on every other name.
- `Catalog.GetVersions` and `Legacy.VersionsOf` state the contents of a catalog only for a fresh fetch. For an entry already in the cache they state only that it is returned unchanged and is sorted newest first.
- `Cascade.Listen`, `Cascade.Deliver` and `Cascade.Publish` state only the cascade invariant:
  - nodes move only to their bump targets;
  - `changed` is never cleared;
  - the group names are kept;
  - the termination measure does not grow.

  The rewrite of each entry is stated by `Cascade.Relist`.
- `Tree.UpdateNode` states the invariant of the whole pass. What a node's own pass and its bump do is stated by `Tree.UpdateSelf`, `Tree.UpdateNodeBumps` and `Updates.UpdateOwn`.
- `Semver.Parse` is stated through its bounds and through `Semver.FormatRoundTrip`. There is no separate grammar predicate for the textual form.

## Findings

| source | as written | input that shows it | evidently intended | confidence | as-written member | corrected member |
|---|---|---|---|---|---|---|
| src/updater.ts:61 | `register` tests `! this._versions[name]` on a plain object, so names the object inherits (`constructor`, `toString`, ...) already count as registered | registering a package named `constructor` in an empty registry fails with "already registered" | only names registered before count | medium; not executed | Workspaces.RegisterAsWritten, Workspaces.InheritedKeyCounterexample | Workspaces.Register |
| src/index.ts:190 | `processPackages` resolves to `false` whatever happened, although `processPackage` computes whether each file changed | any run in which some package file has a change | resolve to whether some package file changed | low; not executed | Legacy.ProcessPackagesAsWritten, Legacy.ProcessPackagesDiscrepancy | Legacy.ProcessPackages |
