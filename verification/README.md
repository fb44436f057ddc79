# Verified model of the Astronomical tooling core

This project models the decision logic of three parts of the Astronomical
repository and proves what that logic promises: the typed `xtask` policies that
guard the workspace and its CI, the settings rules of the daemon's console page,
and the parsing and waiting code of the `astronomical` command line tool. The
rest of the world (git, GitHub, the filesystem, the daemon, the clock) appears as
the answers it gives: commit contents, artifact listings, directory trees, status
replies and times are parameters, and the results hold for all of them.

`dafny verify dfyconfig.toml` checks the whole project.

## How it is laid out

| modules | what they model |
|---|---|
| `Architecture`, `Graphs` | the crate layering rules and the breadth-first search that names a shortest forbidden chain |
| `JsonText`, `CanonicalJson` | JSON text as `JSON.stringify` writes it, its unique readability (section 7 of RFC 8259 for strings), and the canonical text used to compare settings documents |
| `ConfigurationValues`, `ConfigurationPaths`, `ConfigurationDocument` | objects and arrays as JavaScript keeps them, and get, set and remove at a path with cascading pruning: first as functions on values, then on the objects in memory that are cloned and changed in place |
| `ClassifyScope`, `ScopeVerdicts`, `GitNames`, `VersionOnlyBump`, `VersionBumpRules`, `VerifiedTree`, `PushHistory` | which CI lanes a push may skip, the proof that a change is only a version bump, the records in artifact listings, and the protocol over whole histories of pushes |
| `TestDeclarations`, `DeclarationEdges`, `ModulePaths` | which test files cargo compiles, as module declarations reach them, and the path arithmetic those need |
| `CachePrune`, `CacheQuotas` | which Actions caches are deleted |
| `RetiredNativeScan`, `ScanCounts`, `ScanOverlap` | the directory-tree scan for retired build output, what its counters count, and what overlapping scan roots do to its byte total |
| `Notices`, `NoticesText`, `NoticesLines` | the capped line difference of two notices texts, and the text normalizer |
| `DaemonFrameWait` | waiting for a daemon frame under a moving silence deadline |
| `DownloadWaiting` | waiting for a model download across daemon restarts |
| `ArgumentVector`, `LaunchArguments`, `RespondArguments`, `UsageFailures`, `CommandLine`, `CommandVerdicts` | the argument grammar, which error each command line gets, and what each one is |
| `TextSearch`, `TextOrder`, `Sorting`, `Numerals`, `Wrappers` | text searching and lines, the Rust and JavaScript string orders, stable sorting by any relation, decimal numbers, shared small types |

Each operation that the source carries out step by step is a method with loops,
or a class whose methods change its fields, tied by its contract to a function or
to a declarative statement; the laws are then lemmas about that function. Rust
strings are sequences of characters ordered by code point, JavaScript sort order
is by UTF-16 code unit, and ordered maps and sets are maps and sets with an
ascending enumeration.

The modules `ScopeVerdicts`, `VersionBumpRules`, `DeclarationEdges`, `CacheQuotas`,
`ScanCounts`, `UsageFailures`, `CommandVerdicts` and `NoticesLines` say once more
what the operations beside them decide, from the inputs alone and with every path,
name and number written out.

## Results worth knowing

* **The push-only Swift rule is never reached.** The comments of
  `classify_scope.rs` promise that every full push keeps the Swift lane, but
  `resolve_verdict_from_history` classifies every event as a pull request. The
  model follows the code: `SwiftLaneOnFullPush` gives the exact condition under
  which a full push keeps the lane (its range cannot be resolved, or it changed a
  Swift input), `FullPushWithoutSwiftLane` a push that loses it.
* **A path that git quotes is no cache or Swift input.** Changed paths are read from
  `git diff --name-only`, which prints a name with unusual characters in quotes and
  escaped, so the path rules miss it. `NoCacheInputChange` and `SwiftLaneOnFullPush`
  give the exact conditions; `QuotedCacheInputIsMissed` a changed cache input that a
  push does not see. Native inputs are asked for by pathspec and are not affected.
* **An absent daemon is progress.** The comment on a poll that finds no daemon says
  it counts as no progress and ends the wait if the daemon stays away for the whole
  bound. In the code a change to or from "unreachable" restarts the stall clock, so
  a download that never moves is waited for without end while the daemon keeps
  going away and coming back: `FlappingIsNeverAStall`. Exactly when a wait goes on, or
  stops for want of progress, is in `WaitGoesOn` and `PollDecides`.
* **The empty settings path.** Setting at the empty path writes a member named
  `undefined`, because the last key of an empty path is `undefined`. The model
  keeps this; `GetAfterSet` shows it is the only path a set does not read back from.
* **A setting put on an array by name is lost.** Where the file holds an array and the
  path goes on with a name that is no index, the set succeeds and reads back, but the
  document's text stays as it was: `SetReachesText` says exactly when, and `NameOnArray`
  shows it. Removing such a setting restores the document, while a set at or behind an
  array's end cannot be undone; `RemoveUndoesSet` has the exact condition.
* **A scan root inside a retired directory can count bytes twice.** Each directory
  is counted once however roots overlap, but one found inside another has its bytes
  in both sums. `TotalIsUnionUnlessNested` says the total is the bytes of the places
  measured exactly when no counted directory with bytes lies where another's
  measurement reaches it; `TotalIsUnionFromTree` says the same from the tree and the
  roots; `OverlapCountsTwice` shows a tree and two roots where the total is larger. A caller can rule it out beforehand: with no root at or inside a
  path that has the shape of a retired directory, the total is exact
  (`OutsideRootsCountOnce`).
* **A carried count halves the room a progressing daemon needs.** The wait can give up
  on a daemon that keeps progressing exactly when the silence bound does not exceed
  two longest polls, or one when the watch already holds a count:
  `FalseFailureExactly`.
* **Normalizing notices twice.** It is the same as once exactly when no stray
  carriage return is followed by blanks and a line ending:
  `NormalizesOnceUnlessStranded`, with such a text in `StrandedReturnChangesTwice`.
* **An empty difference is not equal text.** Two notices texts show no line
  difference exactly when they hold the same lines equally often, in whatever order
  (or the cap is zero).

## Model

| member | source | states |
|---|---|---|
| Architecture.ShortestDependencyChain | xtask/src/check_architecture.rs:201-229 | a chain is returned if and only if the target can be reached; it runs from start to target along edges, repeats no crate, and no other chain is shorter |
| Architecture.WalkBack | xtask/src/check_architecture.rs:205-219 | following parent pointers back always ends, and yields a chain without repeats, as long as the depth the search gave the target |
| Architecture.FrontIsNearest | xtask/src/check_architecture.rs:204-226 | when the target comes to the front of the queue, no chain to it is shorter than the depth the search gave it |
| Architecture.DependencyGraphFromMetadata | xtask/src/check_architecture.rs:150-196 | the graph holds every package and exactly the declared dependency edges, or the first faulty record is reported |
| Architecture.CheckRules | xtask/src/check_architecture.rs:115-144 | rules are checked in order against a graph; the first rule naming an unknown crate fails the check, otherwise each broken rule is reported with a shortest chain |
| Architecture.ArchitectureViolations | xtask/src/check_architecture.rs:115-144 | the result is an empty report if and only if the package records obey every layering rule |
| Architecture.LayeringInWords | xtask/src/check_architecture.rs:30-58 | obeying the rules means: every record is well formed (named dependencies of a normal, build or dev kind), and of declared dependencies no chain leads from `astronomical-memory-policy` to `mlx-c-rust` or `astronomical-mlx-c-fork`, nor from `astronomical-jangtq2-qwen35` to `astronomical-model-serving` |
| Architecture.FaultMeans | xtask/src/check_architecture.rs:168-190 | which fault each dependency record has: a missing name before an unknown kind, a missing kind being normal |
| Architecture.ReportedAreBroken | xtask/src/check_architecture.rs:129-142 | whatever is reported is a given rule together with a shortest chain that breaks it |
| JsonText.CloneIsFaithful | apps/daemon/console/configuration-model.js:93-95 | writing a document as text and parsing the text gives the same document |
| JsonText.StringifyInjective | apps/daemon/console/configuration-model.js:93-95 | two documents written as the same text are the same document |
| CanonicalJson.CanonicalEquality | apps/daemon/console/configuration-model.js:138-153 | two documents compare equal if and only if they are the same up to member order at every depth, array order kept |
| CanonicalJson.CanonicalReadsBack | apps/daemon/console/configuration-model.js:143-153 | parsing the canonical text gives the document with its members in key order, which is the same document |
| CanonicalJson.SortedKeysUnique | apps/daemon/console/configuration-model.js:148 | sorting keys by code units has one result for one collection of keys |
| CanonicalJson.SortedKeysAscend | apps/daemon/console/configuration-model.js:148 | sorted keys ascend by their UTF-16 units |
| ConfigurationPaths.ConfigurationValueAtPath | apps/daemon/console/configuration-model.js:97-104 | the cursor walk reads the value the path names, in objects and arrays, the length of an array included, or nothing when something on the way is missing or no container |
| ConfigurationPaths.GetAfterSet | apps/daemon/console/configuration-model.js:110-121 | after a set the path reads the value, for every path but the empty one |
| ConfigurationPaths.SetLeavesOthers | apps/daemon/console/configuration-model.js:110-121 | a set changes no path that is neither above nor below the one set, in objects and arrays |
| ConfigurationPaths.RemoveMakesAbsent | apps/daemon/console/configuration-model.js:125-136 | after a removal the path reads nothing, if and only if it is not empty and does not end in the length of an array |
| ConfigurationPaths.RemoveLeavesOthers | apps/daemon/console/configuration-model.js:125-136 | a removal changes no path that is neither above nor below, even when its pruning cascades |
| ConfigurationPaths.RemoveIsPrune | apps/daemon/console/configuration-model.js:125-136 | the repeated removal of emptied parents, each from a new clone, is one walk over one clone that prunes on its way back |
| ConfigurationPaths.RemoveUndoesSet | apps/daemon/console/configuration-model.js:110-136 | set then remove restores the document, as its text has it, if and only if the setting was put below a name that is no index of an array, or the path was absent, lengthens no array, and each container on the way is not empty, is one pruning spares, or was missing and pruning takes it |
| ConfigurationPaths.SetReachesText | apps/daemon/console/configuration-model.js:93-121 | the document's text holds what was set if and only if the path meets no name that is no index of an array; otherwise the text is as it was |
| ConfigurationPaths.NameOnArray | apps/daemon/console/configuration-model.js:110-136 | a concrete document: a member put on an array by name is not in the text, and removing it restores the document |
| ConfigurationPaths.RemoveChangesNothing | apps/daemon/console/configuration-model.js:125-136 | a removal gives the document as its text has it if and only if there was nothing there and no empty parent to prune |
| ConfigurationPaths.RemoveLeavesNoEmptyParent | apps/daemon/console/configuration-model.js:123-136 | no empty object or array is left on the way to a removed value, except `runtime` |
| ConfigurationPaths.RuntimeStays | apps/daemon/console/configuration-model.js:123-136 | an object under `runtime` outlives every removal inside it, also one that empties it |
| ConfigurationPaths.SetKeepsDocument | apps/daemon/console/configuration-model.js:110-121 | a set gives no object or array a key twice, and no array an element behind its end |
| ConfigurationPaths.RemoveKeepsDocument | apps/daemon/console/configuration-model.js:125-136 | nor does a removal |
| ConfigurationValues.CloneIsParsedText | apps/daemon/console/configuration-model.js:93-95 | cloning is writing a document as JSON and parsing that: members of an array that are no elements are dropped, and missing elements become `null` |
| ConfigurationValues.ParsedIsParsed | apps/daemon/console/configuration-model.js:93-95 | cloning a parsed document changes nothing |
| ConfigurationValues.PutGrows | apps/daemon/console/configuration-model.js:110-121 | setting an element that is missing makes an array reach up to it when it lies behind the end and below 4294967295, and leaves the length alone otherwise |
| ConfigurationDocument.CloneConfigurationDocument | apps/daemon/console/configuration-model.js:93-95 | the clone holds that document in objects none of which existed before |
| ConfigurationDocument.WithValue | apps/daemon/console/configuration-model.js:110-121 | changing the clone in place gives the document with the value set; the document passed in is untouched |
| ConfigurationDocument.WithoutValue | apps/daemon/console/configuration-model.js:125-136 | deleting in place, parent by parent, gives the document with the value removed and pruned; the document passed in is untouched |
| ConfigurationDocument.DeleteWithin | apps/daemon/console/configuration-model.js:125-130 | one delete through the cursor changes that member alone and tells whether its parent was there and is now empty |
| VersionOnlyBump.ScanVersionBumpPaths | xtask/src/version_only_bump.rs:58-70 | accepted exactly when only version files changed and both the manifest and the lockfile did |
| VersionOnlyBump.WorkspacePackageVersion | xtask/src/version_only_bump.rs:73-88 | the single pass finds the first version line inside `[workspace.package]` and nothing outside it |
| VersionOnlyBump.CompareLockfiles | xtask/src/version_only_bump.rs:108-132 | the block loop accepts exactly the lockfiles that agree block by block but for bumped workspace packages |
| VersionOnlyBump.AcceptedManifestMovedOneLine | xtask/src/version_only_bump.rs:91-103 | in an accepted manifest the one line replaced is the workspace version line |
| VersionOnlyBump.BumpedPackageKeepsSources | xtask/src/version_only_bump.rs:119-130 | a lockfile package that names a source is byte for byte unchanged, and none gains or loses a source |
| VersionOnlyBump.BumpedPackageMovedOneLine | xtask/src/version_only_bump.rs:119-130 | an accepted lockfile package is unchanged, or differs in one line, the first that starts with the old version text |
| VersionOnlyBump.AcceptedBumpChangesOnlyVersions | xtask/src/version_only_bump.rs:31-132 | an accepted bump moves one manifest line, leaves every source-bearing lockfile package as it was, and moves at most one version line in each other package, with as many packages as before |
| VersionBumpRules.BumpIsAcceptedExactly | xtask/src/version_only_bump.rs:31-132 | from paths and lines alone, a bump is accepted if and only if only version files changed and both main ones did, the workspace version differs, the base manifest holds the old version text once and the head is that manifest with that line rewritten, and every lockfile package is unchanged or has no source and moved its first old version line |
| VersionBumpRules.WorkspaceVersionMeans | xtask/src/version_only_bump.rs:73-88 | a manifest has this version if and only if the first line that gives one under a `[workspace.package]` header gives it in quotes |
| VersionBumpRules.PackageBumpMeans | xtask/src/version_only_bump.rs:119-130 | a lockfile package is accepted if and only if it is unchanged, or has no source line and its first old version line is replaced |
| VersionOnlyBump.BumpKeepsVersionFiles | xtask/src/version_only_bump.rs:31-132 | the line that moved in the manifest is its workspace version line before and after, so any number of accepted bumps in a row moves that line alone and the version lines of packages without a source |
| VerifiedTree.ListingProvesLiveRecord | xtask/src/verified_tree.rs:27-44 | a listing proves a tree exactly when it holds an unexpired record of that tree from this repository |
| VerifiedTree.TreeIsProvenExactly | xtask/src/verified_tree.rs:27-56 | a listing proves a tree if and only if it holds an unexpired artifact named `verified-tree-` and the tree id whose run comes from this repository |
| VerifiedTree.NewestDefaultBranchRunCommit | xtask/src/verified_tree.rs:58-82 | the loop returns the commit of the record it keeps as newest |
| VerifiedTree.NewestIsNewest | xtask/src/verified_tree.rs:58-82 | no live run record is later than the one kept |
| VerifiedTree.NewestIsFirstOfLatest | xtask/src/verified_tree.rs:58-82 | the record kept is the first one of the latest time among the unexpired `default-branch-macos-run` records of this repository with a time that is not empty |
| VerifiedTree.NewestIgnoresOrder | xtask/src/verified_tree.rs:56-82 | with different creation times the order of the listing does not matter |
| ClassifyScope.SkipHasAReason | xtask/src/classify_scope.rs:259-287 | a run that skips the macOS lanes changed only static paths, or is a proven bump, or is a push of a proven verified tree with current caches |
| ScopeVerdicts.ResolvedVerdict | xtask/src/classify_scope.rs:118-414 | a resolvable range, from the two trees with every path written out: it skips the macOS lanes if and only if all differing names are static, or it is a proven bump, or a push that may reuse a verified tree; and each flag, the classification and the count |
| ScopeVerdicts.UnresolvedVerdict | xtask/src/classify_scope.rs:305-371 | a range that cannot be resolved asks for everything |
| ScopeVerdicts.ManualVerdict | xtask/src/classify_scope.rs:221-250 | a manual run asks for every lane, with no path counted and native inputs not changed |
| ClassifyScope.ReuseKeepsCacheInputs | xtask/src/classify_scope.rs:373-414 | a push that reuses a verified tree differs from the newest recorded run in no native path and in no cache-input path that git prints as it is |
| ClassifyScope.NoCacheInputChange | xtask/src/classify_scope.rs:393-414 | the cache check finds no change if and only if git answered and no such path differs |
| ClassifyScope.QuotedCacheInputIsMissed | xtask/src/classify_scope.rs:482-505 | a changed cache input with an accent in its name, which the cache check does not find |
| GitNames.QuotesTell | xtask/src/classify_scope.rs:482-505 | git's name of a path is the path, or starts and ends with a quote, which tells the two apart |
| GitNames.PlainExactly | xtask/src/classify_scope.rs:482-505 | a path is printed as it is if and only if it is printable ASCII without quotes and backslashes |
| ClassifyScope.SwiftLaneOnFullPush | xtask/src/classify_scope.rs:305-371 | every full push: it keeps the Swift lane if and only if its range cannot be resolved or it changed a Swift input that git prints as it is |
| ClassifyScope.FullPushWithoutSwiftLane | xtask/src/classify_scope.rs:248-257 | a full push of one Rust file loses the Swift lane that the push rule alone would keep |
| PushHistory.EveryHeadRestsOnVerifiedWork | xtask/src/classify_scope.rs:305-387 | over every history of pushes, each head is reached from a tree whose macOS lanes ran by static-only changes and proven bumps alone |
| PushHistory.EveryHeadSharesVerifiedContent | xtask/src/classify_scope.rs:259-387 | over every history, each head agrees with a tree whose macOS lanes ran at every path but static ones, the version files and the notices digest; its manifest differs from that tree's in the workspace version line alone, and its lockfile in version lines of packages without a source alone |
| PushHistory.ReuseSeesPublishedCaches | xtask/src/classify_scope.rs:373-414 | a reusing push has the compared cache and native inputs of the newest recorded full run, which is another run of the same history; so no push reuses a verified tree while every full run differs from the present content of such an input |
| TestDeclarations.ModuleDeclarations | xtask/src/audit_test_declarations.rs:140-161 | the single pass with its pending path yields each declaration with the path attribute that applies to it |
| TestDeclarations.PathAttributeReachesDeclaration | xtask/src/audit_test_declarations.rs:140-161 | a path attribute carries over attributes, comments and blank lines to the next declaration |
| TestDeclarations.StatementCutsPathAttribute | xtask/src/audit_test_declarations.rs:153-158 | any other statement in between cuts it off |
| DeclarationEdges.DeclaredMeans | xtask/src/audit_test_declarations.rs:163-181 | a line declares a module if and only if it is written so: the bare identifier between `mod `, or words before it that do not start with `mod `, and the closing semicolon |
| DeclarationEdges.QuotedMeans | xtask/src/audit_test_declarations.rs:203-207 | a path attribute gives the text between its first two double quotes |
| DeclarationEdges.EdgeMeans | xtask/src/audit_test_declarations.rs:79-120 | `directory/stem.rs` reaches a file if and only if it exists and some line leads to it: by its path attribute from the directory, or, without one, as `name.rs` or `name/mod.rs` in the directory or, unless the file is a `mod.rs`, in the folder `stem` |
| DeclarationEdges.PlainDeclarationReaches | xtask/src/audit_test_declarations.rs:82-115 | in a normalized directory, `mod name;` of `directory/stem.rs` reaches each existing one of its four places |
| DeclarationEdges.RootTargetMeans | xtask/src/audit_test_declarations.rs:61-70 | the discovered targets are the `tests/….rs` without a further slash |
| DeclarationEdges.ManifestTargetMeans | xtask/src/audit_test_declarations.rs:56-70 | a manifest names a file when it lists its path with slashes for backslashes and every `./` cut out |
| TestDeclarations.MarkAllExpands | xtask/src/audit_test_declarations.rs:103-120 | exploring one file adds exactly its resolved, existing files and queues exactly those that are new |
| TestDeclarations.ReachFiles | xtask/src/audit_test_declarations.rs:76-121 | the worklist ends with a set that holds the roots, is closed under declarations, and holds nothing not reached |
| TestDeclarations.AuditTestDeclarations | xtask/src/audit_test_declarations.rs:51-132 | a file is reported if and only if no root reaches it, each once and in path order |
| TestDeclarations.CompiledIsLeastFixedPoint | xtask/src/audit_test_declarations.rs:51-121 | the reached files are the least set that holds the roots and follows declarations, whatever the order of the worklist |
| ModulePaths.NormalizeModulePath | xtask/src/audit_test_declarations.rs:185-197 | the push and pop loop computes the resolved segments |
| ModulePaths.NormalizedIsPlain | xtask/src/audit_test_declarations.rs:185-197 | no empty, `.` or `..` segment is left |
| ModulePaths.NormalizeIdempotent | xtask/src/audit_test_declarations.rs:185-197 | normalizing twice is normalizing once |
| ModulePaths.NormalizeComposes | xtask/src/audit_test_declarations.rs:185-197 | a joined path may have its front normalized first, also where `..` pops an empty stack |
| ModulePaths.DotDotTakesBack | xtask/src/audit_test_declarations.rs:185-197 | a `..` takes back exactly the one plain segment before it, wherever the two stand |
| ModulePaths.DotDotAtRootIsDropped | xtask/src/audit_test_declarations.rs:185-197 | a `..` is dropped where the segments before it leave nothing to take back, and at the front |
| ModulePaths.SkippedLeavesNoTrace | xtask/src/audit_test_declarations.rs:185-197 | an empty segment and a `.` leave no trace, at the front, inside or at the end |
| ModulePaths.PlainIsNormal | xtask/src/audit_test_declarations.rs:185-197 | a path is its own normal form if and only if it is empty or made of plain segments |
| CachePrune.DeletionPlan | xtask/src/cache_prune.rs:91-137 | the loops with their two counters carry out the plan that the laws below describe |
| CachePrune.FamilyOfAnyKey | xtask/src/cache_prune.rs:51-59 | for every key, with or without the prefix: the family is the one part before the first `-macOS`, or, when there is none, before the first dash or the end |
| CachePrune.FamilyIsBetween | xtask/src/cache_prune.rs:51-59 | a macOS runner's key names the family between the prefix and the platform |
| CacheQuotas.FamilyOfToken | xtask/src/cache_prune.rs:51-59 | another runner's key names what stands between `astronomical-v2-` and the next dash |
| CacheQuotas.StrippedMeans | xtask/src/cache_prune.rs:51-55 | the prefix `astronomical-v2-` is taken off a key that has it, and no other key changes |
| CachePrune.OversizeGoesFirst | xtask/src/cache_prune.rs:108-117 | an entry is deleted as oversize exactly when it is too large, and a surplus deletion never is |
| CachePrune.QuotaIsKeptExactly | xtask/src/cache_prune.rs:106-133 | each family and ref class keeps its quota of entries that are not oversize, or all when there are fewer |
| CacheQuotas.KeptInNumbers | xtask/src/cache_prune.rs:61-137 | two `native-build` entries and one of every other family are left on the default branch, no `sccache` entry and one of every other family over all other refs, or all that are not too large when there are fewer |
| CacheQuotas.LargeOnesGo | xtask/src/cache_prune.rs:69-117 | exactly the `sccache` entries above 680 000 000 bytes are deleted for their size |
| CachePrune.KeptAreNewest | xtask/src/cache_prune.rs:105-133 | no surplus deletion is newer than an entry of its family and class that is kept |
| CachePrune.NewestFirstIsStable | xtask/src/cache_prune.rs:105 | entries created at one moment keep their listing order |
| CachePrune.NothingDeletedTwice | xtask/src/cache_prune.rs:91-137 | no entry is deleted twice and only listed entries are |
| CachePrune.PruneIsIdempotent | xtask/src/cache_prune.rs:91-137 | pruning what a prune left deletes nothing |
| RetiredNativeScan.AllocatedBytesUnder | xtask/src/retired_native_scan.rs:450-471 | the worklist adds up the recursive sum over the subtree, counting nothing it may not read |
| RetiredNativeScan.ScanRootForRetiredCandidates | xtask/src/retired_native_scan.rs:380-443 | the worklist ends with the recursive tally: directories walked, unreadable ones, and candidates, sorted and each measured whole |
| RetiredNativeScan.FindsInListing | xtask/src/retired_native_scan.rs:405-431 | the tally holds exactly the candidates reached through readable, non-symlink directories with no candidate strictly above them below the root |
| RetiredNativeScan.FoundOnce | xtask/src/retired_native_scan.rs:380-443 | no candidate is listed twice |
| RetiredNativeScan.CandidateMeans | xtask/src/retired_native_scan.rs:18-120 | a path is a candidate if and only if it is, anywhere, `build`, a folder `astronomical-runtime-integration-…`, `out`, and then `mlx-c-runtime-build` or a name that starts with `.mlx-c-runtime-build.astronomical-removing-` |
| ScanCounts.CountersCount | xtask/src/retired_native_scan.rs:380-443 | the two counters of a scan are how many directories it reaches without meeting a candidate, and how many of those it cannot read |
| RetiredNativeScan.ScanAndAggregateRoots | xtask/src/retired_native_scan.rs:272-321 | over any roots, each canonical candidate directory is counted and measured once, and unreadable directories add up |
| ScanOverlap.MeasuredMeans | xtask/src/retired_native_scan.rs:450-471 | the places one measurement adds up are those reached through readable listings and directories, each with metadata |
| ScanOverlap.MeasurementIsBytes | xtask/src/retired_native_scan.rs:450-471 | measuring a directory yields the bytes of those places, each once |
| ScanOverlap.TotalIsUnionUnlessNested | xtask/src/retired_native_scan.rs:267-321 | the total is at least the bytes of all measured places, and equal if and only if no counted directory with bytes lies where another counted one's measurement reaches it |
| ScanOverlap.TotalIsUnionFromTree | xtask/src/retired_native_scan.rs:267-321 | where canonical paths are the paths themselves: it is equal if and only if no directory with bytes that some root finds lies where the measurement of another found one reaches it |
| ScanOverlap.OutsideRootsCountOnce | xtask/src/retired_native_scan.rs:212-321 | with no scan root at or inside a path shaped like a retired directory, the total is exactly those bytes |
| ScanOverlap.AllFoundAreCounted | xtask/src/retired_native_scan.rs:303-314 | where canonical paths are the paths themselves, everything found that still has one is counted |
| ScanOverlap.NestCountsTwice | xtask/src/retired_native_scan.rs:267-321 | with nested folders, one root above a retired directory, one at it, and a retired directory with bytes further in, the total is more than the bytes measured |
| ScanOverlap.OverlapCountsTwice | xtask/src/retired_native_scan.rs:267-321 | one such tree and pair of roots |
| ArgumentVector.SplitIsUnique | apps/astronomical-cli/src/arguments.rs:363-375 | the split at the first `--` is the only one with no `--` before it |
| ArgumentVector.SplitHarnessArguments | apps/astronomical-cli/src/arguments.rs:365-375 | the loop returns that split, the harness's part unchanged |
| ArgumentVector.WithoutGlobalVerboseFlags | apps/astronomical-cli/src/arguments.rs:348-361 | the verbose flags before the separator go and nothing else does |
| ArgumentVector.DropVerboseKeeps | apps/astronomical-cli/src/arguments.rs:345-361 | what is left before the separator is what was there but for verbose flags |
| LaunchArguments.ParseLaunchArguments | apps/astronomical-cli/src/arguments.rs:377-416 | the loop parses a launch, or fails with the first usage error in order |
| LaunchArguments.LaunchGrammar | apps/astronomical-cli/src/arguments.rs:377-416 | a launch parses, to this result, if and only if the arguments write it: a tool and a model at most once each, in either order, then `--` and the harness's own arguments |
| UsageFailures.LaunchFailure | apps/astronomical-cli/src/arguments.rs:377-416 | a launch fails with an error if and only if its arguments begin with a tool and a model said at most once each and then stop at one refused for that reason: a repeated `--model`, one without a value, an unknown flag, a second tool, or text that is not Unicode |
| RespondArguments.RespondArgumentAccumulator.ApplyRespondFlag | apps/astronomical-cli/src/arguments.rs:480-556 | one flag changes its own field and consumes its value, or is refused with the error it deserves |
| RespondArguments.ParseRespondArguments | apps/astronomical-cli/src/arguments.rs:418-457 | the loop over the accumulator parses a request, or fails with the first usage error in order |
| RespondArguments.ReadsRendered | apps/astronomical-cli/src/arguments.rs:418-572 | parsing written pieces gives what they say, or the very error that saying one twice deserves |
| RespondArguments.RespondGrammar | apps/astronomical-cli/src/arguments.rs:418-572 | a request parses, to this result, if and only if the arguments write it: one prompt, the images in order, every other flag at most once, in any order |
| RespondArguments.RespondReadsBack | apps/astronomical-cli/src/arguments.rs:418-572 | writing a request as arguments and parsing them gives it back, the thinking budget in decimal included |
| UsageFailures.RespondFailure | apps/astronomical-cli/src/arguments.rs:418-572 | a request fails with an error if and only if its arguments begin with pieces said as often as they may be and then stop at one refused for that reason, flag by flag, or hold no prompt at all |
| UsageFailures.BudgetIsAccepted | apps/astronomical-cli/src/arguments.rs:564-572 | a written thinking budget is accepted up to 65535, with or without a plus sign |
| CommandLine.ParseCommand | apps/astronomical-cli/src/arguments.rs:135-172 | help, then version, then the verb over what the global flags leave |
| CommandVerdicts.HelpAndVersion | apps/astronomical-cli/src/arguments.rs:135-145 | help is the result if and only if `--help` or `-h` stands before the first `--`, the version if and only if neither does and `--version` does |
| CommandVerdicts.VerbDecides | apps/astronomical-cli/src/arguments.rs:146-184 | every other command line has exactly one result, that of its verb: a launch or request as written or the error it deserves, `status` and `doctor` without arguments, the other verbs with theirs, and the errors for a missing or unknown verb |
| CommandVerdicts.VerboseFlagsGo | apps/astronomical-cli/src/arguments.rs:324-361 | what is left before the separator is what stood there but for `--verbose` and `-v`, and verbose tracing is asked for if and only if one of them stood there |
| CommandLine.VerboseChangesNothing | apps/astronomical-cli/src/arguments.rs:324-361 | a verbose flag anywhere before the first `--` changes no result, between a flag and its value included, and is seen |
| CommandLine.LaunchReadsBack | apps/astronomical-cli/src/arguments.rs:135-172 | a written launch comes back from the whole command line with every harness argument as it was |
| CommandLine.RespondReachesVerb | apps/astronomical-cli/src/arguments.rs:135-172 | a written respond request comes back from the whole command line |
| Notices.LinesMissingFrom | xtask/src/notices.rs:226-245 | the counting loop returns the first lines, up to the cap, of those the other text lacks |
| Notices.ExcessIsSubsequence | xtask/src/notices.rs:224-245 | the missing lines appear in the source in that order |
| Notices.ExcessIsDifference | xtask/src/notices.rs:224-245 | counting repeats, they are the source's lines less the other's |
| Notices.ExcessAtEnd | xtask/src/notices.rs:236-243 | a line is missing exactly when as many like it came before as the other text has |
| Notices.StaleNoticesLineDifferences | xtask/src/notices.rs:205-222 | the report is empty if and only if the cap is zero or both texts hold the same lines equally often |
| NoticesText.NormalizeGeneratedNotices | xtask/src/notices.rs:276-296 | the replacement, the line loop and the trailing trim compute the character-by-character normal form |
| NoticesText.TrimsRawLine | xtask/src/notices.rs:279-289 | each line loses exactly its trailing blanks, and a last line without a newline nothing |
| NoticesText.NormalizedIsTidy | xtask/src/notices.rs:276-296 | no blank stands before a newline and at most one newline ends the text, for every text |
| NoticesText.ReturnsSurviveOnlyAlone | xtask/src/notices.rs:276-277 | a carriage return survives if and only if one had no newline right after it |
| NoticesText.NormalizesOnceUnlessStranded | xtask/src/notices.rs:276-296 | normalizing twice is normalizing once if and only if no stray carriage return is brought next to a newline |
| NoticesText.StrandedReturnChangesTwice | xtask/src/notices.rs:276-296 | a carriage return, a blank and a newline: the second pass changes what the first one left |
| NoticesText.PairedReturnsNormalizeOnce | xtask/src/notices.rs:272-296 | with every carriage return part of a line ending, no carriage return is left and a second pass changes nothing |
| NoticesText.WordingIsKept | xtask/src/notices.rs:272-296 | everything but blanks and line endings is kept |
| NoticesLines.OpenTextNormalizes | xtask/src/notices.rs:276-296 | a text that does not end in a newline keeps its lines and its end; each line loses its trailing spaces and tabs and the carriage return of its ending |
| NoticesLines.ClosedTextNormalizes | xtask/src/notices.rs:276-296 | so does a text that ends in a newline, which keeps its lines up to the last with words; a text of empty lines becomes one newline |
| NoticesLines.EveryTextIsLines | xtask/src/notices.rs:276-289 | every text is such lines and a rest without a newline, so the two laws cover every text |
| DaemonFrameWait.AwaitFrame | apps/astronomical-cli/src/daemon_frame_wait.rs:159-197 | the loop over the watch's fields does what the state machine does, event by event |
| DaemonFrameWait.AnsweredStatus | apps/astronomical-cli/src/daemon_frame_wait.rs:65-127 | an answered status moves the deadline to a silence bound from now if and only if it reports a load that is new or younger than the load bound, or a count that differs from the one remembered; and what the watch remembers then |
| DaemonFrameWait.AnsweredStatusShows | apps/astronomical-cli/src/daemon_frame_wait.rs:90-152 | what it writes to the terminal: a new load draws the padded line, the end of a load ends it, nothing else writes |
| DaemonFrameWait.OtherEvents | apps/astronomical-cli/src/daemon_frame_wait.rs:131-213 | an unanswered poll leaves the deadline and the watch alone; a frame forgets the load, and both ends close the line |
| DaemonFrameWait.SilenceIsNeverEarly | apps/astronomical-cli/src/daemon_frame_wait.rs:159-197 | the wait never gives up before a whole silence bound since it began or last counted a status |
| DaemonFrameWait.StuckDaemonIsNoticed | apps/astronomical-cli/src/daemon_frame_wait.rs:65-127 | once every answered status repeats one load and one count, the deadline never passes that moment plus the load bound and the silence bound |
| DaemonFrameWait.StuckWaitEnds | apps/astronomical-cli/src/daemon_frame_wait.rs:159-213 | such a wait fits only a bounded number of polls |
| DaemonFrameWait.LoadKeepsWaiting | apps/astronomical-cli/src/daemon_frame_wait.rs:90-127 | while every poll is answered in time and reports one load, a wait with room for one longest poll (six poll intervals) does not go silent before the load has been reported for the whole load bound |
| DaemonFrameWait.RunsStaySettled | apps/astronomical-cli/src/daemon_frame_wait.rs:159-197 | every state a settled wait reaches meets the conditions under which the two results above apply |
| DaemonFrameWait.WaitsStartSettled | apps/astronomical-cli/src/daemon_frame_wait.rs:117-134 | every wait of a session with one watch starts settled, whether the one before it got a frame or went silent |
| DaemonFrameWait.NoFalseFailure | apps/astronomical-cli/src/daemon_frame_wait.rs:159-213 | a daemon that answers each poll in time with a new count is never given up on, when two longest polls fit inside the silence bound, or one if the watch holds a count already |
| DaemonFrameWait.FalseFailureWithoutRoom | apps/astronomical-cli/src/daemon_frame_wait.rs:27-30 | for every watch, when they do not fit, a schedule that gives up on a daemon that keeps progressing |
| DaemonFrameWait.FalseFailureExactly | apps/astronomical-cli/src/daemon_frame_wait.rs:159-213 | for every watch such a schedule exists if and only if they do not fit: the silence bound is at most twelve poll intervals, or six when the watch holds a count |
| DaemonFrameWait.LineFitsThroughout | apps/astronomical-cli/src/daemon_frame_wait.rs:129-152 | the live line is open only while a load is remembered, and closed on every return |
| DaemonFrameWait.CountCarriesOver | apps/astronomical-cli/src/daemon_frame_wait.rs:117-134 | across frames the watch keeps the last reported count and forgets the load |
| DaemonFrameWait.SessionLeavesNoOpenLine | apps/astronomical-cli/src/daemon_frame_wait.rs:129-152 | through any number of waits with one watch, no line is left open between them |
| DownloadWaiting.StallWatch.Observe | apps/astronomical-cli/src/model_lifecycle/download_progress.rs:181-202 | any change restarts the clock; the same again is a stall exactly when the clock has reached the state's bound |
| DownloadWaiting.DownloadWait.PollDownload | apps/astronomical-cli/src/model_lifecycle.rs:293-320 | one poll of the fields does what the state machine does, and repeats the request exactly when it reaches a daemon that was away |
| DownloadWaiting.WaitForDownload | apps/astronomical-cli/src/model_lifecycle.rs:259-286 | the download is requested once plus once for each spell of absence that ends; the outcome is the first decisive poll's; ready only on a poll with no job and a ready entry |
| DownloadWaiting.PollDecides | apps/astronomical-cli/src/model_lifecycle.rs:293-402 | from the polls alone: when a poll is ready, when it has stopped, and when the wait goes on, each if and only if; a live job is never ready and a failed one fails |
| DownloadWaiting.PollGivesUp | apps/astronomical-cli/src/model_lifecycle.rs:293-402 | which poll gives up for which reason, each if and only if: a rejected status, a request that cannot be repeated, a failed job with its error, an unreadable catalog, nothing under way |
| DownloadWaiting.UnchangingJobGoesOn | apps/astronomical-cli/src/model_lifecycle/download_progress.rs:181-209 | one unchanging job is waited for if and only if less than the stall bound has passed, or less than ten times it while it is verifying or publishing |
| DownloadWaiting.QuietDaemonGoesOn | apps/astronomical-cli/src/model_lifecycle.rs:327-416 | an absent daemon, and a download that only settles, are waited for if and only if less than the stall bound has passed |
| DownloadWaiting.QuietDaemonStops | apps/astronomical-cli/src/model_lifecycle.rs:404-436 | and then given up on with how long nothing changed and the words for that state |
| DownloadWaiting.WaitGoesOn | apps/astronomical-cli/src/model_lifecycle.rs:275-357 | a wait reaches a poll if and only if every earlier poll shows something, is no stall, and can repeat the request where it must |
| DownloadWaiting.WaitRemembers | apps/astronomical-cli/src/model_lifecycle/download_progress.rs:181-195 | the watch holds what the latest run of equal polls showed and when that run began |
| DownloadWaiting.StuckDownloadEnds | apps/astronomical-cli/src/model_lifecycle/download_progress.rs:181-208 | while a wait goes on, no stretch of polls that show the same has lasted as long as its state's bound |
| DownloadWaiting.FlappingIsNeverAStall | apps/astronomical-cli/src/model_lifecycle.rs:404-416 | with the daemon away at every other poll the wait never ends, whatever the bound |
| DownloadWaiting.FirstMatching | apps/astronomical-cli/src/model_lifecycle.rs:334-340 | the entry asked about is the first in the catalog that matches |
| DownloadWaiting.EntryMatchesMeans | apps/astronomical-cli/src/model_lifecycle.rs:452-459 | an entry matches if and only if it and the id asked about have the same part after their last slash |
| TextSearch.LinesOfTerminated | xtask/src/version_only_bump.rs:73-88 | the lines of a text, first: what stands before the first newline, without a carriage return right before it, and then the lines of the rest |
| TextSearch.LinesOfLast | xtask/src/version_only_bump.rs:73-88 | and last: a text without a newline is one line as it stands, and an empty one none |
| TextSearch.TrimMeans | xtask/src/version_only_bump.rs:73-88 | trimming takes whitespace off both ends, and all of it |
| TextSearch.SplitIsCut | xtask/src/version_only_bump.rs:108-117 | the parts of a split text hold no separator and give the text back with separators between them |
| TextOrder.BeforeMeans | xtask/src/cache_prune.rs:105 | one text comes before another if and only if it is a shorter front of it, or has the smaller character where they first differ |
| TextOrder.UnitsBeforeMeans | apps/daemon/console/configuration-model.js:148 | the same for UTF-16 units, as JavaScript sorts keys |
| Numerals.DigitsAreDecimal | apps/astronomical-cli/src/arguments.rs:564-572 | written numbers are decimal |

## Left out

- PushHistory.EveryHeadRestsOnVerifiedWork: takes as given that the first head's lanes ran, and what the workflow file does, namely that a verified-tree record is written only after a pull request's macOS lanes passed on that tree (.github/workflows/ci.yml:1289-1325), that git tree ids name contents, that git prints names with its default settings, and that the push event names the previous and the new head.
- PushHistory.EveryHeadSharesVerifiedContent: under the same assumptions.
- PushHistory.ReuseSeesPublishedCaches: takes as given that a default-branch record is written only for a pushed head whose run required the macOS lanes.
- ConfigurationPaths.GetAfterSet: a set through the `length` of an array, which resizes the array or is refused, is excluded by a precondition (as in SetLeavesOthers and RemoveUndoesSet); keys of JavaScript's prototypes and `undefined` values, which the settings format does not hold, are not modelled.
- JsonText.CloneIsFaithful: numbers are the whole numbers JavaScript holds exactly; floats and strings with lone surrogates are not modelled.
- CanonicalJson.CanonicalEquality: likewise over documents without floats, and over parsed documents, whose arrays have every element and nothing else.
- ConfigurationPaths.SetLeavesOthers: the other path asks no array for its `length`, which a set at the array's end changes; likewise ConfigurationPaths.RemoveLeavesOthers, as pruning takes an array's length with it.
- ConfigurationDocument.WithValue: the two walks to the parent are recursive methods over the objects in memory, where the source advances a cursor in a loop; a value that is set is copied, so the sharing of that value with its caller is not modelled; JavaScript's habit of listing integer-like keys of objects first is not modelled.
- RetiredNativeScan.ScanAndAggregateRoots: byte sums are unbounded where the source uses 64 bits, names are Unicode text, and the tree does not change during the scan; refusing unusable roots and dropping repeated ones is left out, as the results hold for any list of roots.
- ScanOverlap.TotalIsUnionUnlessNested: the bytes of a place are its blocks wherever they are listed, so a file with several hard links counts at each, as in the source; a directory's metadata, where it can be read, says that it is one.
- CachePrune.QuotaIsKeptExactly: entries have distinct ids, as GitHub's listing gives them; sizes are unbounded.
- DaemonFrameWait.NoFalseFailure: handling an event takes no time; a completed branch of `select!` is a free choice among those whose timers allow it.
- DownloadWaiting.WaitForDownload: follows a finite script of polls; progress lines, rates and times remaining are not modelled.
- CommandLine.ParseCommand: the verbs other than `launch`, `respond`, `status` and `doctor` are kept as the verb and the arguments it is handed.
- TestDeclarations.AuditTestDeclarations: starts from file contents and manifest targets already read; `declared_module_name` is taken over as the line heuristic it is, and reading the manifest targets is left out.
- Architecture.DependencyGraphFromMetadata: starts from decoded `cargo metadata` records; a package record is what the JSON decoding yields.
- VerifiedTree.NewestDefaultBranchRunCommit: starts from decoded artifact records; polling the GitHub client is left out.
- The processes, sockets and files behind these decisions: git, `gh`, `cargo`, the daemon probe, printing and progress lines.
- Schema descriptors, labels, bounds messages and the other rendering rules of `configuration-model.js`, and the remaining `xtask` commands: each is a table or a single pass without state.
- The serving engine (memory policy, expert paging, prompt cache) is not part of this model.
