// The CI scope policy (xtask/src/classify_scope.rs): which lanes a pull request
// or a default-branch push must run, judged from what changed, from the version
// bump proof and from the records earlier runs left.

module ClassifyScope {
  import opened Wrappers
  import opened TextOrder
  import opened TextSearch
  import opened VersionOnlyBump
  import opened VerifiedTree
  import opened GitNames

  const ZERO_GIT_SHA := "0000000000000000000000000000000000000000"

  const NATIVE_INPUT_PATHSPECS: seq<string> := [
    "crates/runtime-integration/build.rs",
    "crates/mlx-c-rust/build.rs",
    "crates/native-build-orchestration/src/native_linking.rs",
    "crates/native-build-orchestration/src/native_store.rs",
    "crates/native-build-orchestration/src/native_store/manifest.rs",
    "crates/native-build-orchestration/src/native_compile.rs",
    "crates/native-build-orchestration/src/native-build-store-schema-version",
    "crates/runtime-integration/native",
    "crates/native-identity/src",
    "third-party/native-dependency-manifest.cmake",
    "third-party/pins",
    "third-party/patches",
    "rust-toolchain.toml"
  ]

  const NOTICES_FRESHNESS_INPUT_PATHS: seq<string> := [
    "Cargo.lock",
    "third-party/tool-pins/Cargo.toml",
    "third-party/about.toml",
    "third-party/rust-dependency-notices.hbs",
    "third-party/RUST_DEPENDENCY_NOTICES",
    "third-party/RUST_DEPENDENCY_NOTICES.digest"
  ]

  const CACHE_INPUT_PATH_PREFIXES: seq<string> := [
    "Cargo.lock",
    "rust-toolchain.toml",
    "third-party/tool-pins/",
    "third-party/native-dependency-manifest.cmake",
    "third-party/pins/",
    ".github/workflows/ci.yml",
    ".github/actions/",
    "apps/astronomical-menu/",
    "apps/thin-talk/"
  ]

  const SWIFT_NODE_INPUT_PATH_PREFIXES: seq<string> := [
    "apps/astronomical-menu/",
    "apps/thin-talk/",
    "apps/daemon/console/",
    "scripts/internal/",
    "scripts/ci/",
    "site/schemas/",
    ".node-version",
    ".github/workflows/ci.yml",
    ".github/actions/"
  ]

  datatype CiEvent = PullRequest | Push | WorkflowDispatch

  datatype ChangeScopeVerdict = ChangeScopeVerdict(
    codeChanged: bool,
    nativeInputsChanged: bool,
    macosVerificationRequired: bool,
    swiftNodeRequired: bool,
    noticesInputsChanged: bool,
    classification: string,
    changedFileCount: nat)

  // --- Path rules ---

  predicate StartsWithAny(path: string, prefixes: seq<string>) {
    exists i :: 0 <= i < |prefixes| && StartsWith(path, prefixes[i])
  }

  predicate IsStaticOnlyPath(path: string) {
    IsPublishedContentPath(path) || IsRepositoryHousekeepingPath(path)
  }

  predicate IsPublishedContentPath(path: string) {
    || StartsWith(path, "site/")
    || EndsWith(path, ".md")
    || StartsWith(path, ".github/assets/")
    || path == ".github/workflows/pages.yml"
  }

  predicate IsRepositoryHousekeepingPath(path: string) {
    path == ".github/dependabot.yml" || path == ".gitignore" || EndsWith(path, "/.gitignore")
  }

  predicate IsCacheInputPath(path: string) {
    StartsWithAny(path, CACHE_INPUT_PATH_PREFIXES)
  }

  predicate IsNoticesFreshnessInputPath(path: string) {
    path in NOTICES_FRESHNESS_INPUT_PATHS
  }

  predicate IsSwiftNodeInputPath(path: string) {
    StartsWithAny(path, SWIFT_NODE_INPUT_PATH_PREFIXES)
  }

  /** git's reading of a pathspec without wildcards: the file itself, or anything under the directory. */
  predicate IsNativeInputPath(path: string) {
    exists i :: 0 <= i < |NATIVE_INPUT_PATHSPECS| &&
      (path == NATIVE_INPUT_PATHSPECS[i] || StartsWith(path, NATIVE_INPUT_PATHSPECS[i] + "/"))
  }

  // --- The pure verdicts ---

  function ClassifyChangedPaths(changedPaths: seq<string>, nativeInputsChanged: bool, isVersionOnlyBump: bool): ChangeScopeVerdict {
    var codeChanged := exists i :: 0 <= i < |changedPaths| && !IsStaticOnlyPath(changedPaths[i]);
    ChangeScopeVerdict(
      codeChanged,
      nativeInputsChanged,
      codeChanged && !isVersionOnlyBump,
      codeChanged && !isVersionOnlyBump && exists i :: 0 <= i < |changedPaths| && IsSwiftNodeInputPath(changedPaths[i]),
      exists i :: 0 <= i < |changedPaths| && IsNoticesFreshnessInputPath(changedPaths[i]),
      if !codeChanged then "static_only"
      else if isVersionOnlyBump then "version_only_bump"
      else if nativeInputsChanged then "native_inputs"
      else "code_or_build",
      |changedPaths|)
  }

  function WithSwiftLaneOnEveryFullRun(verdict: ChangeScopeVerdict): ChangeScopeVerdict {
    verdict.(swiftNodeRequired := verdict.macosVerificationRequired)
  }

  function ClassifyChangeScope(event: CiEvent, changedPaths: seq<string>, nativeInputsChanged: bool, isVersionOnlyBump: bool)
    : ChangeScopeVerdict
  {
    match event
    case WorkflowDispatch => ChangeScopeVerdict(true, false, true, true, true, "manual_run", 0)
    case PullRequest => ClassifyChangedPaths(changedPaths, nativeInputsChanged, isVersionOnlyBump)
    case Push => WithSwiftLaneOnEveryFullRun(ClassifyChangedPaths(changedPaths, nativeInputsChanged, isVersionOnlyBump))
  }

  function FailSafeVerdict(): ChangeScopeVerdict {
    ChangeScopeVerdict(true, true, true, true, true, "unknown_history", 0)
  }

  predicate MayReuseVerifiedTree(event: CiEvent, verdict: ChangeScopeVerdict, changedPaths: seq<string>) {
    && event == Push
    && verdict.macosVerificationRequired
    && !verdict.nativeInputsChanged
    && forall i :: 0 <= i < |changedPaths| ==> !IsCacheInputPath(changedPaths[i])
  }

  function VerdictForVerifiedTree(verdict: ChangeScopeVerdict): ChangeScopeVerdict {
    verdict.(macosVerificationRequired := false, swiftNodeRequired := false, classification := "already_verified_tree")
  }

  // --- What git and the artifact store answer during one run ---

  /** A commit's files by path. */
  type Tree = map<string, string>

  /** One run's view: the commits git can read, the commands that failed, and the listings it got. */
  datatype Environment = Environment(
    commits: map<string, Tree>,
    failedDiffs: set<(string, string)>,
    failedNativeDiffs: set<(string, string)>,
    unreadableFiles: set<(string, string)>,
    treeIds: map<string, string>,
    verifiedTreeListing: Option<seq<Artifact>>,
    defaultBranchRunListing: Option<seq<Artifact>>)

  predicate DiffersAt(base: Tree, head: Tree, path: string) {
    (path in base) != (path in head) || (path in base && path in head && base[path] != head[path])
  }

  /** The differing paths, in path order. */
  function ChangedPaths(base: Tree, head: Tree): (paths: seq<string>)
    ensures forall path :: path in paths <==> DiffersAt(base, head, path)
  {
    Ascending(set path | path in base.Keys + head.Keys && DiffersAt(base, head, path))
  }

  /** `git diff --name-only --no-renames`: their names as git prints them. */
  function ChangedNames(base: Tree, head: Tree): (names: seq<string>)
    ensures |names| == |ChangedPaths(base, head)|
    ensures forall i :: 0 <= i < |names| ==> names[i] == GitName(ChangedPaths(base, head)[i])
  {
    var paths := ChangedPaths(base, head);
    seq(|paths|, i requires 0 <= i < |paths| => GitName(paths[i]))
  }

  lemma ChangedIsNamed(base: Tree, head: Tree, path: string)
    requires DiffersAt(base, head, path)
    ensures GitName(path) in ChangedNames(base, head)
  {
    assert path in ChangedPaths(base, head);
    var i :| 0 <= i < |ChangedPaths(base, head)| && ChangedPaths(base, head)[i] == path;
    assert ChangedNames(base, head)[i] == GitName(path);
  }

  lemma NamedIsChanged(base: Tree, head: Tree, i: nat) returns (path: string)
    requires i < |ChangedNames(base, head)|
    ensures DiffersAt(base, head, path) && ChangedNames(base, head)[i] == GitName(path)
  {
    path := ChangedPaths(base, head)[i];
    assert path in ChangedPaths(base, head);
  }

  predicate CommitExists(env: Environment, sha: string) {
    sha in env.commits
  }

  function ChangedPathsBetween(env: Environment, base: string, head: string): Option<seq<string>> {
    if CommitExists(env, base) && CommitExists(env, head) && (base, head) !in env.failedDiffs then
      Some(ChangedNames(env.commits[base], env.commits[head]))
    else None
  }

  function NativeInputsChangedBetween(env: Environment, base: string, head: string): Option<bool> {
    if CommitExists(env, base) && CommitExists(env, head) && (base, head) !in env.failedNativeDiffs then
      var paths := ChangedPaths(env.commits[base], env.commits[head]);
      Some(exists i :: 0 <= i < |paths| && IsNativeInputPath(paths[i]))
    else None
  }

  function FileTextAt(env: Environment, sha: string, path: string): Option<string> {
    if CommitExists(env, sha) && path in env.commits[sha] && (sha, path) !in env.unreadableFiles then
      Some(env.commits[sha][path])
    else None
  }

  predicate VersionOnlyBumpBetween(env: Environment, base: string, head: string, changedPaths: seq<string>) {
    && "Cargo.toml" in changedPaths && "Cargo.lock" in changedPaths
    && var baseManifest, headManifest := FileTextAt(env, base, "Cargo.toml"), FileTextAt(env, head, "Cargo.toml");
       var baseLockfile, headLockfile := FileTextAt(env, base, "Cargo.lock"), FileTextAt(env, head, "Cargo.lock");
       && baseManifest.Some? && headManifest.Some? && baseLockfile.Some? && headLockfile.Some?
       && IsVersionOnlyBump(changedPaths, VersionBumpTexts(baseManifest.value, headManifest.value,
                                                           baseLockfile.value, headLockfile.value))
  }

  // --- The two record questions ---

  predicate IsTreeAlreadyVerified(env: Environment, head: string) {
    && head in env.treeIds && env.treeIds[head] != ""
    && env.verifiedTreeListing.Some?
    && ListingProvesVerifiedTree(env.verifiedTreeListing.value, env.treeIds[head])
  }

  function LastDefaultBranchRunCommit(env: Environment): Option<string> {
    match env.defaultBranchRunListing
    case None => None
    case Some(listing) => match NewestRunRecord(listing) case None => None case Some(record) => record.headSha
  }

  /** Anything unreadable counts as a change. */
  predicate HasCacheInputChange(env: Environment, base: string, head: string) {
    var changedPaths := ChangedPathsBetween(env, base, head);
    || changedPaths.None?
    || (exists i :: 0 <= i < |changedPaths.value| && IsCacheInputPath(changedPaths.value[i]))
    || NativeInputsChangedBetween(env, base, head) != Some(false)
  }

  predicate AreDefaultBranchCachesCurrent(env: Environment, head: string) {
    var lastRunCommit := LastDefaultBranchRunCommit(env);
    && lastRunCommit.Some?
    && CommitExists(env, lastRunCommit.value)
    && !HasCacheInputChange(env, lastRunCommit.value, head)
  }

  function ReuseVerifiedTreeWhenProven(env: Environment, event: CiEvent, verdict: ChangeScopeVerdict,
                                       changedPaths: seq<string>, head: string): ChangeScopeVerdict
  {
    if MayReuseVerifiedTree(event, verdict, changedPaths)
       && IsTreeAlreadyVerified(env, head)
       && AreDefaultBranchCachesCurrent(env, head)
    then VerdictForVerifiedTree(verdict)
    else verdict
  }

  /** The verdict a resolvable range gets. It classifies as a pull request whatever the event, as the source does. */
  function ResolveVerdictFromHistory(env: Environment, event: CiEvent, base: Option<string>, head: Option<string>)
    : Option<ChangeScopeVerdict>
  {
    if base.None? || head.None? || base.value == ZERO_GIT_SHA then None
    else if !CommitExists(env, base.value) || !CommitExists(env, head.value) then None
    else
      match (ChangedPathsBetween(env, base.value, head.value), NativeInputsChangedBetween(env, base.value, head.value))
      case (Some(changedPaths), Some(nativeInputsChanged)) =>
        var isBump := VersionOnlyBumpBetween(env, base.value, head.value, changedPaths);
        var verdict := ClassifyChangeScope(PullRequest, changedPaths, nativeInputsChanged, isBump);
        Some(ReuseVerifiedTreeWhenProven(env, event, verdict, changedPaths, head.value))
      case _ => None
  }

  function RunVerdict(env: Environment, event: CiEvent, base: Option<string>, head: Option<string>): ChangeScopeVerdict {
    match event
    case WorkflowDispatch => ClassifyChangeScope(event, [], false, false)
    case _ =>
      match ResolveVerdictFromHistory(env, event, base, head)
      case None => FailSafeVerdict()
      case Some(verdict) => verdict
  }

  // --- What a skipped run can rely on ---

  ghost predicate ChangesOnlyStaticPaths(base: Tree, head: Tree) {
    forall path :: DiffersAt(base, head, path) ==> IsStaticOnlyPath(path)
  }

  /** A proven bump between two trees: only the version files differ, and their texts pass the proof. */
  ghost predicate IsProvenBump(base: Tree, head: Tree) {
    && "Cargo.toml" in base && "Cargo.toml" in head && "Cargo.lock" in base && "Cargo.lock" in head
    && IsVersionOnlyBump(ChangedNames(base, head),
                         VersionBumpTexts(base["Cargo.toml"], head["Cargo.toml"], base["Cargo.lock"], head["Cargo.lock"]))
  }

  /** A run that skips the macOS lanes has one of three reasons, each proved from content. */
  lemma SkipHasAReason(env: Environment, event: CiEvent, base: Option<string>, head: Option<string>)
    requires !RunVerdict(env, event, base, head).macosVerificationRequired
    ensures base.Some? && head.Some? && CommitExists(env, base.value) && CommitExists(env, head.value)
    ensures var (baseTree, headTree) := (env.commits[base.value], env.commits[head.value]);
            match RunVerdict(env, event, base, head).classification
            case "static_only" => ChangesOnlyStaticPaths(baseTree, headTree)
            case "version_only_bump" => IsProvenBump(baseTree, headTree)
            case "already_verified_tree" =>
              event == Push && IsTreeAlreadyVerified(env, head.value) && AreDefaultBranchCachesCurrent(env, head.value)
            case _ => false
  {
    StaticOnlyMeans(env.commits[base.value], env.commits[head.value]);
  }

  /** A name in quotes matches none of the path rules. */
  lemma QuotedMatchesNothing(name: string)
    requires |name| >= 2 && name[0] == '\"' && name[|name| - 1] == '\"'
    ensures !IsStaticOnlyPath(name)
    ensures !StartsWithAny(name, CACHE_INPUT_PATH_PREFIXES) && !StartsWithAny(name, SWIFT_NODE_INPUT_PATH_PREFIXES)
  {
    QuotedIsNotStatic(name);
    assert forall i :: 0 <= i < |CACHE_INPUT_PATH_PREFIXES| ==>
      CACHE_INPUT_PATH_PREFIXES[i] != [] && CACHE_INPUT_PATH_PREFIXES[i][0] != '\"';
    QuotedStartsWithNone(name, CACHE_INPUT_PATH_PREFIXES);
    assert forall i :: 0 <= i < |SWIFT_NODE_INPUT_PATH_PREFIXES| ==>
      SWIFT_NODE_INPUT_PATH_PREFIXES[i] != [] && SWIFT_NODE_INPUT_PATH_PREFIXES[i][0] != '\"';
    QuotedStartsWithNone(name, SWIFT_NODE_INPUT_PATH_PREFIXES);
  }

  lemma QuotedStartsWithNone(name: string, prefixes: seq<string>)
    requires name != [] && name[0] == '\"'
    requires forall i :: 0 <= i < |prefixes| ==> prefixes[i] != [] && prefixes[i][0] != '\"'
    ensures !StartsWithAny(name, prefixes)
  {
    forall i | 0 <= i < |prefixes|
      ensures !StartsWith(name, prefixes[i])
    {
      if |prefixes[i]| <= |name| {
        assert name[..|prefixes[i]|][0] == '\"';
      }
    }
  }

  lemma QuotedIsNotStatic(name: string)
    requires |name| >= 2 && name[0] == '\"' && name[|name| - 1] == '\"'
    ensures !IsStaticOnlyPath(name)
  {
    QuotedStartsWithNone(name, ["site/", ".github/assets/"]);
    assert !StartsWith(name, ["site/", ".github/assets/"][0]) && !StartsWith(name, ["site/", ".github/assets/"][1]);
    assert !EndsWith(name, ".md") && !EndsWith(name, "/.gitignore") by {
      assert ".md"[2] != '\"' && "/.gitignore"[10] != '\"';
    }
    assert ".github/workflows/pages.yml"[0] != '\"' && ".github/dependabot.yml"[0] != '\"' && ".gitignore"[0] != '\"';
  }

  lemma StaticOnlyMeans(baseTree: Tree, headTree: Tree)
    ensures var names := ChangedNames(baseTree, headTree);
            (forall i :: 0 <= i < |names| ==> IsStaticOnlyPath(names[i])) ==> ChangesOnlyStaticPaths(baseTree, headTree)
  {
    var names := ChangedNames(baseTree, headTree);
    if forall i :: 0 <= i < |names| ==> IsStaticOnlyPath(names[i]) {
      forall path | DiffersAt(baseTree, headTree, path)
        ensures IsStaticOnlyPath(path)
      {
        ChangedIsNamed(baseTree, headTree, path);
        StaticNameIsPath(path);
      }
    }
  }

  lemma StaticNameIsPath(path: string)
    requires IsStaticOnlyPath(GitName(path))
    ensures IsStaticOnlyPath(path)
  {
    QuotesTell(path);
    if !IsPlainName(path) {
      QuotedIsNotStatic(GitName(path));
    }
  }

  /** The cache inputs that git prints as they are: the rules miss the others. */
  predicate IsNamedCacheInput(path: string) {
    IsCacheInputPath(path) && IsPlainName(path)
  }

  lemma CacheInputByName(path: string)
    ensures IsCacheInputPath(GitName(path)) <==> IsNamedCacheInput(path)
  {
    QuotesTell(path);
    if !IsPlainName(path) {
      QuotedMatchesNothing(GitName(path));
    }
  }

  lemma SwiftInputByName(path: string)
    ensures IsSwiftNodeInputPath(GitName(path)) <==> IsSwiftNodeInputPath(path) && IsPlainName(path)
  {
    QuotesTell(path);
    if !IsPlainName(path) {
      QuotedMatchesNothing(GitName(path));
    }
  }

  /** The inputs of two trees that the policy compares: plainly named cache inputs, and native inputs whatever their names. */
  ghost predicate SameCacheInputs(a: Tree, b: Tree) {
    forall path :: IsNamedCacheInput(path) || IsNativeInputPath(path) ==> !DiffersAt(a, b, path)
  }

  lemma NamesShowCacheInputs(base: Tree, head: Tree)
    ensures var names := ChangedNames(base, head);
            (exists i :: 0 <= i < |names| && IsCacheInputPath(names[i])) <==>
              exists path :: DiffersAt(base, head, path) && IsNamedCacheInput(path)
  {
    var names := ChangedNames(base, head);
    if i :| 0 <= i < |names| && IsCacheInputPath(names[i]) {
      var path := NamedIsChanged(base, head, i);
      CacheInputByName(path);
    }
    if path :| DiffersAt(base, head, path) && IsNamedCacheInput(path) {
      ChangedIsNamed(base, head, path);
      CacheInputByName(path);
    }
  }

  lemma PathsShowNativeInputs(base: Tree, head: Tree)
    ensures var paths := ChangedPaths(base, head);
            (exists i :: 0 <= i < |paths| && IsNativeInputPath(paths[i])) <==>
              exists path :: DiffersAt(base, head, path) && IsNativeInputPath(path)
  {
    var paths := ChangedPaths(base, head);
    if i :| 0 <= i < |paths| && IsNativeInputPath(paths[i]) {
      assert paths[i] in paths;
    }
    if path :| DiffersAt(base, head, path) && IsNativeInputPath(path) {
      assert path in paths;
    }
  }

  /** A cache check finds no change exactly when git answered both questions and the compared inputs are the same. */
  lemma NoCacheInputChange(env: Environment, base: string, head: string)
    requires CommitExists(env, base) && CommitExists(env, head)
    ensures !HasCacheInputChange(env, base, head) <==>
              && (base, head) !in env.failedDiffs && (base, head) !in env.failedNativeDiffs
              && SameCacheInputs(env.commits[base], env.commits[head])
  {
    NamesShowCacheInputs(env.commits[base], env.commits[head]);
    PathsShowNativeInputs(env.commits[base], env.commits[head]);
  }

  /** A push that reuses a verified tree sees every compared cache and native input as the newest live full run left it. */
  lemma ReuseKeepsCacheInputs(env: Environment, base: Option<string>, head: Option<string>)
    requires RunVerdict(env, Push, base, head).classification == "already_verified_tree"
    ensures head.Some? && LastDefaultBranchRunCommit(env).Some?
    ensures CommitExists(env, head.value) && CommitExists(env, LastDefaultBranchRunCommit(env).value)
    ensures SameCacheInputs(env.commits[LastDefaultBranchRunCommit(env).value], env.commits[head.value])
  {
    NoCacheInputChange(env, LastDefaultBranchRunCommit(env).value, head.value);
  }

  const QUOTED_CACHE_INPUT := "apps/thin-talk/\U{E9}.swift"

  /** A cache input with an accent in its name changes, and the cache check finds no change. */
  lemma QuotedCacheInputIsMissed() returns (env: Environment)
    ensures CommitExists(env, "before") && CommitExists(env, "after")
    ensures IsCacheInputPath(QUOTED_CACHE_INPUT) && DiffersAt(env.commits["before"], env.commits["after"], QUOTED_CACHE_INPUT)
    ensures !HasCacheInputChange(env, "before", "after")
  {
    var before, after: Tree := map[QUOTED_CACHE_INPUT := "one"], map[QUOTED_CACHE_INPUT := "two"];
    env := Environment(map["before" := before, "after" := after], {}, {}, {}, map[], None, None);
    QuotedInputFacts();
    forall path | DiffersAt(before, after, path)
      ensures !IsNamedCacheInput(path) && !IsNativeInputPath(path)
    {
      assert path == QUOTED_CACHE_INPUT;
    }
    NoCacheInputChange(env, "before", "after");
  }

  lemma QuotedInputFacts()
    ensures IsCacheInputPath(QUOTED_CACHE_INPUT) && !IsPlainName(QUOTED_CACHE_INPUT) && !IsNativeInputPath(QUOTED_CACHE_INPUT)
  {
    assert CACHE_INPUT_PATH_PREFIXES[8] == "apps/thin-talk/" && StartsWith(QUOTED_CACHE_INPUT, "apps/thin-talk/");
    assert IsUnusual(QUOTED_CACHE_INPUT[15]);
    NativePathsDiffer();
    assert QUOTED_CACHE_INPUT[0] == 'a' && |QUOTED_CACHE_INPUT| == 22;
    NoNativeInput(QUOTED_CACHE_INPUT);
  }

  /** Each native path is longer, or starts otherwise. */
  lemma NativePathsDiffer()
    ensures forall i :: 0 <= i < |NATIVE_INPUT_PATHSPECS| ==>
              |NATIVE_INPUT_PATHSPECS[i]| > 22 || (NATIVE_INPUT_PATHSPECS[i] != [] && NATIVE_INPUT_PATHSPECS[i][0] != 'a')
  {
    var specs := NATIVE_INPUT_PATHSPECS;
    assert |specs[0]| > 22 && |specs[1]| > 22 && |specs[2]| > 22 && |specs[3]| > 22 && |specs[4]| > 22;
    assert |specs[5]| > 22 && |specs[6]| > 22 && |specs[7]| > 22 && |specs[8]| > 22 && |specs[9]| > 22;
    assert specs[10][0] == specs[11][0] == 't' && specs[12][0] == 'r';
    forall i | 0 <= i < |specs|
      ensures |specs[i]| > 22 || (specs[i] != [] && specs[i][0] != 'a')
    {
      assert i == 0 || i == 1 || i == 2 || i == 3 || i == 4 || i == 5 || i == 6 || i == 7 || i == 8 || i == 9 || i == 10 || i == 11 || i == 12;
    }
  }

  lemma NoNativeInput(path: string)
    requires |path| == 22 && path[0] == 'a' && forall i :: 0 <= i < |NATIVE_INPUT_PATHSPECS| ==>
               |NATIVE_INPUT_PATHSPECS[i]| > 22 || (NATIVE_INPUT_PATHSPECS[i] != [] && NATIVE_INPUT_PATHSPECS[i][0] != 'a')
    ensures !IsNativeInputPath(path)
  {
    forall i | 0 <= i < |NATIVE_INPUT_PATHSPECS|
      ensures path != NATIVE_INPUT_PATHSPECS[i] && !StartsWith(path, NATIVE_INPUT_PATHSPECS[i] + "/")
    {
      var prefix := NATIVE_INPUT_PATHSPECS[i] + "/";
      if |prefix| <= |path| {
        assert path[..|prefix|][0] != prefix[0];
      }
    }
  }

  // --- The Swift lane on a push ---

  lemma ResolvedCommitsExist(env: Environment, event: CiEvent, base: Option<string>, head: Option<string>)
    requires ResolveVerdictFromHistory(env, event, base, head).Some?
    ensures base.Some? && head.Some? && CommitExists(env, base.value) && CommitExists(env, head.value)
  {
  }

  /**
    * A full push keeps the Swift lane exactly when its range cannot be resolved
    * or it changed a Swift input whose name git prints as it is: the push-only
    * rule is never reached.
    */
  lemma SwiftLaneOnFullPush(env: Environment, base: Option<string>, head: Option<string>)
    requires RunVerdict(env, Push, base, head).macosVerificationRequired
    ensures RunVerdict(env, Push, base, head).swiftNodeRequired <==>
              || ResolveVerdictFromHistory(env, Push, base, head).None?
              || ChangesSwiftInput(env, base, head)
  {
    if ResolveVerdictFromHistory(env, Push, base, head).Some? {
      ResolvedCommitsExist(env, Push, base, head);
      SwiftLaneOnResolvedPush(env, base, head);
    }
  }

  ghost predicate ChangesSwiftInput(env: Environment, base: Option<string>, head: Option<string>) {
    && base.Some? && head.Some? && CommitExists(env, base.value) && CommitExists(env, head.value)
    && exists path :: DiffersAt(env.commits[base.value], env.commits[head.value], path) && IsSwiftNodeInputPath(path) && IsPlainName(path)
  }

  lemma SwiftLaneOnResolvedPush(env: Environment, base: Option<string>, head: Option<string>)
    requires ResolveVerdictFromHistory(env, Push, base, head).Some?
    requires RunVerdict(env, Push, base, head).macosVerificationRequired
    ensures RunVerdict(env, Push, base, head).swiftNodeRequired <==> ChangesSwiftInput(env, base, head)
  {
    var changedPaths := ChangedPathsBetween(env, base.value, head.value).value;
    SwiftInputsAmong(env.commits[base.value], env.commits[head.value], changedPaths);
    FullScopeSwiftLane(changedPaths, NativeInputsChangedBetween(env, base.value, head.value).value,
                       VersionOnlyBumpBetween(env, base.value, head.value, changedPaths));
  }

  lemma SwiftInputsAmong(baseTree: Tree, headTree: Tree, names: seq<string>)
    requires names == ChangedNames(baseTree, headTree)
    ensures (exists i :: 0 <= i < |names| && IsSwiftNodeInputPath(names[i])) <==>
              exists path :: DiffersAt(baseTree, headTree, path) && IsSwiftNodeInputPath(path) && IsPlainName(path)
  {
    if i :| 0 <= i < |names| && IsSwiftNodeInputPath(names[i]) {
      var path := NamedIsChanged(baseTree, headTree, i);
      SwiftInputByName(path);
    }
    if path :| DiffersAt(baseTree, headTree, path) && IsSwiftNodeInputPath(path) && IsPlainName(path) {
      ChangedIsNamed(baseTree, headTree, path);
      SwiftInputByName(path);
    }
  }

  lemma FullScopeSwiftLane(changedPaths: seq<string>, nativeInputsChanged: bool, isVersionOnlyBump: bool)
    ensures var verdict := ClassifyChangeScope(PullRequest, changedPaths, nativeInputsChanged, isVersionOnlyBump);
            verdict.macosVerificationRequired ==>
              (verdict.swiftNodeRequired <==> exists i :: 0 <= i < |changedPaths| && IsSwiftNodeInputPath(changedPaths[i]))
  {
  }

  lemma RustFileScope()
    ensures ClassifyChangeScope(Push, ["lib.rs"], false, false).swiftNodeRequired
    ensures !IsStaticOnlyPath("lib.rs") && !IsSwiftNodeInputPath("lib.rs")
  {
    assert "lib.rs"[0] == 'l';
    var oneFile := ["lib.rs"];
    assert !IsStaticOnlyPath(oneFile[0]);
  }

  lemma OneFileChange(before: Tree, after: Tree)
    requires before == map["lib.rs" := "one"] && after == map["lib.rs" := "two"]
    ensures ChangedNames(before, after) == ["lib.rs"]
  {
    assert DiffersAt(before, after, "lib.rs");
    assert IsPlainName("lib.rs");
    var differing := set path | path in before.Keys + after.Keys && DiffersAt(before, after, path);
    assert differing == {"lib.rs"};
    assert ChangedPaths(before, after)[0] in differing;
  }

  /** The rule the comments promise, that every full push keeps the Swift lane, fails for a push of one Rust file. */
  lemma FullPushWithoutSwiftLane() returns (env: Environment)
    ensures var verdict := RunVerdict(env, Push, Some("before"), Some("after"));
            && verdict.macosVerificationRequired && !verdict.swiftNodeRequired
            && ClassifyChangeScope(Push, ["lib.rs"], false, false).swiftNodeRequired
  {
    var before, after: Tree := map["lib.rs" := "one"], map["lib.rs" := "two"];
    env := Environment(map["before" := before, "after" := after], {}, {}, {}, map[], None, None);
    OneFileChange(before, after);
    RustFileScope();
    var native := NativeInputsChangedBetween(env, "before", "after").value;
    assert "Cargo.toml" !in ["lib.rs"];
    PushIsClassified(env, "before", "after", ["lib.rs"], native);
    RustFileVerdict(native);
  }

  lemma PushIsClassified(env: Environment, base: string, head: string, names: seq<string>, native: bool)
    requires CommitExists(env, base) && CommitExists(env, head) && base != ZERO_GIT_SHA
    requires ChangedPathsBetween(env, base, head) == Some(names) && NativeInputsChangedBetween(env, base, head) == Some(native)
    requires !VersionOnlyBumpBetween(env, base, head, names) && env.verifiedTreeListing.None?
    ensures RunVerdict(env, Push, Some(base), Some(head)) == ClassifyChangeScope(PullRequest, names, native, false)
  {
  }

  lemma RustFileVerdict(native: bool)
    ensures var verdict := ClassifyChangeScope(PullRequest, ["lib.rs"], native, false);
            verdict.macosVerificationRequired && !verdict.swiftNodeRequired
  {
    RustFileScope();
    var oneFile := ["lib.rs"];
    assert !IsStaticOnlyPath(oneFile[0]);
  }
}
