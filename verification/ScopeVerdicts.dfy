// What every run of the scope classifier decides (xtask/src/classify_scope.rs),
// told from the trees, the listings and what git could answer.

module ScopeVerdicts {
  import opened Wrappers
  import opened TextOrder
  import opened TextSearch
  import opened VersionOnlyBump
  import opened VersionBumpRules
  import opened VerifiedTree
  import opened GitNames
  import opened ClassifyScope

  // --- The paths, written out ---

  ghost predicate StartsWithOneOf(path: string, prefixes: seq<string>) {
    exists prefix :: prefix in prefixes && prefix <= path
  }

  ghost predicate IsStatic(name: string) {
    || StartsWithOneOf(name, ["site/", ".github/assets/"])
    || (exists stem :: name == stem + ".md" || name == stem + "/.gitignore")
    || name in [".gitignore", ".github/dependabot.yml", ".github/workflows/pages.yml"]
  }

  ghost predicate IsCacheInput(path: string) {
    StartsWithOneOf(path, ["Cargo.lock", "rust-toolchain.toml", "third-party/tool-pins/",
                           "third-party/native-dependency-manifest.cmake", "third-party/pins/", ".github/workflows/ci.yml",
                           ".github/actions/", "apps/astronomical-menu/", "apps/thin-talk/"])
  }

  ghost predicate IsSwiftInput(path: string) {
    StartsWithOneOf(path, ["apps/astronomical-menu/", "apps/thin-talk/", "apps/daemon/console/", "scripts/internal/",
                           "scripts/ci/", "site/schemas/", ".node-version", ".github/workflows/ci.yml", ".github/actions/"])
  }

  predicate IsNoticesInput(path: string) {
    path in ["Cargo.lock", "third-party/tool-pins/Cargo.toml", "third-party/about.toml", "third-party/rust-dependency-notices.hbs",
             "third-party/RUST_DEPENDENCY_NOTICES", "third-party/RUST_DEPENDENCY_NOTICES.digest"]
  }

  ghost predicate IsNativeInput(path: string) {
    exists native ::
      && native in ["crates/runtime-integration/build.rs", "crates/mlx-c-rust/build.rs",
                    "crates/native-build-orchestration/src/native_linking.rs",
                    "crates/native-build-orchestration/src/native_store.rs",
                    "crates/native-build-orchestration/src/native_store/manifest.rs",
                    "crates/native-build-orchestration/src/native_compile.rs",
                    "crates/native-build-orchestration/src/native-build-store-schema-version",
                    "crates/runtime-integration/native", "crates/native-identity/src",
                    "third-party/native-dependency-manifest.cmake", "third-party/pins", "third-party/patches",
                    "rust-toolchain.toml"]
      && (path == native || native + "/" <= path)
  }

  lemma PrefixMeans(path: string, prefix: string)
    ensures StartsWith(path, prefix) <==> prefix <= path
  {
  }

  lemma SuffixMeans(path: string, suffix: string)
    ensures EndsWith(path, suffix) <==> exists stem :: path == stem + suffix
  {
    if EndsWith(path, suffix) {
      assert path == path[..|path| - |suffix|] + suffix;
    }
  }

  lemma AnyPrefixMeans(path: string, prefixes: seq<string>)
    ensures StartsWithAny(path, prefixes) <==> StartsWithOneOf(path, prefixes)
  {
    if i :| 0 <= i < |prefixes| && StartsWith(path, prefixes[i]) {
      assert prefixes[i] in prefixes && prefixes[i] <= path;
    }
    if prefix :| prefix in prefixes && prefix <= path {
      var i :| 0 <= i < |prefixes| && prefixes[i] == prefix;
      assert StartsWith(path, prefixes[i]);
    }
  }

  lemma CacheInputMeans(path: string)
    ensures IsCacheInputPath(path) <==> IsCacheInput(path)
  {
    AnyPrefixMeans(path, CACHE_INPUT_PATH_PREFIXES);
  }

  lemma SwiftInputMeans(path: string)
    ensures IsSwiftNodeInputPath(path) <==> IsSwiftInput(path)
  {
    AnyPrefixMeans(path, SWIFT_NODE_INPUT_PATH_PREFIXES);
  }

  lemma NativeInputMeans(path: string)
    ensures IsNativeInputPath(path) <==> IsNativeInput(path)
  {
    var specs := NATIVE_INPUT_PATHSPECS;
    if i :| 0 <= i < |specs| && (path == specs[i] || StartsWith(path, specs[i] + "/")) {
      assert specs[i] in specs;
    }
    if native :| native in specs && (path == native || native + "/" <= path) {
      var i :| 0 <= i < |specs| && specs[i] == native;
      PrefixMeans(path, specs[i] + "/");
    }
  }

  lemma StaticMeans(name: string)
    ensures IsStaticOnlyPath(name) <==> IsStatic(name)
  {
    var prefixes := ["site/", ".github/assets/"];
    SuffixMeans(name, ".md");
    SuffixMeans(name, "/.gitignore");
    assert StartsWith(name, "site/") ==> prefixes[0] in prefixes && prefixes[0] <= name;
    assert StartsWith(name, ".github/assets/") ==> prefixes[1] in prefixes && prefixes[1] <= name;
  }

  // --- What changed between two trees ---

  predicate Changes(base: Tree, head: Tree, path: string) {
    (path in base) != (path in head) || (path in base && path in head && base[path] != head[path])
  }

  ghost predicate ChangesOnlyStatic(base: Tree, head: Tree) {
    forall path :: Changes(base, head, path) ==> IsStatic(GitName(path))
  }

  ghost predicate ChangesNative(base: Tree, head: Tree) {
    exists path :: Changes(base, head, path) && IsNativeInput(path)
  }

  /** The rules compare names as git prints them, so they miss what git quotes. */
  ghost predicate ChangesNamedCacheInput(base: Tree, head: Tree) {
    exists path :: Changes(base, head, path) && IsCacheInput(path) && IsPlainName(path)
  }

  ghost predicate ChangesNamedSwiftInput(base: Tree, head: Tree) {
    exists path :: Changes(base, head, path) && IsSwiftInput(path) && IsPlainName(path)
  }

  ghost predicate ChangesNotices(base: Tree, head: Tree) {
    exists path :: Changes(base, head, path) && IsNoticesInput(path)
  }

  ghost predicate ChangesOnlyVersionFiles(base: Tree, head: Tree) {
    && Changes(base, head, "Cargo.toml") && Changes(base, head, "Cargo.lock")
    && forall path :: Changes(base, head, path) ==> path in ["Cargo.toml", "Cargo.lock", "third-party/RUST_DEPENDENCY_NOTICES.digest"]
  }

  /** The names tell of a path rule what the changed paths do. */
  lemma NamesTell(base: Tree, head: Tree, rule: string -> bool)
    ensures (exists i :: 0 <= i < |ChangedNames(base, head)| && rule(ChangedNames(base, head)[i])) <==>
              exists path :: Changes(base, head, path) && rule(GitName(path))
  {
    var names := ChangedNames(base, head);
    if i :| 0 <= i < |names| && rule(names[i]) {
      var path := NamedIsChanged(base, head, i);
      assert Changes(base, head, path);
    }
    if path :| Changes(base, head, path) && rule(GitName(path)) {
      ChangedIsNamed(base, head, path);
    }
  }

  /** A plain text is the name of its own path and of no other. */
  lemma PlainNameMeans(path: string, text: string)
    requires IsPlainName(text)
    ensures GitName(path) == text <==> path == text
  {
    QuotesTell(path);
    QuotesTell(text);
    if !IsPlainName(path) {
      assert GitName(path)[0] == '\"' && GitName(path)[0] in GitName(path);
    }
  }

  lemma DigestNameIsPlain()
    ensures IsPlainName("third-party/RUST_DEPENDENCY_NOTICES.digest")
  {
  }

  lemma TemplateNameIsPlain()
    ensures IsPlainName("third-party/rust-dependency-notices.hbs")
  {
  }

  lemma NoticesNameIsPlain()
    ensures IsPlainName("third-party/RUST_DEPENDENCY_NOTICES")
  {
  }

  lemma ToolPinsNameIsPlain()
    ensures IsPlainName("third-party/tool-pins/Cargo.toml") && IsPlainName("third-party/about.toml")
  {
  }

  lemma VersionNamesArePlain()
    ensures IsPlainName("Cargo.lock") && IsPlainName("Cargo.toml")
  {
  }

  lemma NoticesPathsArePlain(text: string)
    requires IsNoticesInput(text)
    ensures IsPlainName(text)
  {
    DigestNameIsPlain();
    TemplateNameIsPlain();
    NoticesNameIsPlain();
    ToolPinsNameIsPlain();
    VersionNamesArePlain();
  }

  lemma NoticesByName(path: string)
    ensures IsNoticesFreshnessInputPath(GitName(path)) <==> IsNoticesInput(path)
  {
    var inputs := NOTICES_FRESHNESS_INPUT_PATHS;
    if IsNoticesInput(GitName(path)) {
      NoticesPathsArePlain(GitName(path));
      PlainNameMeans(path, GitName(path));
    }
    if IsNoticesInput(path) {
      NoticesPathsArePlain(path);
      PlainNameMeans(path, path);
    }
  }

  lemma OnlyTheseByName(base: Tree, head: Tree, allowed: seq<string>)
    requires forall text :: text in allowed ==> IsPlainName(text)
    ensures (forall name :: name in ChangedNames(base, head) ==> name in allowed) <==>
              forall path :: Changes(base, head, path) ==> path in allowed
  {
    var names := ChangedNames(base, head);
    if forall name :: name in names ==> name in allowed {
      forall path | Changes(base, head, path)
        ensures path in allowed
      {
        ChangedIsNamed(base, head, path);
        PlainNameMeans(path, GitName(path));
      }
    }
    if forall path :: Changes(base, head, path) ==> path in allowed {
      forall name | name in names
        ensures name in allowed
      {
        var i :| 0 <= i < |names| && names[i] == name;
        var path := NamedIsChanged(base, head, i);
        assert Changes(base, head, path);
        PlainNameMeans(path, path);
      }
    }
  }

  lemma VersionFilesByName(base: Tree, head: Tree)
    ensures AreBumpPaths(ChangedNames(base, head)) <==> ChangesOnlyVersionFiles(base, head)
  {
    VersionNamesArePlain();
    DigestNameIsPlain();
    NameIsListed(base, head, "Cargo.toml");
    NameIsListed(base, head, "Cargo.lock");
    OnlyTheseByName(base, head, ["Cargo.toml", "Cargo.lock", "third-party/RUST_DEPENDENCY_NOTICES.digest"]);
  }

  lemma NameIsListed(base: Tree, head: Tree, text: string)
    requires IsPlainName(text)
    ensures text in ChangedNames(base, head) <==> Changes(base, head, text)
  {
    var names := ChangedNames(base, head);
    if text in names {
      var i :| 0 <= i < |names| && names[i] == text;
      var path := NamedIsChanged(base, head, i);
      PlainNameMeans(path, text);
    }
    if Changes(base, head, text) {
      ChangedIsNamed(base, head, text);
      PlainNameMeans(text, text);
    }
  }

  // --- The parts of a verdict ---

  lemma NoticesFromTrees(base: Tree, head: Tree)
    ensures var names := ChangedNames(base, head);
            (exists i :: 0 <= i < |names| && IsNoticesFreshnessInputPath(names[i])) <==> ChangesNotices(base, head)
  {
    NamesTell(base, head, IsNoticesFreshnessInputPath);
    forall path
      ensures IsNoticesFreshnessInputPath(GitName(path)) <==> IsNoticesInput(path)
    {
      NoticesByName(path);
    }
  }

  lemma SwiftFromTrees(base: Tree, head: Tree)
    ensures var names := ChangedNames(base, head);
            (exists i :: 0 <= i < |names| && IsSwiftNodeInputPath(names[i])) <==> ChangesNamedSwiftInput(base, head)
  {
    NamesTell(base, head, IsSwiftNodeInputPath);
    forall path
      ensures IsSwiftNodeInputPath(GitName(path)) <==> IsSwiftInput(path) && IsPlainName(path)
    {
      SwiftInputByName(path);
      SwiftInputMeans(path);
    }
  }

  lemma CacheFromTrees(base: Tree, head: Tree)
    ensures var names := ChangedNames(base, head);
            (exists i :: 0 <= i < |names| && IsCacheInputPath(names[i])) <==> ChangesNamedCacheInput(base, head)
  {
    NamesTell(base, head, IsCacheInputPath);
    forall path
      ensures IsCacheInputPath(GitName(path)) <==> IsCacheInput(path) && IsPlainName(path)
    {
      CacheInputByName(path);
      CacheInputMeans(path);
    }
  }

  lemma StaticFromTrees(base: Tree, head: Tree)
    ensures var names := ChangedNames(base, head);
            (forall i :: 0 <= i < |names| ==> IsStaticOnlyPath(names[i])) <==> ChangesOnlyStatic(base, head)
  {
    NamesTell(base, head, name => !IsStaticOnlyPath(name));
    forall path
      ensures IsStaticOnlyPath(GitName(path)) <==> IsStatic(GitName(path))
    {
      StaticMeans(GitName(path));
    }
  }

  lemma NativeFromTrees(env: Environment, base: string, head: string)
    requires CommitExists(env, base) && CommitExists(env, head) && (base, head) !in env.failedNativeDiffs
    ensures NativeInputsChangedBetween(env, base, head) == Some(ChangesNative(env.commits[base], env.commits[head]))
  {
    PathsShowNativeInputs(env.commits[base], env.commits[head]);
    forall path
      ensures IsNativeInputPath(path) <==> IsNativeInput(path)
    {
      NativeInputMeans(path);
    }
  }

  // --- Runs without a range ---

  /** A manual run requires everything but the native inputs' publication. */
  lemma ManualVerdict(env: Environment, base: Option<string>, head: Option<string>)
    ensures RunVerdict(env, WorkflowDispatch, base, head) == ChangeScopeVerdict(true, false, true, true, true, "manual_run", 0)
  {
  }

  /** git knows both ends of the range and could compare them. */
  predicate IsResolvable(env: Environment, base: Option<string>, head: Option<string>) {
    && base.Some? && head.Some? && base != Some("0000000000000000000000000000000000000000")
    && base.value in env.commits && head.value in env.commits
    && (base.value, head.value) !in env.failedDiffs && (base.value, head.value) !in env.failedNativeDiffs
  }

  /** Any other range: every flag is set. */
  lemma UnresolvedVerdict(env: Environment, event: CiEvent, base: Option<string>, head: Option<string>)
    requires event != WorkflowDispatch && !IsResolvable(env, base, head)
    ensures RunVerdict(env, event, base, head) == ChangeScopeVerdict(true, true, true, true, true, "unknown_history", 0)
  {
  }

  // --- Runs with a range ---

  /** The range is a version-only bump, and git could show the files that prove it. */
  ghost predicate IsBumpRange(env: Environment, base: string, head: string)
    requires base in env.commits && head in env.commits
  {
    var (baseTree, headTree) := (env.commits[base], env.commits[head]);
    && ChangesOnlyVersionFiles(baseTree, headTree)
    && "Cargo.toml" in baseTree && "Cargo.toml" in headTree && "Cargo.lock" in baseTree && "Cargo.lock" in headTree
    && AreReadable(env, base, head)
    && exists oldVersion, newVersion ::
         IsBump(VersionBumpTexts(baseTree["Cargo.toml"], headTree["Cargo.toml"], baseTree["Cargo.lock"], headTree["Cargo.lock"]),
                oldVersion, newVersion)
  }

  lemma BumpFromTrees(env: Environment, base: string, head: string)
    requires base in env.commits && head in env.commits
    ensures VersionOnlyBumpBetween(env, base, head, ChangedNames(env.commits[base], env.commits[head])) <==>
              IsBumpRange(env, base, head)
  {
    var (baseTree, headTree) := (env.commits[base], env.commits[head]);
    VersionFilesByName(baseTree, headTree);
    if "Cargo.toml" in baseTree && "Cargo.toml" in headTree && "Cargo.lock" in baseTree && "Cargo.lock" in headTree {
      BumpFromTexts(env, base, head, ChangedNames(baseTree, headTree),
                    VersionBumpTexts(baseTree["Cargo.toml"], headTree["Cargo.toml"], baseTree["Cargo.lock"], headTree["Cargo.lock"]));
    }
  }

  ghost predicate AreReadable(env: Environment, base: string, head: string) {
    && (base, "Cargo.toml") !in env.unreadableFiles && (head, "Cargo.toml") !in env.unreadableFiles
    && (base, "Cargo.lock") !in env.unreadableFiles && (head, "Cargo.lock") !in env.unreadableFiles
  }

  lemma BetweenMeans(env: Environment, base: string, head: string, names: seq<string>, texts: VersionBumpTexts)
    requires FileIn(env, base, "Cargo.toml", texts.baseManifest) && FileIn(env, head, "Cargo.toml", texts.headManifest)
    requires FileIn(env, base, "Cargo.lock", texts.baseLockfile) && FileIn(env, head, "Cargo.lock", texts.headLockfile)
    ensures VersionOnlyBumpBetween(env, base, head, names) <==>
              AreReadable(env, base, head) && "Cargo.toml" in names && "Cargo.lock" in names && IsVersionOnlyBump(names, texts)
  {
    FileShown(env, base, "Cargo.toml", texts.baseManifest);
    FileShown(env, head, "Cargo.toml", texts.headManifest);
    FileShown(env, base, "Cargo.lock", texts.baseLockfile);
    FileShown(env, head, "Cargo.lock", texts.headLockfile);
    var shown := VersionBumpTexts(texts.baseManifest, texts.headManifest, texts.baseLockfile, texts.headLockfile);
    assert shown == texts;
  }

  lemma FileShown(env: Environment, sha: string, path: string, text: string)
    requires FileIn(env, sha, path, text)
    ensures FileTextAt(env, sha, path) == if (sha, path) in env.unreadableFiles then None else Some(text)
  {
  }

  lemma BumpFromTexts(env: Environment, base: string, head: string, names: seq<string>, texts: VersionBumpTexts)
    requires FileIn(env, base, "Cargo.toml", texts.baseManifest) && FileIn(env, head, "Cargo.toml", texts.headManifest)
    requires FileIn(env, base, "Cargo.lock", texts.baseLockfile) && FileIn(env, head, "Cargo.lock", texts.headLockfile)
    ensures VersionOnlyBumpBetween(env, base, head, names) <==>
              AreReadable(env, base, head) && AreBumpPaths(names) && exists oldVersion, newVersion :: IsBump(texts, oldVersion, newVersion)
  {
    BetweenMeans(env, base, head, names, texts);
    BumpIsAcceptedExactly(names, texts);
  }

  predicate FileIn(env: Environment, sha: string, path: string, text: string) {
    sha in env.commits && path in env.commits[sha] && env.commits[sha][path] == text
  }

  /** The head's tree passed the macOS lanes on a branch of this repository, says a record that is not expired. */
  ghost predicate IsRecorded(env: Environment, head: string) {
    && head in env.treeIds && env.treeIds[head] != "" && env.verifiedTreeListing.Some?
    && exists artifact :: artifact in env.verifiedTreeListing.value
         && artifact.name == Some("verified-tree-" + env.treeIds[head]) && artifact.expired == Some(false)
         && artifact.repositoryId.Some? && artifact.headRepositoryId == artifact.repositoryId
  }

  /** The newest recorded default-branch run is known to git, and no compared cache input has changed since. */
  ghost predicate AreCachesCurrent(env: Environment, head: string)
    requires head in env.commits
  {
    && env.defaultBranchRunListing.Some?
    && exists i: nat :: i < |env.defaultBranchRunListing.value| && IsNewestRun(env.defaultBranchRunListing.value, i)
         && IsCurrentSince(env, env.defaultBranchRunListing.value[i].headSha.value, head)
  }

  ghost predicate IsCurrentSince(env: Environment, run: string, head: string)
    requires head in env.commits
  {
    && run in env.commits && (run, head) !in env.failedDiffs && (run, head) !in env.failedNativeDiffs
    && !ChangesNamedCacheInput(env.commits[run], env.commits[head]) && !ChangesNative(env.commits[run], env.commits[head])
  }

  /** A push may reuse a verified tree: it changes no cache or native input, its tree is recorded, the caches are current. */
  ghost predicate MayReuse(env: Environment, base: string, head: string)
    requires base in env.commits && head in env.commits
  {
    && !ChangesNative(env.commits[base], env.commits[head]) && !ChangesNamedCacheInput(env.commits[base], env.commits[head])
    && IsRecorded(env, head) && AreCachesCurrent(env, head)
  }

  lemma RecordedFromListing(env: Environment, head: string)
    ensures IsTreeAlreadyVerified(env, head) <==> IsRecorded(env, head)
  {
    if env.verifiedTreeListing.Some? && head in env.treeIds {
      TreeIsProvenExactly(env.verifiedTreeListing.value, env.treeIds[head]);
    }
  }

  lemma NewestIsOne(listing: seq<Artifact>, i: nat, j: nat)
    requires i < |listing| && j < |listing| && IsNewestRun(listing, i) && IsNewestRun(listing, j)
    ensures i == j
  {
  }

  lemma NoCacheChangeFromTrees(env: Environment, run: string, head: string)
    requires run in env.commits && head in env.commits
    ensures !HasCacheInputChange(env, run, head) <==>
              && (run, head) !in env.failedDiffs && (run, head) !in env.failedNativeDiffs
              && !ChangesNamedCacheInput(env.commits[run], env.commits[head]) && !ChangesNative(env.commits[run], env.commits[head])
  {
    CacheFromTrees(env.commits[run], env.commits[head]);
    if (run, head) !in env.failedNativeDiffs {
      NativeFromTrees(env, run, head);
    }
  }

  lemma LastRunAt(env: Environment, listing: seq<Artifact>, at: nat)
    requires env.defaultBranchRunListing == Some(listing) && at < |listing|
    requires NewestRunRecord(listing) == Some(listing[at])
    ensures LastDefaultBranchRunCommit(env) == listing[at].headSha
  {
  }

  lemma CachesSince(env: Environment, run: string, head: string)
    requires head in env.commits && LastDefaultBranchRunCommit(env) == Some(run)
    ensures AreDefaultBranchCachesCurrent(env, head) <==> IsCurrentSince(env, run, head)
  {
    if run in env.commits {
      NoCacheChangeFromTrees(env, run, head);
    }
  }

  lemma CachesFromListing(env: Environment, head: string)
    requires head in env.commits
    ensures AreDefaultBranchCachesCurrent(env, head) <==> AreCachesCurrent(env, head)
  {
    if env.defaultBranchRunListing.Some? {
      var listing := env.defaultBranchRunListing.value;
      var at := NewestIsFirstOfLatest(listing);
      if at.Some? {
        LastRunAt(env, listing, at.value);
        CachesSince(env, listing[at.value].headSha.value, head);
        OnlyNewestRun(listing, at.value);
      } else {
        NoLastRun(env, listing);
      }
    }
  }

  lemma OnlyNewestRun(listing: seq<Artifact>, at: nat)
    requires at < |listing| && IsNewestRun(listing, at)
    ensures forall i: nat :: i < |listing| && IsNewestRun(listing, i) ==> i == at
  {
    forall i: nat | i < |listing| && IsNewestRun(listing, i)
      ensures i == at
    {
      NewestIsOne(listing, i, at);
    }
  }

  lemma NoLastRun(env: Environment, listing: seq<Artifact>)
    requires env.defaultBranchRunListing == Some(listing) && NewestRunRecord(listing).None?
    ensures LastDefaultBranchRunCommit(env).None?
  {
  }

  // --- The verdict of a range ---

  lemma ScopeOfNames(names: seq<string>, native: bool, isBump: bool, isStatic: bool, swift: bool, notices: bool)
    requires isStatic <==> forall i :: 0 <= i < |names| ==> IsStaticOnlyPath(names[i])
    requires swift <==> exists i :: 0 <= i < |names| && IsSwiftNodeInputPath(names[i])
    requires notices <==> exists i :: 0 <= i < |names| && IsNoticesFreshnessInputPath(names[i])
    ensures ClassifyChangeScope(PullRequest, names, native, isBump) ==
              ChangeScopeVerdict(!isStatic, native, !isStatic && !isBump, !isStatic && !isBump && swift, notices,
                                 if isStatic then "static_only" else if isBump then "version_only_bump"
                                 else if native then "native_inputs" else "code_or_build", |names|)
  {
  }

  ghost function ChangedCount(base: Tree, head: Tree): nat {
    |set path | path in base.Keys + head.Keys && Changes(base, head, path)|
  }

  lemma NamesAreCounted(base: Tree, head: Tree)
    ensures |ChangedNames(base, head)| == ChangedCount(base, head)
  {
    assert (set path | path in base.Keys + head.Keys && Changes(base, head, path)) ==
             set path | path in base.Keys + head.Keys && DiffersAt(base, head, path);
  }

  /** What the classifier makes of a list of names, told from the trees. */
  lemma ScopeFromTrees(base: Tree, head: Tree, native: bool, isBump: bool)
    ensures var isStatic := ChangesOnlyStatic(base, head);
            ClassifyChangeScope(PullRequest, ChangedNames(base, head), native, isBump) ==
              ChangeScopeVerdict(!isStatic, native, !isStatic && !isBump,
                                 !isStatic && !isBump && ChangesNamedSwiftInput(base, head), ChangesNotices(base, head),
                                 if isStatic then "static_only" else if isBump then "version_only_bump"
                                 else if native then "native_inputs" else "code_or_build", ChangedCount(base, head))
  {
    StaticFromTrees(base, head);
    NoticesFromTrees(base, head);
    SwiftFromTrees(base, head);
    NamesAreCounted(base, head);
    ScopeOfNames(ChangedNames(base, head), native, isBump, ChangesOnlyStatic(base, head), ChangesNamedSwiftInput(base, head),
                 ChangesNotices(base, head));
  }

  /** Whether a push's full verdict gives way to a recorded one. */
  lemma ReuseFromTrees(env: Environment, event: CiEvent, base: string, head: string, verdict: ChangeScopeVerdict)
    requires base in env.commits && head in env.commits
    requires verdict.nativeInputsChanged == ChangesNative(env.commits[base], env.commits[head])
    ensures ReuseVerifiedTreeWhenProven(env, event, verdict, ChangedNames(env.commits[base], env.commits[head]), head) ==
              if event == Push && verdict.macosVerificationRequired && MayReuse(env, base, head) then
                verdict.(macosVerificationRequired := false, swiftNodeRequired := false, classification := "already_verified_tree")
              else verdict
  {
    CacheFromTrees(env.commits[base], env.commits[head]);
    RecordedFromListing(env, head);
    CachesFromListing(env, head);
  }

  /** The range's verdict before the trees are looked at. */
  lemma RangeVerdict(env: Environment, event: CiEvent, base: Option<string>, head: Option<string>)
    requires event != WorkflowDispatch && IsResolvable(env, base, head)
    ensures var names := ChangedNames(env.commits[base.value], env.commits[head.value]);
            var native := ChangesNative(env.commits[base.value], env.commits[head.value]);
            RunVerdict(env, event, base, head) ==
              ReuseVerifiedTreeWhenProven(env, event,
                                          ClassifyChangeScope(PullRequest, names, native, IsBumpRange(env, base.value, head.value)),
                                          names, head.value)
  {
    NativeFromTrees(env, base.value, head.value);
    BumpFromTrees(env, base.value, head.value);
  }

  /**
    * Every flag of every run over a resolvable range, from the contents alone.
    * The macOS lanes are skipped exactly when all that changed is static, or the
    * range is a version-only bump, or it is a push that may reuse a verified tree.
    */
  lemma ResolvedVerdict(env: Environment, event: CiEvent, base: Option<string>, head: Option<string>)
    requires event != WorkflowDispatch && IsResolvable(env, base, head)
    ensures var verdict := RunVerdict(env, event, base, head);
            var (baseTree, headTree) := (env.commits[base.value], env.commits[head.value]);
            var isStatic, isBump := ChangesOnlyStatic(baseTree, headTree), IsBumpRange(env, base.value, head.value);
            var isReuse := event == Push && !isStatic && !isBump && MayReuse(env, base.value, head.value);
            && verdict.codeChanged == !isStatic
            && verdict.nativeInputsChanged == ChangesNative(baseTree, headTree)
            && verdict.macosVerificationRequired == !(isStatic || isBump || isReuse)
            && verdict.swiftNodeRequired == (verdict.macosVerificationRequired && ChangesNamedSwiftInput(baseTree, headTree))
            && verdict.noticesInputsChanged == ChangesNotices(baseTree, headTree)
            && verdict.classification == (if isStatic then "static_only" else if isBump then "version_only_bump"
                                          else if isReuse then "already_verified_tree"
                                          else if ChangesNative(baseTree, headTree) then "native_inputs" else "code_or_build")
            && verdict.changedFileCount == ChangedCount(baseTree, headTree)
  {
    var (baseTree, headTree) := (env.commits[base.value], env.commits[head.value]);
    var native, isBump := ChangesNative(baseTree, headTree), IsBumpRange(env, base.value, head.value);
    var names := ChangedNames(baseTree, headTree);
    RangeVerdict(env, event, base, head);
    ScopeFromTrees(baseTree, headTree, native, isBump);
    ReuseFromTrees(env, event, base.value, head.value, ClassifyChangeScope(PullRequest, names, native, isBump));
  }
}
