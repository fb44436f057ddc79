// The CI scope protocol over whole histories of default-branch pushes
// (xtask/src/classify_scope.rs with .github/workflows/ci.yml): whatever skipped,
// every head rests on a tree whose macOS lanes ran, and every reuse of a verified
// tree sees the cache inputs a full run published.

module PushHistory {
  import opened Wrappers
  import opened VersionOnlyBump
  import opened VerifiedTree
  import opened ClassifyScope
  import opened GitNames
  import TextOrder
  import TextSearch

  /** One push run: what it saw, the shas the event handed it, and the verdict it published. */
  datatype PushRun = PushRun(env: Environment, before: Option<string>, current: Option<string>, verdict: ChangeScopeVerdict)

  /** The branch's heads in order, the run each push got, and the true contents behind the shas and tree ids. */
  datatype History = History(heads: seq<string>, runs: seq<PushRun>, commits: map<string, Tree>, objects: map<string, Tree>)

  /** Every run publishes the verdict the policy gives it. */
  ghost predicate FollowsPolicy(history: History) {
    forall i {:trigger IsPolicyVerdict(history.runs[i])} :: 0 <= i < |history.runs| ==> IsPolicyVerdict(history.runs[i])
  }

  ghost predicate IsPolicyVerdict(run: PushRun) {
    run.verdict == RunVerdict(run.env, Push, run.before, run.current)
  }

  /** The run sees only true contents, and the event names the pushed range or nothing usable. */
  ghost predicate RunSeesTruth(history: History, run: PushRun, before: string, current: string) {
    && (run.before.Some? ==> run.before.value == before || run.before.value == ZERO_GIT_SHA)
    && (run.current.Some? ==> run.current.value == current)
    && (forall sha :: sha in run.env.commits ==> sha in history.commits && history.commits[sha] == run.env.commits[sha])
    && (forall sha :: sha in run.env.treeIds && sha in history.commits ==>
          run.env.treeIds[sha] in history.objects && history.objects[run.env.treeIds[sha]] == history.commits[sha])
  }

  ghost predicate IsHistory(history: History) {
    && |history.heads| == |history.runs| + 1
    && (forall i :: 0 <= i < |history.heads| ==> history.heads[i] in history.commits)
    && (forall i :: 0 <= i < |history.runs| ==>
          RunSeesTruth(history, history.runs[i], history.heads[i], history.heads[i + 1]))
  }

  function TreeAt(history: History, i: nat): Tree
    requires i < |history.heads| && history.heads[i] in history.commits
  {
    history.commits[history.heads[i]]
  }

  /** The macOS lanes ran on this tree: on the branch's first head, on a push that required them, or for a pull request. */
  ghost predicate LanesRan(history: History, pullRequestTrees: set<Tree>, tree: Tree)
    requires IsHistory(history)
  {
    || tree in pullRequestTrees
    || tree == TreeAt(history, 0)
    || exists i :: 0 <= i < |history.runs| && history.runs[i].verdict.macosVerificationRequired && tree == TreeAt(history, i + 1)
  }

  /** The workflow leaves a verified-tree record only for a tree whose lanes ran on a pull request. */
  ghost predicate RecordsAreEarned(history: History, pullRequestTrees: set<Tree>) {
    forall i, id :: 0 <= i < |history.runs| && id in history.objects
        && history.runs[i].env.verifiedTreeListing.Some?
        && HasLiveRecord(history.runs[i].env.verifiedTreeListing.value, VERIFIED_TREE_ARTIFACT_PREFIX + id)
      ==> history.objects[id] in pullRequestTrees
  }

  /** A change that cannot alter what the lanes prove: static paths only, or a proven version bump. */
  ghost predicate IsHarmlessStep(base: Tree, head: Tree) {
    ChangesOnlyStaticPaths(base, head) || IsProvenBump(base, head)
  }

  ghost predicate AreHarmlessSteps(trees: seq<Tree>) {
    forall i :: 0 <= i < |trees| - 1 ==> IsHarmlessStep(trees[i], trees[i + 1])
  }

  /** A tree reached from one whose lanes ran by harmless steps alone. */
  ghost predicate RestsOnVerifiedWork(history: History, pullRequestTrees: set<Tree>, tree: Tree)
    requires IsHistory(history)
  {
    exists trees :: RestsThrough(history, pullRequestTrees, tree, trees)
  }

  ghost predicate RestsThrough(history: History, pullRequestTrees: set<Tree>, tree: Tree, trees: seq<Tree>)
    requires IsHistory(history)
  {
    && trees != []
    && LanesRan(history, pullRequestTrees, trees[0])
    && trees[|trees| - 1] == tree
    && AreHarmlessSteps(trees)
  }

  lemma RanTreeRestsOnItself(history: History, pullRequestTrees: set<Tree>, tree: Tree)
    requires IsHistory(history) && LanesRan(history, pullRequestTrees, tree)
    ensures RestsOnVerifiedWork(history, pullRequestTrees, tree)
  {
    assert RestsThrough(history, pullRequestTrees, tree, [tree]);
  }

  lemma HarmlessStepExtends(history: History, pullRequestTrees: set<Tree>, base: Tree, head: Tree)
    requires IsHistory(history) && RestsOnVerifiedWork(history, pullRequestTrees, base)
    requires IsHarmlessStep(base, head)
    ensures RestsOnVerifiedWork(history, pullRequestTrees, head)
  {
    var trees :| RestsThrough(history, pullRequestTrees, base, trees);
    var extended := trees + [head];
    forall i | 0 <= i < |extended| - 1
      ensures IsHarmlessStep(extended[i], extended[i + 1])
    {
      if i < |trees| - 1 {
        assert IsHarmlessStep(trees[i], trees[i + 1]);
      }
    }
    assert RestsThrough(history, pullRequestTrees, head, extended);
  }

  /** Over every history, each head rests on a tree whose macOS lanes ran, however many pushes skipped them. */
  lemma {:induction false} EveryHeadRestsOnVerifiedWork(history: History, pullRequestTrees: set<Tree>, i: nat)
    requires IsHistory(history) && FollowsPolicy(history) && RecordsAreEarned(history, pullRequestTrees)
    requires i < |history.heads|
    ensures RestsOnVerifiedWork(history, pullRequestTrees, TreeAt(history, i))
  {
    if i == 0 {
      RanTreeRestsOnItself(history, pullRequestTrees, TreeAt(history, 0));
    } else {
      var run := history.runs[i - 1];
      EveryHeadRestsOnVerifiedWork(history, pullRequestTrees, i - 1);
      if run.verdict.macosVerificationRequired {
        RanTreeRestsOnItself(history, pullRequestTrees, TreeAt(history, i));
      } else {
        SkippedRunIsJustified(history, pullRequestTrees, i - 1);
      }
    }
  }

  // --- What a head shares with verified work ---

  /** What the lanes vouch for: everything but static paths, the version files and the notices digest. */
  predicate IsCoveredPath(path: string) {
    && !IsStaticOnlyPath(path)
    && path != WORKSPACE_MANIFEST_PATH && path != LOCKFILE_PATH && path != NOTICES_DIGEST_PATH
  }

  ghost predicate SharesCoveredPaths(a: Tree, b: Tree) {
    forall path :: IsCoveredPath(path) ==> !DiffersAt(a, b, path)
  }

  lemma NamedVersionFile(path: string)
    requires IsCoveredPath(path)
    ensures GitName(path) != WORKSPACE_MANIFEST_PATH && GitName(path) != LOCKFILE_PATH && GitName(path) != NOTICES_DIGEST_PATH
  {
    QuotesTell(path);
    assert WORKSPACE_MANIFEST_PATH[0] != '\"' && LOCKFILE_PATH[0] != '\"' && NOTICES_DIGEST_PATH[0] != '\"';
  }

  lemma BumpKeepsCovered(base: Tree, head: Tree, path: string)
    requires ChangesOnlyVersionBumpPaths(ChangedNames(base, head)) && IsCoveredPath(path)
    ensures !DiffersAt(base, head, path)
  {
    NamedVersionFile(path);
    if DiffersAt(base, head, path) {
      ChangedIsNamed(base, head, path);
    }
  }

  lemma HarmlessStepShares(base: Tree, head: Tree)
    requires IsHarmlessStep(base, head)
    ensures SharesCoveredPaths(base, head)
  {
    if IsProvenBump(base, head) {
      forall path | IsCoveredPath(path)
        ensures !DiffersAt(base, head, path)
      {
        BumpKeepsCovered(base, head, path);
      }
    }
  }

  lemma SharingComposes(a: Tree, b: Tree, c: Tree)
    requires SharesCoveredPaths(a, b) && SharesCoveredPaths(b, c)
    ensures SharesCoveredPaths(a, c)
  {
    forall path | IsCoveredPath(path)
      ensures !DiffersAt(a, c, path)
    {
      assert !DiffersAt(a, b, path) && !DiffersAt(b, c, path);
    }
  }

  /** The manifests and the lockfiles are the same, but for the versions of the workspace and its own packages. */
  ghost predicate SharesVersionFiles(a: Tree, b: Tree) {
    && (WORKSPACE_MANIFEST_PATH in a <==> WORKSPACE_MANIFEST_PATH in b)
    && (LOCKFILE_PATH in a <==> LOCKFILE_PATH in b)
    && (WORKSPACE_MANIFEST_PATH in a && WORKSPACE_MANIFEST_PATH in b ==>
          SameManifest(a[WORKSPACE_MANIFEST_PATH], b[WORKSPACE_MANIFEST_PATH]))
    && (LOCKFILE_PATH in a && LOCKFILE_PATH in b ==> SameLockfile(a[LOCKFILE_PATH], b[LOCKFILE_PATH]))
  }

  lemma VersionFilesAreNotStatic()
    ensures !IsStaticOnlyPath(WORKSPACE_MANIFEST_PATH) && !IsStaticOnlyPath(LOCKFILE_PATH)
  {
    NotStatic(WORKSPACE_MANIFEST_PATH);
    NotStatic(LOCKFILE_PATH);
  }

  lemma NotStatic(path: string)
    requires |path| == 10 && path[0] == 'C' && path[9] != 'd' && path[9] != 'e'
    ensures !IsStaticOnlyPath(path)
  {
    assert !TextSearch.EndsWith(path, ".md") by {
      assert path[9] != ".md"[2];
    }
    assert !TextSearch.EndsWith(path, "/.gitignore");
    assert path[0] != "site/"[0] && path[0] != ".github/"[0] && path[0] != ".gitignore"[0];
  }

  lemma SharesOwnVersionFiles(a: Tree, b: Tree)
    requires !DiffersAt(a, b, WORKSPACE_MANIFEST_PATH) && !DiffersAt(a, b, LOCKFILE_PATH)
    ensures SharesVersionFiles(a, b)
  {
    if LOCKFILE_PATH in a {
      SameLockfileItself(a[LOCKFILE_PATH]);
    }
  }

  lemma HarmlessStepSharesVersions(base: Tree, head: Tree)
    requires IsHarmlessStep(base, head)
    ensures SharesVersionFiles(base, head)
  {
    if IsProvenBump(base, head) {
      BumpKeepsVersionFiles(ChangedNames(base, head),
                            VersionBumpTexts(base[WORKSPACE_MANIFEST_PATH], head[WORKSPACE_MANIFEST_PATH],
                                             base[LOCKFILE_PATH], head[LOCKFILE_PATH]));
    } else {
      VersionFilesAreNotStatic();
      SharesOwnVersionFiles(base, head);
    }
  }

  lemma SharingVersionsComposes(a: Tree, b: Tree, c: Tree)
    requires SharesVersionFiles(a, b) && SharesVersionFiles(b, c)
    ensures SharesVersionFiles(a, c)
  {
    if WORKSPACE_MANIFEST_PATH in a {
      SameManifestComposes(a[WORKSPACE_MANIFEST_PATH], b[WORKSPACE_MANIFEST_PATH], c[WORKSPACE_MANIFEST_PATH]);
    }
    if LOCKFILE_PATH in a {
      SamePackagesCompose(Packages(a), Packages(b), Packages(c));
    }
  }

  function Packages(tree: Tree): seq<string>
    requires LOCKFILE_PATH in tree
  {
    TextSearch.SplitOn(tree[LOCKFILE_PATH], LOCKFILE_PACKAGE_SEPARATOR)
  }

  lemma {:induction false} HarmlessStepsShare(trees: seq<Tree>, count: nat)
    requires count < |trees| && AreHarmlessSteps(trees)
    ensures SharesCoveredPaths(trees[0], trees[count]) && SharesVersionFiles(trees[0], trees[count])
  {
    if count == 0 {
      SharesOwnVersionFiles(trees[0], trees[0]);
    } else {
      HarmlessStepsShare(trees, count - 1);
      OneStepShares(trees, count - 1);
      SharingComposes(trees[0], trees[count - 1], trees[count]);
      SharingVersionsComposes(trees[0], trees[count - 1], trees[count]);
    }
  }

  lemma OneStepShares(trees: seq<Tree>, i: nat)
    requires i + 1 < |trees| && AreHarmlessSteps(trees)
    ensures SharesCoveredPaths(trees[i], trees[i + 1]) && SharesVersionFiles(trees[i], trees[i + 1])
  {
    HarmlessStepShares(trees[i], trees[i + 1]);
    HarmlessStepSharesVersions(trees[i], trees[i + 1]);
  }

  /**
    * Each head agrees, at every path the lanes vouch for, with some tree they
    * ran on; and its manifest and lockfile are that tree's, but for versions of
    * the workspace and of packages without a source.
    */
  lemma EveryHeadSharesVerifiedContent(history: History, pullRequestTrees: set<Tree>, i: nat) returns (verified: Tree)
    requires IsHistory(history) && FollowsPolicy(history) && RecordsAreEarned(history, pullRequestTrees)
    requires i < |history.heads|
    ensures LanesRan(history, pullRequestTrees, verified)
    ensures SharesCoveredPaths(verified, TreeAt(history, i)) && SharesVersionFiles(verified, TreeAt(history, i))
  {
    EveryHeadRestsOnVerifiedWork(history, pullRequestTrees, i);
    var trees :| RestsThrough(history, pullRequestTrees, TreeAt(history, i), trees);
    HarmlessStepsShare(trees, |trees| - 1);
    verified := trees[0];
  }

  lemma SkippedRunIsJustified(history: History, pullRequestTrees: set<Tree>, i: nat)
    requires IsHistory(history) && FollowsPolicy(history) && RecordsAreEarned(history, pullRequestTrees)
    requires i < |history.runs| && !history.runs[i].verdict.macosVerificationRequired
    requires RestsOnVerifiedWork(history, pullRequestTrees, TreeAt(history, i))
    ensures RestsOnVerifiedWork(history, pullRequestTrees, TreeAt(history, i + 1))
  {
    var run := history.runs[i];
    SkipReason(history, run);
    if run.verdict.classification == "already_verified_tree" {
      ReusedTreeRan(history, pullRequestTrees, i);
      RanTreeRestsOnItself(history, pullRequestTrees, TreeAt(history, i + 1));
    } else {
      HarmlessStepExtends(history, pullRequestTrees, TreeAt(history, i), TreeAt(history, i + 1));
    }
  }

  /** The reason a run skipped its lanes, in the contents of the range it was handed. */
  lemma SkipReason(history: History, run: PushRun)
    requires FollowsPolicy(history) && run in history.runs && !run.verdict.macosVerificationRequired
    ensures run.before.Some? && run.current.Some? && run.before.value != ZERO_GIT_SHA
    ensures run.before.value in run.env.commits && run.current.value in run.env.commits
    ensures if run.verdict.classification == "already_verified_tree" then IsTreeAlreadyVerified(run.env, run.current.value)
            else IsHarmlessStep(run.env.commits[run.before.value], run.env.commits[run.current.value])
  {
    var i :| 0 <= i < |history.runs| && history.runs[i] == run;
    assert IsPolicyVerdict(history.runs[i]);
    SkipHasAReason(run.env, Push, run.before, run.current);
  }

  /** What a reused tree says about the caches, in one run's own view. */
  lemma ReuseReason(history: History, run: PushRun) returns (record: Artifact)
    requires FollowsPolicy(history) && run in history.runs && run.verdict.classification == "already_verified_tree"
    ensures run.env.defaultBranchRunListing.Some?
    ensures record in run.env.defaultBranchRunListing.value && IsRunRecord(record)
    ensures IsNewestOf(record, run.env.defaultBranchRunListing.value)
    ensures run.current.Some? && run.current.value in run.env.commits && record.headSha.value in run.env.commits
    ensures SameCacheInputs(run.env.commits[record.headSha.value], run.env.commits[run.current.value])
  {
    var i :| 0 <= i < |history.runs| && history.runs[i] == run;
    assert IsPolicyVerdict(history.runs[i]);
    ReuseKeepsCacheInputs(run.env, run.before, run.current);
    var listing := run.env.defaultBranchRunListing.value;
    record := NewestRunRecord(listing).value;
    forall other | other in listing && IsRunRecord(other)
      ensures !TextOrder.Before(record.createdAt.value, other.createdAt.value)
    {
      NewestIsNewest(listing, other);
    }
  }

  lemma ReusedTreeRan(history: History, pullRequestTrees: set<Tree>, i: nat)
    requires IsHistory(history) && RecordsAreEarned(history, pullRequestTrees)
    requires i < |history.runs| && history.runs[i].current.Some?
    requires IsTreeAlreadyVerified(history.runs[i].env, history.runs[i].current.value)
    ensures TreeAt(history, i + 1) in pullRequestTrees
  {
    var env := history.runs[i].env;
    var id := env.treeIds[history.heads[i + 1]];
    ListingProvesLiveRecord(env.verifiedTreeListing.value, id);
  }

  // --- Cache inputs ---

  /** The workflow leaves a default-branch record only for a pushed head whose run required the macOS lanes. */
  ghost predicate RunRecordsAreEarned(history: History)
    requires IsHistory(history)
  {
    forall i, artifact :: 0 <= i < |history.runs| && history.runs[i].env.defaultBranchRunListing.Some?
        && artifact in history.runs[i].env.defaultBranchRunListing.value && IsRunRecord(artifact)
      ==> exists j :: 0 <= j < |history.runs| && IsFullRunOf(history, j, artifact.headSha.value)
  }

  ghost predicate IsFullRunOf(history: History, j: nat, sha: string)
    requires IsHistory(history) && j < |history.runs|
  {
    history.runs[j].verdict.macosVerificationRequired && history.heads[j + 1] == sha
  }

  /**
   * A push that reuses a verified tree has, at every cache-input and native path, exactly what the newest live
   * full run of the branch had, however many pushes in between skipped their lanes. While every full run
   * differs from the present content of such a path, no push reuses a verified tree.
   */
  lemma ReuseSeesPublishedCaches(history: History, i: nat) returns (j: nat, record: Artifact)
    requires IsHistory(history) && FollowsPolicy(history) && RunRecordsAreEarned(history)
    requires i < |history.runs| && history.runs[i].verdict.classification == "already_verified_tree"
    ensures j < |history.runs| && j != i && IsFullRunOf(history, j, history.heads[j + 1])
    ensures SameCacheInputs(TreeAt(history, j + 1), TreeAt(history, i + 1))
    ensures history.runs[i].env.defaultBranchRunListing.Some?
    ensures var listing := history.runs[i].env.defaultBranchRunListing.value;
            && record in listing && IsRunRecord(record) && record.headSha == Some(history.heads[j + 1])
            && IsNewestOf(record, listing)
  {
    record := ReuseReason(history, history.runs[i]);
    j := FullRunBehind(history, i, record);
    SeenTreeIsTrue(history, i, record.headSha.value);
    SeenTreeIsTrue(history, i, history.runs[i].current.value);
    ReuseSkipsLanes(history, history.runs[i]);
  }

  lemma ReuseSkipsLanes(history: History, run: PushRun)
    requires FollowsPolicy(history) && run in history.runs && run.verdict.classification == "already_verified_tree"
    ensures !run.verdict.macosVerificationRequired
  {
    var i :| 0 <= i < |history.runs| && history.runs[i] == run;
    assert IsPolicyVerdict(history.runs[i]);
  }

  lemma FullRunBehind(history: History, i: nat, record: Artifact) returns (j: nat)
    requires IsHistory(history) && RunRecordsAreEarned(history) && i < |history.runs|
    requires history.runs[i].env.defaultBranchRunListing.Some?
    requires record in history.runs[i].env.defaultBranchRunListing.value && IsRunRecord(record)
    ensures j < |history.runs| && IsFullRunOf(history, j, record.headSha.value)
  {
    j :| 0 <= j < |history.runs| && IsFullRunOf(history, j, record.headSha.value);
  }

  lemma SeenTreeIsTrue(history: History, i: nat, sha: string)
    requires IsHistory(history) && i < |history.runs| && sha in history.runs[i].env.commits
    ensures sha in history.commits && history.commits[sha] == history.runs[i].env.commits[sha]
    ensures history.runs[i].current.Some? ==> history.runs[i].current.value == history.heads[i + 1]
  {
    assert RunSeesTruth(history, history.runs[i], history.heads[i], history.heads[i + 1]);
  }

  ghost predicate IsNewestOf(record: Artifact, listing: seq<Artifact>)
    requires IsRunRecord(record)
  {
    forall other :: other in listing && IsRunRecord(other) ==>
      !TextOrder.Before(record.createdAt.value, other.createdAt.value)
  }
}
