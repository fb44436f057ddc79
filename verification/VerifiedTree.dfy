// What CI already did, read back from the artifact listings its runs left
// (xtask/src/verified_tree.rs), after JSON decoding.

module VerifiedTree {
  import opened Wrappers
  import opened TextOrder

  const VERIFIED_TREE_ARTIFACT_PREFIX := "verified-tree-"
  const DEFAULT_BRANCH_RUN_ARTIFACT := "default-branch-macos-run"

  /** One listed artifact; `None` is a missing or mistyped member. */
  datatype Artifact = Artifact(
    name: Option<string>,
    expired: Option<bool>,
    repositoryId: Option<nat>,
    headRepositoryId: Option<nat>,
    createdAt: Option<string>,
    headSha: Option<string>)

  predicate IsFromThisRepository(artifact: Artifact) {
    artifact.repositoryId.Some? && artifact.repositoryId == artifact.headRepositoryId
  }

  predicate IsLiveRecord(artifact: Artifact, name: string) {
    artifact.name == Some(name) && artifact.expired == Some(false) && IsFromThisRepository(artifact)
  }

  ghost predicate HasLiveRecord(listing: seq<Artifact>, name: string) {
    exists i :: 0 <= i < |listing| && IsLiveRecord(listing[i], name)
  }

  predicate ListingProvesVerifiedTree(listing: seq<Artifact>, treeId: string) {
    listing != [] && (IsLiveRecord(listing[0], VERIFIED_TREE_ARTIFACT_PREFIX + treeId)
                      || ListingProvesVerifiedTree(listing[1..], treeId))
  }

  /** A listing proves a tree exactly when an unexpired artifact of that name comes from a run of this repository on a branch of its own. */
  lemma TreeIsProvenExactly(listing: seq<Artifact>, treeId: string)
    ensures ListingProvesVerifiedTree(listing, treeId) <==>
              exists artifact :: artifact in listing
                && artifact.name == Some("verified-tree-" + treeId) && artifact.expired == Some(false)
                && artifact.repositoryId.Some? && artifact.headRepositoryId == artifact.repositoryId
  {
    ListingProvesLiveRecord(listing, treeId);
    if i :| 0 <= i < |listing| && IsLiveRecord(listing[i], "verified-tree-" + treeId) {
      assert listing[i] in listing;
    }
    if artifact :| artifact in listing && IsLiveRecord(artifact, "verified-tree-" + treeId) {
      var i :| 0 <= i < |listing| && listing[i] == artifact;
    }
  }

  lemma {:induction false} ListingProvesLiveRecord(listing: seq<Artifact>, treeId: string)
    ensures ListingProvesVerifiedTree(listing, treeId) <==>
              HasLiveRecord(listing, VERIFIED_TREE_ARTIFACT_PREFIX + treeId)
  {
    if listing != [] {
      ListingProvesLiveRecord(listing[1..], treeId);
      assert forall i :: 0 < i < |listing| ==> listing[i] == listing[1..][i - 1];
      assert forall i :: 0 <= i < |listing| - 1 ==> listing[1..][i] == listing[i + 1];
    }
  }

  /** A live record of a default-branch macOS run that names its time and commit. */
  predicate IsRunRecord(artifact: Artifact) {
    && IsLiveRecord(artifact, DEFAULT_BRANCH_RUN_ARTIFACT)
    && artifact.createdAt.Some?
    && artifact.headSha.Some?
  }

  /** The record the source's scan keeps: the first of the latest, never one with an empty time. */
  function NewestRunRecord(listing: seq<Artifact>): (newest: Option<Artifact>)
    ensures newest.Some? ==> IsRunRecord(newest.value) && newest.value in listing
  {
    if listing == [] then None
    else
      var earlier, last := NewestRunRecord(listing[..|listing| - 1]), listing[|listing| - 1];
      if IsRunRecord(last) && Before(RecordTime(earlier), last.createdAt.value) then Some(last) else earlier
  }

  function RecordTime(record: Option<Artifact>): string
    requires record.Some? ==> IsRunRecord(record.value)
  {
    if record.None? then "" else record.value.createdAt.value
  }

  method NewestDefaultBranchRunCommit(listing: seq<Artifact>) returns (commit: Option<string>)
    ensures commit == match NewestRunRecord(listing) case None => None case Some(record) => record.headSha
  {
    var newestCommit: Option<string> := None;
    var newestCreatedAt := "";
    var i := 0;
    while i < |listing|
      invariant 0 <= i <= |listing|
      invariant newestCreatedAt == RecordTime(NewestRunRecord(listing[..i]))
      invariant newestCommit == match NewestRunRecord(listing[..i]) case None => None case Some(record) => record.headSha
    {
      var artifact := listing[i];
      assert listing[..i + 1][..i] == listing[..i];
      i := i + 1;
      if artifact.name != Some(DEFAULT_BRANCH_RUN_ARTIFACT) || artifact.expired != Some(false)
         || !IsFromThisRepository(artifact) {
        continue;
      }
      if artifact.createdAt.None? || artifact.headSha.None? {
        continue;
      }
      if Before(newestCreatedAt, artifact.createdAt.value) {
        newestCreatedAt := artifact.createdAt.value;
        newestCommit := artifact.headSha;
      }
    }
    assert listing[..|listing|] == listing;
    return newestCommit;
  }

  /** No live run record is later than the one kept; one is kept as soon as any names a time. */
  lemma {:induction false} NewestIsNewest(listing: seq<Artifact>, other: Artifact)
    requires other in listing && IsRunRecord(other)
    ensures !Before(RecordTime(NewestRunRecord(listing)), other.createdAt.value)
    ensures NewestRunRecord(listing).None? ==> other.createdAt.value == ""
  {
    var front, last := listing[..|listing| - 1], listing[|listing| - 1];
    var kept := RecordTime(NewestRunRecord(front));
    BeforeTrichotomy(other.createdAt.value, "");
    if other in front {
      NewestIsNewest(front, other);
      if IsRunRecord(last) && Before(kept, last.createdAt.value) {
        BeforeTrichotomy(last.createdAt.value, other.createdAt.value);
        if Before(last.createdAt.value, other.createdAt.value) {
          BeforeTransitive(kept, last.createdAt.value, other.createdAt.value);
        }
      }
    } else {
      assert listing == front + [last];
      assert other == last;
      BeforeTrichotomy(last.createdAt.value, last.createdAt.value);
      NothingBeforeEmpty(kept, last.createdAt.value);
    }
  }

  lemma NothingBeforeEmpty(kept: string, time: string)
    ensures kept == "" && !Before(kept, time) ==> time == ""
  {
    BeforeTrichotomy(kept, time);
    assert Codes("") == [];
  }

  /** When live records carry different times, the listing's order cannot change the answer. */
  lemma NewestIgnoresOrder(listing: seq<Artifact>, reordered: seq<Artifact>)
    requires forall artifact :: artifact in listing <==> artifact in reordered
    requires forall a, b :: a in listing && b in listing && IsRunRecord(a) && IsRunRecord(b) && a.createdAt == b.createdAt ==> a == b
    ensures NewestRunRecord(listing) == NewestRunRecord(reordered)
  {
    var a, b := NewestRunRecord(listing), NewestRunRecord(reordered);
    if a.Some? {
      NewestIsNewest(reordered, a.value);
    }
    if b.Some? {
      NewestIsNewest(listing, b.value);
    }
    BeforeTrichotomy(RecordTime(a), RecordTime(b));
    if a.Some? { NewestHasATime(listing); }
    if b.Some? { NewestHasATime(reordered); }
  }

  lemma {:induction false} NewestHasATime(listing: seq<Artifact>)
    requires NewestRunRecord(listing).Some?
    ensures NewestRunRecord(listing).value.createdAt != Some("")
  {
    var last, earlier := listing[|listing| - 1], NewestRunRecord(listing[..|listing| - 1]);
    assert Codes("") == [] && !Before(RecordTime(earlier), "");
    if !(IsRunRecord(last) && Before(RecordTime(earlier), last.createdAt.value)) {
      NewestHasATime(listing[..|listing| - 1]);
    }
  }

  /** The artifact at `i` is a dated, unexpired macOS run of the default branch of this repository. */
  ghost predicate IsDatedRun(listing: seq<Artifact>, i: nat)
    requires i < |listing|
  {
    var artifact := listing[i];
    && artifact.name == Some("default-branch-macos-run") && artifact.expired == Some(false)
    && artifact.repositoryId.Some? && artifact.headRepositoryId == artifact.repositoryId
    && artifact.createdAt.Some? && artifact.createdAt != Some("") && artifact.headSha.Some?
  }

  /** It is the first of the latest such runs. */
  ghost predicate IsNewestRun(listing: seq<Artifact>, i: nat)
    requires i < |listing|
  {
    && IsDatedRun(listing, i)
    && (forall j :: 0 <= j < |listing| && IsDatedRun(listing, j) ==> !Before(listing[i].createdAt.value, listing[j].createdAt.value))
    && (forall j :: 0 <= j < i && IsDatedRun(listing, j) ==> Before(listing[j].createdAt.value, listing[i].createdAt.value))
  }

  lemma DatedIsRecord(listing: seq<Artifact>, i: nat)
    requires i < |listing|
    ensures IsDatedRun(listing, i) <==> IsRunRecord(listing[i]) && listing[i].createdAt != Some("")
  {
  }

  lemma AfterNothing(time: string)
    ensures Before("", time) <==> time != ""
  {
    BeforeTrichotomy("", time);
    assert Codes("") == [];
  }

  lemma FrontRun(listing: seq<Artifact>, front: seq<Artifact>, i: nat)
    requires listing != [] && front == listing[..|listing| - 1] && i < |front|
    ensures IsDatedRun(front, i) <==> IsDatedRun(listing, i)
  {
  }

  /** The scan keeps the first of the latest runs, and nothing exactly when no run is dated. */
  lemma {:induction false} NewestIsFirstOfLatest(listing: seq<Artifact>) returns (at: Option<nat>)
    ensures at.None? ==> NewestRunRecord(listing).None? && forall i :: 0 <= i < |listing| ==> !IsDatedRun(listing, i)
    ensures at.Some? ==> at.value < |listing| && IsNewestRun(listing, at.value) && NewestRunRecord(listing) == Some(listing[at.value])
    decreases |listing|
  {
    if listing == [] {
      at := None;
    } else {
      var front, end := listing[..|listing| - 1], |listing| - 1;
      var earlier := NewestIsFirstOfLatest(front);
      forall i | 0 <= i < end
        ensures IsDatedRun(front, i) <==> IsDatedRun(listing, i)
      {
        FrontRun(listing, front, i);
      }
      at := NewestWithLast(listing, front, earlier);
    }
  }

  lemma NewestWithLast(listing: seq<Artifact>, front: seq<Artifact>, earlier: Option<nat>) returns (at: Option<nat>)
    requires listing != [] && front == listing[..|listing| - 1]
    requires forall i :: 0 <= i < |front| ==> (IsDatedRun(front, i) <==> IsDatedRun(listing, i))
    requires earlier.None? ==> NewestRunRecord(front).None? && forall i :: 0 <= i < |front| ==> !IsDatedRun(front, i)
    requires earlier.Some? ==> earlier.value < |front| && IsNewestRun(front, earlier.value) && NewestRunRecord(front) == Some(front[earlier.value])
    ensures at.None? ==> NewestRunRecord(listing).None? && forall i :: 0 <= i < |listing| ==> !IsDatedRun(listing, i)
    ensures at.Some? ==> at.value < |listing| && IsNewestRun(listing, at.value) && NewestRunRecord(listing) == Some(listing[at.value])
  {
    var end := |listing| - 1;
    var kept := RecordTime(NewestRunRecord(front));
    DatedIsRecord(listing, end);
    AfterNothing(if listing[end].createdAt.Some? then listing[end].createdAt.value else "");
    if IsRunRecord(listing[end]) && Before(kept, listing[end].createdAt.value) {
      at := Some(end);
      LaterThanAll(listing, front, earlier, kept);
    } else {
      at := earlier;
    }
  }

  lemma LaterThanAll(listing: seq<Artifact>, front: seq<Artifact>, earlier: Option<nat>, kept: string)
    requires listing != [] && front == listing[..|listing| - 1]
    requires forall i :: 0 <= i < |front| ==> (IsDatedRun(front, i) <==> IsDatedRun(listing, i))
    requires earlier.None? ==> kept == "" && forall i :: 0 <= i < |front| ==> !IsDatedRun(front, i)
    requires earlier.Some? ==> earlier.value < |front| && IsNewestRun(front, earlier.value) && kept == front[earlier.value].createdAt.value
    requires IsRunRecord(listing[|listing| - 1]) && Before(kept, listing[|listing| - 1].createdAt.value)
    ensures IsNewestRun(listing, |listing| - 1)
  {
    var end := |listing| - 1;
    var time := listing[end].createdAt.value;
    BeforeTrichotomy(time, time);
    AfterNothing(time);
    assert Codes("") == [] && !Before(kept, "");
    DatedIsRecord(listing, end);
    forall j | 0 <= j < end && IsDatedRun(listing, j)
      ensures Before(listing[j].createdAt.value, time) && !Before(time, listing[j].createdAt.value)
    {
      var other := listing[j].createdAt.value;
      assert front[j] == listing[j] && !Before(kept, other);
      BeforeTrichotomy(kept, other);
      if Before(other, kept) {
        BeforeTransitive(other, kept, time);
      }
      BeforeTrichotomy(other, time);
    }
  }
}
