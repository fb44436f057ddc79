// Waiting for a download (apps/astronomical-cli/src/model_lifecycle.rs and
// model_lifecycle/download_progress.rs): polls of a daemon that may be away for
// a while, under a watch on how long nothing has changed.

module DownloadWaiting {
  import opened Wrappers

  const FINALIZE_STALL_MULTIPLIER: nat := 10
  const UNREACHABLE_STATE := "the daemon was unreachable"
  const SETTLING_STATE := "settling"

  datatype Job = Job(state: string, bytesCompleted: nat, error: Option<string>)

  datatype CatalogEntry = CatalogEntry(huggingfaceId: string, readyOnThisMac: bool, downloadState: Option<string>)

  datatype StatusAnswer = ActiveJob(job: Job) | NoJob | Rejected | Unreachable

  /**
    * What the daemon answers in one poll: its status, and, should the poll ask,
    * whether repeating the download request succeeds and what the catalog holds.
    */
  datatype Poll = Poll(elapsed: nat, status: StatusAnswer, restartSucceeds: bool, catalog: Option<seq<CatalogEntry>>)

  datatype Failure =
    | StartFailed
    | StatusRejected
    | JobFailed(error: string)
    | StoppedMoving(stalledFor: nat, state: string)
    | CatalogFailed
    | DidNotComplete

  datatype Outcome = KeepWaiting | Ready | Failed(failure: Failure)

  datatype Signature = Signature(state: string, bytes: nat)

  datatype StallVerdict = Progressing | Stalled(stalledFor: nat, state: string)

  // --- The catalog ---

  /** The part of an id after its last slash. */
  function LeafOf(id: string): string {
    if id == "" || id[|id| - 1] == '/' then "" else LeafOf(id[..|id| - 1]) + [id[|id| - 1]]
  }

  predicate EntryMatches(entry: CatalogEntry, modelId: string) {
    entry.huggingfaceId == modelId || LeafOf(entry.huggingfaceId) == LeafOf(modelId)
  }

  /** The part is the end of the id, holds no slash, and stands after one or is all there is. */
  ghost predicate IsLastPart(id: string, part: string) {
    && |part| <= |id| && id[|id| - |part|..] == part
    && '/' !in part
    && (|part| == |id| || id[|id| - |part| - 1] == '/')
  }

  lemma {:induction false} LeafIsLastPart(id: string, part: string)
    ensures IsLastPart(id, part) <==> part == LeafOf(id)
    decreases |id|
  {
    if id == "" || id[|id| - 1] == '/' {
      LastPartIsEmpty(id, part);
    } else {
      var shorter, last := id[..|id| - 1], id[|id| - 1];
      assert id == shorter + [last];
      if part == "" {
        assert !IsLastPart(id, part);
      } else {
        var start, end := part[..|part| - 1], part[|part| - 1];
        assert part == start + [end];
        LeafIsLastPart(shorter, start);
        LastPartEndsAlike(shorter, start, last, end);
      }
    }
  }

  lemma LastPartIsEmpty(id: string, part: string)
    requires id == "" || id[|id| - 1] == '/'
    ensures IsLastPart(id, part) <==> part == ""
  {
    if 0 < |part| <= |id| && id[|id| - |part|..] == part {
      assert part[|part| - 1] == id[|id| - 1];
    }
  }

  lemma LastPartEndsAlike(id: string, part: string, last: char, end: char)
    requires last != '/'
    ensures IsLastPart(id + [last], part + [end]) <==> last == end && IsLastPart(id, part)
  {
    if last == end {
      LastPartGrows(id, part, last);
    } else if |part| <= |id| {
      var longerId, longer := id + [last], part + [end];
      assert longerId[|longerId| - |longer|..][|part|] == last && longer[|part|] == end;
    }
  }

  lemma LastPartGrows(id: string, part: string, c: char)
    requires c != '/'
    ensures IsLastPart(id + [c], part + [c]) <==> IsLastPart(id, part)
  {
    var longerId, longer := id + [c], part + [c];
    if |part| <= |id| {
      assert longerId[|longerId| - |longer|..] == id[|id| - |part|..] + [c];
      assert longer[..|part|] == part;
    }
  }

  /** An entry matches exactly when it and the id asked about have the same part after their last slash. */
  lemma EntryMatchesMeans(entry: CatalogEntry, modelId: string)
    ensures EntryMatches(entry, modelId) <==> exists part :: IsLastPart(entry.huggingfaceId, part) && IsLastPart(modelId, part)
  {
    LeafIsLastPart(modelId, LeafOf(modelId));
    LeafIsLastPart(entry.huggingfaceId, LeafOf(modelId));
    if part :| IsLastPart(entry.huggingfaceId, part) && IsLastPart(modelId, part) {
      LeafIsLastPart(modelId, part);
    }
  }

  function FirstMatching(entries: seq<CatalogEntry>, modelId: string): (found: Option<CatalogEntry>)
    ensures found.Some? ==> exists i :: IsFirstMatch(entries, modelId, i) && entries[i] == found.value
    ensures found.None? ==> forall entry :: entry in entries ==> !EntryMatches(entry, modelId)
  {
    if entries == [] then None
    else if EntryMatches(entries[0], modelId) then
      assert IsFirstMatch(entries, modelId, 0);
      Some(entries[0])
    else
      var found := FirstMatching(entries[1..], modelId);
      assert found.Some? ==> exists i :: IsFirstMatch(entries, modelId, i) && entries[i] == found.value by {
        if found.Some? {
          var i :| IsFirstMatch(entries[1..], modelId, i) && entries[1..][i] == found.value;
          MatchIsLater(entries, modelId, i);
        }
      }
      found
  }

  predicate IsFirstMatch(entries: seq<CatalogEntry>, modelId: string, i: int) {
    0 <= i < |entries| && EntryMatches(entries[i], modelId) && forall k :: 0 <= k < i ==> !EntryMatches(entries[k], modelId)
  }

  lemma MatchIsLater(entries: seq<CatalogEntry>, modelId: string, i: int)
    requires entries != [] && !EntryMatches(entries[0], modelId) && IsFirstMatch(entries[1..], modelId, i)
    ensures IsFirstMatch(entries, modelId, i + 1)
  {
    forall k | 0 <= k < i + 1
      ensures !EntryMatches(entries[k], modelId)
    {
      if k > 0 {
        assert entries[k] == entries[1..][k - 1];
      }
    }
  }

  // --- The stall watch ---

  function BoundForState(stallBound: nat, state: string): nat {
    if state == "verifying" || state == "publishing" then stallBound * FINALIZE_STALL_MULTIPLIER else stallBound
  }

  function Since(earlier: nat, now: nat): nat {
    if now <= earlier then 0 else now - earlier
  }

  class StallWatch {
    const stallBound: nat
    var lastSignature: Option<Signature>
    var lastChangeAt: nat

    constructor (stallBound: nat)
      ensures this.stallBound == stallBound && lastSignature == None && lastChangeAt == 0
    {
      this.stallBound := stallBound;
      lastSignature, lastChangeAt := None, 0;
    }

    /** A change restarts the clock; the same again is a stall once the clock has run for the state's bound. */
    method Observe(elapsed: nat, state: string, bytesCompleted: nat) returns (verdict: StallVerdict)
      modifies this
      ensures lastSignature == Some(Signature(state, bytesCompleted))
      ensures lastChangeAt == if old(lastSignature) == lastSignature then old(lastChangeAt) else elapsed
      ensures verdict.Stalled? <==>
                old(lastSignature) == lastSignature && Since(lastChangeAt, elapsed) >= BoundForState(stallBound, state)
      ensures verdict.Stalled? ==> verdict == Stalled(Since(lastChangeAt, elapsed), state)
    {
      var changed := match lastSignature
        case Some(last) => last.state != state || last.bytes != bytesCompleted
        case None => true;
      if changed {
        lastSignature := Some(Signature(state, bytesCompleted));
        lastChangeAt := elapsed;
        return Progressing;
      }
      var stalledFor := Since(lastChangeAt, elapsed);
      if stalledFor >= BoundForState(stallBound, state) {
        return Stalled(stalledFor, state);
      }
      return Progressing;
    }
  }

  // --- One poll ---

  /** What the wait carries between polls. */
  datatype Wait = Wait(signature: Option<Signature>, changedAt: nat, wasUnreachable: bool)

  const WAIT_START := Wait(None, 0, false)

  predicate IsReached(poll: Poll) {
    poll.status.ActiveJob? || poll.status.NoJob?
  }

  /** What a poll shows the stall watch, if it gets that far. */
  function Seen(modelId: string, poll: Poll): Option<Signature> {
    match poll.status
    case Rejected => None
    case Unreachable => Some(Signature(UNREACHABLE_STATE, 0))
    case ActiveJob(job) => if job.error.Some? then None else Some(Signature(job.state, job.bytesCompleted))
    case NoJob =>
      if poll.catalog.None? then None
      else
        match FirstMatching(poll.catalog.value, modelId)
        case None => None
        case Some(entry) => if !entry.readyOnThisMac && entry.downloadState.Some? then Some(Signature(SETTLING_STATE, 0)) else None
  }

  /** The poll saw no job, and the first matching catalog entry is ready. */
  predicate ShowsReady(modelId: string, poll: Poll) {
    && poll.status.NoJob? && poll.catalog.Some?
    && var entry := FirstMatching(poll.catalog.value, modelId);
       entry.Some? && entry.value.readyOnThisMac
  }

  class DownloadWait {
    const stallWatch: StallWatch
    var daemonWasUnreachable: bool

    constructor (stallBound: nat)
      ensures fresh(stallWatch) && stallWatch.stallBound == stallBound && State() == WAIT_START
    {
      stallWatch := new StallWatch(stallBound);
      daemonWasUnreachable := false;
    }

    ghost function State(): Wait
      reads this, stallWatch
    {
      Wait(stallWatch.lastSignature, stallWatch.lastChangeAt, daemonWasUnreachable)
    }

    method CheckStall(elapsed: nat, state: string, bytesCompleted: nat) returns (outcome: Outcome)
      modifies stallWatch
      ensures (State(), outcome) == Watched(stallWatch.stallBound, old(State()), elapsed, Signature(state, bytesCompleted))
    {
      var verdict := stallWatch.Observe(elapsed, state, bytesCompleted);
      match verdict
      case Progressing => outcome := KeepWaiting;
      case Stalled(stalledFor, stalledState) => outcome := Failed(StoppedMoving(stalledFor, stalledState));
    }

    method ObserveActiveJob(job: Job, elapsed: nat) returns (outcome: Outcome)
      modifies stallWatch
      ensures match job.error
              case Some(error) => outcome == Failed(JobFailed(error)) && State() == old(State())
              case None => (State(), outcome) == Watched(stallWatch.stallBound, old(State()), elapsed, Signature(job.state, job.bytesCompleted))
    {
      if job.error.Some? {
        return Failed(JobFailed(job.error.value));
      }
      outcome := CheckStall(elapsed, job.state, job.bytesCompleted);
    }

    method ObserveUnreachableDaemon(elapsed: nat) returns (outcome: Outcome)
      modifies this, stallWatch
      ensures (State(), outcome) ==
                Watched(stallWatch.stallBound, old(State()).(wasUnreachable := true), elapsed, Signature(UNREACHABLE_STATE, 0))
    {
      daemonWasUnreachable := true;
      outcome := CheckStall(elapsed, UNREACHABLE_STATE, 0);
    }

    method ObserveVanishedJob(modelId: string, poll: Poll) returns (outcome: Outcome)
      modifies stallWatch
      ensures (State(), outcome) == Vanished(stallWatch.stallBound, modelId, old(State()), poll)
    {
      if poll.catalog.None? {
        return Failed(CatalogFailed);
      }
      var matching := FirstMatching(poll.catalog.value, modelId);
      if matching.Some? && matching.value.readyOnThisMac {
        return Ready;
      }
      if matching.Some? && matching.value.downloadState.Some? {
        outcome := CheckStall(poll.elapsed, SETTLING_STATE, 0);
        return;
      }
      return Failed(DidNotComplete);
    }

    /** One poll; `started` says whether it repeated the download request. */
    method PollDownload(modelId: string, poll: Poll) returns (outcome: Outcome, started: bool)
      modifies this, stallWatch
      ensures (State(), outcome) == Polled(stallWatch.stallBound, modelId, old(State()), poll)
      ensures started == (old(State()).wasUnreachable && IsReached(poll))
    {
      started := false;
      if poll.status.Rejected? {
        return Failed(StatusRejected), false;
      }
      if poll.status.Unreachable? {
        outcome := ObserveUnreachableDaemon(poll.elapsed);
        return;
      }
      if daemonWasUnreachable {
        daemonWasUnreachable := false;
        started := true;
        if !poll.restartSucceeds {
          return Failed(StartFailed), true;
        }
      }
      if poll.status.ActiveJob? {
        outcome := ObserveActiveJob(poll.status.job, poll.elapsed);
      } else {
        outcome := ObserveVanishedJob(modelId, poll);
      }
    }
  }

  function Watched(stallBound: nat, before: Wait, elapsed: nat, signature: Signature): (Wait, Outcome) {
    if before.signature != Some(signature) then
      (before.(signature := Some(signature), changedAt := elapsed), KeepWaiting)
    else if Since(before.changedAt, elapsed) >= BoundForState(stallBound, signature.state) then
      (before, Failed(StoppedMoving(Since(before.changedAt, elapsed), signature.state)))
    else
      (before, KeepWaiting)
  }

  function Vanished(stallBound: nat, modelId: string, before: Wait, poll: Poll): (Wait, Outcome) {
    if poll.catalog.None? then (before, Failed(CatalogFailed))
    else
      match FirstMatching(poll.catalog.value, modelId)
      case None => (before, Failed(DidNotComplete))
      case Some(entry) =>
        if entry.readyOnThisMac then (before, Ready)
        else if entry.downloadState.Some? then Watched(stallBound, before, poll.elapsed, Signature(SETTLING_STATE, 0))
        else (before, Failed(DidNotComplete))
  }

  function Polled(stallBound: nat, modelId: string, before: Wait, poll: Poll): (Wait, Outcome) {
    match poll.status
    case Rejected => (before, Failed(StatusRejected))
    case Unreachable => Watched(stallBound, before.(wasUnreachable := true), poll.elapsed, Signature(UNREACHABLE_STATE, 0))
    case ActiveJob(job) =>
      var reached := before.(wasUnreachable := false);
      if before.wasUnreachable && !poll.restartSucceeds then (reached, Failed(StartFailed))
      else if job.error.Some? then (reached, Failed(JobFailed(job.error.value)))
      else Watched(stallBound, reached, poll.elapsed, Signature(job.state, job.bytesCompleted))
    case NoJob =>
      var reached := before.(wasUnreachable := false);
      if before.wasUnreachable && !poll.restartSucceeds then (reached, Failed(StartFailed))
      else Vanished(stallBound, modelId, reached, poll)
  }

  // --- The whole wait ---

  /** The state after some polls that all said to keep waiting, or none if one of them ended the wait. */
  function WaitAfter(stallBound: nat, modelId: string, polls: seq<Poll>, count: nat): Option<Wait>
    requires count <= |polls|
  {
    if count == 0 then Some(WAIT_START)
    else
      match WaitAfter(stallBound, modelId, polls, count - 1)
      case None => None
      case Some(before) =>
        var (after, outcome) := Polled(stallBound, modelId, before, polls[count - 1]);
        if outcome == KeepWaiting then Some(after) else None
  }

  /** What the poll at `at` says, reached by polls that all said to keep waiting. */
  function OutcomeAt(stallBound: nat, modelId: string, polls: seq<Poll>, at: nat): Outcome
    requires at < |polls| && WaitAfter(stallBound, modelId, polls, at).Some?
  {
    Polled(stallBound, modelId, WaitAfter(stallBound, modelId, polls, at).value, polls[at]).1
  }

  /** How often a poll that reaches the daemon directly follows one that did not. */
  function SpellsEnded(polls: seq<Poll>): nat {
    if |polls| < 2 then 0
    else
      SpellsEnded(polls[..|polls| - 1])
      + (if polls[|polls| - 2].status.Unreachable? && IsReached(polls[|polls| - 1]) then 1 else 0)
  }

  lemma SpellsNext(polls: seq<Poll>, count: nat)
    requires count < |polls|
    ensures SpellsEnded(polls[..count + 1]) ==
              SpellsEnded(polls[..count]) + (if count > 0 && polls[count - 1].status.Unreachable? && IsReached(polls[count]) then 1 else 0)
  {
    assert polls[..count + 1][..count] == polls[..count];
  }

  /**
    * Follows a download through its polls. The outcome is the first poll's that
    * does not say to keep waiting; `starts` counts the requests to download: the
    * first, and one for each spell of the daemon being away that ended.
    */
  method WaitForDownload(stallBound: nat, modelId: string, firstStartSucceeds: bool, polls: seq<Poll>)
      returns (outcome: Outcome, starts: nat, used: nat)
    ensures !firstStartSucceeds ==> outcome == Failed(StartFailed) && used == 0
    ensures used <= |polls| && starts == 1 + SpellsEnded(polls[..used])
    ensures firstStartSucceeds && outcome == KeepWaiting ==>
              used == |polls| && WaitAfter(stallBound, modelId, polls, used).Some?
    ensures firstStartSucceeds && outcome != KeepWaiting ==>
              && used > 0 && WaitAfter(stallBound, modelId, polls, used - 1).Some?
              && outcome == OutcomeAt(stallBound, modelId, polls, used - 1)
    ensures outcome == Ready ==> used > 0 && ShowsReady(modelId, polls[used - 1])
  {
    starts, used := 1, 0;
    if !firstStartSucceeds {
      return Failed(StartFailed), starts, used;
    }
    var downloadWait := new DownloadWait(stallBound);
    while used < |polls|
      invariant 0 <= used <= |polls|
      invariant downloadWait.stallWatch.stallBound == stallBound && fresh(downloadWait) && fresh(downloadWait.stallWatch)
      invariant WaitAfter(stallBound, modelId, polls, used) == Some(downloadWait.State())
      invariant downloadWait.State().wasUnreachable == (used > 0 && polls[used - 1].status.Unreachable?)
      invariant starts == 1 + SpellsEnded(polls[..used])
    {
      SpellsNext(polls, used);
      PollRemembersReach(stallBound, modelId, downloadWait.State(), polls[used]);
      var pollOutcome, started := downloadWait.PollDownload(modelId, polls[used]);
      used := used + 1;
      if started {
        starts := starts + 1;
      }
      if pollOutcome != KeepWaiting {
        return pollOutcome, starts, used;
      }
    }
    return KeepWaiting, starts, used;
  }

  /** A poll leaves behind whether it reached the daemon, and is ready only when it shows so. */
  lemma PollRemembersReach(stallBound: nat, modelId: string, before: Wait, poll: Poll)
    ensures var (after, outcome) := Polled(stallBound, modelId, before, poll);
            && (outcome == KeepWaiting ==> after.wasUnreachable == poll.status.Unreachable?)
            && (outcome == Ready <==> ShowsReady(modelId, poll) && (before.wasUnreachable ==> poll.restartSucceeds))
            && (poll.status.ActiveJob? && poll.status.job.error.Some? ==> outcome.Failed?)
  {
  }

  // --- When the wait ends ---

  /** Whether the request to download, if this poll must repeat it, succeeds. */
  predicate RestartsIfNeeded(polls: seq<Poll>, at: nat)
    requires at < |polls|
  {
    at > 0 && polls[at - 1].status.Unreachable? && IsReached(polls[at]) ==> polls[at].restartSucceeds
  }

  /** Where the latest run of polls that show the same began, among the first `count`. */
  function RunStart(modelId: string, polls: seq<Poll>, count: nat): (start: nat)
    requires 0 < count <= |polls|
    ensures start < count
  {
    if count > 1 && Seen(modelId, polls[count - 1]) == Seen(modelId, polls[count - 2]) then RunStart(modelId, polls, count - 1)
    else count - 1
  }

  /** The state after a wait holds exactly what the latest run of equal polls showed, and since when. */
  lemma {:induction false} WaitRemembers(stallBound: nat, modelId: string, polls: seq<Poll>, count: nat)
    requires 0 < count <= |polls| && WaitAfter(stallBound, modelId, polls, count).Some?
    ensures var wait := WaitAfter(stallBound, modelId, polls, count).value;
            && wait.signature.Some? && wait.signature == Seen(modelId, polls[count - 1])
            && wait.changedAt == polls[RunStart(modelId, polls, count)].elapsed
            && wait.wasUnreachable == polls[count - 1].status.Unreachable?
    decreases count
  {
    var before := WaitAfter(stallBound, modelId, polls, count - 1).value;
    PollRemembersReach(stallBound, modelId, before, polls[count - 1]);
    if count > 1 {
      WaitRemembers(stallBound, modelId, polls, count - 1);
    }
    PollWatches(stallBound, modelId, before, polls[count - 1]);
  }

  /** A poll keeps the wait going exactly when it shows something, the download could be requested again, and it is no stall. */
  lemma PollWatches(stallBound: nat, modelId: string, before: Wait, poll: Poll)
    ensures var (after, outcome) := Polled(stallBound, modelId, before, poll);
            var seen := Seen(modelId, poll);
            var restarts := before.wasUnreachable && IsReached(poll) ==> poll.restartSucceeds;
            && (outcome == KeepWaiting ==> restarts && seen.Some? && after.signature == seen
                                           && after.changedAt == if before.signature == seen then before.changedAt else poll.elapsed)
            && (seen.Some? && restarts ==>
                  outcome == if before.signature == seen && Since(before.changedAt, poll.elapsed) >= BoundForState(stallBound, seen.value.state)
                             then Failed(StoppedMoving(Since(before.changedAt, poll.elapsed), seen.value.state)) else KeepWaiting)
            && (outcome.Failed? && outcome.failure.StoppedMoving? ==> seen.Some? && restarts)
  {
  }

  /** Nothing has changed from an earlier poll to this one for the whole bound of the state it shows. */
  ghost predicate HasStopped(stallBound: nat, modelId: string, polls: seq<Poll>, at: nat)
    requires at < |polls|
  {
    && at > 0 && Seen(modelId, polls[at]).Some? && Seen(modelId, polls[at]) == Seen(modelId, polls[at - 1])
    && Since(polls[RunStart(modelId, polls, at)].elapsed, polls[at].elapsed)
       >= BoundForState(stallBound, Seen(modelId, polls[at]).value.state)
  }

  /** The poll shows something, is no stall, and can request the download again where it must. */
  ghost predicate GoesOn(stallBound: nat, modelId: string, polls: seq<Poll>, at: nat)
    requires at < |polls|
  {
    Seen(modelId, polls[at]).Some? && !HasStopped(stallBound, modelId, polls, at) && RestartsIfNeeded(polls, at)
  }

  /**
    * Each way a poll can end the wait, or not, told from the polls alone: ready
    * when it shows no job and a ready entry, given up when nothing has changed
    * for the bound, and kept up otherwise while there is something to watch.
    */
  lemma PollDecides(stallBound: nat, modelId: string, polls: seq<Poll>, at: nat)
    requires at < |polls| && WaitAfter(stallBound, modelId, polls, at).Some?
    ensures var outcome := OutcomeAt(stallBound, modelId, polls, at);
            && (outcome == Ready <==> ShowsReady(modelId, polls[at]) && RestartsIfNeeded(polls, at))
            && (outcome.Failed? && outcome.failure.StoppedMoving? <==> HasStopped(stallBound, modelId, polls, at) && RestartsIfNeeded(polls, at))
            && (outcome == KeepWaiting <==> GoesOn(stallBound, modelId, polls, at))
            && (polls[at].status.ActiveJob? ==> outcome != Ready && (polls[at].status.job.error.Some? ==> outcome.Failed?))
  {
    var before := WaitAfter(stallBound, modelId, polls, at).value;
    if at > 0 {
      WaitRemembers(stallBound, modelId, polls, at);
    }
    PollRemembersReach(stallBound, modelId, before, polls[at]);
    PollWatches(stallBound, modelId, before, polls[at]);
  }

  /** A wait reaches a poll exactly when every earlier one goes on, each told from the polls alone. */
  lemma {:induction false} WaitGoesOn(stallBound: nat, modelId: string, polls: seq<Poll>, count: nat)
    requires count <= |polls|
    ensures WaitAfter(stallBound, modelId, polls, count).Some? <==>
              forall at :: 0 <= at < count ==> GoesOn(stallBound, modelId, polls, at)
    decreases count
  {
    if count > 0 {
      WaitGoesOn(stallBound, modelId, polls, count - 1);
      if WaitAfter(stallBound, modelId, polls, count - 1).Some? {
        PollDecides(stallBound, modelId, polls, count - 1);
        assert WaitAfter(stallBound, modelId, polls, count).Some? <==> GoesOn(stallBound, modelId, polls, count - 1);
      } else {
        assert WaitAfter(stallBound, modelId, polls, count).None?;
        var at :| 0 <= at < count - 1 && !GoesOn(stallBound, modelId, polls, at);
      }
    }
  }

  // --- The bounds and the endings, spelled out ---

  /** The polls from one to another all show one job, with no error and nothing moving. */
  ghost predicate ShowsOneJob(polls: seq<Poll>, state: string, bytes: nat) {
    forall i :: 0 <= i < |polls| ==>
      polls[i].status.ActiveJob? && polls[i].status.job == Job(state, bytes, None)
  }

  ghost predicate FindNoDaemon(polls: seq<Poll>) {
    forall i :: 0 <= i < |polls| ==> polls[i].status.Unreachable?
  }

  /** No job is left, and the first entry for the model is not ready but still has a download state. */
  ghost predicate ShowSettling(modelId: string, polls: seq<Poll>) {
    forall i :: 0 <= i < |polls| ==> IsSettling(modelId, polls[i])
  }

  ghost predicate IsSettling(modelId: string, poll: Poll) {
    && poll.status.NoJob? && poll.catalog.Some?
    && exists k :: IsFirstMatch(poll.catalog.value, modelId, k)
                   && !poll.catalog.value[k].readyOnThisMac && poll.catalog.value[k].downloadState.Some?
  }

  /** The polls come in order, and the last less than this long after the first. */
  ghost predicate LastsLessThan(polls: seq<Poll>, bound: nat) {
    |polls| > 1 ==> polls[|polls| - 1].elapsed - polls[0].elapsed < bound
  }

  /** A wait whose polls all show one thing goes on exactly while less than the bound of that thing has passed. */
  lemma SameGoesOn(stallBound: nat, modelId: string, polls: seq<Poll>, seen: Signature)
    requires IsTimed(polls) && forall i :: 0 <= i < |polls| ==> Seen(modelId, polls[i]) == Some(seen) && RestartsIfNeeded(polls, i)
    ensures WaitAfter(stallBound, modelId, polls, |polls|).Some? <==> LastsLessThan(polls, BoundForState(stallBound, seen.state))
  {
    WaitGoesOn(stallBound, modelId, polls, |polls|);
    forall at: nat | at < |polls|
      ensures GoesOn(stallBound, modelId, polls, at) <==>
                (at > 0 ==> polls[at].elapsed - polls[0].elapsed < BoundForState(stallBound, seen.state))
    {
      if at > 0 {
        RunStartReaches(modelId, polls, 0, at - 1, seen);
        assert RunStart(modelId, polls, at) == 0;
        assert polls[0].elapsed <= polls[at].elapsed;
      }
    }
    if |polls| > 0 {
      assert forall at :: 0 <= at < |polls| ==> polls[at].elapsed <= polls[|polls| - 1].elapsed;
      assert GoesOn(stallBound, modelId, polls, |polls| - 1) <==> LastsLessThan(polls, BoundForState(stallBound, seen.state));
    }
  }

  /**
    * One unchanging job is waited for exactly while less than the stall bound
    * has passed, or less than ten times it while the job is verifying or
    * publishing.
    */
  lemma UnchangingJobGoesOn(stallBound: nat, modelId: string, polls: seq<Poll>, state: string, bytes: nat)
    requires IsTimed(polls) && ShowsOneJob(polls, state, bytes)
    ensures WaitAfter(stallBound, modelId, polls, |polls|).Some? <==>
              LastsLessThan(polls, if state in {"verifying", "publishing"} then 10 * stallBound else stallBound)
  {
    SameGoesOn(stallBound, modelId, polls, Signature(state, bytes));
  }

  /** An absent daemon, and a download that only settles, are waited for exactly while less than the stall bound has passed. */
  lemma QuietDaemonGoesOn(stallBound: nat, modelId: string, polls: seq<Poll>)
    requires IsTimed(polls) && (FindNoDaemon(polls) || ShowSettling(modelId, polls))
    ensures WaitAfter(stallBound, modelId, polls, |polls|).Some? <==> LastsLessThan(polls, stallBound)
  {
    if FindNoDaemon(polls) {
      SameGoesOn(stallBound, modelId, polls, Signature(UNREACHABLE_STATE, 0));
    } else {
      SettlingThroughout(modelId, polls);
      SameGoesOn(stallBound, modelId, polls, Signature(SETTLING_STATE, 0));
    }
  }

  lemma FirstMatchIsFound(entries: seq<CatalogEntry>, modelId: string, k: nat)
    requires IsFirstMatch(entries, modelId, k)
    ensures FirstMatching(entries, modelId) == Some(entries[k])
  {
    var found := FirstMatching(entries, modelId);
    assert entries[k] in entries;
    var i :| IsFirstMatch(entries, modelId, i) && entries[i] == found.value;
    assert i == k;
  }

  lemma SettlingIsSeen(modelId: string, poll: Poll)
    requires IsSettling(modelId, poll)
    ensures Seen(modelId, poll) == Some(Signature("settling", 0))
  {
    var k :| IsFirstMatch(poll.catalog.value, modelId, k)
             && !poll.catalog.value[k].readyOnThisMac && poll.catalog.value[k].downloadState.Some?;
    FirstMatchIsFound(poll.catalog.value, modelId, k);
  }

  lemma SettlingThroughout(modelId: string, polls: seq<Poll>)
    requires ShowSettling(modelId, polls)
    ensures forall i :: 0 <= i < |polls| ==>
              Seen(modelId, polls[i]) == Some(Signature("settling", 0)) && RestartsIfNeeded(polls, i)
  {
    forall i | 0 <= i < |polls|
      ensures Seen(modelId, polls[i]) == Some(Signature("settling", 0)) && RestartsIfNeeded(polls, i)
    {
      SettlingIsSeen(modelId, polls[i]);
      assert i > 0 ==> polls[i - 1].status.NoJob?;
    }
  }

  /** This poll reaches the daemon again but cannot repeat the request to download. */
  ghost predicate CannotRestart(polls: seq<Poll>, at: nat)
    requires at < |polls|
  {
    && at > 0 && polls[at - 1].status.Unreachable?
    && (polls[at].status.ActiveJob? || polls[at].status.NoJob?) && !polls[at].restartSucceeds
  }

  /** The catalog has nothing ready and nothing under way for the model. */
  ghost predicate HasNothingUnderWay(modelId: string, entries: seq<CatalogEntry>) {
    forall k :: IsFirstMatch(entries, modelId, k) ==> !entries[k].readyOnThisMac && entries[k].downloadState.None?
  }

  lemma NothingUnderWay(modelId: string, entries: seq<CatalogEntry>)
    ensures HasNothingUnderWay(modelId, entries) <==>
              match FirstMatching(entries, modelId)
              case None => true
              case Some(entry) => !entry.readyOnThisMac && entry.downloadState.None?
  {
    match FirstMatching(entries, modelId)
    case None => assert forall k :: 0 <= k < |entries| ==> entries[k] in entries;
    case Some(entry) =>
      var i :| IsFirstMatch(entries, modelId, i) && entries[i] == entry;
      forall k | IsFirstMatch(entries, modelId, k)
        ensures k == i
      {
      }
  }

  /** Which poll gives up for which reason. */
  lemma PollGivesUp(stallBound: nat, modelId: string, polls: seq<Poll>, at: nat)
    requires at < |polls| && WaitAfter(stallBound, modelId, polls, at).Some?
    ensures var (poll, outcome) := (polls[at], OutcomeAt(stallBound, modelId, polls, at));
            && (outcome == Failed(StatusRejected) <==> poll.status.Rejected?)
            && (outcome == Failed(StartFailed) <==> CannotRestart(polls, at))
            && (forall error :: outcome == Failed(JobFailed(error)) <==>
                  poll.status.ActiveJob? && poll.status.job.error == Some(error) && !CannotRestart(polls, at))
            && (outcome == Failed(CatalogFailed) <==>
                  poll.status.NoJob? && poll.catalog.None? && !CannotRestart(polls, at))
            && (outcome == Failed(DidNotComplete) <==>
                  poll.status.NoJob? && poll.catalog.Some? && HasNothingUnderWay(modelId, poll.catalog.value) && !CannotRestart(polls, at))
  {
    if at > 0 {
      WaitRemembers(stallBound, modelId, polls, at);
    }
    var before := WaitAfter(stallBound, modelId, polls, at).value;
    assert before.wasUnreachable <==> at > 0 && polls[at - 1].status.Unreachable?;
    if polls[at].catalog.Some? {
      NothingUnderWay(modelId, polls[at].catalog.value);
    }
    GivesUpFrom(stallBound, modelId, before, polls[at]);
  }

  lemma GivesUpFrom(stallBound: nat, modelId: string, before: Wait, poll: Poll)
    ensures var outcome := Polled(stallBound, modelId, before, poll).1;
            var restarts := before.wasUnreachable && IsReached(poll) ==> poll.restartSucceeds;
            && (outcome == Failed(StatusRejected) <==> poll.status.Rejected?)
            && (outcome == Failed(StartFailed) <==> !restarts)
            && (forall error :: outcome == Failed(JobFailed(error)) <==>
                  poll.status.ActiveJob? && poll.status.job.error == Some(error) && restarts)
            && (outcome == Failed(CatalogFailed) <==> poll.status.NoJob? && poll.catalog.None? && restarts)
            && (outcome == Failed(DidNotComplete) <==>
                  && poll.status.NoJob? && poll.catalog.Some? && restarts
                  && match FirstMatching(poll.catalog.value, modelId)
                     case None => true
                     case Some(entry) => !entry.readyOnThisMac && entry.downloadState.None?)
  {
  }

  lemma SameSince(stallBound: nat, modelId: string, polls: seq<Poll>, at: nat, seen: Signature)
    requires 0 < at < |polls| && WaitAfter(stallBound, modelId, polls, at).Some?
    requires ShowsSame(modelId, polls, 0, at, seen)
    ensures var before := WaitAfter(stallBound, modelId, polls, at).value;
            && before.signature == Some(seen) && before.changedAt == polls[0].elapsed
            && before.wasUnreachable == polls[at - 1].status.Unreachable?
  {
    WaitRemembers(stallBound, modelId, polls, at);
    RunStartReaches(modelId, polls, 0, at - 1, seen);
    assert Seen(modelId, polls[at - 1]) == Some(seen);
  }

  /** What a wait that is given up because nothing moved says: how long, and in which state. */
  lemma StopSaysSince(stallBound: nat, modelId: string, polls: seq<Poll>, at: nat, seen: Signature)
    requires 0 < at < |polls| && WaitAfter(stallBound, modelId, polls, at).Some?
    requires ShowsSame(modelId, polls, 0, at, seen) && RestartsIfNeeded(polls, at) && polls[0].elapsed <= polls[at].elapsed
    requires OutcomeAt(stallBound, modelId, polls, at) != KeepWaiting
    ensures OutcomeAt(stallBound, modelId, polls, at) == Failed(StoppedMoving(polls[at].elapsed - polls[0].elapsed, seen.state))
  {
    SameSince(stallBound, modelId, polls, at, seen);
    var before := WaitAfter(stallBound, modelId, polls, at).value;
    assert Seen(modelId, polls[at]) == Some(seen);
    StopsFrom(stallBound, modelId, before, polls[at], seen);
  }

  lemma StopsFrom(stallBound: nat, modelId: string, before: Wait, poll: Poll, seen: Signature)
    requires Seen(modelId, poll) == Some(seen) && before.signature == Some(seen) && before.changedAt <= poll.elapsed
    requires before.wasUnreachable && IsReached(poll) ==> poll.restartSucceeds
    requires Polled(stallBound, modelId, before, poll).1 != KeepWaiting
    ensures Polled(stallBound, modelId, before, poll).1 == Failed(StoppedMoving(poll.elapsed - before.changedAt, seen.state))
  {
    PollWatches(stallBound, modelId, before, poll);
  }

  /** The words for a daemon that stays away, and for a download that only settles. */
  lemma QuietDaemonStops(stallBound: nat, modelId: string, polls: seq<Poll>, at: nat)
    requires 0 < at < |polls| && WaitAfter(stallBound, modelId, polls, at).Some?
    requires IsTimed(polls) && (FindNoDaemon(polls) || ShowSettling(modelId, polls))
    requires OutcomeAt(stallBound, modelId, polls, at) != KeepWaiting
    ensures OutcomeAt(stallBound, modelId, polls, at) ==
              Failed(StoppedMoving(polls[at].elapsed - polls[0].elapsed,
                                   if FindNoDaemon(polls) then "the daemon was unreachable" else "settling"))
  {
    if FindNoDaemon(polls) {
      StopSaysSince(stallBound, modelId, polls, at, Signature(UNREACHABLE_STATE, 0));
    } else {
      SettlingThroughout(modelId, polls);
      StopSaysSince(stallBound, modelId, polls, at, Signature(SETTLING_STATE, 0));
    }
  }

  // --- How long a wait can last ---

  lemma {:induction false} WaitedBefore(stallBound: nat, modelId: string, polls: seq<Poll>, fewer: nat, more: nat)
    requires fewer <= more <= |polls| && WaitAfter(stallBound, modelId, polls, more).Some?
    ensures WaitAfter(stallBound, modelId, polls, fewer).Some?
    decreases more
  {
    if fewer < more {
      WaitedBefore(stallBound, modelId, polls, fewer, more - 1);
    }
  }

  /** The polls from one to another all show the same. */
  ghost predicate ShowsSame(modelId: string, polls: seq<Poll>, first: nat, last: nat, seen: Signature)
    requires last < |polls|
  {
    forall i: nat :: first <= i <= last ==> Seen(modelId, polls[i]) == Some(seen)
  }

  lemma {:induction false} RunStartReaches(modelId: string, polls: seq<Poll>, first: nat, last: nat, seen: Signature)
    requires first <= last < |polls| && ShowsSame(modelId, polls, first, last, seen)
    ensures RunStart(modelId, polls, last + 1) <= first
    decreases last
  {
    if first < last {
      assert Seen(modelId, polls[last]) == Some(seen) && Seen(modelId, polls[last - 1]) == Some(seen);
      RunStartReaches(modelId, polls, first, last - 1, seen);
    }
  }

  ghost predicate IsTimed(polls: seq<Poll>) {
    forall i, j :: 0 <= i <= j < |polls| ==> polls[i].elapsed <= polls[j].elapsed
  }

  /** While a wait goes on, no stretch of polls that show the same has lasted as long as the bound of their state. */
  lemma StuckDownloadEnds(stallBound: nat, modelId: string, polls: seq<Poll>, first: nat, last: nat, seen: Signature)
    requires first < last < |polls| && WaitAfter(stallBound, modelId, polls, |polls|).Some?
    requires IsTimed(polls) && ShowsSame(modelId, polls, first, last, seen)
    ensures polls[last].elapsed - polls[first].elapsed < BoundForState(stallBound, seen.state)
  {
    WaitedBefore(stallBound, modelId, polls, last + 1, |polls|);
    WaitedBefore(stallBound, modelId, polls, last, last + 1);
    PollDecides(stallBound, modelId, polls, last);
    RunStartReaches(modelId, polls, first, last - 1, seen);
    var start := RunStart(modelId, polls, last);
    assert Seen(modelId, polls[last]) == Some(seen) && Seen(modelId, polls[last - 1]) == Some(seen);
    assert polls[start].elapsed <= polls[first].elapsed <= polls[last].elapsed;
  }

  /** The poll shows something, and something else than the poll before it. */
  ghost predicate ShowsChange(modelId: string, polls: seq<Poll>, at: nat)
    requires at < |polls|
  {
    && Seen(modelId, polls[at]).Some? && RestartsIfNeeded(polls, at)
    && (at > 0 ==> Seen(modelId, polls[at]) != Seen(modelId, polls[at - 1]))
  }

  /** A wait in which each poll shows something new goes on for as long as that lasts. */
  lemma {:induction false} ChangeKeepsWaiting(stallBound: nat, modelId: string, polls: seq<Poll>, count: nat)
    requires count <= |polls|
    requires forall i: nat {:trigger ShowsChange(modelId, polls, i)} :: i < |polls| ==> ShowsChange(modelId, polls, i)
    ensures WaitAfter(stallBound, modelId, polls, count).Some?
    decreases count
  {
    if count > 0 {
      ChangeKeepsWaiting(stallBound, modelId, polls, count - 1);
      assert ShowsChange(modelId, polls, count - 1);
      PollDecides(stallBound, modelId, polls, count - 1);
    }
  }

  /** A daemon that is away at every other poll, and in between reports one unchanging job. */
  ghost predicate IsFlapping(polls: seq<Poll>, job: Job) {
    forall i :: 0 <= i < |polls| ==>
      polls[i].restartSucceeds && polls[i].status == if i % 2 == 0 then Unreachable else ActiveJob(job)
  }

  /**
    * An absent daemon counts as a change of what is seen, so a download that
    * never moves is waited for without end while the daemon keeps going away,
    * whatever the bound and however much time passes.
    */
  lemma FlappingIsNeverAStall(stallBound: nat, modelId: string, polls: seq<Poll>, job: Job)
    requires IsFlapping(polls, job) && job.error.None? && job.state != UNREACHABLE_STATE
    ensures WaitAfter(stallBound, modelId, polls, |polls|).Some?
  {
    forall i: nat | i < |polls|
      ensures ShowsChange(modelId, polls, i)
    {
      assert polls[i].status == (if i % 2 == 0 then Unreachable else ActiveJob(job));
      if i > 0 {
        assert polls[i - 1].status == (if (i - 1) % 2 == 0 then Unreachable else ActiveJob(job));
      }
    }
    ChangeKeepsWaiting(stallBound, modelId, polls, |polls|);
  }
}
