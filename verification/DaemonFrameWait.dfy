// Waiting for the daemon's next frame without mistaking slow work for a daemon
// that has gone away (apps/astronomical-cli/src/daemon_frame_wait.rs): the watch
// that decides which status counts as hearing from the daemon, the wait loop with
// its moving deadline, and what every schedule of events can and cannot do to it.
// Times are whole numbers of one clock tick; `select!` is a free choice among the
// events its three branches allow.

module DaemonFrameWait {
  import opened Wrappers

  const STATUS_ANSWER_POLL_INTERVALS: nat := 5
  const MODEL_LOAD_LINE := "Loading the model"

  datatype ModelLoad = ModelLoad(modelId: Option<string>)

  /** The two parts of a status the wait looks at. */
  datatype Status = Status(load: Option<ModelLoad>, progressCount: nat)

  datatype ReportedLoad = ReportedLoad(load: ModelLoad, since: nat)

  datatype WaitBounds = WaitBounds(silence: nat, loadStall: nat, pollInterval: nat)

  // --- The watch as a value ---

  /** What the watch remembers, and everything written to standard error so far. */
  datatype Watch = Watch(reportedLoad: Option<ReportedLoad>, lastCount: Option<nat>, lineWidth: nat, written: string)

  function Spaces(count: nat): (spaces: string)
    ensures |spaces| == count && forall i :: 0 <= i < count ==> spaces[i] == ' '
  {
    if count == 0 then "" else Spaces(count - 1) + " "
  }

  /** Rewrites the live line in place, padded to the widest line it showed. */
  function DrawLiveLine(watch: Watch, line: string): Watch {
    var padded := if watch.lineWidth > |line| then watch.lineWidth else |line|;
    watch.(written := watch.written + "\r" + line + Spaces(padded - |line|), lineWidth := padded)
  }

  function FinishLiveLine(watch: Watch): Watch {
    if watch.lineWidth > 0 then watch.(written := watch.written + "\n", lineWidth := 0) else watch
  }

  /** `Instant::duration_since`, which never goes below zero. */
  function DurationSince(later: nat, earlier: nat): nat {
    if later < earlier then 0 else later - earlier
  }

  function NoteLoadReport(watch: Watch, load: Option<ModelLoad>, heardAt: nat, loadStall: nat): (Watch, bool) {
    match load
    case None => (FinishLiveLine(watch.(reportedLoad := None)), false)
    case Some(reported) =>
      if watch.reportedLoad.Some? && watch.reportedLoad.value.load == reported then
        (watch, DurationSince(heardAt, watch.reportedLoad.value.since) < loadStall)
      else (DrawLiveLine(watch.(reportedLoad := Some(ReportedLoad(reported, heardAt))), MODEL_LOAD_LINE), true)
  }

  function ReportsRequestProgress(watch: Watch, count: nat): (Watch, bool) {
    (watch.(lastCount := Some(count)), watch.lastCount.Some? && watch.lastCount.value != count)
  }

  /** Records one status and says whether it counts: both checks always run. */
  function HasHeardFromDaemon(watch: Watch, status: Status, heardAt: nat, loadStall: nat): (Watch, bool) {
    var (afterLoad, doesLoadCount) := NoteLoadReport(watch, status.load, heardAt, loadStall);
    var (afterBoth, hasProgressed) := ReportsRequestProgress(afterLoad, status.progressCount);
    (afterBoth, doesLoadCount || hasProgressed)
  }

  function ForgetLoadAfterFrame(watch: Watch): Watch {
    FinishLiveLine(watch.(reportedLoad := None))
  }

  // --- The watch as the source keeps it ---

  class StandardError {
    var text: string

    constructor ()
      ensures text == ""
    {
      text := "";
    }
  }

  class DaemonWorkWatch {
    var reportedLoad: Option<ReportedLoad>
    var lastRequestProgressCount: Option<nat>
    var liveLineWidth: nat

    constructor ()
      ensures reportedLoad == None && lastRequestProgressCount == None && liveLineWidth == 0
    {
      reportedLoad, lastRequestProgressCount, liveLineWidth := None, None, 0;
    }

    function State(stderr: StandardError): Watch
      reads this, stderr
    {
      Watch(reportedLoad, lastRequestProgressCount, liveLineWidth, stderr.text)
    }

    method NoteLoad(load: Option<ModelLoad>, heardAt: nat, loadStall: nat, stderr: StandardError) returns (counts: bool)
      modifies this, stderr
      ensures (State(stderr), counts) == NoteLoadReport(old(State(stderr)), load, heardAt, loadStall)
    {
      if load.None? {
        reportedLoad := None;
        FinishLine(stderr);
        return false;
      }
      if reportedLoad.Some? && reportedLoad.value.load == load.value {
        return DurationSince(heardAt, reportedLoad.value.since) < loadStall;
      }
      reportedLoad := Some(ReportedLoad(load.value, heardAt));
      DrawLine(MODEL_LOAD_LINE, stderr);
      return true;
    }

    method NoteProgress(count: nat) returns (hasProgressed: bool)
      modifies this`lastRequestProgressCount
      ensures lastRequestProgressCount == Some(count)
      ensures hasProgressed <==> old(lastRequestProgressCount).Some? && old(lastRequestProgressCount).value != count
    {
      hasProgressed := lastRequestProgressCount.Some? && lastRequestProgressCount.value != count;
      lastRequestProgressCount := Some(count);
    }

    method HasHeard(status: Status, heardAt: nat, loadStall: nat, stderr: StandardError) returns (counts: bool)
      modifies this, stderr
      ensures (State(stderr), counts) == HasHeardFromDaemon(old(State(stderr)), status, heardAt, loadStall)
    {
      var doesLoadCount := NoteLoad(status.load, heardAt, loadStall, stderr);
      var hasProgressed := NoteProgress(status.progressCount);
      return doesLoadCount || hasProgressed;
    }

    method ForgetLoad(stderr: StandardError)
      modifies this, stderr
      ensures State(stderr) == ForgetLoadAfterFrame(old(State(stderr)))
    {
      reportedLoad := None;
      FinishLine(stderr);
    }

    method DrawLine(line: string, stderr: StandardError)
      modifies this`liveLineWidth, stderr
      ensures State(stderr) == DrawLiveLine(old(State(stderr)), line)
    {
      var padded := if liveLineWidth > |line| then liveLineWidth else |line|;
      stderr.text := stderr.text + "\r" + line + Spaces(padded - |line|);
      liveLineWidth := padded;
    }

    method FinishLine(stderr: StandardError)
      modifies this`liveLineWidth, stderr
      ensures State(stderr) == FinishLiveLine(old(State(stderr)))
    {
      if liveLineWidth > 0 {
        stderr.text := stderr.text + "\n";
        liveLineWidth := 0;
      }
    }
  }

  // --- The wait ---

  /** One branch of the source's `select!` completing. */
  datatype Event =
    | FrameArrives(at: nat)
    | DeadlineFires(at: nat)
    | StatusAnswered(at: nat, status: Status)
    | StatusUnanswered(at: nat)

  /** A wait still going on: its deadline, when its current status poll began, and the watch. */
  datatype Wait = Wait(deadline: nat, pollBeganAt: nat, watch: Watch)

  datatype Progress =
    | Waiting(wait: Wait)
    | GotFrame(watch: Watch, at: nat)
    | WentSilent(watch: Watch, at: nat)

  function StartWait(bounds: WaitBounds, watch: Watch, startedAt: nat): Wait {
    Wait(startedAt + bounds.silence, startedAt, watch)
  }

  function Step(bounds: WaitBounds, wait: Wait, event: Event): Progress {
    match event
    case FrameArrives(at) => GotFrame(ForgetLoadAfterFrame(wait.watch), at)
    case DeadlineFires(at) => WentSilent(FinishLiveLine(wait.watch), at)
    case StatusUnanswered(at) => Waiting(wait.(pollBeganAt := at))
    case StatusAnswered(at, status) =>
      var (watch, counts) := HasHeardFromDaemon(wait.watch, status, at, bounds.loadStall);
      Waiting(Wait(if counts then at + bounds.silence else wait.deadline, at, watch))
  }

  function Run(bounds: WaitBounds, wait: Wait, events: seq<Event>): Progress
    decreases |events|
  {
    if events == [] then Waiting(wait)
    else
      match Step(bounds, wait, events[0])
      case Waiting(next) => Run(bounds, next, events[1..])
      case ended => ended
  }

  /** The source's loop, fed the events its branches complete with. */
  method AwaitFrame(watch: DaemonWorkWatch, stderr: StandardError, bounds: WaitBounds, startedAt: nat, events: seq<Event>)
    returns (progress: Progress)
    modifies watch, stderr
    ensures progress == Run(bounds, StartWait(bounds, old(watch.State(stderr)), startedAt), events)
    ensures progress.GotFrame? || progress.WentSilent? ==> progress.watch == watch.State(stderr)
    ensures progress.Waiting? ==> progress.wait.watch == watch.State(stderr)
  {
    var silenceDeadline: nat := startedAt + bounds.silence;
    var pollBeganAt: nat := startedAt;
    var i := 0;
    while i < |events|
      invariant 0 <= i <= |events|
      invariant Run(bounds, StartWait(bounds, old(watch.State(stderr)), startedAt), events) ==
                Run(bounds, Wait(silenceDeadline, pollBeganAt, watch.State(stderr)), events[i..])
    {
      assert events[i..][1..] == events[i + 1..];
      match events[i] {
        case FrameArrives(at) =>
          watch.ForgetLoad(stderr);
          return GotFrame(watch.State(stderr), at);
        case DeadlineFires(at) =>
          watch.FinishLine(stderr);
          return WentSilent(watch.State(stderr), at);
        case StatusUnanswered(at) =>
          pollBeganAt := at;
        case StatusAnswered(at, status) =>
          var counts := watch.HasHeard(status, at, bounds.loadStall, stderr);
          pollBeganAt := at;
          if counts {
            silenceDeadline := at + bounds.silence;
          }
      }
      i := i + 1;
    }
    return Waiting(Wait(silenceDeadline, pollBeganAt, watch.State(stderr)));
  }

  // --- Which schedules can happen ---

  /** No timer fires early: the deadline not before its time, a status not before its interval. */
  predicate IsPossible(bounds: WaitBounds, wait: Wait, event: Event) {
    && wait.pollBeganAt <= event.at
    && (event.DeadlineFires? ==> wait.deadline <= event.at)
    && (event.StatusAnswered? || event.StatusUnanswered? ==> wait.pollBeganAt + bounds.pollInterval <= event.at)
  }

  /** The longest one poll can take: its interval, then the limit on the answer. */
  function LongestPoll(bounds: WaitBounds): nat {
    (1 + STATUS_ANSWER_POLL_INTERVALS) * bounds.pollInterval
  }

  lemma LongestPollIsSix(bounds: WaitBounds)
    ensures LongestPoll(bounds) == 6 * bounds.pollInterval
  {
  }

  /** And no timer fires late: nothing happens past the deadline, or past the current poll's limit. */
  predicate IsTimely(bounds: WaitBounds, wait: Wait, event: Event) {
    && IsPossible(bounds, wait, event)
    && event.at <= wait.deadline
    && event.at <= wait.pollBeganAt + LongestPoll(bounds)
  }

  /** A schedule the wait can see; only its last event may end the wait. */
  predicate IsPossibleRun(bounds: WaitBounds, wait: Wait, events: seq<Event>)
    decreases |events|
  {
    events == [] ||
      (IsPossible(bounds, wait, events[0]) &&
       match Step(bounds, wait, events[0])
       case Waiting(next) => IsPossibleRun(bounds, next, events[1..])
       case _ => |events| == 1)
  }

  predicate IsTimelyRun(bounds: WaitBounds, wait: Wait, events: seq<Event>)
    decreases |events|
  {
    events == [] ||
      (IsTimely(bounds, wait, events[0]) &&
       match Step(bounds, wait, events[0])
       case Waiting(next) => IsTimelyRun(bounds, next, events[1..])
       case _ => |events| == 1)
  }

  lemma {:induction false} TimelyIsPossible(bounds: WaitBounds, wait: Wait, events: seq<Event>)
    requires IsTimelyRun(bounds, wait, events)
    ensures IsPossibleRun(bounds, wait, events)
    decreases |events|
  {
    if events != [] && Step(bounds, wait, events[0]).Waiting? {
      TimelyIsPossible(bounds, Step(bounds, wait, events[0]).wait, events[1..]);
    }
  }

  // --- What an answered status does ---

  /** The load is new to the watch, or was first reported less than the load bound ago. */
  predicate IsLoadFresh(watch: Watch, load: ModelLoad, at: nat, loadStall: nat) {
    match watch.reportedLoad
    case None => true
    case Some(reported) => reported.load != load || (if at < reported.since then 0 else at - reported.since) < loadStall
  }

  /**
    * An answered status moves the deadline to a silence bound from now exactly
    * when it reports a load that is new or not yet stalled, or a count that
    * differs from the one remembered; otherwise the deadline stays. Either way
    * the watch remembers the load, since it was first reported, and the count.
    */
  lemma AnsweredStatus(bounds: WaitBounds, wait: Wait, at: nat, status: Status)
    ensures var progress := Step(bounds, wait, StatusAnswered(at, status));
            var isHeard :=
              || (status.load.Some? && IsLoadFresh(wait.watch, status.load.value, at, bounds.loadStall))
              || (wait.watch.lastCount.Some? && wait.watch.lastCount.value != status.progressCount);
            && progress.Waiting? && progress.wait.pollBeganAt == at
            && progress.wait.deadline == (if isHeard then at + bounds.silence else wait.deadline)
            && progress.wait.watch.lastCount == Some(status.progressCount)
            && progress.wait.watch.reportedLoad ==
                 match status.load
                 case None => None
                 case Some(load) =>
                   if wait.watch.reportedLoad.Some? && wait.watch.reportedLoad.value.load == load then wait.watch.reportedLoad
                   else Some(ReportedLoad(load, at))
  {
  }

  /**
    * What it writes: a load that is new draws the line, padded over what it
    * showed before; the end of a load ends the line; nothing else is written.
    */
  lemma AnsweredStatusShows(bounds: WaitBounds, wait: Wait, at: nat, status: Status)
    ensures var before, after := wait.watch, Step(bounds, wait, StatusAnswered(at, status)).wait.watch;
            match status.load
            case None =>
              after.written == before.written + (if before.lineWidth > 0 then "\n" else "") && after.lineWidth == 0
            case Some(load) =>
              if before.reportedLoad.Some? && before.reportedLoad.value.load == load then
                after.written == before.written && after.lineWidth == before.lineWidth
              else
                && after.lineWidth == (if before.lineWidth > 17 then before.lineWidth else 17)
                && |after.written| == |before.written| + 1 + after.lineWidth
                && after.written[..|before.written| + 18] == before.written + "\rLoading the model"
                && forall i :: |before.written| + 18 <= i < |after.written| ==> after.written[i] == ' '
  {
    assert |MODEL_LOAD_LINE| == 17;
    var padded := if wait.watch.lineWidth > 17 then wait.watch.lineWidth else 17;
    var spaces := Spaces(padded - 17);
    var drawn := wait.watch.written + "\r" + MODEL_LOAD_LINE + spaces;
    assert drawn == wait.watch.written + ("\r" + MODEL_LOAD_LINE) + spaces;
    assert "\r" + MODEL_LOAD_LINE == "\rLoading the model";
  }

  /** A poll without an answer changes nothing but when the next one begins; a frame forgets the load; both ends close the line. */
  lemma OtherEvents(bounds: WaitBounds, wait: Wait, at: nat)
    ensures Step(bounds, wait, StatusUnanswered(at)) == Waiting(wait.(pollBeganAt := at))
    ensures var closed := wait.watch.written + (if wait.watch.lineWidth > 0 then "\n" else "");
            && Step(bounds, wait, FrameArrives(at)) == GotFrame(Watch(None, wait.watch.lastCount, 0, closed), at)
            && Step(bounds, wait, DeadlineFires(at)) == WentSilent(Watch(wait.watch.reportedLoad, wait.watch.lastCount, 0, closed), at)
  {
  }

  // --- A load that goes on keeps the wait open ---

  /** Every poll is answered, and reports the load. */
  predicate KeepsReporting(events: seq<Event>, load: ModelLoad) {
    forall i :: 0 <= i < |events| ==>
      !events[i].StatusUnanswered? && (events[i].StatusAnswered? ==> events[i].status.load == Some(load))
  }

  /** The time of the first event, or of the first report the watch remembers of this load. */
  function FirstHeard(watch: Watch, load: ModelLoad, first: Event): nat {
    if watch.reportedLoad.Some? && watch.reportedLoad.value.load == load then watch.reportedLoad.value.since else first.at
  }

  lemma {:induction false} LoadOutrunsDeadline(bounds: WaitBounds, wait: Wait, load: ModelLoad, since: nat, events: seq<Event>)
    requires 6 * bounds.pollInterval < bounds.silence
    requires IsTimelyRun(bounds, wait, events) && KeepsReporting(events, load)
    requires wait.watch.reportedLoad == Some(ReportedLoad(load, since)) && since <= wait.pollBeganAt
    requires wait.pollBeganAt + 6 * bounds.pollInterval < wait.deadline || since + bounds.loadStall <= wait.deadline
    ensures match Run(bounds, wait, events) case WentSilent(_, at) => since + bounds.loadStall <= at case _ => true
    decreases |events|
  {
    LongestPollIsSix(bounds);
    if events != [] && Step(bounds, wait, events[0]).Waiting? {
      AnsweredStatus(bounds, wait, events[0].at, events[0].status);
      assert KeepsReporting(events[1..], load) by {
        assert forall i :: 0 <= i < |events| - 1 ==> events[1..][i] == events[i + 1];
      }
      LoadOutrunsDeadline(bounds, Step(bounds, wait, events[0]).wait, load, since, events[1..]);
    }
  }

  /**
    * While every poll is answered in time and reports one load, a wait that has
    * room for one longest poll in its silence bound never goes silent before the
    * load has been reported for the whole load bound.
    */
  lemma LoadKeepsWaiting(bounds: WaitBounds, watch: Watch, startedAt: nat, load: ModelLoad, events: seq<Event>)
    requires 6 * bounds.pollInterval < bounds.silence
    requires watch.reportedLoad.Some? ==> watch.reportedLoad.value.since <= startedAt
    requires IsTimelyRun(bounds, StartWait(bounds, watch, startedAt), events) && KeepsReporting(events, load)
    requires Run(bounds, StartWait(bounds, watch, startedAt), events).WentSilent?
    ensures FirstHeard(watch, load, events[0]) + bounds.loadStall <= Run(bounds, StartWait(bounds, watch, startedAt), events).at
  {
    var start := StartWait(bounds, watch, startedAt);
    var first := events[0];
    LongestPollIsSix(bounds);
    assert first.StatusAnswered?;
    AnsweredStatus(bounds, start, first.at, first.status);
    assert KeepsReporting(events[1..], load) by {
      assert forall i :: 0 <= i < |events| - 1 ==> events[1..][i] == events[i + 1];
    }
    LoadOutrunsDeadline(bounds, Step(bounds, start, first).wait, load, FirstHeard(watch, load, first), events[1..]);
  }

  // --- Never too early ---

  /** The last time a status counted as hearing from the daemon, starting from `heardAt`. */
  function LastHeardAt(bounds: WaitBounds, wait: Wait, heardAt: nat, events: seq<Event>): nat
    decreases |events|
  {
    if events == [] then heardAt
    else
      match Step(bounds, wait, events[0])
      case Waiting(next) =>
        var counts := events[0].StatusAnswered? &&
                      HasHeardFromDaemon(wait.watch, events[0].status, events[0].at, bounds.loadStall).1;
        LastHeardAt(bounds, next, if counts then events[0].at else heardAt, events[1..])
      case _ => heardAt
  }

  lemma {:induction false} SilenceSinceLastHeard(bounds: WaitBounds, wait: Wait, heardAt: nat, events: seq<Event>)
    requires IsPossibleRun(bounds, wait, events) && wait.deadline == heardAt + bounds.silence
    ensures match Run(bounds, wait, events)
            case WentSilent(_, at) => LastHeardAt(bounds, wait, heardAt, events) + bounds.silence <= at
            case Waiting(now) => now.deadline == LastHeardAt(bounds, wait, heardAt, events) + bounds.silence
            case GotFrame(_, _) => true
    decreases |events|
  {
    if events != [] && Step(bounds, wait, events[0]).Waiting? {
      var next := Step(bounds, wait, events[0]).wait;
      var counts := events[0].StatusAnswered? &&
                    HasHeardFromDaemon(wait.watch, events[0].status, events[0].at, bounds.loadStall).1;
      SilenceSinceLastHeard(bounds, next, if counts then events[0].at else heardAt, events[1..]);
    }
  }

  /** The wait never gives up before a whole silence bound has passed since it began or last heard anything. */
  lemma SilenceIsNeverEarly(bounds: WaitBounds, watch: Watch, startedAt: nat, events: seq<Event>)
    requires IsPossibleRun(bounds, StartWait(bounds, watch, startedAt), events)
    requires Run(bounds, StartWait(bounds, watch, startedAt), events).WentSilent?
    ensures LastHeardAt(bounds, StartWait(bounds, watch, startedAt), startedAt, events) + bounds.silence
              <= Run(bounds, StartWait(bounds, watch, startedAt), events).at
  {
    SilenceSinceLastHeard(bounds, StartWait(bounds, watch, startedAt), startedAt, events);
  }

  // --- A stuck daemon is noticed ---

  /** The remembered load was first reported in the past, and the deadline is at most a silence bound away. */
  predicate IsSettled(bounds: WaitBounds, wait: Wait) {
    && (wait.watch.reportedLoad.Some? ==> wait.watch.reportedLoad.value.since <= wait.pollBeganAt)
    && wait.deadline <= wait.pollBeganAt + bounds.silence
  }

  predicate RepeatsStatus(events: seq<Event>, status: Status) {
    forall i :: 0 <= i < |events| && events[i].StatusAnswered? ==> events[i].status == status
  }

  /** The state right after `status` was recorded, before `stuckAt` ended. */
  predicate HasRecorded(watch: Watch, status: Status, stuckAt: nat) {
    && watch.lastCount == Some(status.progressCount)
    && match status.load
       case None => watch.reportedLoad.None?
       case Some(load) => watch.reportedLoad.Some? && watch.reportedLoad.value.load == load
                          && watch.reportedLoad.value.since <= stuckAt
  }

  /** How far past the moment it got stuck a daemon can push the deadline. */
  function StuckAllowance(bounds: WaitBounds, status: Status): nat {
    (if status.load.Some? then bounds.loadStall else 0) + bounds.silence
  }

  lemma {:induction false} StuckDeadlineStays(bounds: WaitBounds, wait: Wait, status: Status, stuckAt: nat, events: seq<Event>)
    requires IsPossibleRun(bounds, wait, events) && RepeatsStatus(events, status)
    requires HasRecorded(wait.watch, status, stuckAt) && wait.deadline <= stuckAt + StuckAllowance(bounds, status)
    ensures match Run(bounds, wait, events)
            case Waiting(now) =>
              now.deadline <= stuckAt + StuckAllowance(bounds, status) && HasRecorded(now.watch, status, stuckAt)
              && now.pollBeganAt >= wait.pollBeganAt + |events| * bounds.pollInterval
            case _ => true
    decreases |events|
  {
    if events != [] && Step(bounds, wait, events[0]).Waiting? {
      var next := Step(bounds, wait, events[0]).wait;
      assert RepeatsStatus(events[1..], status) by {
        forall i | 0 <= i < |events| - 1 && events[1..][i].StatusAnswered?
          ensures events[1..][i].status == status
        {
          assert events[1..][i] == events[i + 1];
        }
      }
      StuckDeadlineStays(bounds, next, status, stuckAt, events[1..]);
      assert |events| * bounds.pollInterval == bounds.pollInterval + |events[1..]| * bounds.pollInterval;
    }
  }

  /**
   * Once every later answered status repeats the load and count of the one recorded at `stuckAt`, the deadline
   * never moves past `stuckAt` plus the load bound plus the silence bound, whatever the schedule.
   */
  lemma StuckDaemonIsNoticed(bounds: WaitBounds, wait: Wait, status: Status, stuckAt: nat, events: seq<Event>)
    requires IsSettled(bounds, wait)
    requires IsPossible(bounds, wait, StatusAnswered(stuckAt, status))
    requires IsPossibleRun(bounds, Step(bounds, wait, StatusAnswered(stuckAt, status)).wait, events)
    requires RepeatsStatus(events, status)
    ensures var after := Step(bounds, wait, StatusAnswered(stuckAt, status)).wait;
            match Run(bounds, after, events)
            case Waiting(now) => now.deadline <= stuckAt + StuckAllowance(bounds, status)
            case _ => true
  {
    var after := Step(bounds, wait, StatusAnswered(stuckAt, status)).wait;
    StuckDeadlineStays(bounds, after, status, stuckAt, events);
  }

  /** And the wait ends: a timely schedule fits only so many polls before that deadline. */
  lemma StuckWaitEnds(bounds: WaitBounds, wait: Wait, status: Status, stuckAt: nat, events: seq<Event>)
    requires IsSettled(bounds, wait)
    requires IsTimely(bounds, wait, StatusAnswered(stuckAt, status))
    requires IsTimelyRun(bounds, Step(bounds, wait, StatusAnswered(stuckAt, status)).wait, events)
    requires RepeatsStatus(events, status)
    requires Run(bounds, Step(bounds, wait, StatusAnswered(stuckAt, status)).wait, events).Waiting?
    ensures |events| * bounds.pollInterval <= StuckAllowance(bounds, status)
  {
    var after := Step(bounds, wait, StatusAnswered(stuckAt, status)).wait;
    TimelyIsPossible(bounds, after, events);
    StuckDeadlineStays(bounds, after, status, stuckAt, events);
    TimelyPollStaysBeforeDeadline(bounds, after, events);
  }

  lemma {:induction false} TimelyPollStaysBeforeDeadline(bounds: WaitBounds, wait: Wait, events: seq<Event>)
    requires IsTimelyRun(bounds, wait, events) && wait.pollBeganAt <= wait.deadline
    ensures match Run(bounds, wait, events) case Waiting(now) => now.pollBeganAt <= now.deadline case _ => true
    decreases |events|
  {
    if events != [] && Step(bounds, wait, events[0]).Waiting? {
      TimelyPollStaysBeforeDeadline(bounds, Step(bounds, wait, events[0]).wait, events[1..]);
    }
  }

  /** Every state a wait reaches is settled, so the two results above apply at every answered status of every run. */
  lemma {:induction false} RunsStaySettled(bounds: WaitBounds, wait: Wait, events: seq<Event>)
    requires IsSettled(bounds, wait) && IsPossibleRun(bounds, wait, events)
    ensures match Run(bounds, wait, events) case Waiting(now) => IsSettled(bounds, now) case _ => true
    decreases |events|
  {
    if events != [] && Step(bounds, wait, events[0]).Waiting? {
      RunsStaySettled(bounds, Step(bounds, wait, events[0]).wait, events[1..]);
    }
  }

  // --- A working daemon is never given up on ---

  /** Every poll is answered, with a count that differs from the one recorded before it. */
  predicate KeepsProgressing(bounds: WaitBounds, wait: Wait, events: seq<Event>)
    decreases |events|
  {
    events == [] ||
      (!events[0].StatusUnanswered? &&
       (events[0].StatusAnswered? ==> wait.watch.lastCount != Some(events[0].status.progressCount)) &&
       match Step(bounds, wait, events[0])
       case Waiting(next) => KeepsProgressing(bounds, next, events[1..])
       case _ => true)
  }

  lemma {:induction false} ProgressOutrunsDeadline(bounds: WaitBounds, wait: Wait, events: seq<Event>)
    requires LongestPoll(bounds) < bounds.silence
    requires IsTimelyRun(bounds, wait, events) && KeepsProgressing(bounds, wait, events)
    requires wait.pollBeganAt + LongestPoll(bounds) < wait.deadline
    requires wait.watch.lastCount.None? ==> wait.pollBeganAt + 2 * LongestPoll(bounds) < wait.deadline
    ensures !Run(bounds, wait, events).WentSilent?
    decreases |events|
  {
    if events != [] && Step(bounds, wait, events[0]).Waiting? {
      ProgressOutrunsDeadline(bounds, Step(bounds, wait, events[0]).wait, events[1..]);
    }
  }

  /** What must fit in the silence bound: one longest poll, and a first one when there is no count yet to compare with. */
  function RoomNeeded(bounds: WaitBounds, watch: Watch): nat {
    if watch.lastCount.None? then 2 * LongestPoll(bounds) else LongestPoll(bounds)
  }

  /** A timely schedule that ends in silence although every poll was answered with new progress. */
  predicate IsFalseFailure(bounds: WaitBounds, watch: Watch, startedAt: nat, events: seq<Event>) {
    var start := StartWait(bounds, watch, startedAt);
    IsTimelyRun(bounds, start, events) && KeepsProgressing(bounds, start, events) && Run(bounds, start, events).WentSilent?
  }

  /** A daemon that answers every poll with new progress is never given up on, if there is room in the silence bound. */
  lemma NoFalseFailure(bounds: WaitBounds, watch: Watch, startedAt: nat, events: seq<Event>)
    requires RoomNeeded(bounds, watch) < bounds.silence
    ensures !IsFalseFailure(bounds, watch, startedAt, events)
  {
    var start := StartWait(bounds, watch, startedAt);
    if IsTimelyRun(bounds, start, events) && KeepsProgressing(bounds, start, events) {
      ProgressOutrunsDeadline(bounds, start, events);
    }
  }

  /** Without that room, some schedule gives up on a daemon that keeps progressing. */
  lemma FalseFailureWithoutRoom(bounds: WaitBounds, watch: Watch, startedAt: nat) returns (events: seq<Event>)
    requires bounds.silence <= RoomNeeded(bounds, watch)
    ensures IsFalseFailure(bounds, watch, startedAt, events)
  {
    var wait := StartWait(bounds, watch, startedAt);
    var silent := DeadlineFires(startedAt + bounds.silence);
    if bounds.silence <= LongestPoll(bounds) {
      events := [silent];
    } else {
      var first := StatusAnswered(startedAt + LongestPoll(bounds), Status(None, 0));
      events := [first, silent];
      assert events[1..] == [silent];
      var after := Step(bounds, wait, first).wait;
      assert after.deadline == wait.deadline && after.pollBeganAt == first.at;
      assert Run(bounds, after, [silent]) == WentSilent(FinishLiveLine(after.watch), silent.at);
    }
  }

  /** A progressing daemon can be given up on exactly when the room is missing, whatever the watch carried over. */
  lemma FalseFailureExactly(bounds: WaitBounds, watch: Watch, startedAt: nat)
    ensures (exists events :: IsFalseFailure(bounds, watch, startedAt, events)) <==>
              bounds.silence <= (if watch.lastCount.Some? then 6 else 12) * bounds.pollInterval
  {
    LongestPollIsSix(bounds);
    if bounds.silence <= RoomNeeded(bounds, watch) {
      var events := FalseFailureWithoutRoom(bounds, watch, startedAt);
    } else {
      forall events
        ensures !IsFalseFailure(bounds, watch, startedAt, events)
      {
        NoFalseFailure(bounds, watch, startedAt, events);
      }
    }
  }

  // --- The terminal line ---

  /** The terminal's last line has been started and not ended. */
  predicate LineIsOpen(written: string) {
    written != [] && written[|written| - 1] != '\n'
  }

  /** The watch knows whether its line is open, and a line is open only while a load is remembered. */
  predicate LineFits(watch: Watch) {
    && (watch.lineWidth > 0 <==> LineIsOpen(watch.written))
    && (watch.lineWidth > 0 ==> watch.reportedLoad.Some?)
  }

  lemma {:induction false} LineFitsThroughout(bounds: WaitBounds, wait: Wait, events: seq<Event>)
    requires LineFits(wait.watch)
    ensures match Run(bounds, wait, events)
            case Waiting(now) => LineFits(now.watch)
            case GotFrame(watch, _) => LineFits(watch) && !LineIsOpen(watch.written)
            case WentSilent(watch, _) => LineFits(watch) && !LineIsOpen(watch.written)
    decreases |events|
  {
    if events != [] && Step(bounds, wait, events[0]).Waiting? {
      LineFitsThroughout(bounds, Step(bounds, wait, events[0]).wait, events[1..]);
    }
  }

  // --- Several frames in a row ---

  /** One frame wait of a session: when it started and what happened in it. */
  datatype FrameWait = FrameWait(startedAt: nat, events: seq<Event>)

  /** The watch after a session of waits that each returned. */
  function AfterSession(bounds: WaitBounds, watch: Watch, waits: seq<FrameWait>): Watch
    requires EachReturns(bounds, watch, waits)
    decreases |waits|
  {
    if waits == [] then watch
    else
      var ended := Run(bounds, StartWait(bounds, watch, waits[0].startedAt), waits[0].events);
      AfterSession(bounds, ended.watch, waits[1..])
  }

  predicate EachReturns(bounds: WaitBounds, watch: Watch, waits: seq<FrameWait>)
    decreases |waits|
  {
    waits == [] ||
      var ended := Run(bounds, StartWait(bounds, watch, waits[0].startedAt), waits[0].events);
      !ended.Waiting? && EachReturns(bounds, ended.watch, waits[1..])
  }

  /** The last count any answered status reported, or the one the watch came in with. */
  function LastReportedCount(before: Option<nat>, events: seq<Event>): Option<nat>
    decreases |events|
  {
    if events == [] then before
    else
      match events[0]
      case StatusAnswered(_, status) => LastReportedCount(Some(status.progressCount), events[1..])
      case StatusUnanswered(_) => LastReportedCount(before, events[1..])
      case _ => before
  }

  lemma {:induction false} CountCarriesOver(bounds: WaitBounds, wait: Wait, events: seq<Event>)
    ensures match Run(bounds, wait, events)
            case Waiting(now) => now.watch.lastCount == LastReportedCount(wait.watch.lastCount, events)
            case GotFrame(watch, _) => watch.reportedLoad.None? && watch.lastCount == LastReportedCount(wait.watch.lastCount, events)
            case WentSilent(watch, _) => watch.lastCount == LastReportedCount(wait.watch.lastCount, events)
    decreases |events|
  {
    if events != [] && Step(bounds, wait, events[0]).Waiting? {
      CountCarriesOver(bounds, Step(bounds, wait, events[0]).wait, events[1..]);
    }
  }

  /** Between frames no line is ever left open, through any number of waits with one watch. */
  lemma {:induction false} SessionLeavesNoOpenLine(bounds: WaitBounds, watch: Watch, waits: seq<FrameWait>)
    requires LineFits(watch) && EachReturns(bounds, watch, waits)
    ensures LineFits(AfterSession(bounds, watch, waits))
    ensures waits != [] ==> !LineIsOpen(AfterSession(bounds, watch, waits).written)
    decreases |waits|
  {
    if waits != [] {
      var start := StartWait(bounds, watch, waits[0].startedAt);
      LineFitsThroughout(bounds, start, waits[0].events);
      SessionLeavesNoOpenLine(bounds, Run(bounds, start, waits[0].events).watch, waits[1..]);
    }
  }

  /** Each wait is a possible run, returns, and does not start before the one in front of it ended. */
  predicate IsSession(bounds: WaitBounds, watch: Watch, waits: seq<FrameWait>, notBefore: nat)
    decreases |waits|
  {
    waits == [] ||
      (var start := StartWait(bounds, watch, waits[0].startedAt);
       var ended := Run(bounds, start, waits[0].events);
       && notBefore <= waits[0].startedAt && IsPossibleRun(bounds, start, waits[0].events)
       && !ended.Waiting? && IsSession(bounds, ended.watch, waits[1..], ended.at))
  }

  predicate EachStartsSettled(bounds: WaitBounds, watch: Watch, waits: seq<FrameWait>, notBefore: nat)
    requires IsSession(bounds, watch, waits, notBefore)
    decreases |waits|
  {
    waits == [] ||
      var start := StartWait(bounds, watch, waits[0].startedAt);
      var ended := Run(bounds, start, waits[0].events);
      IsSettled(bounds, start) && EachStartsSettled(bounds, ended.watch, waits[1..], ended.at)
  }

  /** A remembered load was first reported before now. */
  predicate LoadIsPast(watch: Watch, now: nat) {
    watch.reportedLoad.Some? ==> watch.reportedLoad.value.since <= now
  }

  lemma {:induction false} EndedLoadIsPast(bounds: WaitBounds, wait: Wait, events: seq<Event>)
    requires IsSettled(bounds, wait) && IsPossibleRun(bounds, wait, events)
    ensures var ended := Run(bounds, wait, events); !ended.Waiting? ==> LoadIsPast(ended.watch, ended.at)
    decreases |events|
  {
    if events != [] && Step(bounds, wait, events[0]).Waiting? {
      EndedLoadIsPast(bounds, Step(bounds, wait, events[0]).wait, events[1..]);
    }
  }

  /** Every wait of a session starts settled, also with a watch that carries a load over from a wait that went silent. */
  lemma {:induction false} WaitsStartSettled(bounds: WaitBounds, watch: Watch, waits: seq<FrameWait>, notBefore: nat)
    requires LoadIsPast(watch, notBefore) && IsSession(bounds, watch, waits, notBefore)
    ensures EachStartsSettled(bounds, watch, waits, notBefore)
    decreases |waits|
  {
    if waits != [] {
      var start := StartWait(bounds, watch, waits[0].startedAt);
      var ended := Run(bounds, start, waits[0].events);
      EndedLoadIsPast(bounds, start, waits[0].events);
      WaitsStartSettled(bounds, ended.watch, waits[1..], ended.at);
    }
  }
}
