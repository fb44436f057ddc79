// What each command line is (apps/astronomical-cli/src/arguments.rs), with the
// spellings and the verbs written out.

module CommandVerdicts {
  import opened Wrappers
  import opened ArgumentVector
  import opened CommandLine
  import opened UsageFailures
  import L = LaunchArguments
  import R = RespondArguments

  /** The argument stands behind the program's name, with no separator up to it. */
  ghost predicate StandsInFront(processArguments: seq<Argument>, argument: Argument) {
    exists i :: 1 <= i < |processArguments| && processArguments[i] == argument && Text("--") !in processArguments[1..i + 1]
  }

  lemma InLauncherStands(supplied: seq<Argument>, argument: Argument)
    requires argument in LauncherPart(supplied)
    ensures exists i :: 0 <= i < |supplied| && supplied[i] == argument && Text("--") !in supplied[..i + 1]
  {
    var launcher := LauncherPart(supplied);
    SplitHolds(supplied);
    var i :| 0 <= i < |launcher| && launcher[i] == argument;
    FrontLacks(supplied, launcher, i, Text("--"));
  }

  lemma FrontLacks<T>(whole: seq<T>, front: seq<T>, i: nat, x: T)
    requires front <= whole && i < |front| && x !in front
    ensures whole[i] == front[i] && x !in whole[..i + 1]
  {
    assert whole[..i + 1] == front[..i + 1];
    assert forall k :: 0 <= k < i + 1 ==> front[..i + 1][k] == front[k];
  }

  lemma LacksUpTo<T>(whole: seq<T>, i: nat, x: T)
    requires i < |whole| && x !in whole[..i + 1]
    ensures forall k :: 0 <= k <= i ==> whole[k] != x
  {
    forall k | 0 <= k <= i
      ensures whole[k] != x
    {
      assert whole[..i + 1][k] == whole[k];
    }
  }

  lemma StandingIsInLauncher(supplied: seq<Argument>, i: nat)
    requires i < |supplied| && Text("--") !in supplied[..i + 1]
    ensures supplied[i] in LauncherPart(supplied)
  {
    var launcher := LauncherPart(supplied);
    SplitHolds(supplied);
    LacksUpTo(supplied, i, Text("--"));
    assert |launcher| < |supplied| ==> supplied[|launcher|] == Text("--");
    assert launcher[i] == supplied[i];
  }

  lemma InFrontMeans(processArguments: seq<Argument>, argument: Argument)
    ensures StandsInFront(processArguments, argument) <==> argument in LauncherPart(Supplied(processArguments))
  {
    var supplied := Supplied(processArguments);
    if argument in LauncherPart(supplied) {
      InLauncherStands(supplied, argument);
      var i :| 0 <= i < |supplied| && supplied[i] == argument && Text("--") !in supplied[..i + 1];
      assert processArguments[1..][..i + 1] == processArguments[1..i + 1 + 1];
      assert processArguments[i + 1] == argument;
    }
    if i :| 1 <= i < |processArguments| && processArguments[i] == argument && Text("--") !in processArguments[1..i + 1] {
      assert supplied[..i - 1 + 1] == processArguments[1..i + 1];
      StandingIsInLauncher(supplied, i - 1);
    }
  }

  /** What stands behind the program's name. */
  function Supplied(processArguments: seq<Argument>): seq<Argument> {
    if processArguments == [] then [] else processArguments[1..]
  }

  lemma AskedMeans(supplied: seq<Argument>)
    ensures AsksFor(supplied, HELP_SPELLINGS) <==> Text("--help") in LauncherPart(supplied) || Text("-h") in LauncherPart(supplied)
    ensures AsksFor(supplied, VERSION_SPELLINGS) <==> Text("--version") in LauncherPart(supplied)
  {
  }

  ghost predicate AsksForHelp(processArguments: seq<Argument>) {
    StandsInFront(processArguments, Text("--help")) || StandsInFront(processArguments, Text("-h"))
  }

  lemma NoVerbIsAskedFirst(remaining: seq<Argument>)
    ensures ParseVerb(remaining) != Ok(Help) && ParseVerb(remaining) != Ok(Version)
  {
  }

  /** Help is given for `--help` or `-h` in front of the separator, and the version for `--version` there without either. */
  lemma HelpAndVersion(processArguments: seq<Argument>)
    ensures Parse(processArguments) == Ok(Help) <==> AsksForHelp(processArguments)
    ensures Parse(processArguments) == Ok(Version) <==>
              !AsksForHelp(processArguments) && StandsInFront(processArguments, Text("--version"))
    ensures !AsksForHelp(processArguments) && !StandsInFront(processArguments, Text("--version")) ==>
              Parse(processArguments) == ParseVerb(WithoutVerbose(Supplied(processArguments)))
  {
    AskedMeans(Supplied(processArguments));
    InFrontMeans(processArguments, Text("--help"));
    InFrontMeans(processArguments, Text("-h"));
    InFrontMeans(processArguments, Text("--version"));
    NoVerbIsAskedFirst(WithoutVerbose(Supplied(processArguments)));
  }

  // --- The verbs ---

  predicate IsOtherVerb(verb: string) {
    verb in {"embed", "image", "models", "schema", "validate", "quantize", "vision"}
  }

  predicate IsVerb(verb: string) {
    verb in {"launch", "respond", "status", "doctor"} || IsOtherVerb(verb)
  }

  /** The verb in front of its arguments decides, and what it makes of them. */
  ghost predicate IsVerdict(remaining: seq<Argument>, verdict: Result<CliCommand, UsageError>) {
    if remaining == [] then verdict == Err(MissingCommand)
    else if remaining[0].NotUnicode? then verdict == Err(UnknownCommand(remaining[0].lossy))
    else
      var verb, arguments := remaining[0].text, remaining[1..];
      if verb == "launch" then
        match verdict
        case Ok(command) => command.Launch? && L.IsWritten(arguments, command.launch)
        case Err(error) => exists items, said, rest :: StopsLaunch(arguments, items, said, rest, error)
      else if verb == "respond" then
        match verdict
        case Ok(command) => command.Respond? && R.IsWritten(arguments, command.respond)
        case Err(error) =>
          || (exists items, said, rest :: StopsRespond(arguments, items, said, rest, error))
          || (error == RespondPromptRequired && exists items, said :: HasNoPrompt(arguments, items, said))
      else if IsOtherVerb(verb) then verdict == Ok(OtherVerb(verb, arguments))
      else if !IsVerb(verb) then verdict == Err(UnknownCommand(verb))
      else if arguments != [] then verdict == Err(UnknownArgument(Lossy(arguments[0])))
      else verdict == Ok(if verb == "status" then Status else Doctor)
  }

  lemma LaunchVerdict(arguments: seq<Argument>, verdict: Result<CliCommand, UsageError>)
    ensures IsVerdict([Text("launch")] + arguments, verdict) <==> verdict == ParseVerb([Text("launch")] + arguments)
  {
    var remaining := [Text("launch")] + arguments;
    assert remaining[1..] == arguments;
    match verdict
    case Ok(command) =>
      if command.Launch? {
        L.LaunchGrammar(arguments, command.launch);
      }
    case Err(error) => LaunchFailure(arguments, error);
  }

  lemma RespondVerdict(arguments: seq<Argument>, verdict: Result<CliCommand, UsageError>)
    ensures IsVerdict([Text("respond")] + arguments, verdict) <==> verdict == ParseVerb([Text("respond")] + arguments)
  {
    var remaining := [Text("respond")] + arguments;
    assert remaining[1..] == arguments;
    match verdict
    case Ok(command) =>
      if command.Respond? {
        R.RespondGrammar(arguments, command.respond);
      }
    case Err(error) => RespondFailure(arguments, error);
  }

  lemma OtherVerdict(remaining: seq<Argument>, verdict: Result<CliCommand, UsageError>)
    requires remaining == [] || (remaining[0] != Text("launch") && remaining[0] != Text("respond"))
    ensures IsVerdict(remaining, verdict) <==> verdict == ParseVerb(remaining)
  {
    if remaining != [] && remaining[0].Text? {
      OtherVerbs(remaining[0].text);
    }
  }

  lemma OtherVerbs(verb: string)
    ensures verb in OTHER_VERBS <==> IsOtherVerb(verb)
  {
  }

  lemma VerdictIsOne(remaining: seq<Argument>, verdict: Result<CliCommand, UsageError>)
    ensures IsVerdict(remaining, verdict) <==> verdict == ParseVerb(remaining)
  {
    if remaining != [] && remaining[0] == Text("launch") {
      assert remaining == [Text("launch")] + remaining[1..];
      LaunchVerdict(remaining[1..], verdict);
    } else if remaining != [] && remaining[0] == Text("respond") {
      assert remaining == [Text("respond")] + remaining[1..];
      RespondVerdict(remaining[1..], verdict);
    } else {
      OtherVerdict(remaining, verdict);
    }
  }

  /**
    * A command line that asks for neither help nor the version has exactly one
    * verdict: that of the verb the verbose flags leave in front.
    */
  lemma VerbDecides(processArguments: seq<Argument>, verdict: Result<CliCommand, UsageError>)
    requires !AsksForHelp(processArguments) && !StandsInFront(processArguments, Text("--version"))
    ensures Parse(processArguments) == verdict <==> IsVerdict(WithoutVerbose(Supplied(processArguments)), verdict)
  {
    HelpAndVersion(processArguments);
    VerdictIsOne(WithoutVerbose(Supplied(processArguments)), verdict);
  }

  /** What is left in front of the separator is what stood there, but for `--verbose` and `-v`. */
  lemma VerboseFlagsGo(processArguments: seq<Argument>, argument: Argument)
    ensures argument in LauncherPart(WithoutVerbose(Supplied(processArguments))) <==>
              StandsInFront(processArguments, argument) && argument !in {Text("--verbose"), Text("-v")}
    ensures IsVerboseRequested(Supplied(processArguments)) <==>
              StandsInFront(processArguments, Text("--verbose")) || StandsInFront(processArguments, Text("-v"))
  {
    var supplied := Supplied(processArguments);
    var launcher, tail := LauncherPart(supplied), HarnessTail(supplied);
    SplitHolds(supplied);
    InFrontMeans(processArguments, argument);
    InFrontMeans(processArguments, Text("--verbose"));
    InFrontMeans(processArguments, Text("-v"));
    DropVerboseKeeps(launcher, argument);
    DropVerboseKeeps(launcher, HARNESS_SEPARATOR);
    SplitIsUnique(DropVerbose(launcher) + tail, DropVerbose(launcher), tail);
  }
}
