// The command line as a whole (apps/astronomical-cli/src/arguments.rs): help and
// version first, then the verb over what the global flags leave.

module CommandLine {
  import opened Wrappers
  import opened ArgumentVector
  import L = LaunchArguments
  import R = RespondArguments

  /** The parsed invocation; the grammars of the remaining verbs are kept as the arguments they are handed. */
  datatype CliCommand =
    | Help
    | Version
    | Launch(launch: L.Launch)
    | Respond(respond: R.Respond)
    | Status
    | Doctor
    | OtherVerb(verb: string, arguments: seq<Argument>)

  const OTHER_VERBS := ["embed", "image", "models", "schema", "validate", "quantize", "vision"]
  const HELP_SPELLINGS := ["--help", "-h"]
  const VERSION_SPELLINGS := ["--version"]

  function TakingNoArguments(arguments: seq<Argument>, command: CliCommand): Result<CliCommand, UsageError> {
    if arguments == [] then Ok(command) else Err(UnknownArgument(Lossy(arguments[0])))
  }

  function ParseVerb(remaining: seq<Argument>): Result<CliCommand, UsageError> {
    if remaining == [] then Err(MissingCommand)
    else if remaining[0].NotUnicode? then Err(UnknownCommand(remaining[0].lossy))
    else
      var verb, arguments := remaining[0].text, remaining[1..];
      if verb == "launch" then
        match L.ParseLaunch(arguments)
        case Err(error) => Err(error)
        case Ok(launch) => Ok(Launch(launch))
      else if verb == "respond" then
        match R.ParseRespond(arguments)
        case Err(error) => Err(error)
        case Ok(respond) => Ok(Respond(respond))
      else if verb == "status" then TakingNoArguments(arguments, Status)
      else if verb == "doctor" then TakingNoArguments(arguments, Doctor)
      else if verb in OTHER_VERBS then Ok(OtherVerb(verb, arguments))
      else Err(UnknownCommand(verb))
  }

  function Parse(processArguments: seq<Argument>): Result<CliCommand, UsageError> {
    var supplied := if processArguments == [] then [] else processArguments[1..];
    if AsksFor(supplied, HELP_SPELLINGS) then Ok(Help)
    else if AsksFor(supplied, VERSION_SPELLINGS) then Ok(Version)
    else ParseVerb(WithoutVerbose(supplied))
  }

  method ParseCommand(processArguments: seq<Argument>) returns (parsed: Result<CliCommand, UsageError>)
    ensures parsed == Parse(processArguments)
  {
    var supplied := if processArguments == [] then [] else processArguments[1..];
    var launcher, _ := SplitHarnessArguments(supplied);
    var asksHelp := ContainsAnyArgument(launcher, HELP_SPELLINGS);
    if asksHelp {
      return Ok(Help);
    }
    var asksVersion := ContainsAnyArgument(launcher, VERSION_SPELLINGS);
    if asksVersion {
      return Ok(Version);
    }
    var remaining := WithoutGlobalVerboseFlags(supplied);
    if remaining != [] && remaining[0] == Text("launch") {
      var launch := L.ParseLaunchArguments(remaining[1..]);
      return if launch.Err? then Err(launch.error) else Ok(Launch(launch.value));
    }
    if remaining != [] && remaining[0] == Text("respond") {
      var respond := R.ParseRespondArguments(remaining[1..]);
      return if respond.Err? then Err(respond.error) else Ok(Respond(respond.value));
    }
    return ParseVerb(remaining);
  }

  /** The result depends on what is asked for and on what the global flags leave. */
  lemma ParsesAlike(a: seq<Argument>, b: seq<Argument>, supplied: seq<Argument>, others: seq<Argument>)
    requires a != [] && b != [] && a[1..] == supplied && b[1..] == others
    requires AsksFor(supplied, HELP_SPELLINGS) <==> AsksFor(others, HELP_SPELLINGS)
    requires AsksFor(supplied, VERSION_SPELLINGS) <==> AsksFor(others, VERSION_SPELLINGS)
    requires WithoutVerbose(supplied) == WithoutVerbose(others)
    ensures Parse(a) == Parse(b)
  {
  }

  /** A verbose flag anywhere between the program's name and the first separator changes no result. */
  lemma VerboseChangesNothing(processArguments: seq<Argument>, at: nat, flag: Argument)
    requires processArguments != [] && IsVerboseFlag(flag)
    requires 1 <= at <= 1 + |LauncherPart(processArguments[1..])|
    ensures Parse(WithFlag(processArguments, at, flag)) == Parse(processArguments)
    ensures IsVerboseRequested(WithFlag(processArguments, at, flag)[1..])
  {
    var supplied := processArguments[1..];
    assert WithFlag(processArguments, at, flag)[1..] == WithFlag(supplied, at - 1, flag);
    InsertedFlagIsSeen(supplied, at - 1, flag, HELP_SPELLINGS);
    InsertedFlagIsSeen(supplied, at - 1, flag, VERSION_SPELLINGS);
    InsertedFlagIsDropped(supplied, at - 1, flag);
    ParsesAlike(WithFlag(processArguments, at, flag), processArguments, WithFlag(supplied, at - 1, flag), supplied);
  }

  // --- Written requests reach their verbs ---

  /** None of the arguments is a flag the whole command line answers to. */
  ghost predicate HoldsNoGlobalFlag(launcher: seq<Argument>) {
    forall argument :: argument in launcher ==>
      !IsVerboseFlag(argument) && argument != Text("--help") && argument != Text("-h") && argument != Text("--version")
  }

  lemma {:induction false} NothingDropped(launcher: seq<Argument>)
    requires HoldsNoGlobalFlag(launcher)
    ensures DropVerbose(launcher) == launcher
  {
    if launcher != [] {
      assert launcher[0] in launcher;
      NothingDropped(launcher[1..]);
    }
  }

  lemma NothingGlobalAsked(launcher: seq<Argument>, tail: seq<Argument>)
    requires IsSplit(launcher + tail, launcher, tail) && HoldsNoGlobalFlag(launcher)
    ensures !AsksFor(launcher + tail, HELP_SPELLINGS) && !AsksFor(launcher + tail, VERSION_SPELLINGS)
    ensures WithoutVerbose(launcher + tail) == launcher + tail
  {
    SplitIsUnique(launcher + tail, launcher, tail);
    NothingDropped(launcher);
  }

  lemma VerbIsReached(program: Argument, verb: string, launcher: seq<Argument>, tail: seq<Argument>)
    requires verb == "launch" || verb == "respond"
    requires IsSplit(launcher + tail, launcher, tail) && HoldsNoGlobalFlag(launcher)
    ensures Parse([program, Text(verb)] + (launcher + tail)) == ParseVerb([Text(verb)] + (launcher + tail))
  {
    var longer := [Text(verb)] + launcher;
    assert [Text(verb)] + (launcher + tail) == longer + tail;
    assert ([program, Text(verb)] + (launcher + tail))[1..] == longer + tail;
    NothingGlobalAsked(longer, tail);
  }

  lemma {:induction false} LaunchHoldsNoGlobalFlag(items: seq<L.Item>)
    requires L.AreItems(items)
    ensures HoldsNoGlobalFlag(L.Render(items))
    decreases |items|
  {
    if items != [] {
      assert L.IsItem(items[0]);
      LaunchHoldsNoGlobalFlag(items[1..]);
    }
  }

  lemma {:induction false} RespondHoldsNoGlobalFlag(items: seq<R.Item>)
    requires R.AreItems(items)
    ensures HoldsNoGlobalFlag(R.Render(items)) && HARNESS_SEPARATOR !in R.Render(items)
    decreases |items|
  {
    if items != [] {
      assert R.IsItem(items[0]);
      RespondItemHoldsNoGlobalFlag(items[0]);
      RespondHoldsNoGlobalFlag(items[1..]);
    }
  }

  lemma RespondItemHoldsNoGlobalFlag(item: R.Item)
    requires R.IsItem(item)
    ensures HoldsNoGlobalFlag(R.RenderItem(item)) && HARNESS_SEPARATOR !in R.RenderItem(item)
  {
  }

  /** A written launch comes back from the whole command line, its harness arguments as they were, whatever they are. */
  lemma LaunchReadsBack(program: Argument, arguments: seq<Argument>, launch: L.Launch)
    requires L.IsWritten(arguments, launch)
    ensures Parse([program, Text("launch")] + arguments) == Ok(Launch(launch))
  {
    L.LaunchGrammar(arguments, launch);
    SplitHolds(arguments);
    var items := L.ReadIsRendered(L.Request(None, None), LauncherPart(arguments));
    LaunchHoldsNoGlobalFlag(items);
    VerbIsReached(program, "launch", LauncherPart(arguments), HarnessTail(arguments));
    assert ([Text("launch")] + arguments)[1..] == arguments;
  }

  /** A written respond request comes back from the whole command line. */
  lemma RespondReachesVerb(program: Argument, arguments: seq<Argument>, respond: R.Respond)
    requires R.IsWritten(arguments, respond)
    ensures Parse([program, Text("respond")] + arguments) == Ok(Respond(respond))
  {
    R.RespondGrammar(arguments, respond);
    var items := R.ReadIsRendered(R.NOTHING_YET, arguments);
    RespondHoldsNoGlobalFlag(items);
    assert arguments + [] == arguments;
    VerbIsReached(program, "respond", arguments, []);
    assert ([Text("respond")] + arguments)[1..] == arguments;
  }
}
