// The `launch` grammar (apps/astronomical-cli/src/arguments.rs): an optional
// tool and an optional model in either order, then a separator and whatever the
// harness is to receive.

module LaunchArguments {
  import opened Wrappers
  import opened ArgumentVector

  datatype Launch = Launch(toolSlug: Option<string>, modelId: Option<string>, harnessArguments: seq<Argument>)

  /** The loop's two variables. */
  datatype Request = Request(tool: Option<string>, model: Option<string>)

  /** One round of the loop: the new variables and how many arguments it used up. */
  function TakeNext(request: Request, arguments: seq<Argument>): (taken: Result<(Request, nat), UsageError>)
    requires arguments != []
    ensures taken.Ok? ==> 1 <= taken.value.1 <= |arguments|
  {
    var argument := arguments[0];
    if argument == Text("--model") then
      if request.model.Some? then Err(RepeatedArgument("--model"))
      else
        match FlagValue(arguments, "--model")
        case Err(error) => Err(error)
        case Ok(value) => Ok((request.(model := Some(value)), 2))
    else if IsFlagShaped(Lossy(argument)) then Err(UnknownArgument(Lossy(argument)))
    else if request.tool.Some? then Err(MultipleTools)
    else if argument.NotUnicode? then Err(UnknownArgument(argument.lossy))
    else Ok((request.(tool := Some(argument.text)), 1))
  }

  function TakeAll(request: Request, arguments: seq<Argument>): Result<Request, UsageError>
    decreases |arguments|
  {
    if arguments == [] then Ok(request)
    else
      match TakeNext(request, arguments)
      case Err(error) => Err(error)
      case Ok((next, used)) => TakeAll(next, arguments[used..])
  }

  function ParseLaunch(arguments: seq<Argument>): Result<Launch, UsageError> {
    match TakeAll(Request(None, None), LauncherPart(arguments))
    case Err(error) => Err(error)
    case Ok(request) => Ok(Launch(request.tool, request.model, HarnessPart(arguments)))
  }

  method ParseLaunchArguments(arguments: seq<Argument>) returns (parsed: Result<Launch, UsageError>)
    ensures parsed == ParseLaunch(arguments)
  {
    var remaining, harness := SplitHarnessArguments(arguments);
    var toolSlug: Option<string>, modelId: Option<string> := None, None;
    var i := 0;
    assert remaining[0..] == remaining;
    while i < |remaining|
      invariant 0 <= i <= |remaining|
      invariant TakeAll(Request(toolSlug, modelId), remaining[i..]) == TakeAll(Request(None, None), remaining)
    {
      var argument := remaining[i];
      ghost var rest := remaining[i..];
      assert rest[0] == argument && rest[1..] == remaining[i + 1..] && (|rest| > 1 ==> rest[2..] == remaining[i + 2..]);
      if argument == Text("--model") {
        if modelId.Some? {
          return Err(RepeatedArgument("--model"));
        }
        var value := FlagValue(remaining[i..], "--model");
        if value.Err? {
          return Err(value.error);
        }
        modelId := Some(value.value);
        i := i + 2;
        continue;
      }
      if IsFlagShaped(Lossy(argument)) {
        return Err(UnknownArgument(Lossy(argument)));
      }
      if toolSlug.Some? {
        return Err(MultipleTools);
      }
      if argument.NotUnicode? {
        return Err(UnknownArgument(Lossy(argument)));
      }
      toolSlug := Some(argument.text);
      i := i + 1;
    }
    return Ok(Launch(toolSlug, modelId, harness));
  }

  // --- The grammar ---

  /** What a launch may be told, one piece at a time. */
  datatype Item = Tool(slug: string) | Model(id: string)

  predicate IsItem(item: Item) {
    match item
    case Tool(slug) => !IsFlagShaped(slug)
    case Model(id) => IsValue(id)
  }

  predicate AreItems(items: seq<Item>) {
    forall item :: item in items ==> IsItem(item)
  }

  function Render(items: seq<Item>): seq<Argument> {
    if items == [] then []
    else
      (match items[0]
       case Tool(slug) => [Text(slug)]
       case Model(id) => [Text("--model"), Text(id)])
      + Render(items[1..])
  }

  function Tools(items: seq<Item>): seq<string> {
    if items == [] then [] else (if items[0].Tool? then [items[0].slug] else []) + Tools(items[1..])
  }

  function Models(items: seq<Item>): seq<string> {
    if items == [] then [] else (if items[0].Model? then [items[0].id] else []) + Models(items[1..])
  }

  /** The items say exactly what the request holds, each thing at most once. */
  ghost predicate Says(items: seq<Item>, request: Request) {
    AreItems(items) && Tools(items) == Listed(request.tool) && Models(items) == Listed(request.model)
  }

  /** Reading rendered items adds them to what was read before, and works exactly while nothing is said twice. */
  lemma {:induction false} ReadsRendered(before: Request, items: seq<Item>, after: Request)
    requires AreItems(items)
    ensures TakeAll(before, Render(items)) == Ok(after) <==>
              Listed(before.tool) + Tools(items) == Listed(after.tool) && Listed(before.model) + Models(items) == Listed(after.model)
    decreases |items|
  {
    if items == [] {
      ListedAppends(before.tool, [], after.tool);
      ListedAppends(before.model, [], after.model);
    } else {
      var text, rest := Render(items), Render(items[1..]);
      assert IsItem(items[0]);
      ListedAppends(before.tool, Tools(items), after.tool);
      ListedAppends(before.model, Models(items), after.model);
      match items[0]
      case Tool(slug) =>
        assert text == [Text(slug)] + rest && text[1..] == rest;
        if before.tool.None? {
          ReadsRendered(before.(tool := Some(slug)), items[1..], after);
        }
      case Model(id) =>
        assert text == [Text("--model"), Text(id)] + rest && text[2..] == rest;
        if before.model.None? {
          ReadsRendered(before.(model := Some(id)), items[1..], after);
        }
    }
  }

  /** Whatever is read is rendered items. */
  lemma {:induction false} ReadIsRendered(before: Request, arguments: seq<Argument>) returns (items: seq<Item>)
    requires TakeAll(before, arguments).Ok?
    ensures AreItems(items) && arguments == Render(items)
    decreases |arguments|
  {
    if arguments == [] {
      items := [];
    } else {
      var (next, used) := TakeNext(before, arguments).value;
      var rest := ReadIsRendered(next, arguments[used..]);
      var item := if used == 2 then Model(arguments[1].text) else Tool(arguments[0].text);
      items := [item] + rest;
      assert items[1..] == rest;
      assert arguments == arguments[..used] + arguments[used..];
    }
  }

  /** How a whole launch is written: its items, then the separator and the harness's arguments. */
  ghost predicate IsWritten(arguments: seq<Argument>, launch: Launch) {
    exists items {:trigger Says(items, Request(launch.toolSlug, launch.modelId))} ::
      && Says(items, Request(launch.toolSlug, launch.modelId))
      && (arguments == Render(items) + [HARNESS_SEPARATOR] + launch.harnessArguments
          || (launch.harnessArguments == [] && arguments == Render(items)))
  }

  lemma {:induction false} RenderHasNoSeparator(items: seq<Item>)
    requires AreItems(items)
    ensures HARNESS_SEPARATOR !in Render(items)
    decreases |items|
  {
    if items != [] {
      assert IsItem(items[0]);
      RenderHasNoSeparator(items[1..]);
    }
  }

  /**
    * A launch parses exactly when the arguments before the first separator are
    * a tool and a model, each at most once and in either order; the result
    * holds them, and every argument after the separator as it came.
    */
  lemma LaunchGrammar(arguments: seq<Argument>, launch: Launch)
    ensures ParseLaunch(arguments) == Ok(launch) <==> IsWritten(arguments, launch)
  {
    if ParseLaunch(arguments) == Ok(launch) {
      ParsedIsWritten(arguments, launch);
    }
    if IsWritten(arguments, launch) {
      WrittenIsParsed(arguments, launch);
    }
  }

  lemma ParsedIsWritten(arguments: seq<Argument>, launch: Launch)
    requires ParseLaunch(arguments) == Ok(launch)
    ensures IsWritten(arguments, launch)
  {
    var launcher, tail := LauncherPart(arguments), HarnessTail(arguments);
    var request := Request(launch.toolSlug, launch.modelId);
    SplitHolds(arguments);
    var items := ReadIsRendered(Request(None, None), launcher);
    ReadsRendered(Request(None, None), items, request);
    assert [] + Tools(items) == Tools(items) && [] + Models(items) == Models(items);
    assert Says(items, request);
    if tail != [] {
      assert tail == [HARNESS_SEPARATOR] + tail[1..];
    }
  }

  lemma WrittenIsParsed(arguments: seq<Argument>, launch: Launch)
    requires IsWritten(arguments, launch)
    ensures ParseLaunch(arguments) == Ok(launch)
  {
    var request := Request(launch.toolSlug, launch.modelId);
    var items :| Says(items, request)
                 && (arguments == Render(items) + [HARNESS_SEPARATOR] + launch.harnessArguments
                     || (launch.harnessArguments == [] && arguments == Render(items)));
    RenderHasNoSeparator(items);
    ReadsRendered(Request(None, None), items, request);
    assert [] + Tools(items) == Tools(items) && [] + Models(items) == Models(items);
    assert TakeAll(Request(None, None), Render(items)) == Ok(request);
    SplitsAfterItems(arguments, Render(items), launch.harnessArguments);
  }

  lemma SplitsAfterItems(arguments: seq<Argument>, launcher: seq<Argument>, harness: seq<Argument>)
    requires HARNESS_SEPARATOR !in launcher
    requires arguments == launcher + [HARNESS_SEPARATOR] + harness || (harness == [] && arguments == launcher)
    ensures LauncherPart(arguments) == launcher && HarnessPart(arguments) == harness
  {
    var tail := arguments[|launcher|..];
    assert arguments == launcher + tail;
    SplitIsUnique(arguments, launcher, tail);
  }
}
