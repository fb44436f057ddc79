// Which usage error each command line gets (apps/astronomical-cli/src/arguments.rs),
// with the flags written out: the first place where the arguments stop being
// pieces of a request, and why.

module UsageFailures {
  import opened Wrappers
  import opened ArgumentVector
  import opened Numerals
  import L = LaunchArguments
  import R = RespondArguments

  /** No value follows: nothing at all, or something that is not text, is empty or looks like a flag. */
  predicate LacksValue(arguments: seq<Argument>) {
    |arguments| < 2 || arguments[1].NotUnicode? || arguments[1].text == "" || arguments[1].text[0] == '-'
  }

  predicate LooksLikeFlag(argument: Argument) {
    var text := if argument.Text? then argument.text else argument.lossy;
    text != "" && text[0] == '-'
  }

  /** A flag that takes a value is refused when it was given before, or when no value follows. */
  predicate IsValueFlagRefused(rest: seq<Argument>, spelling: string, isRepeated: bool, error: UsageError)
    requires rest != []
  {
    && rest[0] == Text(spelling)
    && if isRepeated then error == RepeatedArgument(spelling) else LacksValue(rest) && error == MissingValue(spelling)
  }

  // --- Launch ---

  predicate IsLaunchRefused(before: L.Request, rest: seq<Argument>, error: UsageError)
    requires rest != []
  {
    if rest[0] == Text("--model") then IsValueFlagRefused(rest, "--model", before.model.Some?, error)
    else if LooksLikeFlag(rest[0]) then error == UnknownArgument(Lossy(rest[0]))
    else if before.tool.Some? then error == MultipleTools
    else rest[0].NotUnicode? && error == UnknownArgument(rest[0].lossy)
  }

  lemma LaunchRefusal(before: L.Request, rest: seq<Argument>, error: UsageError)
    requires rest != []
    ensures L.TakeNext(before, rest) == Err(error) <==> IsLaunchRefused(before, rest, error)
  {
  }

  lemma LaunchTakes(before: L.Request, arguments: seq<Argument>, taken: Result<(L.Request, nat), UsageError>)
    requires arguments != [] && taken == L.TakeNext(before, arguments)
    ensures L.TakeAll(before, arguments) ==
              if taken.Err? then Err(taken.error) else L.TakeAll(taken.value.0, arguments[taken.value.1..])
  {
  }

  lemma LaunchTakesSame(before: L.Request, arguments: seq<Argument>, more: seq<Argument>)
    requires arguments != [] && L.TakeNext(before, arguments).Ok?
    ensures L.TakeNext(before, arguments + more) == L.TakeNext(before, arguments)
  {
    assert (arguments + more)[0] == arguments[0];
    assert |arguments| > 1 ==> (arguments + more)[1] == arguments[1];
  }

  lemma LaunchTakesFirst(before: L.Request, arguments: seq<Argument>, more: seq<Argument>, next: L.Request, used: nat)
    requires arguments != [] && L.TakeNext(before, arguments) == Ok((next, used))
    ensures L.TakeAll(before, arguments) == L.TakeAll(next, arguments[used..])
    ensures L.TakeAll(before, arguments + more) == L.TakeAll(next, arguments[used..] + more)
  {
    LaunchTakes(before, arguments, Ok((next, used)));
    LaunchTakesSame(before, arguments, more);
    LaunchTakes(before, arguments + more, Ok((next, used)));
    assert (arguments + more)[used..] == arguments[used..] + more;
  }

  lemma {:induction false} LaunchTakesPrefix(before: L.Request, arguments: seq<Argument>, after: L.Request, more: seq<Argument>)
    requires L.TakeAll(before, arguments) == Ok(after)
    ensures L.TakeAll(before, arguments + more) == L.TakeAll(after, more)
    decreases |arguments|
  {
    if arguments == [] {
      assert arguments + more == more;
    } else {
      LaunchTakes(before, arguments, L.TakeNext(before, arguments));
      var (next, used) := L.TakeNext(before, arguments).value;
      LaunchTakesFirst(before, arguments, more, next, used);
      LaunchTakesPrefix(next, arguments[used..], after, more);
    }
  }

  lemma {:induction false} LaunchStops(before: L.Request, arguments: seq<Argument>, error: UsageError)
      returns (taken: nat, after: L.Request)
    requires L.TakeAll(before, arguments) == Err(error)
    ensures taken < |arguments| && L.TakeAll(before, arguments[..taken]) == Ok(after)
    ensures L.TakeNext(after, arguments[taken..]) == Err(error)
    decreases |arguments|
  {
    var next := L.TakeNext(before, arguments);
    LaunchTakes(before, arguments, next);
    if next.Err? {
      taken, after := 0, before;
      assert arguments[0..] == arguments && arguments[..0] == [];
    } else {
      var left := arguments[next.value.1..];
      var more, end := LaunchStops(next.value.0, left, error);
      taken, after := next.value.1 + more, end;
      assert arguments[taken..] == left[more..];
      assert arguments[..taken][next.value.1..] == left[..more];
      LaunchTakesShorter(before, arguments, taken);
      LaunchTakes(before, arguments[..taken], next);
    }
  }

  lemma LaunchTakesShorter(before: L.Request, arguments: seq<Argument>, count: nat)
    requires arguments != [] && L.TakeNext(before, arguments).Ok?
    requires L.TakeNext(before, arguments).value.1 <= count <= |arguments|
    ensures L.TakeNext(before, arguments[..count]) == L.TakeNext(before, arguments)
  {
    assert arguments[..count][0] == arguments[0];
    assert count > 1 ==> arguments[..count][1] == arguments[1];
  }

  /** The arguments before the separator begin with these items, and stop at something refused. */
  ghost predicate StopsLaunch(arguments: seq<Argument>, items: seq<L.Item>, said: L.Request, rest: seq<Argument>, error: UsageError) {
    && L.Says(items, said) && LauncherPart(arguments) == L.Render(items) + rest
    && rest != [] && IsLaunchRefused(said, rest, error)
  }

  /** A launch fails exactly at the first argument that adds nothing to a tool and a model said once each, for its own reason. */
  lemma LaunchFailure(arguments: seq<Argument>, error: UsageError)
    ensures L.ParseLaunch(arguments) == Err(error) <==> exists items, said, rest :: StopsLaunch(arguments, items, said, rest, error)
  {
    if L.ParseLaunch(arguments) == Err(error) {
      LaunchStopIsFound(arguments, error);
    }
    if items, said, rest :| StopsLaunch(arguments, items, said, rest, error) {
      LaunchSaid(items, said);
      LaunchRefusal(said, rest, error);
      LaunchTakesPrefix(L.Request(None, None), L.Render(items), said, rest);
      LaunchTakes(said, rest, Err(error));
    }
  }

  lemma LaunchSaid(items: seq<L.Item>, said: L.Request)
    requires L.AreItems(items)
    ensures L.Says(items, said) <==> L.TakeAll(L.Request(None, None), L.Render(items)) == Ok(said)
  {
    L.ReadsRendered(L.Request(None, None), items, said);
    assert [] + L.Tools(items) == L.Tools(items) && [] + L.Models(items) == L.Models(items);
  }

  lemma LaunchStopIsFound(arguments: seq<Argument>, error: UsageError)
    requires L.ParseLaunch(arguments) == Err(error)
    ensures exists items, said, rest :: StopsLaunch(arguments, items, said, rest, error)
  {
    var launcher := LauncherPart(arguments);
    var taken, said := LaunchStops(L.Request(None, None), launcher, error);
    var items := L.ReadIsRendered(L.Request(None, None), launcher[..taken]);
    StopsWith(arguments, launcher, taken, items, said, error);
  }

  lemma StopsWith(arguments: seq<Argument>, launcher: seq<Argument>, taken: nat, items: seq<L.Item>, said: L.Request, error: UsageError)
    requires launcher == LauncherPart(arguments) && taken < |launcher|
    requires L.AreItems(items) && launcher[..taken] == L.Render(items)
    requires L.TakeAll(L.Request(None, None), L.Render(items)) == Ok(said) && L.TakeNext(said, launcher[taken..]) == Err(error)
    ensures StopsLaunch(arguments, items, said, launcher[taken..], error)
  {
    LaunchSaid(items, said);
    LaunchRefusal(said, launcher[taken..], error);
    assert launcher == launcher[..taken] + launcher[taken..];
  }

  // --- Respond ---

  predicate IsRespondFlag(argument: Argument) {
    argument in {Text("--schema"), Text("--image"), Text("--model"), Text("--text"), Text("--instructions"),
                 Text("--thinking-budget"), Text("--no-stream")}
  }

  /** Why a flag is refused, given what was said before. */
  predicate IsFlagRefused(before: R.Gathered, rest: seq<Argument>, error: UsageError)
    requires rest != []
  {
    || IsValueFlagRefused(rest, "--schema", before.schemaPath.Some?, error)
    || IsValueFlagRefused(rest, "--image", false, error)
    || IsValueFlagRefused(rest, "--model", before.modelId.Some?, error)
    || IsValueFlagRefused(rest, "--instructions", before.instructions.Some?, error)
    || IsValueFlagRefused(rest, "--thinking-budget", before.thinkingBudget.Some?, error)
    || (&& rest[0] == Text("--thinking-budget") && before.thinkingBudget.None? && !LacksValue(rest)
        && R.ParseU16(rest[1].text).None? && error == InvalidThinkingBudget(rest[1].text))
    || (before.prompt.None? && IsValueFlagRefused(rest, "--text", false, error))
    || (rest[0] == Text("--text") && before.promptFromText && error == RepeatedArgument("--text"))
    || (rest[0] == Text("--text") && before.prompt.Some? && !before.promptFromText && error == RespondPromptConflict)
    || (rest[0] == Text("--no-stream") && before.noStream && error == RepeatedArgument("--no-stream"))
  }

  predicate IsRespondRefused(before: R.Gathered, rest: seq<Argument>, error: UsageError)
    requires rest != []
  {
    if IsRespondFlag(rest[0]) then IsFlagRefused(before, rest, error)
    else if LooksLikeFlag(rest[0]) then error == UnknownArgument(Lossy(rest[0]))
    else if before.prompt.Some? then error == RespondPromptConflict
    else rest[0].NotUnicode? && error == UnknownArgument(rest[0].lossy)
  }

  lemma ValueFlagRefusal(before: R.Gathered, flag: R.ValueFlag, rest: seq<Argument>, error: UsageError)
    requires rest != [] && rest[0] == Text(R.Spelling(flag)) && R.IsGathered(before)
    ensures R.TakeValue(before, flag, rest) == Err(error) <==> IsFlagRefused(before, rest, error)
  {
    match flag
    case SchemaFlag =>
    case ImageFlag =>
    case ModelFlag =>
    case TextFlag =>
    case InstructionsFlag =>
    case BudgetFlag =>
  }

  lemma FlagRefusal(before: R.Gathered, rest: seq<Argument>, error: UsageError)
    requires rest != [] && R.IsGathered(before) && IsRespondFlag(rest[0])
    ensures R.TakeNext(before, rest) == Err(error) <==> IsFlagRefused(before, rest, error)
  {
    match R.FlagNamed(rest[0])
    case Some(flag) => ValueFlagRefusal(before, flag, rest, error);
    case None => assert rest[0] == Text("--no-stream");
  }

  lemma NamedAreFlags(argument: Argument)
    ensures IsRespondFlag(argument) <==> R.FlagNamed(argument).Some? || argument == Text("--no-stream")
  {
  }

  lemma RespondRefusal(before: R.Gathered, rest: seq<Argument>, error: UsageError)
    requires rest != [] && R.IsGathered(before)
    ensures R.TakeNext(before, rest) == Err(error) <==> IsRespondRefused(before, rest, error)
  {
    NamedAreFlags(rest[0]);
    if IsRespondFlag(rest[0]) {
      FlagRefusal(before, rest, error);
    } else {
      assert R.ApplyFlag(before, rest) == Ok(R.NotAFlag);
    }
  }

  lemma RendersAppended(item: R.Item, items: seq<R.Item>, rest: seq<Argument>)
    requires R.IsItem(item) && R.AreItems(items)
    ensures R.AreItems([item] + items) && R.Render([item] + items) + rest == R.RenderItem(item) + (R.Render(items) + rest)
  {
    R.RendersInFront(item, items);
  }

  /** Rendered items in front are taken first. */
  lemma {:induction false} ReadsItemsFirst(before: R.Gathered, items: seq<R.Item>, rest: seq<Argument>)
    requires R.AreItems(items) && R.AddAll(before, items).Ok?
    ensures R.TakeAll(before, R.Render(items) + rest) == R.TakeAll(R.AddAll(before, items).value, rest)
    decreases |items|
  {
    if items == [] {
      assert R.Render(items) + rest == rest;
    } else {
      var item, others := items[0], items[1..];
      assert items == [item] + others && R.IsItem(item);
      RendersAppended(item, others, rest);
      R.ReadsItem(before, item, R.Render(others) + rest);
      ReadsItemsFirst(R.AddItem(before, item).value, others, rest);
    }
  }

  /** Where taking stops: after some items, at something refused. */
  lemma {:induction false} RespondStops(before: R.Gathered, arguments: seq<Argument>, error: UsageError)
      returns (items: seq<R.Item>, rest: seq<Argument>)
    requires R.TakeAll(before, arguments) == Err(error)
    ensures R.AreItems(items) && R.AddAll(before, items).Ok? && arguments == R.Render(items) + rest
    ensures rest != [] && R.TakeNext(R.AddAll(before, items).value, rest) == Err(error)
    decreases |arguments|
  {
    var next := R.TakeNext(before, arguments);
    R.TakesNext(before, arguments, next);
    if next.Err? {
      items, rest := [], arguments;
      assert R.Render(items) + rest == rest;
    } else {
      var (after, used) := next.value;
      var item := R.ItemTaken(before, arguments, after, used);
      var left := arguments[used..];
      assert arguments == R.RenderItem(item) + left;
      ItemAccepted(before, item, left, after);
      var others, end := RespondStops(after, left, error);
      items, rest := [item] + others, end;
      RendersAppended(item, others, rest);
      assert items[0] == item && items[1..] == others;
    }
  }

  /** What an accepted item leaves behind. */
  lemma ItemAccepted(before: R.Gathered, item: R.Item, left: seq<Argument>, after: R.Gathered)
    requires R.IsItem(item)
    requires R.TakeNext(before, R.RenderItem(item) + left) == Ok((after, |R.RenderItem(item)|))
    ensures R.AddItem(before, item) == Ok(after)
  {
    var arguments := R.RenderItem(item) + left;
    match item {
      case Prompt(text) =>
        assert arguments[0] == Text(text);
        R.PromptIsNoFlag(text);
      case Valued(flag, value) =>
        assert arguments[0] == Text(R.Spelling(flag)) && arguments[1] == Text(value);
        R.SpellingsAreNamed(flag);
      case NoStream =>
        assert arguments[0] == Text("--no-stream");
    }
  }

  /** The arguments begin with these items, and stop at something refused. */
  ghost predicate StopsRespond(arguments: seq<Argument>, items: seq<R.Item>, said: R.Gathered, rest: seq<Argument>, error: UsageError) {
    && R.Extends(R.NOTHING_YET, items, said) && arguments == R.Render(items) + rest
    && rest != [] && IsRespondRefused(said, rest, error)
  }

  /** The arguments are all items, and none of them is a prompt. */
  ghost predicate HasNoPrompt(arguments: seq<Argument>, items: seq<R.Item>, said: R.Gathered) {
    R.Extends(R.NOTHING_YET, items, said) && arguments == R.Render(items) && R.Prompts(items) == []
  }

  lemma SaidIsGathered(items: seq<R.Item>, said: R.Gathered)
    requires R.AreItems(items)
    ensures R.Extends(R.NOTHING_YET, items, said) <==> R.AddAll(R.NOTHING_YET, items) == Ok(said)
    ensures R.Extends(R.NOTHING_YET, items, said) ==> R.IsGathered(said) && (said.prompt.None? <==> R.Prompts(items) == [])
  {
    R.GathersWhatIsSaid(R.NOTHING_YET, items, said);
    TextIsPrompt(items);
    assert [] + R.Prompts(items) == R.Prompts(items);
  }

  lemma {:induction false} TextIsPrompt(items: seq<R.Item>)
    ensures R.Values(items, R.TextFlag) != [] ==> R.Prompts(items) != []
  {
    if items != [] {
      TextIsPrompt(items[1..]);
    }
  }

  /**
    * A request fails exactly at the first argument that adds nothing to what
    * may be said, for its own reason, or for want of a prompt.
    */
  lemma RespondFailure(arguments: seq<Argument>, error: UsageError)
    ensures R.ParseRespond(arguments) == Err(error) <==>
              || (exists items, said, rest :: StopsRespond(arguments, items, said, rest, error))
              || (error == RespondPromptRequired && exists items, said :: HasNoPrompt(arguments, items, said))
  {
    if R.ParseRespond(arguments) == Err(error) {
      RespondStopIsFound(arguments, error);
    }
    if items, said, rest :| StopsRespond(arguments, items, said, rest, error) {
      StoppedFails(arguments, items, said, rest, error);
    }
    if items, said :| HasNoPrompt(arguments, items, said) {
      SaidIsGathered(items, said);
      R.ReadsRendered(R.NOTHING_YET, items);
      R.ParsesAsTaken(arguments, Ok(said));
    }
  }

  lemma StoppedFails(arguments: seq<Argument>, items: seq<R.Item>, said: R.Gathered, rest: seq<Argument>, error: UsageError)
    requires StopsRespond(arguments, items, said, rest, error)
    ensures R.ParseRespond(arguments) == Err(error)
  {
    SaidIsGathered(items, said);
    RespondRefusal(said, rest, error);
    ReadsItemsFirst(R.NOTHING_YET, items, rest);
    R.TakesNext(said, rest, Err(error));
    R.ParsesAsTaken(arguments, Err(error));
  }

  lemma RespondStopIsFound(arguments: seq<Argument>, error: UsageError)
    requires R.ParseRespond(arguments) == Err(error)
    ensures || (exists items, said, rest :: StopsRespond(arguments, items, said, rest, error))
            || (error == RespondPromptRequired && exists items, said :: HasNoPrompt(arguments, items, said))
  {
    var taken := R.TakeAll(R.NOTHING_YET, arguments);
    R.ParsesAsTaken(arguments, taken);
    if taken.Err? {
      var items, rest := RespondStops(R.NOTHING_YET, arguments, error);
      var said := R.AddAll(R.NOTHING_YET, items).value;
      SaidIsGathered(items, said);
      RespondRefusal(said, rest, error);
      assert StopsRespond(arguments, items, said, rest, error);
    } else {
      var items := R.ReadIsRendered(R.NOTHING_YET, arguments);
      R.ReadsRendered(R.NOTHING_YET, items);
      SaidIsGathered(items, taken.value);
      assert HasNoPrompt(arguments, items, taken.value);
    }
  }

  /** The budgets that are accepted: the written numbers up to 65535, with or without a plus sign. */
  lemma BudgetIsAccepted(number: nat)
    ensures var accepted := if number <= 65535 then Some(number) else None;
            R.ParseU16(Digits(number)) == accepted && R.ParseU16("+" + Digits(number)) == accepted
  {
    var text := Digits(number);
    DigitsReadBack(number);
    assert IsDigit(text[0]);
    assert ("+" + text)[1..] == text;
  }
}
