// The `respond` grammar (apps/astronomical-cli/src/arguments.rs): flags in any
// order around one prompt, gathered by a mutable accumulator.

module RespondArguments {
  import opened Wrappers
  import opened ArgumentVector
  import opened Numerals

  const MAX_U16: nat := 65535

  datatype Respond = Respond(
    prompt: string,
    images: seq<string>,
    modelId: Option<string>,
    instructions: Option<string>,
    thinkingBudget: Option<nat>,
    schemaPath: Option<string>,
    noStream: bool
  )

  /** The accumulator's fields. */
  datatype Gathered = Gathered(
    prompt: Option<string>,
    promptFromText: bool,
    modelId: Option<string>,
    instructions: Option<string>,
    thinkingBudget: Option<nat>,
    noStream: bool,
    images: seq<string>,
    schemaPath: Option<string>
  )

  const NOTHING_YET := Gathered(None, false, None, None, None, false, [], None)

  // --- Numbers ---

  /** Rust's `parse::<u16>()`: an optional plus sign, then at least one digit, and no more than the type holds. */
  function ParseU16(text: string): Option<nat> {
    var digits := if |text| > 1 && text[0] == '+' then text[1..] else text;
    if digits == "" || !AreDigits(digits) || DigitsValue(digits) > MAX_U16 then None else Some(DigitsValue(digits))
  }

  // --- One flag ---

  datatype ValueFlag = SchemaFlag | ImageFlag | ModelFlag | TextFlag | InstructionsFlag | BudgetFlag

  function Spelling(flag: ValueFlag): string {
    match flag
    case SchemaFlag => "--schema"
    case ImageFlag => "--image"
    case ModelFlag => "--model"
    case TextFlag => "--text"
    case InstructionsFlag => "--instructions"
    case BudgetFlag => "--thinking-budget"
  }

  function FlagNamed(argument: Argument): Option<ValueFlag> {
    if argument == Text("--schema") then Some(SchemaFlag)
    else if argument == Text("--image") then Some(ImageFlag)
    else if argument == Text("--model") then Some(ModelFlag)
    else if argument == Text("--text") then Some(TextFlag)
    else if argument == Text("--instructions") then Some(InstructionsFlag)
    else if argument == Text("--thinking-budget") then Some(BudgetFlag)
    else None
  }

  lemma SpellingsAreNamed(flag: ValueFlag)
    ensures FlagNamed(Text(Spelling(flag))) == Some(flag) && Text(Spelling(flag)) != Text("--no-stream")
  {
  }

  /** Why the accumulator refuses another such flag, if it does. */
  function Refusal(before: Gathered, flag: ValueFlag): Option<UsageError> {
    match flag
    case SchemaFlag => if before.schemaPath.Some? then Some(RepeatedArgument("--schema")) else None
    case ImageFlag => None
    case ModelFlag => if before.modelId.Some? then Some(RepeatedArgument("--model")) else None
    case TextFlag =>
      if before.promptFromText then Some(RepeatedArgument("--text"))
      else if before.prompt.Some? then Some(RespondPromptConflict)
      else None
    case InstructionsFlag => if before.instructions.Some? then Some(RepeatedArgument("--instructions")) else None
    case BudgetFlag => if before.thinkingBudget.Some? then Some(RepeatedArgument("--thinking-budget")) else None
  }

  function Store(before: Gathered, flag: ValueFlag, value: string): Result<Gathered, UsageError> {
    match flag
    case SchemaFlag => Ok(before.(schemaPath := Some(value)))
    case ImageFlag => Ok(before.(images := before.images + [value]))
    case ModelFlag => Ok(before.(modelId := Some(value)))
    case TextFlag => Ok(before.(prompt := Some(value), promptFromText := true))
    case InstructionsFlag => Ok(before.(instructions := Some(value)))
    case BudgetFlag =>
      match ParseU16(value)
      case None => Err(InvalidThinkingBudget(value))
      case Some(budget) => Ok(before.(thinkingBudget := Some(budget)))
  }

  function TakeValue(before: Gathered, flag: ValueFlag, arguments: seq<Argument>): Result<Gathered, UsageError> {
    match Refusal(before, flag)
    case Some(error) => Err(error)
    case None =>
      match FlagValue(arguments, Spelling(flag))
      case Err(error) => Err(error)
      case Ok(value) => Store(before, flag, value)
  }

  datatype Applied = NotAFlag | Applied(after: Gathered, used: nat)

  function ApplyFlag(before: Gathered, arguments: seq<Argument>): (applied: Result<Applied, UsageError>)
    requires arguments != []
    ensures applied.Ok? && applied.value.Applied? ==> 1 <= applied.value.used <= |arguments|
  {
    match FlagNamed(arguments[0])
    case Some(flag) =>
      (match TakeValue(before, flag, arguments)
       case Err(error) => Err(error)
       case Ok(after) => Ok(Applied(after, 2)))
    case None =>
      if arguments[0] == Text("--no-stream") then
        if before.noStream then Err(RepeatedArgument("--no-stream")) else Ok(Applied(before.(noStream := true), 1))
      else Ok(NotAFlag)
  }

  class RespondArgumentAccumulator {
    var prompt: Option<string>
    var promptFromText: bool
    var modelId: Option<string>
    var instructions: Option<string>
    var thinkingBudget: Option<nat>
    var noStream: bool
    var images: seq<string>
    var schemaPath: Option<string>

    function Contents(): Gathered
      reads this
    {
      Gathered(prompt, promptFromText, modelId, instructions, thinkingBudget, noStream, images, schemaPath)
    }

    constructor ()
      ensures Contents() == NOTHING_YET
    {
      prompt, promptFromText, modelId, instructions := None, false, None, None;
      thinkingBudget, noStream, images, schemaPath := None, false, [], None;
    }

    method ApplyRespondFlag(arguments: seq<Argument>, at: nat) returns (used: Result<Option<nat>, UsageError>)
      requires at < |arguments|
      modifies this
      ensures match ApplyFlag(old(Contents()), arguments[at..])
              case Err(error) => used == Err(error)
              case Ok(NotAFlag) => used == Ok(None) && Contents() == old(Contents())
              case Ok(Applied(after, count)) => used == Ok(Some(count)) && Contents() == after
    {
      var argument := arguments[at];
      assert arguments[at..][0] == argument;
      if argument == Text("--schema") {
        if schemaPath.Some? {
          return Err(RepeatedArgument("--schema"));
        }
        var value := FlagValue(arguments[at..], "--schema");
        if value.Err? {
          return Err(value.error);
        }
        schemaPath := Some(value.value);
        return Ok(Some(2));
      }
      if argument == Text("--image") {
        var value := FlagValue(arguments[at..], "--image");
        if value.Err? {
          return Err(value.error);
        }
        images := images + [value.value];
        return Ok(Some(2));
      }
      if argument == Text("--model") {
        if modelId.Some? {
          return Err(RepeatedArgument("--model"));
        }
        var value := FlagValue(arguments[at..], "--model");
        if value.Err? {
          return Err(value.error);
        }
        modelId := Some(value.value);
        return Ok(Some(2));
      }
      if argument == Text("--text") {
        if promptFromText {
          return Err(RepeatedArgument("--text"));
        }
        if prompt.Some? {
          return Err(RespondPromptConflict);
        }
        var value := FlagValue(arguments[at..], "--text");
        if value.Err? {
          return Err(value.error);
        }
        prompt := Some(value.value);
        promptFromText := true;
        return Ok(Some(2));
      }
      if argument == Text("--instructions") {
        if instructions.Some? {
          return Err(RepeatedArgument("--instructions"));
        }
        var value := FlagValue(arguments[at..], "--instructions");
        if value.Err? {
          return Err(value.error);
        }
        instructions := Some(value.value);
        return Ok(Some(2));
      }
      if argument == Text("--thinking-budget") {
        if thinkingBudget.Some? {
          return Err(RepeatedArgument("--thinking-budget"));
        }
        var value := FlagValue(arguments[at..], "--thinking-budget");
        if value.Err? {
          return Err(value.error);
        }
        var budget := ParseU16(value.value);
        if budget.None? {
          return Err(InvalidThinkingBudget(value.value));
        }
        thinkingBudget := budget;
        return Ok(Some(2));
      }
      if argument == Text("--no-stream") {
        if noStream {
          return Err(RepeatedArgument("--no-stream"));
        }
        noStream := true;
        return Ok(Some(1));
      }
      return Ok(None);
    }
  }

  // --- The whole vector ---

  function TakeNext(before: Gathered, arguments: seq<Argument>): (taken: Result<(Gathered, nat), UsageError>)
    requires arguments != []
    ensures taken.Ok? ==> 1 <= taken.value.1 <= |arguments|
  {
    match ApplyFlag(before, arguments)
    case Err(error) => Err(error)
    case Ok(Applied(after, used)) => Ok((after, used))
    case Ok(NotAFlag) =>
      var argument := arguments[0];
      if IsFlagShaped(Lossy(argument)) then Err(UnknownArgument(Lossy(argument)))
      else if before.prompt.Some? then Err(RespondPromptConflict)
      else if argument.NotUnicode? then Err(UnknownArgument(argument.lossy))
      else Ok((before.(prompt := Some(argument.text)), 1))
  }

  function TakeAll(before: Gathered, arguments: seq<Argument>): Result<Gathered, UsageError>
    decreases |arguments|, 1
  {
    if arguments == [] then Ok(before) else TakeFirst(before, arguments)
  }

  /** Takes the first argument, with its value, and then all that follow. */
  function TakeFirst(before: Gathered, arguments: seq<Argument>): Result<Gathered, UsageError>
    requires arguments != []
    decreases |arguments|, 0
  {
    match TakeNext(before, arguments)
    case Err(error) => Err(error)
    case Ok((after, used)) => TakeAll(after, arguments[used..])
  }

  function Finish(gathered: Gathered): Result<Respond, UsageError> {
    match gathered.prompt
    case None => Err(RespondPromptRequired)
    case Some(prompt) =>
      Ok(Respond(prompt, gathered.images, gathered.modelId, gathered.instructions, gathered.thinkingBudget,
                 gathered.schemaPath, gathered.noStream))
  }

  function ParseRespond(arguments: seq<Argument>): Result<Respond, UsageError> {
    match TakeAll(NOTHING_YET, arguments)
    case Err(error) => Err(error)
    case Ok(gathered) => Finish(gathered)
  }

  lemma TakesNext(before: Gathered, arguments: seq<Argument>, taken: Result<(Gathered, nat), UsageError>)
    requires arguments != [] && TakeNext(before, arguments) == taken
    ensures TakeAll(before, arguments) == if taken.Err? then Err(taken.error) else TakeAll(taken.value.0, arguments[taken.value.1..])
  {
    assert TakeAll(before, arguments) == TakeFirst(before, arguments);
  }

  /** The loop's body: the argument taken, what is left to take gives what the whole would have given. */
  method TakeArgument(accumulator: RespondArgumentAccumulator, arguments: seq<Argument>, at: nat) returns (used: Result<nat, UsageError>)
    requires at < |arguments|
    modifies accumulator
    ensures used.Ok? ==> at < at + used.value <= |arguments|
    ensures TakeAll(old(accumulator.Contents()), arguments[at..]) ==
              if used.Err? then Err(used.error) else TakeAll(accumulator.Contents(), arguments[at + used.value..])
  {
    ghost var before := accumulator.Contents();
    used := TakeFlagOrPrompt(accumulator, arguments, at);
    TakesNext(before, arguments[at..], TakeNext(before, arguments[at..]));
    if used.Ok? {
      assert arguments[at..][used.value..] == arguments[at + used.value..];
    }
  }

  /** A flag is applied to the accumulator; anything else that looks like no flag is the prompt. */
  method TakeFlagOrPrompt(accumulator: RespondArgumentAccumulator, arguments: seq<Argument>, at: nat) returns (used: Result<nat, UsageError>)
    requires at < |arguments|
    modifies accumulator
    ensures match TakeNext(old(accumulator.Contents()), arguments[at..])
            case Err(error) => used == Err(error)
            case Ok((after, count)) => used == Ok(count) && accumulator.Contents() == after
  {
    var argument := arguments[at];
    assert arguments[at..][0] == argument;
    var flagUsed := accumulator.ApplyRespondFlag(arguments, at);
    if flagUsed.Err? {
      return Err(flagUsed.error);
    }
    if flagUsed.value.Some? {
      return Ok(flagUsed.value.value);
    }
    if IsFlagShaped(Lossy(argument)) {
      return Err(UnknownArgument(Lossy(argument)));
    }
    if accumulator.prompt.Some? {
      return Err(RespondPromptConflict);
    }
    if argument.NotUnicode? {
      return Err(UnknownArgument(Lossy(argument)));
    }
    accumulator.prompt := Some(argument.text);
    return Ok(1);
  }

  method ParseRespondArguments(arguments: seq<Argument>) returns (parsed: Result<Respond, UsageError>)
    ensures parsed == ParseRespond(arguments)
  {
    var accumulator := new RespondArgumentAccumulator();
    var failed := TakeArguments(accumulator, arguments);
    ParsesAsTaken(arguments, if failed.Some? then Err(failed.value) else Ok(accumulator.Contents()));
    if failed.Some? {
      return Err(failed.value);
    }
    parsed := FinishRequest(accumulator);
  }

  /** The loop over the arguments: the first usage error, if any, or everything taken. */
  method TakeArguments(accumulator: RespondArgumentAccumulator, arguments: seq<Argument>) returns (failed: Option<UsageError>)
    modifies accumulator
    ensures TakeAll(old(accumulator.Contents()), arguments) ==
              if failed.Some? then Err(failed.value) else Ok(accumulator.Contents())
  {
    ghost var goal := TakeAll(accumulator.Contents(), arguments);
    var i := 0;
    assert arguments[0..] == arguments;
    while i < |arguments|
      invariant 0 <= i <= |arguments|
      invariant TakeAll(accumulator.Contents(), arguments[i..]) == goal
    {
      var used := TakeArgument(accumulator, arguments, i);
      if used.Err? {
        return Some(used.error);
      }
      i := i + used.value;
    }
    NothingLeftToTake(accumulator.Contents(), arguments[i..]);
    return None;
  }

  lemma NothingLeftToTake(gathered: Gathered, arguments: seq<Argument>)
    requires arguments == []
    ensures TakeAll(gathered, arguments) == Ok(gathered)
  {
  }

  lemma ParsesAsTaken(arguments: seq<Argument>, taken: Result<Gathered, UsageError>)
    requires taken == TakeAll(NOTHING_YET, arguments)
    ensures ParseRespond(arguments) == if taken.Err? then Err(taken.error) else Finish(taken.value)
  {
  }

  /** The request the accumulator holds, if it holds a prompt. */
  method FinishRequest(accumulator: RespondArgumentAccumulator) returns (parsed: Result<Respond, UsageError>)
    ensures parsed == Finish(accumulator.Contents())
  {
    if accumulator.prompt.None? {
      return Err(RespondPromptRequired);
    }
    return Ok(Respond(accumulator.prompt.value, accumulator.images, accumulator.modelId, accumulator.instructions,
                      accumulator.thinkingBudget, accumulator.schemaPath, accumulator.noStream));
  }

  // --- The grammar ---

  /** What a respond request may be told, one piece at a time. */
  datatype Item = Prompt(text: string) | Valued(flag: ValueFlag, value: string) | NoStream

  predicate IsItem(item: Item) {
    match item
    case Prompt(text) => !IsFlagShaped(text)
    case Valued(flag, value) => IsValue(value) && (flag == BudgetFlag ==> ParseU16(value).Some?)
    case NoStream => true
  }

  predicate AreItems(items: seq<Item>) {
    forall item :: item in items ==> IsItem(item)
  }

  function RenderItem(item: Item): seq<Argument> {
    match item
    case Prompt(text) => [Text(text)]
    case Valued(flag, value) => [Text(Spelling(flag)), Text(value)]
    case NoStream => [Text("--no-stream")]
  }

  function Render(items: seq<Item>): seq<Argument> {
    if items == [] then [] else RenderItem(items[0]) + Render(items[1..])
  }

  /** The values given with one flag, in order. */
  function Values(items: seq<Item>, flag: ValueFlag): seq<string> {
    if items == [] then []
    else ValueOf(items[0], flag) + Values(items[1..], flag)
  }

  function ValueOf(item: Item, flag: ValueFlag): seq<string> {
    if item.Valued? && item.flag == flag then [item.value] else []
  }

  /** The prompts, positional or given with `--text`, in order. */
  function Prompts(items: seq<Item>): seq<string> {
    if items == [] then [] else PromptOf(items[0]) + Prompts(items[1..])
  }

  function PromptOf(item: Item): seq<string> {
    match item
    case Prompt(text) => [text]
    case Valued(flag, value) => if flag == TextFlag then [value] else []
    case NoStream => []
  }

  function Budgets(items: seq<Item>): seq<nat>
    requires AreItems(items)
  {
    if items == [] then []
    else
      assert IsItem(items[0]);
      BudgetOf(items[0]) + Budgets(items[1..])
  }

  function BudgetOf(item: Item): seq<nat>
    requires IsItem(item)
  {
    if item.Valued? && item.flag == BudgetFlag then [ParseU16(item.value).value] else []
  }

  function NoStreams(items: seq<Item>): nat {
    if items == [] then 0 else Count(items[0].NoStream?) + NoStreams(items[1..])
  }

  function Count(flag: bool): nat {
    if flag then 1 else 0
  }

  /** The items say exactly what the request holds: one prompt, every image in order, each other thing at most once. */
  ghost predicate Says(items: seq<Item>, respond: Respond) {
    && AreItems(items)
    && Prompts(items) == [respond.prompt]
    && Values(items, ImageFlag) == respond.images
    && Values(items, ModelFlag) == Listed(respond.modelId)
    && Values(items, InstructionsFlag) == Listed(respond.instructions)
    && Values(items, SchemaFlag) == Listed(respond.schemaPath)
    && Budgets(items) == Listed(respond.thinkingBudget)
    && NoStreams(items) == Count(respond.noStream)
  }

  // --- Reading one item ---

  /** What one item adds to the accumulator. */
  function AddItem(before: Gathered, item: Item): Result<Gathered, UsageError>
    requires IsItem(item)
  {
    match item
    case Prompt(text) => if before.prompt.Some? then Err(RespondPromptConflict) else Ok(before.(prompt := Some(text)))
    case Valued(flag, value) => (if Refusal(before, flag).Some? then Err(Refusal(before, flag).value) else Store(before, flag, value))
    case NoStream => if before.noStream then Err(RepeatedArgument("--no-stream")) else Ok(before.(noStream := true))
  }

  lemma ReadsItem(before: Gathered, item: Item, rest: seq<Argument>)
    requires IsItem(item)
    ensures TakeAll(before, RenderItem(item) + rest) ==
              if AddItem(before, item).Err? then Err(AddItem(before, item).error)
              else TakeAll(AddItem(before, item).value, rest)
  {
    var arguments := RenderItem(item) + rest;
    match item {
      case Prompt(text) =>
        assert arguments[0] == Text(text) && arguments[1..] == rest;
        PromptIsNoFlag(text);
      case Valued(flag, value) =>
        assert arguments[0] == Text(Spelling(flag)) && arguments[1] == Text(value) && arguments[2..] == rest;
        SpellingsAreNamed(flag);
      case NoStream =>
        assert arguments[0] == Text("--no-stream") && arguments[1..] == rest;
    }
  }

  lemma PromptIsNoFlag(text: string)
    requires !IsFlagShaped(text)
    ensures FlagNamed(Text(text)).None? && text != "--no-stream"
  {
  }

  /** The fold of items onto the accumulator. */
  function AddAll(before: Gathered, items: seq<Item>): Result<Gathered, UsageError>
    requires AreItems(items)
    decreases |items|
  {
    if items == [] then Ok(before)
    else
      assert IsItem(items[0]);
      match AddItem(before, items[0])
      case Err(error) => Err(error)
      case Ok(after) => AddAll(after, items[1..])
  }

  /** Parsing what was rendered gives what was said, or the very error that saying it twice deserves. */
  lemma {:induction false} ReadsRendered(before: Gathered, items: seq<Item>)
    requires AreItems(items)
    ensures TakeAll(before, Render(items)) == AddAll(before, items)
    decreases |items|
  {
    if items != [] {
      assert IsItem(items[0]);
      ReadsItem(before, items[0], Render(items[1..]));
      if AddItem(before, items[0]).Ok? {
        ReadsRendered(AddItem(before, items[0]).value, items[1..]);
      }
    }
  }

  lemma ItemTaken(before: Gathered, arguments: seq<Argument>, after: Gathered, used: nat) returns (item: Item)
    requires arguments != [] && TakeNext(before, arguments) == Ok((after, used))
    ensures IsItem(item) && arguments[..used] == RenderItem(item)
  {
    match FlagNamed(arguments[0])
    case Some(flag) =>
      item := Valued(flag, arguments[1].text);
      assert arguments[..2] == [arguments[0], arguments[1]];
    case None =>
      item := if arguments[0] == Text("--no-stream") then NoStream else Prompt(arguments[0].text);
      assert arguments[..1] == [arguments[0]];
  }

  /** Whatever is read is rendered items. */
  lemma {:induction false} ReadIsRendered(before: Gathered, arguments: seq<Argument>) returns (items: seq<Item>)
    requires TakeAll(before, arguments).Ok?
    ensures AreItems(items) && arguments == Render(items)
    decreases |arguments|
  {
    if arguments == [] {
      items := [];
    } else {
      var item, after, left := ItemInFront(before, arguments);
      var rest := ReadIsRendered(after, left);
      items := [item] + rest;
      RendersInFront(item, rest);
    }
  }

  lemma ItemInFront(before: Gathered, arguments: seq<Argument>) returns (item: Item, after: Gathered, left: seq<Argument>)
    requires arguments != [] && TakeAll(before, arguments).Ok?
    ensures IsItem(item) && arguments == RenderItem(item) + left && |left| < |arguments|
    ensures TakeAll(after, left).Ok?
  {
    TakesNext(before, arguments, TakeNext(before, arguments));
    var taken := TakeNext(before, arguments).value;
    after, left := taken.0, arguments[taken.1..];
    item := ItemTaken(before, arguments, after, taken.1);
    assert arguments == arguments[..taken.1] + left;
  }

  lemma RendersInFront(item: Item, rest: seq<Item>)
    requires IsItem(item) && AreItems(rest)
    ensures AreItems([item] + rest) && Render([item] + rest) == RenderItem(item) + Render(rest)
  {
    assert ([item] + rest)[1..] == rest;
  }

  // --- What the fold holds ---

  ghost predicate IsGathered(gathered: Gathered) {
    gathered.promptFromText ==> gathered.prompt.Some?
  }

  /** What the accumulator held before, followed by what the items say, is what it holds after. */
  ghost predicate Extends(before: Gathered, items: seq<Item>, after: Gathered) {
    && AreItems(items)
    && Listed(before.prompt) + Prompts(items) == Listed(after.prompt)
    && before.images + Values(items, ImageFlag) == after.images
    && Listed(before.modelId) + Values(items, ModelFlag) == Listed(after.modelId)
    && Listed(before.instructions) + Values(items, InstructionsFlag) == Listed(after.instructions)
    && Listed(before.schemaPath) + Values(items, SchemaFlag) == Listed(after.schemaPath)
    && Listed(before.thinkingBudget) + Budgets(items) == Listed(after.thinkingBudget)
    && Count(before.noStream) + NoStreams(items) == Count(after.noStream)
    && after.promptFromText == (before.promptFromText || Values(items, TextFlag) != [])
  }

  lemma ExtendsNothing(before: Gathered, after: Gathered)
    ensures Extends(before, [], after) <==> before == after
  {
    ListedAppends(before.prompt, [], after.prompt);
    ListedAppends(before.modelId, [], after.modelId);
    ListedAppends(before.instructions, [], after.instructions);
    ListedAppends(before.schemaPath, [], after.schemaPath);
    ListedAppends(before.thinkingBudget, [], after.thinkingBudget);
    assert before.images + [] == before.images;
  }

  /** What one accepted item adds to each list. */
  lemma ItemAdds(before: Gathered, item: Item, next: Gathered)
    requires IsItem(item) && AddItem(before, item) == Ok(next)
    ensures Listed(next.prompt) == Listed(before.prompt) + PromptOf(item)
    ensures next.images == before.images + ValueOf(item, ImageFlag)
    ensures Listed(next.modelId) == Listed(before.modelId) + ValueOf(item, ModelFlag)
    ensures Listed(next.instructions) == Listed(before.instructions) + ValueOf(item, InstructionsFlag)
    ensures Listed(next.schemaPath) == Listed(before.schemaPath) + ValueOf(item, SchemaFlag)
    ensures Listed(next.thinkingBudget) == Listed(before.thinkingBudget) + BudgetOf(item)
    ensures Count(next.noStream) == Count(before.noStream) + Count(item.NoStream?)
    ensures next.promptFromText == (before.promptFromText || ValueOf(item, TextFlag) != [])
  {
    match item
    case Prompt(text) =>
    case NoStream =>
    case Valued(flag, value) => ValueAdds(before, flag, value, next);
  }

  lemma ValueAdds(before: Gathered, flag: ValueFlag, value: string, next: Gathered)
    requires IsItem(Valued(flag, value)) && Refusal(before, flag).None? && Store(before, flag, value) == Ok(next)
    ensures var item := Valued(flag, value);
            && Listed(next.prompt) == Listed(before.prompt) + PromptOf(item)
            && next.images == before.images + ValueOf(item, ImageFlag)
            && Listed(next.modelId) == Listed(before.modelId) + ValueOf(item, ModelFlag)
            && Listed(next.instructions) == Listed(before.instructions) + ValueOf(item, InstructionsFlag)
            && Listed(next.schemaPath) == Listed(before.schemaPath) + ValueOf(item, SchemaFlag)
            && Listed(next.thinkingBudget) == Listed(before.thinkingBudget) + BudgetOf(item)
            && next.noStream == before.noStream
            && next.promptFromText == (before.promptFromText || ValueOf(item, TextFlag) != [])
  {
    match flag
    case SchemaFlag =>
    case ImageFlag =>
    case ModelFlag =>
    case TextFlag =>
    case InstructionsFlag =>
    case BudgetFlag =>
  }

  /** An item is refused when it would be the second of something said at most once. */
  lemma RefusedIsTwice(before: Gathered, item: Item)
    requires IsItem(item) && IsGathered(before) && AddItem(before, item).Err?
    ensures || |Listed(before.prompt) + PromptOf(item)| > 1
            || |Listed(before.modelId) + ValueOf(item, ModelFlag)| > 1
            || |Listed(before.instructions) + ValueOf(item, InstructionsFlag)| > 1
            || |Listed(before.schemaPath) + ValueOf(item, SchemaFlag)| > 1
            || |Listed(before.thinkingBudget) + BudgetOf(item)| > 1
            || Count(before.noStream) + Count(item.NoStream?) > 1
  {
  }

  lemma ItemsUnfold(item: Item, rest: seq<Item>)
    requires IsItem(item)
    ensures AreItems([item] + rest) <==> AreItems(rest)
    ensures Prompts([item] + rest) == PromptOf(item) + Prompts(rest)
    ensures forall flag :: Values([item] + rest, flag) == ValueOf(item, flag) + Values(rest, flag)
    ensures AreItems(rest) ==> AreItems([item] + rest) && Budgets([item] + rest) == BudgetOf(item) + Budgets(rest)
    ensures NoStreams([item] + rest) == Count(item.NoStream?) + NoStreams(rest)
  {
    var items := [item] + rest;
    assert items[0] == item && items[1..] == rest;
    assert forall other :: other in items <==> other == item || other in rest;
  }

  lemma Regroup<T>(a: seq<T>, b: seq<T>, c: seq<T>)
    ensures a + (b + c) == a + b + c
  {
  }

  lemma ExtendsAccepted(before: Gathered, item: Item, next: Gathered, rest: seq<Item>, after: Gathered)
    requires IsItem(item) && AddItem(before, item) == Ok(next) && AreItems(rest)
    ensures Extends(before, [item] + rest, after) <==> Extends(next, rest, after)
  {
    ItemAdds(before, item, next);
    ItemsUnfold(item, rest);
    Regroup(Listed(before.prompt), PromptOf(item), Prompts(rest));
    Regroup(before.images, ValueOf(item, ImageFlag), Values(rest, ImageFlag));
    Regroup(Listed(before.modelId), ValueOf(item, ModelFlag), Values(rest, ModelFlag));
    Regroup(Listed(before.instructions), ValueOf(item, InstructionsFlag), Values(rest, InstructionsFlag));
    Regroup(Listed(before.schemaPath), ValueOf(item, SchemaFlag), Values(rest, SchemaFlag));
    Regroup(Listed(before.thinkingBudget), BudgetOf(item), Budgets(rest));
  }

  lemma TwiceIsNeverListed<T>(a: seq<T>, b: seq<T>, c: seq<T>, option: Option<T>)
    requires |a + b| > 1
    ensures a + (b + c) != Listed(option)
  {
    assert |a + (b + c)| > 1;
  }

  lemma ExtendsRefused(before: Gathered, item: Item, rest: seq<Item>, after: Gathered)
    requires IsItem(item) && IsGathered(before) && AddItem(before, item).Err? && AreItems(rest)
    ensures !Extends(before, [item] + rest, after)
  {
    RefusedIsTwice(before, item);
    ItemsUnfold(item, rest);
    if |Listed(before.prompt) + PromptOf(item)| > 1 {
      TwiceIsNeverListed(Listed(before.prompt), PromptOf(item), Prompts(rest), after.prompt);
    } else if |Listed(before.modelId) + ValueOf(item, ModelFlag)| > 1 {
      TwiceIsNeverListed(Listed(before.modelId), ValueOf(item, ModelFlag), Values(rest, ModelFlag), after.modelId);
    } else if |Listed(before.instructions) + ValueOf(item, InstructionsFlag)| > 1 {
      TwiceIsNeverListed(Listed(before.instructions), ValueOf(item, InstructionsFlag), Values(rest, InstructionsFlag), after.instructions);
    } else if |Listed(before.schemaPath) + ValueOf(item, SchemaFlag)| > 1 {
      TwiceIsNeverListed(Listed(before.schemaPath), ValueOf(item, SchemaFlag), Values(rest, SchemaFlag), after.schemaPath);
    } else if |Listed(before.thinkingBudget) + BudgetOf(item)| > 1 {
      TwiceIsNeverListed(Listed(before.thinkingBudget), BudgetOf(item), Budgets(rest), after.thinkingBudget);
    }
  }

  lemma {:induction false} GathersWhatIsSaid(before: Gathered, items: seq<Item>, after: Gathered)
    requires AreItems(items) && IsGathered(before)
    ensures AddAll(before, items) == Ok(after) <==> Extends(before, items, after)
    decreases |items|
  {
    if items == [] {
      ExtendsNothing(before, after);
    } else {
      assert IsItem(items[0]);
      assert items == [items[0]] + items[1..];
      if AddItem(before, items[0]).Err? {
        ExtendsRefused(before, items[0], items[1..], after);
      } else {
        ExtendsAccepted(before, items[0], AddItem(before, items[0]).value, items[1..], after);
        GathersWhatIsSaid(AddItem(before, items[0]).value, items[1..], after);
      }
    }
  }

  // --- The law ---

  ghost predicate IsWritten(arguments: seq<Argument>, respond: Respond) {
    exists items :: Says(items, respond) && arguments == Render(items)
  }

  function GatheredFor(respond: Respond, promptFromText: bool): Gathered {
    Gathered(Some(respond.prompt), promptFromText, respond.modelId, respond.instructions, respond.thinkingBudget,
             respond.noStream, respond.images, respond.schemaPath)
  }

  lemma SaysIsExtends(items: seq<Item>, respond: Respond)
    requires AreItems(items)
    ensures Says(items, respond) <==> Extends(NOTHING_YET, items, GatheredFor(respond, Values(items, TextFlag) != []))
  {
    assert [] + Prompts(items) == Prompts(items);
    assert forall flag :: [] + Values(items, flag) == Values(items, flag);
    assert [] + Budgets(items) == Budgets(items);
  }

  /**
    * A respond request parses exactly when its arguments are one prompt,
    * positional or given with `--text`, any images, and each other flag at most
    * once, in any order; the result holds what they say.
    */
  lemma RespondGrammar(arguments: seq<Argument>, respond: Respond)
    ensures ParseRespond(arguments) == Ok(respond) <==> IsWritten(arguments, respond)
  {
    if ParseRespond(arguments) == Ok(respond) {
      ParsedIsWritten(arguments, respond);
    }
    if IsWritten(arguments, respond) {
      WrittenIsParsed(arguments, respond);
    }
  }

  lemma ParsedIsWritten(arguments: seq<Argument>, respond: Respond)
    requires ParseRespond(arguments) == Ok(respond)
    ensures IsWritten(arguments, respond)
  {
    var gathered := FinishedIsGathered(arguments, respond);
    var items := ReadIsRendered(NOTHING_YET, arguments);
    ReadsRendered(NOTHING_YET, items);
    GathersWhatIsSaid(NOTHING_YET, items, gathered);
    SaysIsExtends(items, respond);
  }

  lemma FinishedIsGathered(arguments: seq<Argument>, respond: Respond) returns (gathered: Gathered)
    requires ParseRespond(arguments) == Ok(respond)
    ensures TakeAll(NOTHING_YET, arguments) == Ok(gathered) && gathered == GatheredFor(respond, gathered.promptFromText)
  {
    gathered := TakeAll(NOTHING_YET, arguments).value;
  }

  lemma WrittenIsParsed(arguments: seq<Argument>, respond: Respond)
    requires IsWritten(arguments, respond)
    ensures ParseRespond(arguments) == Ok(respond)
  {
    var items :| Says(items, respond) && arguments == Render(items);
    var gathered := GatheredFor(respond, Values(items, TextFlag) != []);
    SaysIsExtends(items, respond);
    GathersWhatIsSaid(NOTHING_YET, items, gathered);
    ReadsRendered(NOTHING_YET, items);
    assert TakeAll(NOTHING_YET, arguments) == Ok(gathered);
  }

  // --- Writing a request ---

  predicate IsWritable(respond: Respond) {
    && !IsFlagShaped(respond.prompt)
    && (forall image :: image in respond.images ==> IsValue(image))
    && (respond.modelId.Some? ==> IsValue(respond.modelId.value))
    && (respond.instructions.Some? ==> IsValue(respond.instructions.value))
    && (respond.schemaPath.Some? ==> IsValue(respond.schemaPath.value))
    && (respond.thinkingBudget.Some? ==> respond.thinkingBudget.value <= MAX_U16)
  }

  function Images(images: seq<string>): (items: seq<Item>)
    ensures |items| == |images| && forall i :: 0 <= i < |images| ==> items[i] == Valued(ImageFlag, images[i])
  {
    if images == [] then [] else [Valued(ImageFlag, images[0])] + Images(images[1..])
  }

  function Optional(flag: ValueFlag, value: Option<string>): seq<Item> {
    if value.None? then [] else [Valued(flag, value.value)]
  }

  function ItemsOf(respond: Respond): seq<Item> {
    var budget := if respond.thinkingBudget.None? then None else Some(Digits(respond.thinkingBudget.value));
    [Prompt(respond.prompt)] + (Images(respond.images) + (Optional(ModelFlag, respond.modelId)
      + (Optional(InstructionsFlag, respond.instructions) + (Optional(SchemaFlag, respond.schemaPath)
      + (Optional(BudgetFlag, budget) + (if respond.noStream then [NoStream] else []))))))
  }

  lemma BudgetReadsBack(budget: nat)
    requires budget <= MAX_U16
    ensures ParseU16(Digits(budget)) == Some(budget) && IsValue(Digits(budget))
  {
    var text := Digits(budget);
    DigitsReadBack(budget);
    assert IsDigit(text[0]);
  }

  lemma {:induction false} AddsImages(before: Gathered, images: seq<string>, rest: seq<Item>)
    requires AreItems(rest) && forall image :: image in images ==> IsValue(image)
    ensures AreItems(Images(images) + rest)
    ensures AddAll(before, Images(images) + rest) == AddAll(before.(images := before.images + images), rest)
    decreases |images|
  {
    if images == [] {
      assert Images(images) + rest == rest && before.images + images == before.images;
    } else {
      var next := before.(images := before.images + [images[0]]);
      AddsImages(next, images[1..], rest);
      AddsImage(before, images[0], Images(images[1..]) + rest);
      ImagesInFront(images, rest);
      assert next.images + images[1..] == before.images + images;
    }
  }

  lemma ImagesInFront(images: seq<string>, rest: seq<Item>)
    requires images != []
    ensures Images(images) + rest == [Valued(ImageFlag, images[0])] + (Images(images[1..]) + rest)
  {
  }

  lemma AddsImage(before: Gathered, image: string, rest: seq<Item>)
    requires IsValue(image) && AreItems(rest)
    ensures AreItems([Valued(ImageFlag, image)] + rest)
    ensures AddAll(before, [Valued(ImageFlag, image)] + rest) == AddAll(before.(images := before.images + [image]), rest)
  {
    AddsOne(before, Valued(ImageFlag, image), rest);
  }

  lemma AddsOne(before: Gathered, item: Item, rest: seq<Item>)
    requires IsItem(item) && AreItems(rest) && AddItem(before, item).Ok?
    ensures AreItems([item] + rest) && AddAll(before, [item] + rest) == AddAll(AddItem(before, item).value, rest)
  {
    assert ([item] + rest)[0] == item && ([item] + rest)[1..] == rest;
  }

  lemma AddsOptional(before: Gathered, flag: ValueFlag, value: Option<string>, rest: seq<Item>)
    requires AreItems(rest) && (value.Some? ==> IsItem(Valued(flag, value.value)) && AddItem(before, Valued(flag, value.value)).Ok?)
    ensures AreItems(Optional(flag, value) + rest)
    ensures AddAll(before, Optional(flag, value) + rest) ==
              AddAll(if value.None? then before else AddItem(before, Valued(flag, value.value)).value, rest)
  {
    if value.None? {
      assert Optional(flag, value) + rest == rest;
    } else {
      AddsOne(before, Valued(flag, value.value), rest);
    }
  }

  /** Writing a request as arguments and parsing them gives the request back. */
  lemma RespondReadsBack(respond: Respond)
    requires IsWritable(respond)
    ensures ParseRespond(Render(ItemsOf(respond))) == Ok(respond)
  {
    var budget := if respond.thinkingBudget.None? then None else Some(Digits(respond.thinkingBudget.value));
    var budgeted := Optional(BudgetFlag, budget) + (if respond.noStream then [NoStream] else []);
    var schemed := Optional(SchemaFlag, respond.schemaPath) + budgeted;
    var instructed := Optional(InstructionsFlag, respond.instructions) + schemed;
    var modelled := Optional(ModelFlag, respond.modelId) + instructed;
    var started := NOTHING_YET.(prompt := Some(respond.prompt));
    var withImages := started.(images := respond.images);
    var withModel := withImages.(modelId := respond.modelId);
    assert [] + respond.images == respond.images;
    AddsLastFlags(withModel, respond, budget, budgeted, schemed);
    AddsOptional(withImages, ModelFlag, respond.modelId, instructed);
    AddsImages(started, respond.images, modelled);
    AddsOne(NOTHING_YET, Prompt(respond.prompt), Images(respond.images) + modelled);
    ReadsRendered(NOTHING_YET, ItemsOf(respond));
  }

  lemma AddsLastFlags(withModel: Gathered, respond: Respond, budget: Option<string>, budgeted: seq<Item>, schemed: seq<Item>)
    requires IsWritable(respond) && withModel == NOTHING_YET.(prompt := Some(respond.prompt), images := respond.images, modelId := respond.modelId)
    requires budget == if respond.thinkingBudget.None? then None else Some(Digits(respond.thinkingBudget.value))
    requires budgeted == Optional(BudgetFlag, budget) + (if respond.noStream then [NoStream] else [])
    requires schemed == Optional(SchemaFlag, respond.schemaPath) + budgeted
    ensures AreItems(Optional(InstructionsFlag, respond.instructions) + schemed)
    ensures AddAll(withModel, Optional(InstructionsFlag, respond.instructions) + schemed) ==
              Ok(withModel.(instructions := respond.instructions, schemaPath := respond.schemaPath,
                            thinkingBudget := respond.thinkingBudget, noStream := respond.noStream))
  {
    var withInstructions := withModel.(instructions := respond.instructions);
    var withSchema := withInstructions.(schemaPath := respond.schemaPath);
    AddsBudgetAndStream(withSchema, respond.thinkingBudget, budget, respond.noStream);
    AddsOptional(withInstructions, SchemaFlag, respond.schemaPath, budgeted);
    AddsOptional(withModel, InstructionsFlag, respond.instructions, schemed);
  }

  lemma AddsBudgetAndStream(before: Gathered, thinkingBudget: Option<nat>, budget: Option<string>, noStream: bool)
    requires before.thinkingBudget.None? && !before.noStream && (thinkingBudget.Some? ==> thinkingBudget.value <= MAX_U16)
    requires budget == if thinkingBudget.None? then None else Some(Digits(thinkingBudget.value))
    ensures var items := Optional(BudgetFlag, budget) + (if noStream then [NoStream] else []);
            AreItems(items) && AddAll(before, items) == Ok(before.(thinkingBudget := thinkingBudget, noStream := noStream))
  {
    if thinkingBudget.Some? {
      BudgetReadsBack(thinkingBudget.value);
    }
    var tail := if noStream then [NoStream] else [];
    AddsOptional(before, BudgetFlag, budget, tail);
    var withBudget := before.(thinkingBudget := thinkingBudget);
    if noStream {
      AddsOne(withBudget, NoStream, []);
      assert [NoStream] + [] == [NoStream];
    }
  }
}
