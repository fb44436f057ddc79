// Raw command-line arguments (apps/astronomical-cli/src/arguments.rs): the split
// at the first `--`, the global flags, and the value that follows a flag.

module ArgumentVector {
  import opened Wrappers

  /** One argument as the process received it; one that is not Unicode only has a lossy text. */
  datatype Argument = Text(text: string) | NotUnicode(lossy: string)

  datatype UsageError =
    | MissingCommand
    | UnknownCommand(name: string)
    | UnknownArgument(argument: string)
    | MissingValue(flag: string)
    | RepeatedArgument(flag: string)
    | MultipleTools
    | RespondPromptConflict
    | RespondPromptRequired
    | InvalidThinkingBudget(value: string)

  const HARNESS_SEPARATOR := Text("--")

  function Lossy(argument: Argument): string {
    match argument
    case Text(text) => text
    case NotUnicode(lossy) => lossy
  }

  predicate IsFlagShaped(text: string) {
    text != "" && text[0] == '-'
  }

  /** A value a flag may take. */
  predicate IsValue(text: string) {
    text != "" && !IsFlagShaped(text)
  }

  /** The value that must follow the flag at the front. */
  function FlagValue(arguments: seq<Argument>, flag: string): Result<string, UsageError> {
    if |arguments| < 2 || arguments[1].NotUnicode? || !IsValue(arguments[1].text) then Err(MissingValue(flag))
    else Ok(arguments[1].text)
  }

  // --- What may be said at most once ---

  function Listed<T>(option: Option<T>): seq<T> {
    match option
    case None => []
    case Some(value) => [value]
  }

  lemma ListedAppends<T>(option: Option<T>, more: seq<T>, result: Option<T>)
    ensures option.None? ==> Listed(option) + more == more
    ensures option.Some? && more == [] ==> Listed(option) + more == [option.value]
    ensures option.Some? && more != [] ==> Listed(option) + more != Listed(result)
    ensures Listed(option) == Listed(result) <==> option == result
  {
    if option.Some? && result.Some? && Listed(option) == Listed(result) {
      assert Listed(option)[0] == Listed(result)[0];
    }
    if option.Some? && more != [] {
      assert |Listed(option) + more| > 1;
    }
  }

  // --- The split at the first separator ---

  /** What the launcher parses: everything before the first separator. */
  function LauncherPart(arguments: seq<Argument>): (launcher: seq<Argument>)
    ensures launcher <= arguments
  {
    if arguments == [] || arguments[0] == HARNESS_SEPARATOR then [] else [arguments[0]] + LauncherPart(arguments[1..])
  }

  /** The separator and what follows it, as it came. */
  function HarnessTail(arguments: seq<Argument>): seq<Argument> {
    arguments[|LauncherPart(arguments)|..]
  }

  function HarnessPart(arguments: seq<Argument>): seq<Argument> {
    var tail := HarnessTail(arguments);
    if tail == [] then [] else tail[1..]
  }

  ghost predicate IsSplit(arguments: seq<Argument>, launcher: seq<Argument>, tail: seq<Argument>) {
    arguments == launcher + tail && HARNESS_SEPARATOR !in launcher && (tail == [] || tail[0] == HARNESS_SEPARATOR)
  }

  lemma {:induction false} SplitHolds(arguments: seq<Argument>)
    ensures IsSplit(arguments, LauncherPart(arguments), HarnessTail(arguments))
  {
    if arguments != [] && arguments[0] != HARNESS_SEPARATOR {
      SplitHolds(arguments[1..]);
      assert HarnessTail(arguments) == HarnessTail(arguments[1..]);
    }
  }

  /** The split is the only one whose launcher part holds no separator and whose tail is empty or starts with one. */
  lemma {:induction false} SplitIsUnique(arguments: seq<Argument>, launcher: seq<Argument>, tail: seq<Argument>)
    requires IsSplit(arguments, launcher, tail)
    ensures launcher == LauncherPart(arguments) && tail == HarnessTail(arguments)
    decreases |launcher|
  {
    if launcher == [] {
      assert arguments == tail;
    } else {
      assert arguments[0] == launcher[0] && arguments[1..] == launcher[1..] + tail;
      assert launcher == [launcher[0]] + launcher[1..];
      SplitIsUnique(arguments[1..], launcher[1..], tail);
    }
  }

  method SplitHarnessArguments(arguments: seq<Argument>) returns (launcher: seq<Argument>, harness: seq<Argument>)
    ensures launcher == LauncherPart(arguments) && harness == HarnessPart(arguments)
  {
    var i := 0;
    while i < |arguments|
      invariant 0 <= i <= |arguments|
      invariant HARNESS_SEPARATOR !in arguments[..i]
    {
      if arguments[i] == HARNESS_SEPARATOR {
        launcher, harness := arguments[..i], arguments[i + 1..];
        SplitIsUnique(arguments, launcher, arguments[i..]);
        return;
      }
      i := i + 1;
    }
    SplitIsUnique(arguments, arguments, []);
    launcher, harness := arguments, [];
  }

  // --- The global flags ---

  predicate IsVerboseFlag(argument: Argument) {
    argument == Text("--verbose") || argument == Text("-v")
  }

  predicate IsVerboseRequested(arguments: seq<Argument>) {
    exists argument :: argument in LauncherPart(arguments) && IsVerboseFlag(argument)
  }

  predicate AsksFor(arguments: seq<Argument>, spellings: seq<string>) {
    exists argument :: argument in LauncherPart(arguments) && argument.Text? && argument.text in spellings
  }

  function DropVerbose(launcher: seq<Argument>): seq<Argument> {
    if launcher == [] then []
    else (if IsVerboseFlag(launcher[0]) then [] else [launcher[0]]) + DropVerbose(launcher[1..])
  }

  function WithoutVerbose(arguments: seq<Argument>): seq<Argument> {
    DropVerbose(LauncherPart(arguments)) + HarnessTail(arguments)
  }

  method ContainsAnyArgument(arguments: seq<Argument>, spellings: seq<string>) returns (found: bool)
    ensures found <==> exists argument :: argument in arguments && argument.Text? && argument.text in spellings
  {
    for i := 0 to |arguments|
      invariant forall k :: 0 <= k < i ==> !(arguments[k].Text? && arguments[k].text in spellings)
    {
      for j := 0 to |spellings|
        invariant arguments[i].Text? ==> arguments[i].text !in spellings[..j]
      {
        if arguments[i] == Text(spellings[j]) {
          assert arguments[i] in arguments;
          return true;
        }
      }
      assert spellings[..|spellings|] == spellings;
    }
    return false;
  }

  lemma DropVerboseNext(launcher: seq<Argument>, i: nat, remaining: seq<Argument>)
    requires i < |launcher|
    ensures remaining + DropVerbose(launcher[i..]) ==
              remaining + (if IsVerboseFlag(launcher[i]) then [] else [launcher[i]]) + DropVerbose(launcher[i + 1..])
  {
    assert launcher[i..][0] == launcher[i] && launcher[i..][1..] == launcher[i + 1..];
  }

  /** The loop over what stands before the separator. */
  method DropVerboseFlags(launcher: seq<Argument>) returns (remaining: seq<Argument>)
    ensures remaining == DropVerbose(launcher)
  {
    remaining := [];
    assert launcher[0..] == launcher;
    var i := 0;
    while i < |launcher|
      invariant 0 <= i <= |launcher|
      invariant remaining + DropVerbose(launcher[i..]) == DropVerbose(launcher)
    {
      DropVerboseNext(launcher, i, remaining);
      if launcher[i] != Text("--verbose") && launcher[i] != Text("-v") {
        remaining := remaining + [launcher[i]];
      }
      i := i + 1;
    }
  }

  method WithoutGlobalVerboseFlags(arguments: seq<Argument>) returns (remaining: seq<Argument>)
    ensures remaining == WithoutVerbose(arguments)
  {
    var launcher, harness := SplitHarnessArguments(arguments);
    SplitHolds(arguments);
    remaining := DropVerboseFlags(launcher);
    if |launcher| < |arguments| {
      remaining := remaining + [HARNESS_SEPARATOR];
      remaining := remaining + harness;
    }
  }

  lemma {:induction false} DropVerboseAppends(a: seq<Argument>, b: seq<Argument>)
    ensures DropVerbose(a + b) == DropVerbose(a) + DropVerbose(b)
  {
    if a == [] {
      assert a + b == b;
    } else {
      assert (a + b)[1..] == a[1..] + b;
      DropVerboseAppends(a[1..], b);
    }
  }

  function WithFlag(arguments: seq<Argument>, at: nat, flag: Argument): seq<Argument>
    requires at <= |arguments|
  {
    arguments[..at] + [flag] + arguments[at..]
  }

  /** A verbose flag put anywhere before the separator changes only the launcher's part. */
  lemma InsertedFlagSplits(arguments: seq<Argument>, at: nat, flag: Argument)
    requires at <= |LauncherPart(arguments)| && IsVerboseFlag(flag)
    ensures LauncherPart(WithFlag(arguments, at, flag)) == WithFlag(LauncherPart(arguments), at, flag)
    ensures HarnessTail(WithFlag(arguments, at, flag)) == HarnessTail(arguments)
  {
    var launcher, tail := LauncherPart(arguments), HarnessTail(arguments);
    SplitHolds(arguments);
    InsertedFlagInFront(launcher, tail, at, flag);
    SplitIsUnique(WithFlag(launcher, at, flag) + tail, WithFlag(launcher, at, flag), tail);
  }

  lemma InsertedFlagInFront(launcher: seq<Argument>, tail: seq<Argument>, at: nat, flag: Argument)
    requires at <= |launcher| && IsVerboseFlag(flag) && IsSplit(launcher + tail, launcher, tail)
    ensures WithFlag(launcher + tail, at, flag) == WithFlag(launcher, at, flag) + tail
    ensures IsSplit(WithFlag(launcher, at, flag) + tail, WithFlag(launcher, at, flag), tail)
  {
  }

  /** What remains to be parsed does not depend on verbose flags. */
  lemma InsertedFlagIsDropped(arguments: seq<Argument>, at: nat, flag: Argument)
    requires at <= |LauncherPart(arguments)| && IsVerboseFlag(flag)
    ensures WithoutVerbose(WithFlag(arguments, at, flag)) == WithoutVerbose(arguments)
  {
    InsertedFlagSplits(arguments, at, flag);
    DropsInserted(LauncherPart(arguments), at, flag);
  }

  lemma DropsInserted(launcher: seq<Argument>, at: nat, flag: Argument)
    requires at <= |launcher| && IsVerboseFlag(flag)
    ensures DropVerbose(WithFlag(launcher, at, flag)) == DropVerbose(launcher)
  {
    var before, after := launcher[..at], launcher[at..];
    assert before + after == launcher;
    DropsBetween(before, after, flag);
    DropVerboseAppends(before, after);
  }

  lemma {:induction false} DropsBetween(before: seq<Argument>, after: seq<Argument>, flag: Argument)
    requires IsVerboseFlag(flag)
    ensures DropVerbose(before + [flag] + after) == DropVerbose(before) + DropVerbose(after)
  {
    var all := before + [flag] + after;
    if before == [] {
      assert all[0] == flag && all[1..] == after;
    } else {
      assert all[0] == before[0] && all[1..] == before[1..] + [flag] + after;
      DropsBetween(before[1..], after, flag);
    }
  }

  /** An inserted verbose flag is seen, and no other question about the launcher's part has a new answer. */
  lemma InsertedFlagIsSeen(arguments: seq<Argument>, at: nat, flag: Argument, spellings: seq<string>)
    requires at <= |LauncherPart(arguments)| && IsVerboseFlag(flag) && flag.text !in spellings
    ensures AsksFor(WithFlag(arguments, at, flag), spellings) <==> AsksFor(arguments, spellings)
    ensures IsVerboseRequested(WithFlag(arguments, at, flag))
  {
    InsertedFlagSplits(arguments, at, flag);
    var launcher := LauncherPart(arguments);
    InsertedHolds(launcher, at, flag);
    var longer := WithFlag(launcher, at, flag);
    assert forall argument :: argument in longer <==> argument in launcher || argument == flag;
  }

  lemma InsertedHolds(launcher: seq<Argument>, at: nat, flag: Argument)
    requires at <= |launcher|
    ensures forall argument :: argument in WithFlag(launcher, at, flag) <==> argument in launcher || argument == flag
  {
    assert launcher == launcher[..at] + launcher[at..];
    forall argument
      ensures argument in WithFlag(launcher, at, flag) <==> argument in launcher || argument == flag
    {
      assert argument in launcher <==> argument in launcher[..at] || argument in launcher[at..];
    }
  }

  /** Nothing of verbose flags is left before the separator. */
  lemma {:induction false} DropVerboseKeeps(launcher: seq<Argument>, argument: Argument)
    ensures argument in DropVerbose(launcher) <==> argument in launcher && !IsVerboseFlag(argument)
  {
    if launcher != [] {
      DropVerboseKeeps(launcher[1..], argument);
    }
  }
}
