// The string operations the Rust sources use: finding, replacing and counting
// matches, splitting on a separator, iterating lines and trimming.

module TextSearch {
  import opened Wrappers

  predicate StartsWith(text: string, prefix: string) {
    |prefix| <= |text| && text[..|prefix|] == prefix
  }

  predicate EndsWith(text: string, suffix: string) {
    |suffix| <= |text| && text[|text| - |suffix|..] == suffix
  }

  predicate OccursAt(text: string, pattern: string, at: nat) {
    at + |pattern| <= |text| && text[at..at + |pattern|] == pattern
  }

  ghost predicate Contains(text: string, pattern: string) {
    exists at: nat :: OccursAt(text, pattern, at)
  }

  /** The leftmost match, if any. */
  function FindFirst(text: string, pattern: string): (found: Option<nat>)
    ensures found.Some? ==> found.value + |pattern| <= |text|
  {
    FindFrom(text, pattern, 0)
  }

  function FindFrom(text: string, pattern: string, from: nat): (found: Option<nat>)
    requires from <= |text|
    ensures found.Some? ==> found.value + |pattern| <= |text|
    decreases |text| - from
  {
    if OccursAt(text, pattern, from) then Some(from)
    else if from == |text| then None
    else FindFrom(text, pattern, from + 1)
  }

  lemma {:induction false} FindFromFacts(text: string, pattern: string, from: nat)
    requires from <= |text|
    ensures match FindFrom(text, pattern, from)
            case Some(found) => from <= found && OccursAt(text, pattern, found)
                                && forall at: nat :: from <= at < found ==> !OccursAt(text, pattern, at)
            case None => forall at: nat :: from <= at ==> !OccursAt(text, pattern, at)
    decreases |text| - from
  {
    if !OccursAt(text, pattern, from) && from < |text| {
      FindFromFacts(text, pattern, from + 1);
    }
  }

  /** A found match is a match and the first one; nothing found means nothing to find. */
  lemma FindFirstFacts(text: string, pattern: string)
    ensures match FindFirst(text, pattern)
            case Some(found) => OccursAt(text, pattern, found) && forall at: nat :: at < found ==> !OccursAt(text, pattern, at)
            case None => !Contains(text, pattern)
  {
    FindFromFacts(text, pattern, 0);
  }

  /** `text.matches(pattern).count()`: matches that do not overlap, counted from the left. */
  function CountMatches(text: string, pattern: string): nat
    requires pattern != []
    decreases |text|
  {
    match FindFirst(text, pattern)
    case None => 0
    case Some(at) => 1 + CountMatches(text[at + |pattern|..], pattern)
  }

  /** `text.replacen(pattern, replacement, 1)`. */
  function ReplaceFirst(text: string, pattern: string, replacement: string): string {
    match FindFirst(text, pattern)
    case None => text
    case Some(at) => text[..at] + replacement + text[at + |pattern|..]
  }

  /** `text.replace(pattern, replacement)`. */
  function ReplaceAll(text: string, pattern: string, replacement: string): string
    requires pattern != []
    decreases |text|
  {
    match FindFirst(text, pattern)
    case None => text
    case Some(at) => text[..at] + replacement + ReplaceAll(text[at + |pattern|..], pattern, replacement)
  }

  /** `text.split(separator)`: always at least one part. */
  function SplitOn(text: string, separator: string): (parts: seq<string>)
    requires separator != []
    ensures parts != []
    decreases |text|
  {
    match FindFirst(text, separator)
    case None => [text]
    case Some(at) => [text[..at]] + SplitOn(text[at + |separator|..], separator)
  }

  lemma OccursAfter(text: string, skip: nat, pattern: string, at: nat)
    requires skip <= |text|
    ensures OccursAt(text[skip..], pattern, at) <==> OccursAt(text, pattern, skip + at)
  {
    if skip + at + |pattern| <= |text| {
      assert text[skip..][at..at + |pattern|] == text[skip + at..skip + at + |pattern|];
    }
  }

  predicate LacksChar(text: string, c: char) {
    forall i :: 0 <= i < |text| ==> text[i] != c
  }

  // --- Lines ---

  /** The length of the first line, its newline included. */
  function FirstLineLength(text: string): (length: nat)
    requires text != []
    ensures 1 <= length <= |text|
    ensures IsRawLine(text[..length])
    ensures length < |text| ==> text[length - 1] == '\n'
  {
    if text[0] == '\n' || |text| == 1 then 1
    else
      var rest := FirstLineLength(text[1..]);
      assert text[..1 + rest] == [text[0]] + text[1..][..rest];
      1 + rest
  }

  /** A line as it stands in a text: a newline can only end it. */
  predicate IsRawLine(raw: string) {
    raw != [] && forall i :: 0 <= i < |raw| - 1 ==> raw[i] != '\n'
  }

  predicate EndsLine(raw: string) {
    raw != [] && raw[|raw| - 1] == '\n'
  }

  /** The parts `split_inclusive('\n')` cuts a text into. */
  predicate AreRawLines(raws: seq<string>) {
    && (forall i :: 0 <= i < |raws| ==> IsRawLine(raws[i]))
    && (forall i :: 0 <= i < |raws| - 1 ==> EndsLine(raws[i]))
  }

  function Flatten(raws: seq<string>): string {
    if raws == [] then [] else raws[0] + Flatten(raws[1..])
  }

  /** Rust's `text.split_inclusive('\n')`. */
  function RawLines(text: string): (raws: seq<string>)
    ensures AreRawLines(raws) && Flatten(raws) == text
    decreases |text|
  {
    if text == [] then []
    else
      var length := FirstLineLength(text);
      var rest := RawLines(text[length..]);
      RawLineInFront(text[..length], rest);
      [text[..length]] + rest
  }

  lemma RawLineInFront(first: string, rest: seq<string>)
    requires IsRawLine(first) && AreRawLines(rest) && (rest != [] ==> EndsLine(first))
    ensures AreRawLines([first] + rest) && Flatten([first] + rest) == first + Flatten(rest)
  {
    assert ([first] + rest)[1..] == rest;
  }

  /** How many characters of a raw line its newline, or carriage return and newline, take. */
  function LineEndingLength(raw: string): (length: nat)
    requires IsRawLine(raw)
    ensures length <= |raw|
  {
    if !EndsLine(raw) then 0
    else if |raw| >= 2 && raw[|raw| - 2] == '\r' then 2
    else 1
  }

  function WithoutLineEnding(raw: string): string
    requires IsRawLine(raw)
  {
    raw[..|raw| - LineEndingLength(raw)]
  }

  /** Rust's `text.lines()`. */
  function Lines(text: string): (lines: seq<string>)
    ensures |lines| == |RawLines(text)|
    ensures forall i :: 0 <= i < |lines| ==> lines[i] == WithoutLineEnding(RawLines(text)[i])
  {
    var raws := RawLines(text);
    seq(|raws|, i requires 0 <= i < |raws| => WithoutLineEnding(raws[i]))
  }

  lemma LineLacksNewline(raw: string)
    requires IsRawLine(raw)
    ensures LacksChar(WithoutLineEnding(raw), '\n')
  {
  }

  // --- Trimming ---

  /** Unicode's White_Space property, which Rust's `trim` uses. */
  predicate IsWhitespace(c: char) {
    var code := c as int;
    || 0x9 <= code <= 0xD || code == 0x20 || code == 0x85 || code == 0xA0 || code == 0x1680
    || 0x2000 <= code <= 0x200A || code == 0x2028 || code == 0x2029 || code == 0x202F || code == 0x205F || code == 0x3000
  }

  function LeadingWhitespace(text: string): (count: nat)
    ensures count <= |text|
    ensures forall i :: 0 <= i < count ==> IsWhitespace(text[i])
    ensures count < |text| ==> !IsWhitespace(text[count])
  {
    if text == [] || !IsWhitespace(text[0]) then 0
    else
      var rest := LeadingWhitespace(text[1..]);
      assert forall i :: 1 <= i < 1 + rest ==> text[i] == text[1..][i - 1];
      1 + rest
  }

  function TrimEnd(text: string): (trimmed: string)
    ensures trimmed <= text
    ensures trimmed != [] ==> !IsWhitespace(trimmed[|trimmed| - 1])
  {
    if text == [] || !IsWhitespace(text[|text| - 1]) then text else TrimEnd(text[..|text| - 1])
  }

  function Trim(text: string): (trimmed: string)
    ensures OccursAt(text, trimmed, LeadingWhitespace(text))
  {
    TrimEnd(text[LeadingWhitespace(text)..])
  }

  predicate IsAllWhitespace(text: string) {
    forall i :: 0 <= i < |text| ==> IsWhitespace(text[i])
  }

  /** Neither end of the text is whitespace. */
  predicate IsTrimmed(text: string) {
    text != "" ==> !IsWhitespace(text[0]) && !IsWhitespace(text[|text| - 1])
  }

  ghost predicate IsTrimOf(text: string, trimmed: string) {
    IsTrimmed(trimmed) && exists front, back :: IsAllWhitespace(front) && IsAllWhitespace(back) && text == front + trimmed + back
  }

  lemma {:induction false} TrimEndDropsBlanks(text: string)
    ensures IsAllWhitespace(text[|TrimEnd(text)|..])
  {
    if text != [] && IsWhitespace(text[|text| - 1]) {
      var shorter := text[..|text| - 1];
      TrimEndDropsBlanks(shorter);
      assert text[|TrimEnd(text)|..] == shorter[|TrimEnd(shorter)|..] + [text[|text| - 1]];
    }
  }

  lemma {:induction false} TrimEndOf(text: string, back: string)
    requires IsAllWhitespace(back) && (text == "" || !IsWhitespace(text[|text| - 1]))
    ensures TrimEnd(text + back) == text
    decreases |back|
  {
    if back == [] {
      assert text + back == text;
    } else {
      var longer, shorter := text + back, back[..|back| - 1];
      assert longer[..|longer| - 1] == text + shorter;
      TrimEndOf(text, shorter);
    }
  }

  lemma TrimStands(text: string)
    ensures IsTrimOf(text, Trim(text))
  {
    var count := LeadingWhitespace(text);
    TrimEndStands(text[..count], text[count..], TrimEnd(text[count..]));
    assert text == text[..count] + text[count..];
  }

  lemma TrimEndStands(front: string, rest: string, trimmed: string)
    requires IsAllWhitespace(front) && trimmed == TrimEnd(rest) && (rest != "" ==> !IsWhitespace(rest[0]))
    ensures IsTrimOf(front + rest, trimmed)
  {
    TrimEndDropsBlanks(rest);
    var back := rest[|trimmed|..];
    assert rest == trimmed + back;
    assert front + rest == front + trimmed + back;
    assert trimmed != "" ==> trimmed[0] == rest[0];
  }

  /** Trimming takes blanks off both ends, and all of them. */
  lemma TrimMeans(text: string, trimmed: string)
    ensures IsTrimOf(text, trimmed) <==> trimmed == Trim(text)
  {
    TrimStands(text);
    if IsTrimOf(text, trimmed) {
      var front, back :| IsAllWhitespace(front) && IsAllWhitespace(back) && text == front + trimmed + back;
      TrimOf(front, trimmed, back);
    }
  }

  lemma TrimOf(front: string, trimmed: string, back: string)
    requires IsAllWhitespace(front) && IsAllWhitespace(back) && IsTrimmed(trimmed)
    ensures Trim(front + trimmed + back) == trimmed
  {
    var text := front + trimmed + back;
    var count := LeadingWhitespace(text);
    if trimmed == "" {
      assert text == front + back && IsAllWhitespace(text);
      assert text[count..] == "";
    } else {
      assert text[|front|] == trimmed[0];
      assert forall i :: 0 <= i < |front| ==> text[i] == front[i];
      assert count == |front|;
      assert text[count..] == trimmed + back;
      TrimEndOf(trimmed, back);
    }
  }

  // --- Editing inside one line ---

  lemma {:induction false} FlattenAppend(a: seq<string>, b: seq<string>)
    ensures Flatten(a + b) == Flatten(a) + Flatten(b)
  {
    if a == [] {
      assert a + b == b;
    } else {
      assert (a + b)[1..] == a[1..] + b;
      FlattenAppend(a[1..], b);
      assert Flatten(a + b) == a[0] + (Flatten(a[1..]) + Flatten(b));
    }
  }

  /** A text is its lines before, one line, and its lines after. */
  lemma FlattenAround(raws: seq<string>, line: nat)
    requires line < |raws|
    ensures Flatten(raws) == Flatten(raws[..line]) + raws[line] + Flatten(raws[line + 1..])
  {
    assert raws == raws[..line] + raws[line..];
    FlattenAppend(raws[..line], raws[line..]);
    assert raws[line..][1..] == raws[line + 1..];
    assert Flatten(raws[line..]) == raws[line] + Flatten(raws[line + 1..]);
  }

  lemma FirstRawLineLength(raw: string, rest: string)
    requires IsRawLine(raw) && (rest != [] ==> EndsLine(raw))
    ensures FirstLineLength(raw + rest) == |raw|
  {
    var text := raw + rest;
    var actual := FirstLineLength(text);
    var first := text[..actual];
    assert forall i :: 0 <= i < |raw| ==> text[i] == raw[i];
    assert forall i :: 0 <= i < actual ==> first[i] == text[i];
    assert |raw| < |text| ==> text[|raw| - 1] == '\n';
  }

  lemma RawLinesOfTerminated(raw: string, rest: string)
    requires IsRawLine(raw) && EndsLine(raw)
    ensures RawLines(raw + rest) == [raw] + RawLines(rest)
  {
    FirstRawLineLength(raw, rest);
    assert (raw + rest)[..|raw|] == raw && (raw + rest)[|raw|..] == rest;
  }

  lemma LinesOfRaw(raw: string, lines: seq<string>, raws: seq<string>, others: seq<string>, rest: seq<string>)
    requires IsRawLine(raw) && raws == [raw] + rest && |lines| == |raws| && |others| == |rest|
    requires forall i :: 0 <= i < |raws| ==> IsRawLine(raws[i]) && lines[i] == WithoutLineEnding(raws[i])
    requires forall i :: 0 <= i < |rest| ==> IsRawLine(rest[i]) && others[i] == WithoutLineEnding(rest[i])
    ensures lines == [WithoutLineEnding(raw)] + others
  {
    forall i | 0 <= i < |lines|
      ensures lines[i] == ([WithoutLineEnding(raw)] + others)[i]
    {
      assert raws[i] == if i == 0 then raw else rest[i - 1];
    }
  }

  lemma TerminatedLine(content: string)
    requires LacksChar(content, '\n')
    ensures IsRawLine(content + "\n") && EndsLine(content + "\n")
    ensures WithoutLineEnding(content + "\n") ==
              if content != "" && content[|content| - 1] == '\r' then content[..|content| - 1] else content
  {
    var raw := content + "\n";
    assert forall i :: 0 <= i < |content| ==> raw[i] == content[i];
    assert content != "" ==> raw[|raw| - 2] == content[|content| - 1];
  }

  /** The first line of a text is what stands before its first newline, without a carriage return right before that. */
  lemma LinesOfTerminated(content: string, rest: string)
    requires LacksChar(content, '\n')
    ensures Lines(content + "\n" + rest) ==
              [if content != "" && content[|content| - 1] == '\r' then content[..|content| - 1] else content] + Lines(rest)
  {
    TerminatedLine(content);
    RawLinesOfTerminated(content + "\n", rest);
    var text := content + "\n" + rest;
    LinesOfRaw(content + "\n", Lines(text), RawLines(text), Lines(rest), RawLines(rest));
  }

  /** A text without a newline is one line as it stands, and an empty one none. */
  lemma LinesOfLast(content: string)
    requires LacksChar(content, '\n')
    ensures Lines(content) == if content == "" then [] else [content]
  {
    if content != "" {
      assert content + [] == content;
      FirstRawLineLength(content, []);
      assert content[|content|..] == [];
      assert RawLines(content) == [content] + RawLines([]);
    }
  }

  /** There is one way to cut a text into raw lines. */
  lemma {:induction false} RawLinesUnique(raws: seq<string>)
    requires AreRawLines(raws)
    ensures RawLines(Flatten(raws)) == raws
  {
    if raws != [] {
      var rest := Flatten(raws[1..]);
      assert AreRawLines(raws[1..]) by {
        assert forall i :: 0 <= i < |raws| - 1 ==> raws[1..][i] == raws[i + 1];
      }
      RawLinesUnique(raws[1..]);
      assert rest != [] ==> |raws| > 1;
      FirstRawLineLength(raws[0], rest);
      var text := raws[0] + rest;
      assert text[..|raws[0]|] == raws[0] && text[|raws[0]|..] == rest;
      assert raws == [raws[0]] + raws[1..];
    }
  }

  /** Where a line starts in its text. */
  function LineOffset(text: string, line: nat): nat
    requires line < |Lines(text)|
  {
    |Flatten(RawLines(text)[..line])|
  }

  lemma FlattenStep(first: string, rest: seq<string>, count: nat)
    requires count <= |rest|
    ensures |Flatten(([first] + rest)[..count + 1])| == |first| + |Flatten(rest[..count])|
  {
    assert ([first] + rest)[..count + 1] == [first] + rest[..count];
    assert ([first] + rest[..count])[1..] == rest[..count];
  }

  lemma {:induction false} FirstLineEndsBy(text: string, at: nat)
    requires at < |text| && text[at] == '\n'
    ensures FirstLineLength(text) <= at + 1
    decreases |text|
  {
    if at > 0 && text[0] != '\n' {
      FirstLineEndsBy(text[1..], at - 1);
    }
  }

  /** After a newline that does not end the text, a line starts. */
  lemma {:induction false} LineStartsAfterNewline(text: string, at: nat) returns (line: nat)
    requires at + 1 < |text| && text[at] == '\n'
    ensures 0 < line < |RawLines(text)| && |Flatten(RawLines(text)[..line])| == at + 1
    decreases |text|
  {
    var length := FirstLineLength(text);
    var first, rest := text[..length], text[length..];
    FirstLineEndsBy(text, at);
    assert RawLines(text) == [first] + RawLines(rest);
    if length == at + 1 {
      line := 1;
      FlattenStep(first, RawLines(rest), 0);
      assert RawLines(rest) != [];
    } else {
      var later := LineStartsAfterNewline(rest, at - length);
      line := later + 1;
      FlattenStep(first, RawLines(rest), later);
    }
  }

  /** The text before a line, the line's own ending, and the text after it. */
  lemma LineParts(text: string, line: nat) returns (before: string, ending: string, after: string)
    requires line < |Lines(text)|
    ensures var raws := RawLines(text);
            before == Flatten(raws[..line]) && raws[line] == Lines(text)[line] + ending && after == Flatten(raws[line + 1..])
    ensures text == before + RawLines(text)[line] + after
    ensures |before| == LineOffset(text, line)
    ensures before == [] || before[|before| - 1] == '\n'
  {
    var raws := RawLines(text);
    FlattenAround(raws, line);
    before, after := Flatten(raws[..line]), Flatten(raws[line + 1..]);
    ending := EndingOf(raws[line], Lines(text)[line]);
    if line == 0 {
      assert raws[..0] == [];
    } else {
      BeforeEndsLine(raws, line);
    }
  }

  lemma EndingOf(raw: string, content: string) returns (ending: string)
    requires IsRawLine(raw) && content == WithoutLineEnding(raw)
    ensures raw == content + ending
  {
    ending := raw[|content|..];
  }

  lemma BeforeEndsLine(raws: seq<string>, line: nat)
    requires AreRawLines(raws) && 0 < line < |raws|
    ensures EndsLine(Flatten(raws[..line]))
  {
    var last := raws[line - 1];
    assert raws[..line] == raws[..line - 1] + [last];
    FlattenAppend(raws[..line - 1], [last]);
    assert Flatten([last]) == last;
  }

  lemma OccursInMiddle(before: string, middle: string, after: string)
    ensures OccursAt(before + middle + after, middle, |before|)
    ensures before != [] ==> (before + middle + after)[|before| - 1] == before[|before| - 1]
  {
    assert (before + middle + after)[|before|..|before| + |middle|] == middle;
  }

  lemma OccursInParts(text: string, before: string, content: string, ending: string, after: string)
    requires text == before + (content + ending) + after
    ensures OccursAt(text, content, |before|)
    ensures before != [] ==> text[|before| - 1] == before[|before| - 1]
  {
    assert text == before + content + (ending + after);
    OccursInMiddle(before, content, ending + after);
  }

  /** A line stands at its offset, just after a newline or at the start. */
  lemma LineIsAtOffset(text: string, line: nat)
    requires line < |Lines(text)|
    ensures OccursAt(text, Lines(text)[line], LineOffset(text, line))
    ensures LineOffset(text, line) == 0 || text[LineOffset(text, line) - 1] == '\n'
  {
    var before, ending, after := LineParts(text, line);
    assert text == before + (Lines(text)[line] + ending) + after;
    OccursInParts(text, before, Lines(text)[line], ending, after);
  }

  lemma MatchStaysInRawLine(raw: string, content: string, pattern: string, rest: string)
    requires IsRawLine(raw) && content == WithoutLineEnding(raw) && (EndsLine(raw) || rest == [])
    requires pattern != [] && LacksChar(pattern, '\n') && pattern[|pattern| - 1] != '\r'
    requires StartsWith(raw + rest, pattern)
    ensures StartsWith(content, pattern)
  {
    var text := raw + rest;
    assert forall k :: 0 <= k < |pattern| ==> pattern[k] == text[..|pattern|][k] == text[k];
    assert forall k :: 0 <= k < |raw| ==> text[k] == raw[k];
    assert |pattern| <= |content|;
    assert content[..|pattern|] == text[..|pattern|];
  }

  /** A text without line endings that stands where a line starts stands inside that line. */
  lemma MatchStaysInLine(text: string, line: nat, pattern: string)
    requires line < |Lines(text)| && OccursAt(text, pattern, LineOffset(text, line))
    requires pattern != [] && LacksChar(pattern, '\n') && pattern[|pattern| - 1] != '\r'
    ensures StartsWith(Lines(text)[line], pattern)
  {
    var before, ending, after := LineParts(text, line);
    MatchInParts(before, RawLines(text)[line], after, pattern);
    LastLineEndsText(RawLines(text), line);
    MatchStaysInRawLine(RawLines(text)[line], Lines(text)[line], pattern, after);
  }

  lemma MatchInParts(before: string, raw: string, after: string, pattern: string)
    requires OccursAt(before + raw + after, pattern, |before|)
    ensures StartsWith(raw + after, pattern)
  {
    var text := before + raw + after;
    assert text[|before|..] == raw + after;
    OccursAfter(text, |before|, pattern, 0);
  }

  lemma LastLineEndsText(raws: seq<string>, line: nat)
    requires AreRawLines(raws) && line < |raws|
    ensures EndsLine(raws[line]) || Flatten(raws[line + 1..]) == []
  {
  }

  /** `text` with the characters at `at`, as many as `old_` has, replaced. */
  function SpliceAt(text: string, at: nat, old_: string, new_: string): string
    requires at + |old_| <= |text|
  {
    text[..at] + new_ + text[at + |old_|..]
  }

  lemma SpliceBetween(left: string, old_: string, new_: string, right: string)
    ensures OccursAt(left + old_ + right, old_, |left|)
    ensures SpliceAt(left + old_ + right, |left|, old_, new_) == left + new_ + right
  {
    var text := left + old_ + right;
    OccursInMiddle(left, old_, right);
    assert text[..|left|] == left && text[|left| + |old_|..] == right;
  }

  lemma Regroup(before: string, lead: string, middle: string, rest: string, after: string)
    ensures before + (lead + middle + rest) + after == (before + lead) + middle + (rest + after)
  {
  }

  lemma SpliceInMiddle(before: string, lead: string, old_: string, new_: string, rest: string, after: string)
    ensures var text := before + (lead + old_ + rest) + after;
            && OccursAt(text, old_, |before| + |lead|)
            && SpliceAt(text, |before| + |lead|, old_, new_) == before + (lead + new_ + rest) + after
  {
    Regroup(before, lead, old_, rest, after);
    Regroup(before, lead, new_, rest, after);
    SpliceBetween(before + lead, old_, new_, rest + after);
  }

  lemma EditedLineKeepsEnding(lead: string, old_: string, new_: string, trail: string, raw: string, ending: string)
    requires old_ != [] && new_ != [] && LacksChar(new_, '\n') && new_[|new_| - 1] != '\r'
    requires IsRawLine(raw) && WithoutLineEnding(raw) == lead + old_ + trail && raw == lead + old_ + trail + ending
    ensures var edited := lead + new_ + trail + ending;
            && IsRawLine(edited) && WithoutLineEnding(edited) == lead + new_ + trail
            && (EndsLine(raw) <==> EndsLine(edited))
  {
    var edited, line, oldLine := lead + new_ + trail + ending, lead + new_ + trail, lead + old_ + trail;
    forall i | 0 <= i < |line|
      ensures line[i] != '\n'
    {
      if |lead| + |new_| <= i {
        assert line[i] == oldLine[i - |new_| + |old_|];
      } else if i < |lead| {
        assert line[i] == oldLine[i];
      }
    }
    assert line[|line| - 1] == if trail == [] then new_[|new_| - 1] else trail[|trail| - 1];
    assert trail != [] ==> oldLine[|oldLine| - 1] == trail[|trail| - 1];
  }

  lemma SpliceRawLine(text: string, at: nat, before: string, raw: string, after: string,
                      lead: string, old_: string, new_: string, trail: string)
    returns (edited: string)
    requires text == before + raw + after && at == |before| + |lead|
    requires IsRawLine(raw) && WithoutLineEnding(raw) == lead + old_ + trail
    requires old_ != [] && new_ != [] && LacksChar(new_, '\n') && new_[|new_| - 1] != '\r'
    ensures OccursAt(text, old_, at) && SpliceAt(text, at, old_, new_) == before + edited + after
    ensures IsRawLine(edited) && WithoutLineEnding(edited) == lead + new_ + trail
    ensures EndsLine(raw) <==> EndsLine(edited)
  {
    var ending := raw[|lead + old_ + trail|..];
    assert raw == lead + old_ + trail + ending;
    EditedLineKeepsEnding(lead, old_, new_, trail, raw, ending);
    edited := lead + new_ + trail + ending;
    SpliceInParts(before, lead, old_, new_, trail, ending, after, raw, edited);
  }

  lemma SpliceInParts(before: string, lead: string, old_: string, new_: string, trail: string, ending: string, after: string,
                      raw: string, edited: string)
    requires raw == lead + old_ + trail + ending && edited == lead + new_ + trail + ending
    ensures OccursAt(before + raw + after, old_, |before| + |lead|)
    ensures SpliceAt(before + raw + after, |before| + |lead|, old_, new_) == before + edited + after
  {
    assert raw == lead + old_ + (trail + ending) && edited == lead + new_ + (trail + ending);
    SpliceInMiddle(before, lead, old_, new_, trail + ending, after);
  }

  lemma SpliceLine(text: string, line: nat, lead: string, old_: string, new_: string, trail: string, at: nat)
    returns (before: string, edited: string, after: string)
    requires line < |Lines(text)| && Lines(text)[line] == lead + old_ + trail && at == LineOffset(text, line) + |lead|
    requires old_ != [] && new_ != [] && LacksChar(new_, '\n') && new_[|new_| - 1] != '\r'
    ensures OccursAt(text, old_, at) && SpliceAt(text, at, old_, new_) == before + edited + after
    ensures before == Flatten(RawLines(text)[..line]) && after == Flatten(RawLines(text)[line + 1..])
    ensures IsRawLine(edited) && WithoutLineEnding(edited) == lead + new_ + trail
    ensures EndsLine(RawLines(text)[line]) <==> EndsLine(edited)
  {
    var ending;
    before, ending, after := LineParts(text, line);
    var raw := RawLines(text)[line];
    edited := SpliceRawLine(text, at, before, raw, after, lead, old_, new_, trail);
  }

  /** Replacing characters inside one line edits that line and no other. */
  lemma EditInsideLine(text: string, line: nat, lead: string, old_: string, new_: string, trail: string, at: nat)
    requires line < |Lines(text)| && Lines(text)[line] == lead + old_ + trail && at == LineOffset(text, line) + |lead|
    requires old_ != [] && new_ != [] && LacksChar(new_, '\n') && new_[|new_| - 1] != '\r'
    ensures OccursAt(text, old_, at)
    ensures Lines(SpliceAt(text, at, old_, new_)) == Lines(text)[line := lead + new_ + trail]
  {
    var before, edited, after := SpliceLine(text, line, lead, old_, new_, trail, at);
    ReplaceRawLine(text, line, edited, lead + new_ + trail, before, after, SpliceAt(text, at, old_, new_));
  }

  lemma ReplaceRawLine(text: string, line: nat, edited: string, content: string, before: string, after: string,
                       newText: string)
    requires line < |Lines(text)| && IsRawLine(edited) && WithoutLineEnding(edited) == content
    requires EndsLine(RawLines(text)[line]) <==> EndsLine(edited)
    requires before == Flatten(RawLines(text)[..line]) && after == Flatten(RawLines(text)[line + 1..])
    requires newText == before + edited + after
    ensures Lines(newText) == Lines(text)[line := content]
  {
    var raws := RawLines(text);
    FlattenReplaced(raws, line, edited);
    assert newText == Flatten(raws[line := edited]);
    LinesReplaced(text, newText, raws, line, edited);
  }

  lemma LinesReplaced(text: string, newText: string, raws: seq<string>, line: nat, edited: string)
    requires line < |raws| && IsRawLine(edited)
    requires RawLines(text) == raws && RawLines(newText) == raws[line := edited]
    ensures Lines(newText) == Lines(text)[line := WithoutLineEnding(edited)]
  {
  }

  lemma FlattenReplaced(raws: seq<string>, line: nat, edited: string)
    requires AreRawLines(raws) && line < |raws| && IsRawLine(edited) && (EndsLine(raws[line]) <==> EndsLine(edited))
    ensures Flatten(raws[line := edited]) == Flatten(raws[..line]) + edited + Flatten(raws[line + 1..])
    ensures RawLines(Flatten(raws[line := edited])) == raws[line := edited]
  {
    var newRaws := raws[line := edited];
    FlattenAround(newRaws, line);
    assert newRaws[..line] == raws[..line] && newRaws[line + 1..] == raws[line + 1..];
    RawLinesUnique(newRaws);
  }

  // --- One line replaced ---

  /** The text with one line's content replaced, its line ending and all other lines kept. */
  function ReplaceLine(text: string, line: nat, content: string): string
    requires line < |Lines(text)|
  {
    var raws := RawLines(text);
    Flatten(raws[..line]) + (content + raws[line][|Lines(text)[line]|..]) + Flatten(raws[line + 1..])
  }

  /** Replacing characters inside a line is replacing that line. */
  lemma SpliceIsReplacedLine(text: string, line: nat, lead: string, old_: string, new_: string, trail: string, at: nat)
    requires line < |Lines(text)| && Lines(text)[line] == lead + old_ + trail && at == LineOffset(text, line) + |lead|
    ensures OccursAt(text, old_, at) && SpliceAt(text, at, old_, new_) == ReplaceLine(text, line, lead + new_ + trail)
  {
    var before, ending, after := LineParts(text, line);
    ReplacedParts(text, line, lead + new_ + trail, before, ending, after);
    SpliceText(text, before, lead, old_, new_, trail, ending, after, at);
  }

  lemma SpliceText(text: string, before: string, lead: string, old_: string, new_: string, trail: string, ending: string, after: string, at: nat)
    requires text == before + (lead + old_ + trail + ending) + after && at == |before| + |lead|
    ensures OccursAt(text, old_, at) && SpliceAt(text, at, old_, new_) == before + (lead + new_ + trail + ending) + after
  {
    SpliceInParts(before, lead, old_, new_, trail, ending, after, lead + old_ + trail + ending, lead + new_ + trail + ending);
  }

  lemma ReplacedParts(text: string, line: nat, content: string, before: string, ending: string, after: string)
    requires line < |Lines(text)| && RawLines(text)[line] == Lines(text)[line] + ending
    requires before == Flatten(RawLines(text)[..line]) && after == Flatten(RawLines(text)[line + 1..])
    ensures ReplaceLine(text, line, content) == before + (content + ending) + after
  {
    assert (Lines(text)[line] + ending)[|Lines(text)[line]|..] == ending;
  }

  // --- Splitting ---

  /** The parts with the separator between them. */
  function JoinOn(parts: seq<string>, separator: string): string {
    if parts == [] then [] else if |parts| == 1 then parts[0] else parts[0] + separator + JoinOn(parts[1..], separator)
  }

  /** The parts of a split give the text back with the separator between them, and none holds one. */
  lemma {:induction false} SplitIsCut(text: string, separator: string)
    requires separator != []
    ensures JoinOn(SplitOn(text, separator), separator) == text
    ensures forall i :: 0 <= i < |SplitOn(text, separator)| ==> !Contains(SplitOn(text, separator)[i], separator)
    decreases |text|
  {
    FindFirstFacts(text, separator);
    var found := FindFirst(text, separator);
    if found.Some? {
      var at := found.value;
      var rest := text[at + |separator|..];
      SplitIsCut(rest, separator);
      assert SplitOn(text, separator)[1..] == SplitOn(rest, separator);
      assert text == text[..at] + separator + rest;
      forall k: nat
        ensures !OccursAt(text[..at], separator, k)
      {
        if k + |separator| <= at {
          assert !OccursAt(text, separator, k);
          assert text[..at][k..k + |separator|] == text[k..k + |separator|];
        }
      }
    }
  }

  /** Replacing every match is cutting the text at the matches and joining the parts with the replacement. */
  lemma {:induction false} ReplaceAllIsRejoined(text: string, pattern: string, replacement: string)
    requires pattern != []
    ensures ReplaceAll(text, pattern, replacement) == JoinOn(SplitOn(text, pattern), replacement)
    decreases |text|
  {
    if FindFirst(text, pattern).Some? {
      var at := FindFirst(text, pattern).value;
      var rest := text[at + |pattern|..];
      ReplaceAllIsRejoined(rest, pattern, replacement);
      JoinOnInFront(text[..at], SplitOn(rest, pattern), replacement);
      assert ReplaceAll(text, pattern, replacement) == text[..at] + replacement + ReplaceAll(rest, pattern, replacement);
      assert SplitOn(text, pattern) == [text[..at]] + SplitOn(rest, pattern);
    }
  }

  lemma JoinOnInFront(first: string, parts: seq<string>, separator: string)
    requires parts != []
    ensures JoinOn([first] + parts, separator) == first + separator + JoinOn(parts, separator)
  {
    assert ([first] + parts)[1..] == parts;
  }
}
