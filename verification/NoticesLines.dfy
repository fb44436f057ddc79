// What the normalizer makes of every line of a text (xtask/src/notices.rs), with
// the characters written out.

module NoticesLines {
  import opened Wrappers
  import opened TextSearch
  import opened NoticesText

  /** A terminated line: its words, the spaces and tabs behind them, and which line ending it has. */
  datatype Line = Line(words: string, blanks: string, isWindows: bool)

  predicate AreBlanks(text: string) {
    forall i :: 0 <= i < |text| ==> text[i] == ' ' || text[i] == '\t'
  }

  predicate EndsInBlank(text: string) {
    text != "" && (text[|text| - 1] == ' ' || text[|text| - 1] == '\t')
  }

  /** A return before the newline belongs to the line ending. */
  predicate IsLine(line: Line) {
    && LacksChar(line.words, '\n') && !EndsInBlank(line.words) && AreBlanks(line.blanks)
    && (line.words != "" && line.blanks == "" && line.words[|line.words| - 1] == '\r' ==> line.isWindows)
  }

  predicate AreLines(lines: seq<Line>) {
    forall i :: 0 <= i < |lines| ==> IsLine(lines[i])
  }

  /** The text of the lines as they came. */
  function Written(lines: seq<Line>): string {
    if lines == [] then ""
    else lines[0].words + lines[0].blanks + (if lines[0].isWindows then "\r\n" else "\n") + Written(lines[1..])
  }

  /** The words alone, each line with a plain newline. */
  function Tidy(lines: seq<Line>): string {
    if lines == [] then "" else lines[0].words + "\n" + Tidy(lines[1..])
  }

  function Plain(lines: seq<Line>): string {
    if lines == [] then "" else lines[0].words + lines[0].blanks + "\n" + Plain(lines[1..])
  }

  lemma EndingAt(text: string, at: nat)
    ensures OccursAt(text, "\r\n", at) <==> at + 2 <= |text| && text[at] == '\r' && text[at + 1] == '\n'
  {
    if at + 2 <= |text| {
      assert text[at..at + 2] == [text[at], text[at + 1]];
    }
  }

  lemma NoEndingBefore(front: string, ending: string, rest: string)
    requires LacksChar(front, '\n') && (ending == "\r\n" || ending == "\n")
    requires front != "" && front[|front| - 1] == '\r' ==> ending == "\r\n"
    ensures HasNoneBefore(front + ending + rest, |front|)
  {
    var text := front + ending + rest;
    forall k: nat | k < |front|
      ensures !OccursAt(text, "\r\n", k)
    {
      EndingAt(text, k);
      assert text[k] == front[k] && (k + 1 < |front| ==> text[k + 1] == front[k + 1]);
      assert text[|front|] == ending[0];
    }
  }

  lemma PlainLine(front: string, ending: string, rest: string)
    requires LacksChar(front, '\n') && (ending == "\r\n" || ending == "\n")
    requires front != "" && front[|front| - 1] == '\r' ==> ending == "\r\n"
    ensures PlainNewlines(front + ending + rest) == front + "\n" + PlainNewlines(rest)
  {
    var text := front + ending + rest;
    NoEndingBefore(front, ending, rest);
    PlainNewlinesUpTo(text, |front|);
    assert text[..|front|] == front && text[|front|..] == ending + rest;
    if ending == "\r\n" {
      assert (ending + rest)[0..2] == "\r\n" && (ending + rest)[2..] == rest;
      PlainNewlinesAt(ending + rest);
    } else {
      assert (ending + rest)[1..] == rest;
    }
  }

  lemma BodyHasNoNewline(line: Line)
    requires IsLine(line)
    ensures var body := line.words + line.blanks;
            LacksChar(body, '\n') && (body != "" && body[|body| - 1] == '\r' ==> line.isWindows)
  {
    var body := line.words + line.blanks;
    assert line.blanks != "" ==> body[|body| - 1] == line.blanks[|line.blanks| - 1];
    assert line.blanks == "" ==> body == line.words;
  }

  lemma NoNewlineNoEnding(tail: string)
    requires LacksChar(tail, '\n')
    ensures PlainNewlines(tail) == tail
  {
    forall at: nat
      ensures !OccursAt(tail, "\r\n", at)
    {
      EndingAt(tail, at);
    }
    NothingToReplace(tail);
  }

  lemma Appended(front: string, ending: string, rest: string, tail: string)
    ensures front + ending + rest + tail == front + ending + (rest + tail)
  {
  }

  lemma {:induction false} PlainOf(lines: seq<Line>, tail: string)
    requires AreLines(lines) && LacksChar(tail, '\n')
    ensures PlainNewlines(Written(lines) + tail) == Plain(lines) + tail
  {
    if lines == [] {
      NoNewlineNoEnding(tail);
      assert "" + tail == tail;
    } else {
      var body := lines[0].words + lines[0].blanks;
      var ending := if lines[0].isWindows then "\r\n" else "\n";
      PlainOf(lines[1..], tail);
      BodyHasNoNewline(lines[0]);
      PlainLine(body, ending, Written(lines[1..]) + tail);
      Appended(body, ending, Written(lines[1..]), tail);
      Appended(body, "\n", Plain(lines[1..]), tail);
    }
  }

  lemma {:induction false} BlanksGo(words: string, blanks: string)
    requires !EndsInBlank(words) && AreBlanks(blanks)
    ensures WithoutTrailingBlanks(words + blanks) == words
    decreases |blanks|
  {
    if blanks == "" {
      assert words + blanks == words;
    } else {
      var text, fewer := words + blanks, blanks[..|blanks| - 1];
      assert text[..|text| - 1] == words + fewer && text[|text| - 1] == blanks[|blanks| - 1];
      BlanksGo(words, fewer);
    }
  }

  lemma {:induction false} TidyOf(lines: seq<Line>, tail: string)
    requires AreLines(lines) && LacksChar(tail, '\n')
    ensures WithoutBlanksBeforeNewlines(Plain(lines) + tail) == Tidy(lines) + tail
  {
    if lines == [] {
      KeepsLastLine(tail);
      assert "" + tail == tail;
    } else {
      var body := lines[0].words + lines[0].blanks;
      TidyOf(lines[1..], tail);
      BodyHasNoNewline(lines[0]);
      TrimsLine(body, Plain(lines[1..]) + tail);
      BlanksGo(lines[0].words, lines[0].blanks);
      Appended(body, "\n", Plain(lines[1..]), tail);
      Appended(lines[0].words, "\n", Tidy(lines[1..]), tail);
    }
  }

  lemma NormalizedIsTidied(lines: seq<Line>, tail: string)
    requires AreLines(lines) && LacksChar(tail, '\n')
    ensures Normalized(Written(lines) + tail) == WithOneFinalNewline(Tidy(lines) + tail)
  {
    PlainOf(lines, tail);
    TidyOf(lines, tail);
  }

  /** A text that does not end in a newline keeps every line and its end, and loses only blanks and returns at line ends. */
  lemma OpenTextNormalizes(lines: seq<Line>, tail: string)
    requires AreLines(lines) && tail != "" && LacksChar(tail, '\n')
    ensures Normalized(Written(lines) + tail) == Tidy(lines) + tail
  {
    NormalizedIsTidied(lines, tail);
    var text := Tidy(lines) + tail;
    assert text[|text| - 1] == tail[|tail| - 1];
  }

  /** Lines without words. */
  predicate AreEmpty(lines: seq<Line>) {
    forall i :: 0 <= i < |lines| ==> lines[i].words == ""
  }

  lemma {:induction false} TidyAppends(a: seq<Line>, b: seq<Line>)
    ensures Tidy(a + b) == Tidy(a) + Tidy(b)
  {
    if a == [] {
      assert a + b == b;
    } else {
      assert (a + b)[1..] == a[1..] + b;
      TidyAppends(a[1..], b);
    }
  }

  lemma {:induction false} EmptyLinesCollapse(text: string, lines: seq<Line>)
    requires AreEmpty(lines) && (text == "" || (EndsWithNewline(text) && !EndsInTwoNewlines(text)))
    ensures WithOneFinalNewline(text + Tidy(lines)) == if text == "" && lines != [] then "\n" else text
    decreases |lines|
  {
    if lines == [] {
      assert text + "" == text;
    } else if |lines| == 1 && text == "" {
      assert lines[1..] == [];
      assert Tidy(lines) == lines[0].words + "\n" + "" == "\n";
      assert "" + Tidy(lines) == "\n";
    } else {
      var fewer := lines[..|lines| - 1];
      assert lines == fewer + [lines[|lines| - 1]];
      EmptyLinesCollapse(text, fewer);
      OneEmptyLineMore(text, fewer, lines[|lines| - 1]);
    }
  }

  lemma TidyOneMore(lines: seq<Line>, last: Line)
    ensures Tidy(lines + [last]) == Tidy(lines) + last.words + "\n"
  {
    TidyAppends(lines, [last]);
    assert [last][1..] == [];
    assert Tidy([last]) == last.words + "\n" + "";
  }

  predicate EndsWithNewline(text: string) {
    text != "" && text[|text| - 1] == '\n'
  }

  lemma OneNewlineMore(text: string, longer: string)
    requires EndsWithNewline(text) && EndsWithNewline(longer) && longer[..|longer| - 1] == text
    ensures WithOneFinalNewline(longer) == WithOneFinalNewline(text)
  {
    assert longer[|longer| - 2] == text[|text| - 1];
    assert EndsInTwoNewlines(longer);
  }

  lemma AddsNewline(text: string, middle: string, longer: string)
    requires longer == middle + "" + "\n"
    ensures EndsWithNewline(text + longer) && (text + longer)[..|text + longer| - 1] == text + middle
  {
  }

  lemma EndsInNewline(text: string, lines: seq<Line>)
    requires EndsWithNewline(text) || (text == "" && lines != [])
    ensures EndsWithNewline(text + Tidy(lines))
  {
    if lines == [] {
      assert text + Tidy(lines) == text;
    } else {
      assert lines == lines[..|lines| - 1] + [lines[|lines| - 1]];
      TidyOneMore(lines[..|lines| - 1], lines[|lines| - 1]);
    }
  }

  lemma OneEmptyLineMore(text: string, lines: seq<Line>, last: Line)
    requires last.words == "" && (EndsWithNewline(text) || (text == "" && lines != []))
    ensures WithOneFinalNewline(text + Tidy(lines + [last])) == WithOneFinalNewline(text + Tidy(lines))
  {
    TidyOneMore(lines, last);
    EndsInNewline(text, lines);
    AddsNewline(text, Tidy(lines), Tidy(lines + [last]));
    OneNewlineMore(text + Tidy(lines), text + Tidy(lines + [last]));
  }

  /** What is kept of a text ends in one newline. */
  lemma KeptEnds(front: seq<Line>, last: Line)
    requires IsLine(last) && last.words != ""
    ensures EndsWithNewline(Tidy(front + [last])) && !EndsInTwoNewlines(Tidy(front + [last]))
  {
    TidyOneMore(front, last);
    OneNewlineOnly(Tidy(front), last.words);
  }

  lemma OneNewlineOnly(front: string, words: string)
    requires words != "" && LacksChar(words, '\n')
    ensures EndsWithNewline(front + words + "\n") && !EndsInTwoNewlines(front + words + "\n")
  {
    var text := front + words + "\n";
    assert text[|text| - 2] == words[|words| - 1];
  }

  lemma ClosedIsTidied(lines: seq<Line>, empty: seq<Line>)
    requires AreLines(lines) && AreLines(empty)
    ensures Normalized(Written(lines + empty)) == WithOneFinalNewline(Tidy(lines) + Tidy(empty))
  {
    assert Written(lines + empty) + "" == Written(lines + empty);
    assert Tidy(lines + empty) + "" == Tidy(lines + empty);
    NormalizedIsTidied(lines + empty, "");
    TidyAppends(lines, empty);
  }

  /** A text that ends in a newline keeps its lines up to the last with words, and one newline stands for a text of empty lines. */
  lemma ClosedTextNormalizes(lines: seq<Line>, empty: seq<Line>)
    requires AreLines(lines) && AreLines(empty) && AreEmpty(empty)
    requires lines != [] ==> lines[|lines| - 1].words != ""
    ensures Normalized(Written(lines + empty)) ==
              if lines == [] && empty != [] then "\n" else Tidy(lines)
  {
    ClosedIsTidied(lines, empty);
    if lines != [] {
      assert lines == lines[..|lines| - 1] + [lines[|lines| - 1]];
      KeptEnds(lines[..|lines| - 1], lines[|lines| - 1]);
    }
    EmptyLinesCollapse(Tidy(lines), empty);
  }

  // --- Every text is lines ---

  lemma BlanksAreBehind(body: string) returns (words: string, blanks: string)
    ensures body == words + blanks && !EndsInBlank(words) && AreBlanks(blanks)
    decreases |body|
  {
    if !EndsInBlank(body) {
      words, blanks := body, "";
    } else {
      var last := body[|body| - 1];
      var front, fewer := BlanksAreBehind(body[..|body| - 1]);
      words, blanks := front, fewer + [last];
      assert body == body[..|body| - 1] + [last];
    }
  }

  lemma BodyIsLine(body: string) returns (line: Line)
    requires LacksChar(body, '\n')
    ensures IsLine(line) && Written([line]) == body + "\n"
  {
    var isWindows := body != "" && body[|body| - 1] == '\r';
    var content := if isWindows then body[..|body| - 1] else body;
    var words, blanks := BlanksAreBehind(content);
    line := Line(words, blanks, isWindows);
    assert forall i :: 0 <= i < |words| ==> words[i] == body[i];
    assert blanks == "" ==> words == content;
    assert [line][1..] == [];
    assert Written([line]) == words + blanks + (if isWindows then "\r\n" else "\n") + "";
  }

  /** Every text is terminated lines and a rest without a newline, so the two laws above cover every text. */
  lemma {:induction false} EveryTextIsLines(text: string) returns (lines: seq<Line>, tail: string)
    ensures AreLines(lines) && LacksChar(tail, '\n') && text == Written(lines) + tail
    decreases |text|
  {
    if LacksChar(text, '\n') {
      lines, tail := [], text;
    } else {
      var at := FirstNewline(text);
      var line := BodyIsLine(text[..at]);
      var others, end := EveryTextIsLines(text[at + 1..]);
      lines, tail := [line] + others, end;
      assert lines[1..] == others && [line][1..] == [];
      assert text == text[..at] + "\n" + text[at + 1..];
      assert Written(lines) == Written([line]) + Written(others);
    }
  }

  lemma FirstNewline(text: string) returns (at: nat)
    requires !LacksChar(text, '\n')
    ensures at < |text| && text[at] == '\n' && LacksChar(text[..at], '\n')
  {
    at := 0;
    while text[at] != '\n'
      invariant at < |text| && forall i :: 0 <= i < at ==> text[i] != '\n'
      invariant exists i :: at <= i < |text| && text[i] == '\n'
      decreases |text| - at
    {
      at := at + 1;
    }
  }

  /** A text that ends in newlines has a last line with words, and empty ones behind it, or only empty ones. */
  lemma {:induction false} EmptyLinesAreBehind(all: seq<Line>) returns (lines: seq<Line>, empty: seq<Line>)
    ensures all == lines + empty && AreEmpty(empty) && (lines != [] ==> lines[|lines| - 1].words != "")
    decreases |all|
  {
    if all == [] || all[|all| - 1].words != "" {
      lines, empty := all, [];
    } else {
      var front, fewer := EmptyLinesAreBehind(all[..|all| - 1]);
      lines, empty := front, fewer + [all[|all| - 1]];
      assert all == all[..|all| - 1] + [all[|all| - 1]];
    }
  }
}
