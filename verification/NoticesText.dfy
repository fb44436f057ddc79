// The normalizer of generated notices (xtask/src/notices.rs): Windows line
// endings become newlines, blanks before a newline go, and a run of final
// newlines becomes one.

module NoticesText {
  import opened Wrappers
  import opened TextSearch

  predicate IsBlank(c: char) {
    c == ' ' || c == '\t'
  }

  function WithoutTrailingBlanks(text: string): (trimmed: string)
    ensures trimmed <= text
  {
    if text == [] || !IsBlank(text[|text| - 1]) then text else WithoutTrailingBlanks(text[..|text| - 1])
  }

  function WithoutTrailingNewlines(text: string): (trimmed: string)
    ensures trimmed <= text
  {
    if text == [] || text[|text| - 1] != '\n' then text else WithoutTrailingNewlines(text[..|text| - 1])
  }

  // --- The three steps, character by character ---

  predicate StartsWithNewline(text: string) {
    text != [] && text[0] == '\n'
  }

  /** Newlines for carriage return and newline. */
  function PlainNewlines(text: string): (plain: string)
    ensures |plain| <= |text|
  {
    if text == [] then []
    else if text[0] == '\r' && StartsWithNewline(text[1..]) then PlainNewlines(text[1..])
    else [text[0]] + PlainNewlines(text[1..])
  }

  /** Only blanks stand before the next newline. */
  predicate LeadsToNewline(text: string) {
    text != [] && (text[0] == '\n' || (IsBlank(text[0]) && LeadsToNewline(text[1..])))
  }

  function WithoutBlanksBeforeNewlines(text: string): (trimmed: string)
    ensures |trimmed| <= |text|
  {
    if text == [] then []
    else if IsBlank(text[0]) && LeadsToNewline(text[1..]) then WithoutBlanksBeforeNewlines(text[1..])
    else [text[0]] + WithoutBlanksBeforeNewlines(text[1..])
  }

  predicate EndsInTwoNewlines(text: string) {
    |text| >= 2 && text[|text| - 1] == '\n' && text[|text| - 2] == '\n'
  }

  function WithOneFinalNewline(text: string): (single: string)
    ensures |single| <= |text|
  {
    if EndsInTwoNewlines(text) then WithOneFinalNewline(text[..|text| - 1]) else text
  }

  function Normalized(text: string): string {
    WithOneFinalNewline(WithoutBlanksBeforeNewlines(PlainNewlines(text)))
  }

  // --- The code computes them ---

  lemma LineEndingInFront(text: string)
    ensures OccursAt(text, "\r\n", 0) <==> text != [] && text[0] == '\r' && StartsWithNewline(text[1..])
  {
    if |text| >= 2 {
      assert text[0..2] == [text[0], text[1]];
    }
  }

  lemma OccursLater(text: string, at: nat)
    requires text != []
    ensures OccursAt(text[1..], "\r\n", at) <==> OccursAt(text, "\r\n", at + 1)
  {
    OccursAfter(text, 1, "\r\n", at);
  }

  lemma {:induction false} NothingToReplace(text: string)
    requires forall at: nat :: !OccursAt(text, "\r\n", at)
    ensures PlainNewlines(text) == text
    decreases |text|
  {
    if text != [] {
      LineEndingInFront(text);
      forall at: nat
        ensures !OccursAt(text[1..], "\r\n", at)
      {
        OccursLater(text, at);
      }
      NothingToReplace(text[1..]);
      assert text == [text[0]] + text[1..];
    }
  }

  ghost predicate HasNoneBefore(text: string, at: nat) {
    forall k: nat :: k < at ==> !OccursAt(text, "\r\n", k)
  }

  lemma TailHasNoneBefore(text: string, at: nat)
    requires 0 < at <= |text| && HasNoneBefore(text, at)
    ensures HasNoneBefore(text[1..], at - 1)
    ensures !(text[0] == '\r' && StartsWithNewline(text[1..]))
  {
    LineEndingInFront(text);
    forall k: nat | k < at - 1
      ensures !OccursAt(text[1..], "\r\n", k)
    {
      OccursLater(text, k);
    }
  }

  lemma PrefixInFront(text: string, at: nat)
    requires 0 < at <= |text|
    ensures text[1..][at - 1..] == text[at..] && text[..at] == [text[0]] + text[1..][..at - 1]
  {
  }

  lemma {:induction false} PlainNewlinesUpTo(text: string, at: nat)
    requires at <= |text| && HasNoneBefore(text, at)
    ensures PlainNewlines(text) == text[..at] + PlainNewlines(text[at..])
    decreases at
  {
    if at > 0 {
      TailHasNoneBefore(text, at);
      PlainNewlinesUpTo(text[1..], at - 1);
      PrefixInFront(text, at);
    } else {
      assert text[0..] == text;
    }
  }

  lemma PlainNewlinesAt(text: string)
    requires OccursAt(text, "\r\n", 0)
    ensures PlainNewlines(text) == "\n" + PlainNewlines(text[2..])
  {
    LineEndingInFront(text);
    assert text[1..][1..] == text[2..];
  }

  lemma PlainNewlinesThrough(text: string, at: nat)
    requires OccursAt(text, "\r\n", at) && HasNoneBefore(text, at)
    ensures PlainNewlines(text) == text[..at] + "\n" + PlainNewlines(text[at + 2..])
  {
    PlainNewlinesUpTo(text, at);
    OccursAfter(text, at, "\r\n", 0);
    PlainNewlinesAt(text[at..]);
    assert text[at..][2..] == text[at + 2..];
  }

  lemma {:induction false} PlainNewlinesReplace(text: string)
    ensures ReplaceAll(text, "\r\n", "\n") == PlainNewlines(text)
    decreases |text|
  {
    FindFirstFacts(text, "\r\n");
    var found := FindFirst(text, "\r\n");
    if found.None? {
      NothingToReplace(text);
    } else {
      assert HasNoneBefore(text, found.value);
      PlainNewlinesThrough(text, found.value);
      PlainNewlinesReplace(text[found.value + 2..]);
    }
  }

  lemma {:induction false} BlanksFromFront(c: char, text: string)
    ensures WithoutTrailingBlanks([c] + text) ==
              if WithoutTrailingBlanks(text) == [] && IsBlank(c) then [] else [c] + WithoutTrailingBlanks(text)
    decreases |text|
  {
    var longer := [c] + text;
    if text == [] {
      assert longer[..0] == [];
    } else {
      assert longer[|longer| - 1] == text[|text| - 1];
      assert longer[..|longer| - 1] == [c] + text[..|text| - 1];
      BlanksFromFront(c, text[..|text| - 1]);
    }
  }

  ghost predicate LosesTrailingBlanks(body: string, rest: string) {
    var text := body + "\n" + rest;
    && WithoutBlanksBeforeNewlines(text) == WithoutTrailingBlanks(body) + "\n" + WithoutBlanksBeforeNewlines(rest)
    && (LeadsToNewline(text) <==> WithoutTrailingBlanks(body) == [])
  }

  /** A whole line loses exactly its trailing blanks. */
  lemma {:induction false} TrimsLine(body: string, rest: string)
    requires LacksChar(body, '\n')
    ensures LosesTrailingBlanks(body, rest)
    decreases |body|
  {
    if body == [] {
      TrimsOneCharacter('\n', [] + "\n" + rest, rest);
    } else {
      assert forall i :: 0 <= i < |body[1..]| ==> body[1..][i] == body[i + 1];
      assert body == [body[0]] + body[1..];
      TrimsLine(body[1..], rest);
      LineGrows(body[0], body[1..], rest);
    }
  }

  lemma LineGrows(c: char, tail: string, rest: string)
    requires c != '\n' && LosesTrailingBlanks(tail, rest)
    ensures LosesTrailingBlanks([c] + tail, rest)
  {
    var text := [c] + tail + "\n" + rest;
    assert text[1..] == tail + "\n" + rest;
    TrimsOneCharacter(c, text, tail + "\n" + rest);
    BlanksFromFront(c, tail);
  }

  lemma TrimsOneCharacter(c: char, text: string, tail: string)
    requires text != [] && text[0] == c && text[1..] == tail
    ensures WithoutBlanksBeforeNewlines(text) ==
              (if IsBlank(c) && LeadsToNewline(tail) then [] else [c]) + WithoutBlanksBeforeNewlines(tail)
    ensures LeadsToNewline(text) <==> c == '\n' || (IsBlank(c) && LeadsToNewline(tail))
  {
  }

  lemma {:induction false} KeepsLastLine(text: string)
    requires LacksChar(text, '\n')
    ensures WithoutBlanksBeforeNewlines(text) == text && !LeadsToNewline(text)
    decreases |text|
  {
    if text != [] {
      assert forall i :: 0 <= i < |text[1..]| ==> text[1..][i] == text[i + 1];
      KeepsLastLine(text[1..]);
      assert text == [text[0]] + text[1..];
    }
  }

  lemma TrimsRawLine(raws: seq<string>, i: nat)
    requires AreRawLines(raws) && i < |raws|
    ensures WithoutBlanksBeforeNewlines(Flatten(raws[i..])) ==
              (if EndsLine(raws[i]) then WithoutTrailingBlanks(raws[i][..|raws[i]| - 1]) + "\n" else raws[i])
              + WithoutBlanksBeforeNewlines(Flatten(raws[i + 1..]))
  {
    var raw, rest := raws[i], Flatten(raws[i + 1..]);
    assert raws[i..][0] == raw && raws[i..][1..] == raws[i + 1..];
    assert Flatten(raws[i..]) == raw + rest;
    if EndsLine(raw) {
      assert raw == raw[..|raw| - 1] + "\n";
      TrimsLine(raw[..|raw| - 1], rest);
    } else {
      assert i == |raws| - 1;
      KeepsLastLine(raw);
      assert raw + rest == raw;
    }
  }

  lemma TrimmedNext(trimmed: string, raws: seq<string>, i: nat, goal: string)
    requires AreRawLines(raws) && i < |raws| && trimmed + WithoutBlanksBeforeNewlines(Flatten(raws[i..])) == goal
    ensures EndsLine(raws[i]) ==>
              trimmed + WithoutTrailingBlanks(raws[i][..|raws[i]| - 1]) + "\n" + WithoutBlanksBeforeNewlines(Flatten(raws[i + 1..])) == goal
    ensures !EndsLine(raws[i]) ==> trimmed + raws[i] + WithoutBlanksBeforeNewlines(Flatten(raws[i + 1..])) == goal
  {
    TrimsRawLine(raws, i);
  }

  lemma {:induction false} FinalNewlineKept(text: string)
    ensures WithOneFinalNewline(text) ==
              WithoutTrailingNewlines(text) + (if text != [] && text[|text| - 1] == '\n' then "\n" else "")
    decreases |text|
  {
    if text != [] && text[|text| - 1] == '\n' {
      var front := text[..|text| - 1];
      FinalNewlineKept(front);
      assert text == front + "\n";
    } else {
      assert text + "" == text;
    }
  }

  method NormalizeGeneratedNotices(text: string) returns (normalized: string)
    ensures normalized == Normalized(text)
  {
    var plain := ReplaceAll(text, "\r\n", "\n");
    PlainNewlinesReplace(text);
    var raws := RawLines(plain);
    var trimmed := "";
    ghost var goal := WithoutBlanksBeforeNewlines(plain);
    assert raws[0..] == raws && "" + goal == goal;
    for i := 0 to |raws|
      invariant trimmed + WithoutBlanksBeforeNewlines(Flatten(raws[i..])) == goal
    {
      TrimmedNext(trimmed, raws, i, goal);
      if EndsLine(raws[i]) {
        trimmed := trimmed + WithoutTrailingBlanks(raws[i][..|raws[i]| - 1]);
        trimmed := trimmed + "\n";
      } else {
        trimmed := trimmed + raws[i];
      }
    }
    assert trimmed + "" == trimmed;
    normalized := WithoutTrailingNewlines(trimmed);
    if EndsLine(trimmed) {
      normalized := normalized + "\n";
    }
    FinalNewlineKept(trimmed);
  }

  // --- What normalized text looks like ---

  predicate HasBlankBeforeNewline(text: string) {
    text != [] && ((IsBlank(text[0]) && StartsWithNewline(text[1..])) || HasBlankBeforeNewline(text[1..]))
  }

  predicate HasWindowsLineEnding(text: string) {
    text != [] && ((text[0] == '\r' && StartsWithNewline(text[1..])) || HasWindowsLineEnding(text[1..]))
  }

  /** Some carriage return is not directly followed by a newline. */
  predicate HasLoneReturn(text: string) {
    text != [] && ((text[0] == '\r' && !StartsWithNewline(text[1..])) || HasLoneReturn(text[1..]))
  }

  /** Only blanks stand before the next line ending of either kind. */
  predicate LeadsToLineEnding(text: string) {
    text != [] && (text[0] == '\n' || (text[0] == '\r' && StartsWithNewline(text[1..])) || (IsBlank(text[0]) && LeadsToLineEnding(text[1..])))
  }

  /** Some carriage return that no newline follows is brought next to one when the blanks after it go. */
  predicate StrandsReturn(text: string) {
    text != [] && ((text[0] == '\r' && !StartsWithNewline(text[1..]) && LeadsToLineEnding(text[1..])) || StrandsReturn(text[1..]))
  }

  /** The same for text whose line endings are plain. */
  predicate HasReturnLeadingToNewline(plain: string) {
    plain != [] && ((plain[0] == '\r' && LeadsToNewline(plain[1..])) || HasReturnLeadingToNewline(plain[1..]))
  }

  lemma {:induction false} PlainNewlinesLead(text: string)
    ensures LeadsToNewline(PlainNewlines(text)) <==> LeadsToLineEnding(text)
    ensures HasReturnLeadingToNewline(PlainNewlines(text)) <==> StrandsReturn(text)
    ensures '\r' in PlainNewlines(text) <==> HasLoneReturn(text)
    decreases |text|
  {
    if text != [] {
      var rest := PlainNewlines(text[1..]);
      PlainNewlinesLead(text[1..]);
      if !(text[0] == '\r' && StartsWithNewline(text[1..])) {
        assert PlainNewlines(text)[1..] == rest;
      }
    }
  }

  lemma {:induction false} TrimmingLeads(plain: string)
    ensures StartsWithNewline(WithoutBlanksBeforeNewlines(plain)) <==> LeadsToNewline(plain)
    ensures HasWindowsLineEnding(WithoutBlanksBeforeNewlines(plain)) <==> HasReturnLeadingToNewline(plain)
    ensures !HasBlankBeforeNewline(WithoutBlanksBeforeNewlines(plain))
    ensures '\r' in WithoutBlanksBeforeNewlines(plain) <==> '\r' in plain
    decreases |plain|
  {
    if plain != [] {
      var rest := WithoutBlanksBeforeNewlines(plain[1..]);
      TrimmingLeads(plain[1..]);
      assert plain == [plain[0]] + plain[1..];
      if !(IsBlank(plain[0]) && LeadsToNewline(plain[1..])) {
        assert WithoutBlanksBeforeNewlines(plain)[1..] == rest;
      }
    }
  }

  lemma {:induction false} DroppingLastNewline(text: string)
    requires EndsInTwoNewlines(text)
    ensures var shorter := text[..|text| - 1];
            && (HasWindowsLineEnding(shorter) <==> HasWindowsLineEnding(text))
            && (HasBlankBeforeNewline(shorter) <==> HasBlankBeforeNewline(text))
            && ('\r' in shorter <==> '\r' in text)
    decreases |text|
  {
    var shorter := text[..|text| - 1];
    assert text == shorter + "\n";
    if |text| == 2 {
      assert text == "\n\n" && shorter == "\n";
      assert text[1..] == "\n" && shorter[1..] == "" && text[1..][1..] == "";
    } else {
      assert shorter[1..] == text[1..][..|text| - 2];
      DroppingLastNewline(text[1..]);
    }
  }

  lemma {:induction false} OneFinalNewlineKeeps(text: string)
    ensures var single := WithOneFinalNewline(text);
            && (HasWindowsLineEnding(single) <==> HasWindowsLineEnding(text))
            && (HasBlankBeforeNewline(single) <==> HasBlankBeforeNewline(text))
            && ('\r' in single <==> '\r' in text)
            && !EndsInTwoNewlines(single)
    decreases |text|
  {
    if EndsInTwoNewlines(text) {
      DroppingLastNewline(text);
      OneFinalNewlineKeeps(text[..|text| - 1]);
    }
  }

  /** Whatever it is given, the normalizer leaves no blank before a newline and at most one newline at the end. */
  lemma NormalizedIsTidy(text: string)
    ensures !HasBlankBeforeNewline(Normalized(text)) && !EndsInTwoNewlines(Normalized(text))
  {
    TrimmingLeads(PlainNewlines(text));
    OneFinalNewlineKeeps(WithoutBlanksBeforeNewlines(PlainNewlines(text)));
  }

  /** A carriage return survives exactly when one had no newline right after it. */
  lemma ReturnsSurviveOnlyAlone(text: string)
    ensures '\r' in Normalized(text) <==> HasLoneReturn(text)
  {
    PlainNewlinesLead(text);
    TrimmingLeads(PlainNewlines(text));
    OneFinalNewlineKeeps(WithoutBlanksBeforeNewlines(PlainNewlines(text)));
  }

  // --- Normalizing again ---

  lemma {:induction false} NoLineEndingNoChange(text: string)
    ensures HasWindowsLineEnding(text) <==> |PlainNewlines(text)| < |text|
    ensures !HasWindowsLineEnding(text) ==> PlainNewlines(text) == text
    decreases |text|
  {
    if text != [] {
      NoLineEndingNoChange(text[1..]);
      assert text == [text[0]] + text[1..];
    }
  }

  lemma {:induction false} BlankLeadsToBlankBefore(text: string)
    requires text != [] && IsBlank(text[0]) && LeadsToNewline(text[1..])
    ensures HasBlankBeforeNewline(text)
    decreases |text|
  {
    if text[1] != '\n' {
      BlankLeadsToBlankBefore(text[1..]);
    }
  }

  lemma {:induction false} TidyIsNotTrimmed(text: string)
    requires !HasBlankBeforeNewline(text)
    ensures WithoutBlanksBeforeNewlines(text) == text
    decreases |text|
  {
    if text != [] {
      TidyIsNotTrimmed(text[1..]);
      assert text == [text[0]] + text[1..];
      if IsBlank(text[0]) && LeadsToNewline(text[1..]) {
        BlankLeadsToBlankBefore(text);
      }
    }
  }

  /**
    * Normalizing twice is normalizing once exactly when no stray carriage
    * return is brought next to a newline: then the second pass would take it
    * for a Windows line ending.
    */
  lemma NormalizesOnceUnlessStranded(text: string)
    ensures Normalized(Normalized(text)) == Normalized(text) <==> !StrandsReturn(text)
  {
    var once := Normalized(text);
    PlainNewlinesLead(text);
    TrimmingLeads(PlainNewlines(text));
    OneFinalNewlineKeeps(WithoutBlanksBeforeNewlines(PlainNewlines(text)));
    NormalizedIsTidy(text);
    NormalizedAgain(once);
  }

  /** A text the second pass changes: a carriage return, a blank, and a newline. */
  lemma StrandedReturnChangesTwice()
    ensures StrandsReturn("\r \n")
    ensures Normalized("\r \n") == "\r\n" && Normalized("\r\n") == "\n"
  {
    var stray, blank, newline := "\r \n", " \n", "\n";
    assert stray[1..] == blank && blank[1..] == newline && newline[1..] == "";
    assert WithoutBlanksBeforeNewlines(newline) == newline && PlainNewlines(newline) == newline;
    assert WithoutBlanksBeforeNewlines(blank) == newline && PlainNewlines(blank) == blank;
    assert PlainNewlines(stray) == stray && WithoutBlanksBeforeNewlines(stray) == "\r\n";
    assert "\r\n"[1..] == newline;
  }

  lemma NormalizedAgain(once: string)
    requires !HasBlankBeforeNewline(once) && !EndsInTwoNewlines(once)
    ensures Normalized(once) == once <==> !HasWindowsLineEnding(once)
  {
    NoLineEndingNoChange(once);
    TidyIsNotTrimmed(once);
    assert |Normalized(once)| <= |PlainNewlines(once)|;
  }

  lemma {:induction false} PairedReturnsAreNotStranded(text: string)
    requires !HasLoneReturn(text)
    ensures !StrandsReturn(text)
    decreases |text|
  {
    if text != [] {
      PairedReturnsAreNotStranded(text[1..]);
    }
  }

  /** On text whose carriage returns all belong to line endings, the normalizer does all it promises, once and for all. */
  lemma PairedReturnsNormalizeOnce(text: string)
    requires !HasLoneReturn(text)
    ensures Normalized(Normalized(text)) == Normalized(text)
    ensures '\r' !in Normalized(text)
  {
    PairedReturnsAreNotStranded(text);
    NormalizesOnceUnlessStranded(text);
    ReturnsSurviveOnlyAlone(text);
  }

  // --- The wording ---

  predicate IsSpacing(c: char) {
    IsBlank(c) || c == '\r' || c == '\n'
  }

  /** Everything but blanks and line endings. */
  function Wording(text: string): string {
    if text == [] then [] else (if IsSpacing(text[0]) then [] else [text[0]]) + Wording(text[1..])
  }

  lemma {:induction false} WordingAppends(a: string, b: string)
    ensures Wording(a + b) == Wording(a) + Wording(b)
    decreases |a|
  {
    if a == [] {
      assert a + b == b;
    } else {
      assert (a + b)[1..] == a[1..] + b;
      WordingAppends(a[1..], b);
    }
  }

  lemma {:induction false} PlainNewlinesKeepWording(text: string)
    ensures Wording(PlainNewlines(text)) == Wording(text)
    decreases |text|
  {
    if text != [] {
      PlainNewlinesKeepWording(text[1..]);
      if !(text[0] == '\r' && StartsWithNewline(text[1..])) {
        assert PlainNewlines(text)[1..] == PlainNewlines(text[1..]);
      }
    }
  }

  lemma {:induction false} TrimmingKeepsWording(text: string)
    ensures Wording(WithoutBlanksBeforeNewlines(text)) == Wording(text)
    decreases |text|
  {
    if text != [] {
      TrimmingKeepsWording(text[1..]);
      if !(IsBlank(text[0]) && LeadsToNewline(text[1..])) {
        assert WithoutBlanksBeforeNewlines(text)[1..] == WithoutBlanksBeforeNewlines(text[1..]);
      }
    }
  }

  lemma {:induction false} OneFinalNewlineKeepsWording(text: string)
    ensures Wording(WithOneFinalNewline(text)) == Wording(text)
    decreases |text|
  {
    if EndsInTwoNewlines(text) {
      var shorter := text[..|text| - 1];
      OneFinalNewlineKeepsWording(shorter);
      assert text == shorter + "\n";
      WordingAppends(shorter, "\n");
    }
  }

  /** Only blanks and line endings are ever dropped: the wording is kept. */
  lemma WordingIsKept(text: string)
    ensures Wording(Normalized(text)) == Wording(text)
  {
    PlainNewlinesKeepWording(text);
    TrimmingKeepsWording(PlainNewlines(text));
    OneFinalNewlineKeepsWording(WithoutBlanksBeforeNewlines(PlainNewlines(text)));
  }
}
