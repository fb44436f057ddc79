// What exactly is accepted as a version-only bump (xtask/src/version_only_bump.rs),
// told from the changed paths and from the lines of the four texts.

module VersionBumpRules {
  import opened Wrappers
  import opened TextSearch
  import opened VersionOnlyBump

  // --- The workspace version, from lines ---

  predicate IsHeader(line: string) {
    Trim(line) != "" && Trim(line)[0] == '['
  }

  predicate OpensSection(line: string) {
    Trim(line) == "[workspace.package]"
  }

  /** Line `h` opens and no line between it and `at` is a header. */
  predicate IsOpenFrom(lines: seq<string>, h: nat, at: nat, opens: string -> bool, isHeader: string -> bool)
    requires at <= |lines|
  {
    h < at && opens(lines[h]) && forall i :: h < i < at ==> !isHeader(lines[i])
  }

  ghost predicate IsOpen(lines: seq<string>, at: nat, opens: string -> bool, isHeader: string -> bool)
    requires at <= |lines|
  {
    exists h: nat :: IsOpenFrom(lines, h, at, opens, isHeader)
  }

  /** The nearest table header above the line is that of the workspace package. */
  ghost predicate IsInSection(lines: seq<string>, at: nat)
    requires at <= |lines|
  {
    IsOpen(lines, at, OpensSection, IsHeader)
  }

  predicate GivesVersion(line: string) {
    |Trim(line)| >= 11 && Trim(line)[..11] == "version = \""
  }

  /** The line gives the version, and no line before it in such a section gives one. */
  ghost predicate IsWorkspaceVersionAt(lines: seq<string>, at: nat, version: string)
    requires at < |lines|
  {
    && Trim(lines[at]) == "version = \"" + version + "\""
    && IsInSection(lines, at)
    && forall i :: 0 <= i < at ==> !(GivesVersion(lines[i]) && IsInSection(lines, i))
  }

  lemma HeaderMeans(line: string)
    ensures IsHeader(line) <==> IsTableHeader(line)
  {
    var trimmed := Trim(line);
    if trimmed != "" {
      assert trimmed[..1] == [trimmed[0]];
    }
  }

  lemma GivesMeans(line: string)
    ensures GivesVersion(line) <==> StartsWith(Trim(line), VERSION_PREFIX)
    ensures GivesVersion(line) ==> !IsHeader(line)
  {
    assert VERSION_PREFIX == "version = \"" && |VERSION_PREFIX| == 11;
    if GivesVersion(line) {
      assert Trim(line)[..11][0] == 'v';
    }
  }

  lemma {:induction false} SectionMeans(lines: seq<string>, at: nat)
    requires at <= |lines|
    ensures IsInSection(lines, at) <==> IsInWorkspacePackage(lines, at)
    decreases at
  {
    if at > 0 {
      SectionMeans(lines, at - 1);
      HeaderMeans(lines[at - 1]);
      SectionSteps(lines, at);
    }
  }

  /** What opens is a header, so each line opens, closes or keeps the section. */
  lemma OpenSteps(lines: seq<string>, at: nat, opens: string -> bool, isHeader: string -> bool)
    requires 0 < at <= |lines| && (forall i :: 0 <= i < |lines| && opens(lines[i]) ==> isHeader(lines[i]))
    ensures IsOpen(lines, at, opens, isHeader) <==>
              if isHeader(lines[at - 1]) then opens(lines[at - 1]) else IsOpen(lines, at - 1, opens, isHeader)
  {
    if h: nat :| IsOpenFrom(lines, h, at, opens, isHeader) {
      assert h < at - 1 ==> IsOpenFrom(lines, h, at - 1, opens, isHeader);
    }
    if opens(lines[at - 1]) {
      assert IsOpenFrom(lines, at - 1, at, opens, isHeader);
    }
    if IsOpen(lines, at - 1, opens, isHeader) {
      var before := at - 1;
      var h: nat :| IsOpenFrom(lines, h, before, opens, isHeader);
      assert !isHeader(lines[at - 1]) ==> IsOpenFrom(lines, h, at, opens, isHeader);
    }
  }

  lemma OpeningIsHeader(line: string)
    requires OpensSection(line)
    ensures IsHeader(line)
  {
    assert "[workspace.package]"[0] == '[';
  }

  lemma SectionSteps(lines: seq<string>, at: nat)
    requires 0 < at <= |lines|
    ensures IsInSection(lines, at) <==>
              if IsHeader(lines[at - 1]) then OpensSection(lines[at - 1]) else IsInSection(lines, at - 1)
  {
    forall i | 0 <= i < |lines| && OpensSection(lines[i])
      ensures IsHeader(lines[i])
    {
      OpeningIsHeader(lines[i]);
    }
    OpenSteps(lines, at, OpensSection, IsHeader);
  }

  lemma VersionLineMeans(lines: seq<string>, i: nat)
    requires i < |lines|
    ensures IsVersionLine(lines, i) <==> GivesVersion(lines[i]) && IsInSection(lines, i)
  {
    SectionMeans(lines, i);
    HeaderMeans(lines[i]);
    GivesMeans(lines[i]);
  }

  lemma QuotedMeans(line: string, version: string)
    requires StartsWith(Trim(line), VERSION_PREFIX)
    ensures QuotedVersion(line) == Some(version) <==> Trim(line) == "version = \"" + version + "\""
  {
    assert |VERSION_PREFIX| == 11;
    QuotedText(VERSION_PREFIX, Trim(line), version);
  }

  lemma QuotedText(prefix: string, text: string, version: string)
    requires StartsWith(text, prefix)
    ensures var quoted := text[|prefix|..];
            quoted != [] && quoted[|quoted| - 1] == '\"' && quoted[..|quoted| - 1] == version <==> text == prefix + version + "\""
  {
    var quoted := text[|prefix|..];
    assert text == prefix + quoted;
    if quoted != [] && quoted[|quoted| - 1] == '\"' {
      assert quoted == quoted[..|quoted| - 1] + "\"";
    }
    if text == prefix + version + "\"" {
      assert text == prefix + (version + "\"") && quoted == version + "\"";
    }
  }

  lemma {:induction false} FirstVersionIs(lines: seq<string>, from: nat, at: nat)
    requires from <= at < |lines| && IsVersionLine(lines, at) && forall i :: from <= i < at ==> !IsVersionLine(lines, i)
    ensures FirstVersionLine(lines, from) == Some(at)
  {
    FirstIsFirst(lines, from, at);
  }

  /** The version of a manifest is the one its first version line in the workspace section gives. */
  lemma WorkspaceVersionMeans(manifest: string, version: string)
    ensures WorkspaceVersion(manifest) == Some(version) <==>
              exists at :: 0 <= at < |Lines(manifest)| && IsWorkspaceVersionAt(Lines(manifest), at, version)
  {
    var lines := Lines(manifest);
    if at :| 0 <= at < |lines| && IsWorkspaceVersionAt(lines, at, version) {
      VersionAtIsFirst(lines, at, version);
    }
    if WorkspaceVersion(manifest) == Some(version) {
      var at := FirstVersionLine(lines, 0).value;
      FirstIsVersionAt(lines, at, version);
    }
  }

  lemma VersionAtIsFirst(lines: seq<string>, at: nat, version: string)
    requires at < |lines| && IsWorkspaceVersionAt(lines, at, version)
    ensures FirstVersionLine(lines, 0) == Some(at) && QuotedVersion(lines[at]) == Some(version)
  {
    var text := "version = \"" + version + "\"";
    assert text[..11] == "version = \"";
    VersionLineMeans(lines, at);
    forall i | 0 <= i < at
      ensures !IsVersionLine(lines, i)
    {
      VersionLineMeans(lines, i);
    }
    FirstVersionIs(lines, 0, at);
    QuotedMeans(lines[at], version);
  }

  lemma FirstIsVersionAt(lines: seq<string>, at: nat, version: string)
    requires FirstVersionLine(lines, 0) == Some(at) && QuotedVersion(lines[at]) == Some(version)
    ensures IsWorkspaceVersionAt(lines, at, version)
  {
    VersionLineMeans(lines, at);
    QuotedMeans(lines[at], version);
    forall i | 0 <= i < at
      ensures !(GivesVersion(lines[i]) && IsInSection(lines, i))
    {
      VersionLineMeans(lines, i);
    }
  }

  // --- The manifest ---

  function VersionText(version: string): string {
    "version = \"" + version + "\""
  }

  /** The text stands somewhere, and nowhere apart from there. */
  ghost predicate StandsOnce(text: string, part: string) {
    exists first: nat :: OccursAt(text, part, first) && forall at: nat :: OccursAt(text, part, at) ==> first <= at < first + |part|
  }

  /** The head is the base with its workspace version line rewritten to the new version, between the same spaces. */
  ghost predicate IsRewritten(base: string, head: string, at: nat, oldVersion: string, newVersion: string)
    requires at < |Lines(base)|
  {
    exists lead, trail :: IsRewrittenBetween(base, head, at, oldVersion, newVersion, lead, trail)
  }

  ghost predicate IsRewrittenBetween(base: string, head: string, at: nat, oldVersion: string, newVersion: string, lead: string, trail: string)
    requires at < |Lines(base)|
  {
    && Lines(base)[at] == lead + VersionText(oldVersion) + trail
    && AreSpaces(lead) && AreSpaces(trail)
    && head == ReplaceLine(base, at, lead + VersionText(newVersion) + trail)
  }

  predicate AreSpaces(text: string) {
    forall i :: 0 <= i < |text| ==> IsWhitespace(text[i])
  }

  ghost predicate IsManifestBump(base: string, head: string, oldVersion: string, newVersion: string) {
    && oldVersion != newVersion && '\n' !in newVersion
    && StandsOnce(base, VersionText(oldVersion))
    && exists at :: 0 <= at < |Lines(base)| && IsWorkspaceVersionAt(Lines(base), at, oldVersion)
                    && IsRewritten(base, head, at, oldVersion, newVersion)
  }

  lemma CountOneMeans(text: string, part: string)
    requires part != []
    ensures CountMatches(text, part) == 1 <==> StandsOnce(text, part)
  {
    FindFirstFacts(text, part);
    if CountMatches(text, part) == 1 {
      AllMatchesMeetTheFirst(text, part);
    }
    if StandsOnce(text, part) {
      OnceIsCounted(text, part);
    }
  }

  lemma OnceIsFirst(text: string, part: string)
    requires part != [] && StandsOnce(text, part)
    ensures FindFirst(text, part).Some?
    ensures forall at: nat :: OccursAt(text, part, at) ==> FindFirst(text, part).value <= at < FindFirst(text, part).value + |part|
  {
    var first: nat :| OccursAt(text, part, first) && forall at: nat :: OccursAt(text, part, at) ==> first <= at < first + |part|;
    FindFirstFacts(text, part);
    assert FindFirst(text, part).value == first;
  }

  lemma OnceIsCounted(text: string, part: string)
    requires part != [] && StandsOnce(text, part)
    ensures CountMatches(text, part) == 1
    ensures FindFirst(text, part).Some?
    ensures forall at: nat :: OccursAt(text, part, at) ==> FindFirst(text, part).value <= at < FindFirst(text, part).value + |part|
  {
    OnceIsFirst(text, part);
    var skip := FindFirst(text, part).value + |part|;
    NothingBehind(text, part, skip);
    CountsOne(text, part, text[skip..]);
  }

  lemma NothingBehind(text: string, part: string, skip: nat)
    requires skip <= |text| && forall at: nat :: OccursAt(text, part, at) ==> at < skip
    ensures FindFirst(text[skip..], part).None?
  {
    var rest := text[skip..];
    FindFirstFacts(rest, part);
    forall at: nat
      ensures !OccursAt(rest, part, at)
    {
      OccursAfter(text, skip, part, at);
    }
  }

  lemma CountsOne(text: string, part: string, rest: string)
    requires part != [] && FindFirst(text, part).Some? && rest == text[FindFirst(text, part).value + |part|..]
    requires FindFirst(rest, part).None?
    ensures CountMatches(text, part) == 1
  {
  }

  lemma VersionTextIsLine(version: string)
    ensures VersionText(version) == VersionLineText(version) && VersionText(version) != []
    ensures !IsWhitespace(VersionText(version)[0]) && !IsWhitespace(VersionText(version)[|VersionText(version)| - 1])
    ensures VersionText(version)[|VersionText(version)| - 1] == '\"'
    ensures '\n' !in version <==> LacksChar(VersionText(version), '\n')
  {
    var text := VersionText(version);
    VersionTextFacts(version);
    assert VERSION_PREFIX == "version = \"";
    assert text[11..11 + |version|] == version;
    if LacksChar(text, '\n') {
      assert forall i :: 0 <= i < |version| ==> version[i] == text[11 + i];
    }
    if '\n' !in version {
      assert forall i :: 0 <= i < |text| ==> text[i] == if i < 11 then "version = \""[i] else if i < 11 + |version| then version[i - 11] else '\"';
    }
  }

  /** Where the version line stands, its rewriting is the replacement of the first match. */
  lemma RewriteIsReplace(base: string, at: nat, lead: string, oldVersion: string, newVersion: string, trail: string)
    requires at < |Lines(base)| && Lines(base)[at] == lead + VersionText(oldVersion) + trail
    requires AreSpaces(lead) && AreSpaces(trail)
    requires StandsOnce(base, VersionText(oldVersion)) && LacksChar(VersionText(oldVersion), '\n')
    ensures ReplaceFirst(base, VersionText(oldVersion), VersionText(newVersion)) ==
              ReplaceLine(base, at, lead + VersionText(newVersion) + trail)
  {
    var oldText, newText := VersionText(oldVersion), VersionText(newVersion);
    VersionTextIsLine(oldVersion);
    TrimReadsBack(lead, oldText, trail);
    LeadingIsLead(lead, oldText + trail);
    PartsRegroup(lead, oldText, trail);
    OnceIsCounted(base, oldText);
    FindFirstFacts(base, oldText);
    OnlyMatchIsTheWorkspaceLine(base, at, oldText, FindFirst(base, oldText).value);
    SpliceIsReplacedLine(base, at, lead, oldText, newText, trail, LineOffset(base, at) + |lead|);
    ReplaceFirstIsSplice(base, oldText, newText);
  }

  /** The spaces around what trimming leaves of a line. */
  lemma SpacesAround(line: string) returns (lead: string, trail: string)
    ensures line == lead + Trim(line) + trail
    ensures AreSpaces(lead) && AreSpaces(trail)
  {
    var length := LeadingWhitespace(line);
    lead, trail := line[..length], line[length + |Trim(line)|..];
    TrailIsSpace(line);
    SpaceFrom(line, length + |Trim(line)|);
    AroundMatch(line, Trim(line), length);
  }

  lemma AroundMatch(text: string, part: string, at: nat)
    requires OccursAt(text, part, at)
    ensures text == text[..at] + part + text[at + |part|..]
  {
  }

  lemma ReplacedIsRewritten(base: string, head: string, at: nat, oldVersion: string, newVersion: string)
    requires at < |Lines(base)| && Trim(Lines(base)[at]) == VersionText(oldVersion)
    requires StandsOnce(base, VersionText(oldVersion)) && LacksChar(VersionText(oldVersion), '\n')
    requires ReplaceFirst(base, VersionText(oldVersion), VersionText(newVersion)) == head
    ensures IsRewritten(base, head, at, oldVersion, newVersion)
  {
    var lead, trail := SpacesAround(Lines(base)[at]);
    RewriteIsReplace(base, at, lead, oldVersion, newVersion, trail);
    assert IsRewrittenBetween(base, head, at, oldVersion, newVersion, lead, trail);
  }

  lemma OneLineVersion(manifest: string, version: string)
    requires WorkspaceVersion(manifest) == Some(version)
    ensures '\n' !in version && LacksChar(VersionText(version), '\n')
  {
    WorkspaceVersionIsOnOneLine(manifest);
    VersionTextIsLine(version);
  }

  lemma AcceptedManifestIsBump(base: string, head: string, oldVersion: string, newVersion: string)
    requires WorkspaceVersion(base) == Some(oldVersion) && WorkspaceVersion(head) == Some(newVersion) && oldVersion != newVersion
    requires ManifestDiffersOnlyInWorkspaceVersion(base, head, oldVersion, newVersion)
    ensures IsManifestBump(base, head, oldVersion, newVersion)
  {
    OneLineVersion(base, oldVersion);
    OneLineVersion(head, newVersion);
    VersionTextIsLine(oldVersion);
    VersionTextIsLine(newVersion);
    CountOneMeans(base, VersionText(oldVersion));
    WorkspaceVersionMeans(base, oldVersion);
    var at :| 0 <= at < |Lines(base)| && IsWorkspaceVersionAt(Lines(base), at, oldVersion);
    ReplacedIsRewritten(base, head, at, oldVersion, newVersion);
  }

  lemma RewrittenLines(base: string, head: string, at: nat, lead: string, oldVersion: string, newVersion: string, trail: string)
    requires at < |Lines(base)| && '\n' !in newVersion
    requires Lines(base)[at] == lead + VersionText(oldVersion) + trail
    requires head == ReplaceLine(base, at, lead + VersionText(newVersion) + trail)
    ensures Lines(head) == Lines(base)[at := lead + VersionText(newVersion) + trail]
  {
    var oldText, newText := VersionText(oldVersion), VersionText(newVersion);
    VersionTextIsLine(newVersion);
    SpliceIsReplacedLine(base, at, lead, oldText, newText, trail, LineOffset(base, at) + |lead|);
    EditInsideLine(base, at, lead, oldText, newText, trail, LineOffset(base, at) + |lead|);
  }

  /** The rewritten line gives the new version. */
  lemma RewrittenGives(lines: seq<string>, at: nat, lead: string, oldVersion: string, newVersion: string, trail: string)
    requires at < |lines| && IsWorkspaceVersionAt(lines, at, oldVersion)
    requires AreSpaces(lead) && AreSpaces(trail)
    ensures var rewritten := lead + VersionText(newVersion) + trail;
            FirstVersionLine(lines[at := rewritten], 0) == Some(at) && QuotedVersion(rewritten) == Some(newVersion)
  {
    var newText := VersionText(newVersion);
    var rewritten := lead + newText + trail;
    VersionTextIsLine(newVersion);
    TrimReadsBack(lead, newText, trail);
    PartsRegroup(lead, newText, trail);
    VersionTextFacts(newVersion);
    VersionAtIsFirst(lines, at, oldVersion);
    VersionLineStays(lines, at, rewritten);
    QuotedMeans(rewritten, newVersion);
  }

  lemma RewrittenVersion(base: string, head: string, at: nat, lead: string, oldVersion: string, newVersion: string, trail: string)
    requires at < |Lines(base)| && IsWorkspaceVersionAt(Lines(base), at, oldVersion) && '\n' !in newVersion
    requires Lines(base)[at] == lead + VersionText(oldVersion) + trail
    requires AreSpaces(lead) && AreSpaces(trail)
    requires head == ReplaceLine(base, at, lead + VersionText(newVersion) + trail)
    ensures WorkspaceVersion(head) == Some(newVersion)
  {
    RewrittenLines(base, head, at, lead, oldVersion, newVersion, trail);
    RewrittenGives(Lines(base), at, lead, oldVersion, newVersion, trail);
  }

  lemma RewrittenIsAccepted(base: string, head: string, at: nat, oldVersion: string, newVersion: string)
    requires StandsOnce(base, VersionText(oldVersion)) && LacksChar(VersionText(oldVersion), '\n') && '\n' !in newVersion
    requires at < |Lines(base)| && IsWorkspaceVersionAt(Lines(base), at, oldVersion)
    requires IsRewritten(base, head, at, oldVersion, newVersion)
    ensures WorkspaceVersion(head) == Some(newVersion)
    ensures ReplaceFirst(base, VersionText(oldVersion), VersionText(newVersion)) == head
  {
    var lead, trail :| IsRewrittenBetween(base, head, at, oldVersion, newVersion, lead, trail);
    RewriteIsReplace(base, at, lead, oldVersion, newVersion, trail);
    RewrittenVersion(base, head, at, lead, oldVersion, newVersion, trail);
  }

  lemma BumpManifestIsAccepted(base: string, head: string, oldVersion: string, newVersion: string)
    requires IsManifestBump(base, head, oldVersion, newVersion)
    ensures WorkspaceVersion(base) == Some(oldVersion) && WorkspaceVersion(head) == Some(newVersion)
    ensures ManifestDiffersOnlyInWorkspaceVersion(base, head, oldVersion, newVersion)
  {
    var at :| 0 <= at < |Lines(base)| && IsWorkspaceVersionAt(Lines(base), at, oldVersion)
              && IsRewritten(base, head, at, oldVersion, newVersion);
    WorkspaceVersionMeans(base, oldVersion);
    OneLineVersion(base, oldVersion);
    VersionTextIsLine(oldVersion);
    VersionTextIsLine(newVersion);
    CountOneMeans(base, VersionText(oldVersion));
    RewrittenIsAccepted(base, head, at, oldVersion, newVersion);
  }

  // --- The lockfile ---

  /** A line after the first starts with the text. */
  ghost predicate SomeLineStarts(text: string, start: string) {
    exists line :: 0 < line < |Lines(text)| && StartsWith(Lines(text)[line], start)
  }

  ghost predicate IsFirstStart(text: string, line: nat, start: string) {
    && 0 < line < |Lines(text)| && StartsWith(Lines(text)[line], start)
    && forall i :: 0 < i < line ==> !StartsWith(Lines(text)[i], start)
  }

  /** A lockfile package is as it was; or it names no source, and its first line with the old version has the new one. */
  ghost predicate IsPackageBump(base: string, head: string, oldVersion: string, newVersion: string) {
    || base == head
    || (!SomeLineStarts(base, "source = ") &&
        exists line: nat :: IsFirstStart(base, line, VersionText(oldVersion))
          && head == ReplaceLine(base, line, VersionText(newVersion) + Lines(base)[line][|VersionText(oldVersion)|..]))
  }

  predicate IsLineText(text: string) {
    text != [] && LacksChar(text, '\n') && text[|text| - 1] != '\r'
  }

  /** A line starts wherever a newline and its text stand. */
  lemma LineOfMatch(text: string, start: string, at: nat) returns (line: nat)
    requires IsLineText(start) && OccursAt(text, "\n" + start, at)
    ensures 0 < line < |Lines(text)| && LineOffset(text, line) == at + 1 && StartsWith(Lines(text)[line], start)
  {
    SpliceBehindNewline(text, at, start, start);
    line := LineStartsAfterNewline(text, at);
    MatchStaysInLine(text, line, start);
  }

  lemma ContainsMeans(text: string, start: string)
    requires IsLineText(start)
    ensures Contains(text, "\n" + start) <==> SomeLineStarts(text, start)
  {
    if at: nat :| OccursAt(text, "\n" + start, at) {
      var line := LineOfMatch(text, start, at);
    }
    if line :| 0 < line < |Lines(text)| && StartsWith(Lines(text)[line], start) {
      LineStartIsMatch(text, line, start);
    }
  }

  /** The first match of a newline and a text is where the first line with that start begins. */
  lemma FirstMatchIsFirstLine(text: string, start: string, line: nat)
    requires IsLineText(start) && IsFirstStart(text, line, start)
    ensures LineOffset(text, line) > 0 && FindFirst(text, "\n" + start) == Some(LineOffset(text, line) - 1)
  {
    LineStartIsMatch(text, line, start);
    FindFirstFacts(text, "\n" + start);
    var found := FindFirst(text, "\n" + start).value;
    var other := LineOfMatch(text, start, found);
    if other > line {
      OffsetsGrow(text, line, other);
    }
  }

  lemma {:induction false} FirstStartExists(text: string, start: string, bound: nat) returns (line: nat)
    requires 0 < bound < |Lines(text)| && StartsWith(Lines(text)[bound], start)
    ensures IsFirstStart(text, line, start)
    decreases bound
  {
    if i :| 0 < i < bound && StartsWith(Lines(text)[i], start) {
      line := FirstStartExists(text, start, i);
    } else {
      line := bound;
    }
  }

  lemma ReplacedFirstLine(base: string, line: nat, oldText: string, newText: string)
    requires IsLineText(oldText) && IsFirstStart(base, line, oldText)
    ensures ReplaceFirst(base, "\n" + oldText, "\n" + newText) == ReplaceLine(base, line, newText + Lines(base)[line][|oldText|..])
  {
    var at, trail := LineOffset(base, line), Lines(base)[line][|oldText|..];
    FirstMatchIsFirstLine(base, oldText, line);
    FindFirstFacts(base, "\n" + oldText);
    SpliceBehindNewline(base, at - 1, oldText, newText);
    assert Lines(base)[line] == [] + oldText + trail && [] + newText + trail == newText + trail;
    SpliceIsReplacedLine(base, line, [], oldText, newText, trail, at);
    ReplaceFirstIsSplice(base, "\n" + oldText, "\n" + newText);
  }

  lemma NoStartNoMatch(base: string, oldText: string, newText: string)
    requires IsLineText(oldText) && !SomeLineStarts(base, oldText)
    ensures ReplaceFirst(base, "\n" + oldText, "\n" + newText) == base
  {
    ContainsMeans(base, oldText);
    FindFirstFacts(base, "\n" + oldText);
  }

  lemma PackageBumpMeans(base: string, head: string, oldVersion: string, newVersion: string)
    requires IsLineText(VersionText(oldVersion))
    ensures IsBumpedPackage(base, head, oldVersion, newVersion) <==> IsPackageBump(base, head, oldVersion, newVersion)
  {
    var oldText, newText := VersionText(oldVersion), VersionText(newVersion);
    VersionTextIsLine(oldVersion);
    VersionTextIsLine(newVersion);
    NoSourceMeans(base);
    if SomeLineStarts(base, oldText) {
      var some :| 0 < some < |Lines(base)| && StartsWith(Lines(base)[some], oldText);
      var line := FirstStartExists(base, oldText, some);
      ReplacedFirstLine(base, line, oldText, newText);
      FirstStartIsOne(base, oldText, line);
    } else {
      NoStartNoMatch(base, oldText, newText);
    }
  }

  lemma NoSourceMeans(base: string)
    ensures FindFirst(base, SOURCE_LINE).None? <==> !SomeLineStarts(base, "source = ")
  {
    assert SOURCE_LINE == "\n" + "source = " && IsLineText("source = ");
    FindFirstFacts(base, SOURCE_LINE);
    ContainsMeans(base, "source = ");
  }

  lemma FirstStartIsOne(text: string, start: string, line: nat)
    requires IsFirstStart(text, line, start)
    ensures forall other: nat :: IsFirstStart(text, other, start) ==> other == line
  {
  }

  // --- The verdict ---

  ghost predicate IsLockfileBump(base: string, head: string, oldVersion: string, newVersion: string) {
    var basePackages := SplitOn(base, "\n[[package]]\n");
    var headPackages := SplitOn(head, "\n[[package]]\n");
    && |headPackages| == |basePackages|
    && forall i :: 0 <= i < |basePackages| ==> IsPackageBump(basePackages[i], headPackages[i], oldVersion, newVersion)
  }

  ghost predicate AreBumpPaths(changedPaths: seq<string>) {
    && "Cargo.toml" in changedPaths && "Cargo.lock" in changedPaths
    && forall path :: path in changedPaths ==> path in ["Cargo.toml", "Cargo.lock", "third-party/RUST_DEPENDENCY_NOTICES.digest"]
  }

  ghost predicate IsBump(texts: VersionBumpTexts, oldVersion: string, newVersion: string) {
    && IsManifestBump(texts.baseManifest, texts.headManifest, oldVersion, newVersion)
    && IsLockfileBump(texts.baseLockfile, texts.headLockfile, oldVersion, newVersion)
  }

  lemma PathsMean(changedPaths: seq<string>)
    ensures AreBumpPaths(changedPaths) <==> ChangesOnlyVersionBumpPaths(changedPaths)
  {
  }

  lemma AcceptedIsBump(texts: VersionBumpTexts, oldVersion: string, newVersion: string)
    requires WorkspaceVersion(texts.baseManifest) == Some(oldVersion) && WorkspaceVersion(texts.headManifest) == Some(newVersion)
    requires oldVersion != newVersion
    requires ManifestDiffersOnlyInWorkspaceVersion(texts.baseManifest, texts.headManifest, oldVersion, newVersion)
    requires LockfileDiffersOnlyInWorkspaceVersions(texts.baseLockfile, texts.headLockfile, oldVersion, newVersion)
    ensures IsBump(texts, oldVersion, newVersion)
  {
    AcceptedManifestIsBump(texts.baseManifest, texts.headManifest, oldVersion, newVersion);
    OneLineVersion(texts.baseManifest, oldVersion);
    LockfileBumpMeans(texts.baseLockfile, texts.headLockfile, oldVersion, newVersion);
  }

  lemma BumpIsAccepted(texts: VersionBumpTexts, oldVersion: string, newVersion: string)
    requires IsBump(texts, oldVersion, newVersion)
    ensures WorkspaceVersion(texts.baseManifest) == Some(oldVersion) && WorkspaceVersion(texts.headManifest) == Some(newVersion)
    ensures oldVersion != newVersion
    ensures ManifestDiffersOnlyInWorkspaceVersion(texts.baseManifest, texts.headManifest, oldVersion, newVersion)
    ensures LockfileDiffersOnlyInWorkspaceVersions(texts.baseLockfile, texts.headLockfile, oldVersion, newVersion)
  {
    BumpManifestIsAccepted(texts.baseManifest, texts.headManifest, oldVersion, newVersion);
    OneLineVersion(texts.baseManifest, oldVersion);
    LockfileBumpMeans(texts.baseLockfile, texts.headLockfile, oldVersion, newVersion);
  }

  /** A change is accepted as a version-only bump exactly when it is one, line by line. */
  lemma BumpIsAcceptedExactly(changedPaths: seq<string>, texts: VersionBumpTexts)
    ensures IsVersionOnlyBump(changedPaths, texts) <==>
              AreBumpPaths(changedPaths) && exists oldVersion, newVersion :: IsBump(texts, oldVersion, newVersion)
  {
    PathsMean(changedPaths);
    if IsVersionOnlyBump(changedPaths, texts) {
      AcceptedIsBump(texts, WorkspaceVersion(texts.baseManifest).value, WorkspaceVersion(texts.headManifest).value);
    }
    if oldVersion, newVersion :| IsBump(texts, oldVersion, newVersion) {
      BumpIsAccepted(texts, oldVersion, newVersion);
    }
  }

  lemma LockfileBumpMeans(base: string, head: string, oldVersion: string, newVersion: string)
    requires LacksChar(VersionText(oldVersion), '\n')
    ensures LockfileDiffersOnlyInWorkspaceVersions(base, head, oldVersion, newVersion) <==>
              IsLockfileBump(base, head, oldVersion, newVersion)
  {
    var basePackages, headPackages := SplitOn(base, "\n[[package]]\n"), SplitOn(head, "\n[[package]]\n");
    VersionTextIsLine(oldVersion);
    if |basePackages| == |headPackages| {
      forall i | 0 <= i < |basePackages|
        ensures IsBumpedPackage(basePackages[i], headPackages[i], oldVersion, newVersion) <==>
                  IsPackageBump(basePackages[i], headPackages[i], oldVersion, newVersion)
      {
        PackageBumpMeans(basePackages[i], headPackages[i], oldVersion, newVersion);
      }
    }
  }
}
