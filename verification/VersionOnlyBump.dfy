// The proof that a change is only a workspace version bump
// (xtask/src/version_only_bump.rs), and what an accepted bump can have changed.

module VersionOnlyBump {
  import opened Wrappers
  import opened TextSearch

  const WORKSPACE_MANIFEST_PATH := "Cargo.toml"
  const LOCKFILE_PATH := "Cargo.lock"
  const NOTICES_DIGEST_PATH := "third-party/RUST_DEPENDENCY_NOTICES.digest"
  const WORKSPACE_PACKAGE_HEADER := "[workspace.package]"
  const LOCKFILE_PACKAGE_SEPARATOR := "\n[[package]]\n"
  const VERSION_PREFIX := "version = \""
  const SOURCE_LINE := "\nsource = "

  datatype VersionBumpTexts =
    VersionBumpTexts(baseManifest: string, headManifest: string, baseLockfile: string, headLockfile: string)

  // --- Changed paths ---

  predicate ChangesOnlyVersionBumpPaths(changedPaths: seq<string>) {
    && (forall path :: path in changedPaths ==>
          path == WORKSPACE_MANIFEST_PATH || path == LOCKFILE_PATH || path == NOTICES_DIGEST_PATH)
    && WORKSPACE_MANIFEST_PATH in changedPaths
    && LOCKFILE_PATH in changedPaths
  }

  method ScanVersionBumpPaths(changedPaths: seq<string>) returns (only: bool)
    ensures only == ChangesOnlyVersionBumpPaths(changedPaths)
  {
    var manifestChanged, lockfileChanged := false, false;
    var i := 0;
    while i < |changedPaths|
      invariant 0 <= i <= |changedPaths|
      invariant forall path :: path in changedPaths[..i] ==>
                  path == WORKSPACE_MANIFEST_PATH || path == LOCKFILE_PATH || path == NOTICES_DIGEST_PATH
      invariant manifestChanged <==> WORKSPACE_MANIFEST_PATH in changedPaths[..i]
      invariant lockfileChanged <==> LOCKFILE_PATH in changedPaths[..i]
    {
      var path := changedPaths[i];
      assert changedPaths[..i + 1] == changedPaths[..i] + [path];
      if path == WORKSPACE_MANIFEST_PATH {
        manifestChanged := true;
      } else if path == LOCKFILE_PATH {
        lockfileChanged := true;
      } else if path != NOTICES_DIGEST_PATH {
        assert path in changedPaths;
        return false;
      }
      i := i + 1;
    }
    assert changedPaths[..|changedPaths|] == changedPaths;
    return manifestChanged && lockfileChanged;
  }

  // --- The workspace version ---

  predicate IsTableHeader(line: string) {
    StartsWith(Trim(line), "[")
  }

  /** The last table header above line `at` is `[workspace.package]`. */
  predicate IsInWorkspacePackage(lines: seq<string>, at: nat)
    requires at <= |lines|
  {
    at > 0 && if IsTableHeader(lines[at - 1]) then Trim(lines[at - 1]) == WORKSPACE_PACKAGE_HEADER
              else IsInWorkspacePackage(lines, at - 1)
  }

  /** A `version = "` line of the workspace table. */
  predicate IsVersionLine(lines: seq<string>, at: nat)
    requires at < |lines|
  {
    && IsInWorkspacePackage(lines, at)
    && !IsTableHeader(lines[at])
    && StartsWith(Trim(lines[at]), VERSION_PREFIX)
  }

  /** What follows the opening quote, without the closing one; nothing when the line does not end in a quote. */
  function QuotedVersion(line: string): Option<string>
    requires StartsWith(Trim(line), VERSION_PREFIX)
  {
    var quoted := Trim(line)[|VERSION_PREFIX|..];
    if quoted != [] && quoted[|quoted| - 1] == '\"' then Some(quoted[..|quoted| - 1]) else None
  }

  /** The first workspace version line from `from` on. */
  function FirstVersionLine(lines: seq<string>, from: nat): (at: Option<nat>)
    requires from <= |lines|
    ensures at.Some? ==> from <= at.value < |lines| && IsVersionLine(lines, at.value)
    ensures at.Some? ==> forall i :: from <= i < at.value ==> !IsVersionLine(lines, i)
    ensures at.None? ==> forall i :: from <= i < |lines| ==> !IsVersionLine(lines, i)
    decreases |lines| - from
  {
    if from == |lines| then None
    else if IsVersionLine(lines, from) then Some(from)
    else FirstVersionLine(lines, from + 1)
  }

  function WorkspaceVersion(manifest: string): Option<string> {
    match FirstVersionLine(Lines(manifest), 0)
    case None => None
    case Some(at) => QuotedVersion(Lines(manifest)[at])
  }

  /** What one line does: it opens or closes the section, or is the version line, or neither. */
  lemma LineStep(lines: seq<string>, i: nat, trimmed: string)
    requires i < |lines| && trimmed == Trim(lines[i])
    ensures IsInWorkspacePackage(lines, i + 1) ==
              if StartsWith(trimmed, "[") then trimmed == WORKSPACE_PACKAGE_HEADER else IsInWorkspacePackage(lines, i)
    ensures FirstVersionLine(lines, i) ==
              if !StartsWith(trimmed, "[") && IsInWorkspacePackage(lines, i) && StartsWith(trimmed, VERSION_PREFIX) then Some(i)
              else FirstVersionLine(lines, i + 1)
  {
  }

  /** The source's single pass over the lines. */
  method WorkspacePackageVersion(manifest: string) returns (version: Option<string>)
    ensures version == WorkspaceVersion(manifest)
  {
    var lines := Lines(manifest);
    var insideWorkspacePackage := false;
    var i := 0;
    while i < |lines|
      invariant 0 <= i <= |lines|
      invariant insideWorkspacePackage == IsInWorkspacePackage(lines, i)
      invariant FirstVersionLine(lines, 0) == FirstVersionLine(lines, i)
    {
      var trimmed := Trim(lines[i]);
      LineStep(lines, i, trimmed);
      if StartsWith(trimmed, "[") {
        insideWorkspacePackage := trimmed == WORKSPACE_PACKAGE_HEADER;
      } else if insideWorkspacePackage && StartsWith(trimmed, VERSION_PREFIX) {
        return QuotedVersion(lines[i]);
      }
      i := i + 1;
    }
    return None;
  }

  function VersionLineText(version: string): string {
    VERSION_PREFIX + version + "\""
  }

  // --- The manifest ---

  predicate ManifestDiffersOnlyInWorkspaceVersion(base: string, head: string, oldVersion: string, newVersion: string) {
    && CountMatches(base, VersionLineText(oldVersion)) == 1
    && ReplaceFirst(base, VersionLineText(oldVersion), VersionLineText(newVersion)) == head
  }

  // --- The lockfile ---

  predicate IsBumpedPackage(base: string, head: string, oldVersion: string, newVersion: string) {
    || base == head
    || (FindFirst(base, SOURCE_LINE).None?
        && ReplaceFirst(base, "\n" + VersionLineText(oldVersion), "\n" + VersionLineText(newVersion)) == head)
  }

  predicate LockfileDiffersOnlyInWorkspaceVersions(base: string, head: string, oldVersion: string, newVersion: string) {
    var basePackages := SplitOn(base, LOCKFILE_PACKAGE_SEPARATOR);
    var headPackages := SplitOn(head, LOCKFILE_PACKAGE_SEPARATOR);
    && |basePackages| == |headPackages|
    && forall i :: 0 <= i < |basePackages| ==> IsBumpedPackage(basePackages[i], headPackages[i], oldVersion, newVersion)
  }

  method CompareLockfiles(base: string, head: string, oldVersion: string, newVersion: string) returns (fits: bool)
    ensures fits == LockfileDiffersOnlyInWorkspaceVersions(base, head, oldVersion, newVersion)
  {
    var basePackages := SplitOn(base, LOCKFILE_PACKAGE_SEPARATOR);
    var headPackages := SplitOn(head, LOCKFILE_PACKAGE_SEPARATOR);
    if |basePackages| != |headPackages| {
      return false;
    }
    var i := 0;
    while i < |basePackages|
      invariant 0 <= i <= |basePackages|
      invariant forall j :: 0 <= j < i ==> IsBumpedPackage(basePackages[j], headPackages[j], oldVersion, newVersion)
    {
      if !IsBumpedPackage(basePackages[i], headPackages[i], oldVersion, newVersion) {
        return false;
      }
      i := i + 1;
    }
    return true;
  }

  // --- The verdict ---

  predicate IsVersionOnlyBump(changedPaths: seq<string>, texts: VersionBumpTexts) {
    && ChangesOnlyVersionBumpPaths(changedPaths)
    && var oldVersion, newVersion := WorkspaceVersion(texts.baseManifest), WorkspaceVersion(texts.headManifest);
       && oldVersion.Some? && newVersion.Some? && oldVersion != newVersion
       && ManifestDiffersOnlyInWorkspaceVersion(texts.baseManifest, texts.headManifest, oldVersion.value, newVersion.value)
       && LockfileDiffersOnlyInWorkspaceVersions(texts.baseLockfile, texts.headLockfile, oldVersion.value, newVersion.value)
  }

  // --- What an accepted bump changed ---

  lemma VersionLineTrims(lines: seq<string>, at: nat)
    requires at < |lines| && IsVersionLine(lines, at) && QuotedVersion(lines[at]).Some?
    ensures Trim(lines[at]) == VersionLineText(QuotedVersion(lines[at]).value)
  {
    var trimmed := Trim(lines[at]);
    var quoted := trimmed[|VERSION_PREFIX|..];
    assert trimmed == VERSION_PREFIX + quoted;
    assert quoted == quoted[..|quoted| - 1] + "\"";
  }

  /** A version found in a manifest is part of one line, so it holds no newline. */
  lemma WorkspaceVersionIsOnOneLine(manifest: string)
    requires WorkspaceVersion(manifest).Some?
    ensures LacksChar(VersionLineText(WorkspaceVersion(manifest).value), '\n')
  {
    var lines := Lines(manifest);
    var at := FirstVersionLine(lines, 0).value;
    VersionLineTrims(lines, at);
    LineLacksNewline(RawLines(manifest)[at]);
    var trimmed, lead := Trim(lines[at]), LeadingWhitespace(lines[at]);
    forall i | 0 <= i < |trimmed|
      ensures trimmed[i] != '\n'
    {
      assert trimmed[i] == lines[at][lead + i];
    }
  }

  /** With a count of one, every match overlaps the first. */
  lemma AllMatchesMeetTheFirst(text: string, pattern: string)
    requires pattern != [] && CountMatches(text, pattern) == 1
    ensures FindFirst(text, pattern).Some? && OccursAt(text, pattern, FindFirst(text, pattern).value)
    ensures forall at: nat :: OccursAt(text, pattern, at) ==>
              FindFirst(text, pattern).value <= at < FindFirst(text, pattern).value + |pattern|
  {
    FindFirstFacts(text, pattern);
    var first := FindFirst(text, pattern).value;
    var rest := text[first + |pattern|..];
    assert CountMatches(rest, pattern) == 0;
    FindFirstFacts(rest, pattern);
    forall at: nat | OccursAt(text, pattern, at)
      ensures first <= at < first + |pattern|
    {
      if first + |pattern| <= at {
        OccursAfter(text, first + |pattern|, pattern, at - (first + |pattern|));
      }
    }
  }

  /** A match cannot start before its line: it would cover the newline, or start with a space. */
  lemma MatchStartsAtTrimmedPart(text: string, pattern: string, first: nat, offset: nat, lead: nat)
    requires pattern != [] && LacksChar(pattern, '\n')
    requires OccursAt(text, pattern, first) && first <= offset + lead < first + |pattern|
    requires offset == 0 || text[offset - 1] == '\n'
    requires forall i :: offset <= i < offset + lead ==> text[i] != pattern[0]
    ensures first == offset + lead
  {
    var found := text[first..first + |pattern|];
    assert found == pattern;
    assert forall i :: first <= i < first + |pattern| ==> text[i] == found[i - first];
    assert text[first] == pattern[0];
  }

  lemma OccursWithinLine(text: string, line: string, part: string, offset: nat, lead: nat)
    requires OccursAt(text, line, offset) && OccursAt(line, part, lead)
    ensures OccursAt(text, part, offset + lead)
    ensures forall i {:trigger text[i]} :: offset <= i < offset + |line| ==> text[i] == line[i - offset]
  {
    var inner := text[offset..offset + |line|];
    assert inner == line;
    forall k | 0 <= k < |part|
      ensures text[offset + lead + k] == part[k]
    {
      assert text[offset + lead + k] == inner[lead + k] == line[lead..lead + |part|][k];
    }
    assert text[offset + lead..offset + lead + |part|] == part;
    forall i | offset <= i < offset + |line|
      ensures text[i] == line[i - offset]
    {
      assert text[i] == inner[i - offset];
    }
  }

  /** The only match of the version text in the manifest is the workspace line's own. */
  lemma OnlyMatchIsTheWorkspaceLine(manifest: string, line: nat, pattern: string, first: nat)
    requires line < |Lines(manifest)| && Trim(Lines(manifest)[line]) == pattern
    requires pattern != [] && !IsWhitespace(pattern[0]) && LacksChar(pattern, '\n')
    requires OccursAt(manifest, pattern, first)
    requires forall at: nat :: OccursAt(manifest, pattern, at) ==> first <= at < first + |pattern|
    ensures first == LineOffset(manifest, line) + LeadingWhitespace(Lines(manifest)[line])
  {
    var content, offset := Lines(manifest)[line], LineOffset(manifest, line);
    LineIsAtOffset(manifest, line);
    OccursWithinLine(manifest, content, pattern, offset, LeadingWhitespace(content));
    MatchIsTrimmedPart(manifest, content, pattern, offset, first);
  }

  lemma MatchIsTrimmedPart(text: string, content: string, pattern: string, offset: nat, first: nat)
    requires OccursAt(text, content, offset) && (offset == 0 || text[offset - 1] == '\n')
    requires OccursAt(content, pattern, LeadingWhitespace(content))
    requires pattern != [] && !IsWhitespace(pattern[0]) && LacksChar(pattern, '\n')
    requires OccursAt(text, pattern, first)
    requires first <= offset + LeadingWhitespace(content) < first + |pattern|
    ensures first == offset + LeadingWhitespace(content)
  {
    var lead := LeadingWhitespace(content);
    OccursWithinLine(text, content, pattern, offset, lead);
    LeadingDiffers(content, pattern[0]);
    MatchStartsAtTrimmedPart(text, pattern, first, offset, lead);
  }

  lemma LeadingDiffers(content: string, c: char)
    requires !IsWhitespace(c)
    ensures forall i :: 0 <= i < LeadingWhitespace(content) ==> content[i] != c
  {
  }

  /** A line with its trimmed part rewritten and the space around it kept. */
  function WithTrimmedPart(line: string, part: string): string {
    var lead := LeadingWhitespace(line);
    line[..lead] + part + line[lead + |Trim(line)|..]
  }

  /** The head manifest is the base manifest with its workspace version line rewritten, and no other line touched. */
  ghost predicate OnlyVersionLineMoved(base: string, head: string) {
    var at := FirstVersionLine(Lines(base), 0);
    && at.Some? && WorkspaceVersion(base).Some? && WorkspaceVersion(head).Some?
    && Trim(Lines(base)[at.value]) == VersionLineText(WorkspaceVersion(base).value)
    && Lines(head) ==
         Lines(base)[at.value := WithTrimmedPart(Lines(base)[at.value], VersionLineText(WorkspaceVersion(head).value))]
  }

  lemma AroundTrimmedPart(line: string, part: string) returns (lead: string, trail: string)
    ensures |lead| == LeadingWhitespace(line)
    ensures line == lead + Trim(line) + trail
    ensures WithTrimmedPart(line, part) == lead + part + trail
  {
    var length := LeadingWhitespace(line);
    lead, trail := line[..length], line[length + |Trim(line)|..];
  }

  lemma AcceptedManifestMovedOneLine(base: string, head: string)
    requires WorkspaceVersion(base).Some? && WorkspaceVersion(head).Some?
    requires ManifestDiffersOnlyInWorkspaceVersion(base, head, WorkspaceVersion(base).value, WorkspaceVersion(head).value)
    ensures OnlyVersionLineMoved(base, head)
  {
    var oldText, newText := VersionLineText(WorkspaceVersion(base).value), VersionLineText(WorkspaceVersion(head).value);
    var line := FirstVersionLine(Lines(base), 0).value;
    VersionLineTrims(Lines(base), line);
    WorkspaceVersionIsOnOneLine(base);
    WorkspaceVersionIsOnOneLine(head);
    AllMatchesMeetTheFirst(base, oldText);
    OnlyMatchIsTheWorkspaceLine(base, line, oldText, FindFirst(base, oldText).value);
    RewriteTrimmedPart(base, line, oldText, newText);
  }

  lemma RewriteTrimmedPart(text: string, line: nat, oldText: string, newText: string)
    requires line < |Lines(text)| && Trim(Lines(text)[line]) == oldText != []
    requires newText != [] && LacksChar(newText, '\n') && newText[|newText| - 1] != '\r'
    requires FindFirst(text, oldText).Some?
    requires FindFirst(text, oldText).value == LineOffset(text, line) + LeadingWhitespace(Lines(text)[line])
    ensures Lines(ReplaceFirst(text, oldText, newText)) ==
              Lines(text)[line := WithTrimmedPart(Lines(text)[line], newText)]
  {
    var at := FindFirst(text, oldText).value;
    var lead, trail := AroundTrimmedPart(Lines(text)[line], newText);
    EditInsideLine(text, line, lead, oldText, newText, trail, at);
    ReplaceFirstIsSplice(text, oldText, newText);
    assert ReplaceFirst(text, oldText, newText) == SpliceAt(text, at, oldText, newText);
  }

  lemma ReplaceFirstIsSplice(text: string, oldText: string, newText: string)
    requires FindFirst(text, oldText).Some?
    ensures ReplaceFirst(text, oldText, newText) == SpliceAt(text, FindFirst(text, oldText).value, oldText, newText)
  {
  }

  /** A lockfile package that names a source is untouched, and no package gains or loses one. */
  ghost predicate SourcesUntouched(base: string, head: string) {
    && (Contains(base, SOURCE_LINE) ==> base == head)
    && (Contains(base, SOURCE_LINE) <==> Contains(head, SOURCE_LINE))
  }

  lemma BumpedPackageKeepsSources(base: string, head: string, oldVersion: string, newVersion: string)
    requires IsBumpedPackage(base, head, oldVersion, newVersion)
    requires LacksChar(VersionLineText(newVersion), '\n')
    ensures SourcesUntouched(base, head)
  {
    var pattern, replacement := "\n" + VersionLineText(oldVersion), "\n" + VersionLineText(newVersion);
    FindFirstFacts(base, SOURCE_LINE);
    if base != head {
      FindFirstFacts(base, pattern);
      var at := FindFirst(base, pattern).value;
      forall i: nat
        ensures !OccursAt(head, SOURCE_LINE, i)
      {
        if OccursAt(head, SOURCE_LINE, i) {
          SourceLineSurvivesSplice(base, at, pattern, replacement, i);
        }
      }
    }
  }

  /** A source line in the bumped text was in the base text already. */
  lemma SourceLineSurvivesSplice(base: string, at: nat, pattern: string, replacement: string, i: nat)
    requires OccursAt(base, pattern, at)
    requires replacement != [] && replacement[0] == '\n' && LacksChar(replacement[1..], '\n')
    requires |replacement| > 1 && replacement[1] == 'v'
    requires OccursAt(base[..at] + replacement + base[at + |pattern|..], SOURCE_LINE, i)
    ensures Contains(base, SOURCE_LINE)
  {
    var head := base[..at] + replacement + base[at + |pattern|..];
    forall p | i <= p < i + |SOURCE_LINE|
      ensures head[p] == SOURCE_LINE[p - i]
    {
      assert head[p] == head[i..i + |SOURCE_LINE|][p - i];
    }
    assert SOURCE_LINE[0] == '\n' && SOURCE_LINE[1] == 's' && forall k :: 0 < k < |SOURCE_LINE| ==> SOURCE_LINE[k] != '\n';
    assert head[at] == '\n' && head[at + 1] == 'v';
    assert forall k :: at < k < at + |replacement| ==> head[k] == replacement[1..][k - at - 1] != '\n';
    if i + |SOURCE_LINE| <= at {
      assert base[i..i + |SOURCE_LINE|] == head[i..i + |SOURCE_LINE|];
      assert OccursAt(base, SOURCE_LINE, i);
    } else if at + |replacement| <= i {
      var j := i - |replacement| + |pattern|;
      assert base[j..j + |SOURCE_LINE|] == head[i..i + |SOURCE_LINE|];
      assert OccursAt(base, SOURCE_LINE, j);
    }
  }

  // --- What moved in a package without a source ---

  /**
    * The head's lines are the base's, but for the first one after the top line
    * that starts with the old text: there the new text stands in its place.
    */
  ghost predicate IsBumpedLine(base: string, head: string, line: nat, oldText: string, newText: string) {
    && 0 < line < |Lines(base)| && StartsWith(Lines(base)[line], oldText)
    && (forall i :: 0 < i < line ==> !StartsWith(Lines(base)[i], oldText))
    && Lines(head) == Lines(base)[line := newText + Lines(base)[line][|oldText|..]]
  }

  /** The package is as it was, or one line that starts with the old version moved to the new one. */
  ghost predicate MovedAtMostOneLine(base: string, head: string, oldText: string, newText: string) {
    base == head || exists line :: IsBumpedLine(base, head, line, oldText, newText)
  }

  lemma SpliceBehindNewline(text: string, at: nat, oldText: string, newText: string)
    requires OccursAt(text, "\n" + oldText, at)
    ensures text[at] == '\n' && OccursAt(text, oldText, at + 1)
    ensures SpliceAt(text, at, "\n" + oldText, "\n" + newText) == SpliceAt(text, at + 1, oldText, newText)
  {
    var pattern := "\n" + oldText;
    assert text[at] == text[at..at + |pattern|][0] == '\n';
    assert text[at + 1..at + 1 + |oldText|] == text[at..at + |pattern|][1..] == oldText;
    assert text[..at + 1] == text[..at] + "\n";
  }

  lemma LineStartIsMatch(text: string, line: nat, start: string)
    requires 0 < line < |Lines(text)| && StartsWith(Lines(text)[line], start)
    ensures LineOffset(text, line) > 0 && OccursAt(text, "\n" + start, LineOffset(text, line) - 1)
  {
    var offset := LineOffset(text, line);
    LineIsAtOffset(text, line);
    OffsetsGrow(text, 0, line);
    NewlineInFront(text, offset, Lines(text)[line], start);
  }

  lemma NewlineInFront(text: string, offset: nat, content: string, start: string)
    requires 0 < offset && OccursAt(text, content, offset) && text[offset - 1] == '\n' && StartsWith(content, start)
    ensures OccursAt(text, "\n" + start, offset - 1)
  {
    assert text[offset..offset + |start|] == text[offset..offset + |content|][..|start|];
    assert text[offset - 1..offset + |start|] == ['\n'] + text[offset..offset + |start|];
  }

  lemma OffsetsGrow(text: string, line: nat, later: nat)
    requires line < later < |Lines(text)|
    ensures LineOffset(text, line) < LineOffset(text, later)
  {
    var raws := RawLines(text);
    assert raws[..later] == raws[..line] + raws[line..later];
    FlattenAppend(raws[..line], raws[line..later]);
    assert raws[line..later][0] == raws[line];
  }

  lemma BumpedAt(base: string, at: nat, oldText: string, newText: string) returns (line: nat)
    requires OccursAt(base, "\n" + oldText, at) && oldText != [] && newText != []
    requires LacksChar(oldText, '\n') && oldText[|oldText| - 1] != '\r' && LacksChar(newText, '\n') && newText[|newText| - 1] != '\r'
    ensures 0 < line < |Lines(base)| && LineOffset(base, line) == at + 1 && StartsWith(Lines(base)[line], oldText)
    ensures Lines(SpliceAt(base, at, "\n" + oldText, "\n" + newText)) ==
              Lines(base)[line := newText + Lines(base)[line][|oldText|..]]
  {
    SpliceBehindNewline(base, at, oldText, newText);
    line := LineStartsAfterNewline(base, at);
    MatchStaysInLine(base, line, oldText);
    EditLineStart(base, line, oldText, newText, at + 1);
  }

  lemma EditLineStart(text: string, line: nat, oldText: string, newText: string, at: nat)
    requires line < |Lines(text)| && at == LineOffset(text, line) && StartsWith(Lines(text)[line], oldText)
    requires oldText != [] && newText != [] && LacksChar(newText, '\n') && newText[|newText| - 1] != '\r'
    ensures OccursAt(text, oldText, at)
    ensures Lines(SpliceAt(text, at, oldText, newText)) == Lines(text)[line := newText + Lines(text)[line][|oldText|..]]
  {
    var content := Lines(text)[line];
    var trail := content[|oldText|..];
    assert content == [] + oldText + trail && [] + newText + trail == newText + trail;
    EditInsideLine(text, line, [], oldText, newText, trail, at);
  }

  lemma BumpedPackageMovedOneLine(base: string, head: string, oldVersion: string, newVersion: string)
    requires IsBumpedPackage(base, head, oldVersion, newVersion)
    requires LacksChar(VersionLineText(oldVersion), '\n') && LacksChar(VersionLineText(newVersion), '\n')
    ensures MovedAtMostOneLine(base, head, VersionLineText(oldVersion), VersionLineText(newVersion))
  {
    var oldText, newText := VersionLineText(oldVersion), VersionLineText(newVersion);
    if base != head {
      FindFirstFacts(base, "\n" + oldText);
      var at := FindFirst(base, "\n" + oldText).value;
      var line := BumpedAt(base, at, oldText, newText);
      forall i | 0 < i < line
        ensures !StartsWith(Lines(base)[i], oldText)
      {
        OffsetsGrow(base, i, line);
        if StartsWith(Lines(base)[i], oldText) {
          LineStartIsMatch(base, i, oldText);
        }
      }
      ReplaceFirstIsSplice(base, "\n" + oldText, "\n" + newText);
      assert IsBumpedLine(base, head, line, oldText, newText);
    }
  }

  /** What the verdict promises: one manifest line moved, at most one line in each package without a source, and nothing else. */
  lemma AcceptedBumpChangesOnlyVersions(changedPaths: seq<string>, texts: VersionBumpTexts)
    requires IsVersionOnlyBump(changedPaths, texts)
    ensures OnlyVersionLineMoved(texts.baseManifest, texts.headManifest)
    ensures var basePackages := SplitOn(texts.baseLockfile, LOCKFILE_PACKAGE_SEPARATOR);
            var headPackages := SplitOn(texts.headLockfile, LOCKFILE_PACKAGE_SEPARATOR);
            var oldText := VersionLineText(WorkspaceVersion(texts.baseManifest).value);
            var newText := VersionLineText(WorkspaceVersion(texts.headManifest).value);
            && |basePackages| == |headPackages|
            && forall i :: 0 <= i < |basePackages| ==>
                 && SourcesUntouched(basePackages[i], headPackages[i])
                 && MovedAtMostOneLine(basePackages[i], headPackages[i], oldText, newText)
  {
    AcceptedManifestMovedOneLine(texts.baseManifest, texts.headManifest);
    var oldVersion, newVersion := WorkspaceVersion(texts.baseManifest).value, WorkspaceVersion(texts.headManifest).value;
    WorkspaceVersionIsOnOneLine(texts.baseManifest);
    WorkspaceVersionIsOnOneLine(texts.headManifest);
    var basePackages := SplitOn(texts.baseLockfile, LOCKFILE_PACKAGE_SEPARATOR);
    var headPackages := SplitOn(texts.headLockfile, LOCKFILE_PACKAGE_SEPARATOR);
    forall i | 0 <= i < |basePackages|
      ensures SourcesUntouched(basePackages[i], headPackages[i])
      ensures MovedAtMostOneLine(basePackages[i], headPackages[i], VersionLineText(oldVersion), VersionLineText(newVersion))
    {
      BumpedPackageKeepsSources(basePackages[i], headPackages[i], oldVersion, newVersion);
      BumpedPackageMovedOneLine(basePackages[i], headPackages[i], oldVersion, newVersion);
    }
  }

  // --- What any number of bumps leaves ---

  /** Two manifests with the same lines, but for the workspace version line, which stands at the same place in both. */
  ghost predicate DifferInVersionLine(base: string, head: string) {
    var at := FirstVersionLine(Lines(base), 0);
    && at.Some? && FirstVersionLine(Lines(head), 0) == at
    && |Lines(head)| == |Lines(base)|
    && forall i :: 0 <= i < |Lines(base)| && i != at.value ==> Lines(head)[i] == Lines(base)[i]
  }

  ghost predicate SameManifest(base: string, head: string) {
    base == head || DifferInVersionLine(base, head)
  }

  /** Two lockfile packages with the same lines, but for lines that give a version, and those only without a source. */
  ghost predicate SamePackage(base: string, head: string) {
    && SourcesUntouched(base, head)
    && |Lines(head)| == |Lines(base)|
    && forall i :: 0 <= i < |Lines(base)| ==> SameLineOrVersions(Lines(base)[i], Lines(head)[i])
  }

  predicate SameLineOrVersions(a: string, b: string) {
    a == b || (StartsWith(a, VERSION_PREFIX) && StartsWith(b, VERSION_PREFIX))
  }

  ghost predicate SamePackages(base: seq<string>, head: seq<string>) {
    |base| == |head| && forall i :: 0 <= i < |base| ==> SamePackage(base[i], head[i])
  }

  ghost predicate SameLockfile(base: string, head: string) {
    SamePackages(SplitOn(base, LOCKFILE_PACKAGE_SEPARATOR), SplitOn(head, LOCKFILE_PACKAGE_SEPARATOR))
  }

  lemma StartStaysPrefix(text: string, start: string, prefix: string)
    requires StartsWith(text, start) && StartsWith(start, prefix)
    ensures StartsWith(text, prefix)
  {
    assert text[..|prefix|] == text[..|start|][..|prefix|];
  }

  lemma MovedLineIsVersions(base: string, head: string, oldVersion: string, newVersion: string)
    requires MovedAtMostOneLine(base, head, VersionLineText(oldVersion), VersionLineText(newVersion))
    requires SourcesUntouched(base, head)
    ensures SamePackage(base, head)
  {
    var oldText, newText := VersionLineText(oldVersion), VersionLineText(newVersion);
    if base != head {
      var line: nat :| IsBumpedLine(base, head, line, oldText, newText);
      assert oldText[..|VERSION_PREFIX|] == VERSION_PREFIX && newText[..|VERSION_PREFIX|] == VERSION_PREFIX;
      BumpedLinesGiveVersions(Lines(base), Lines(head), line, oldText, newText);
    }
  }

  lemma BumpedLinesGiveVersions(base: seq<string>, head: seq<string>, line: nat, oldText: string, newText: string)
    requires line < |base| && StartsWith(base[line], oldText) && head == base[line := newText + base[line][|oldText|..]]
    requires StartsWith(oldText, VERSION_PREFIX) && StartsWith(newText, VERSION_PREFIX)
    ensures |head| == |base| && forall i :: 0 <= i < |base| ==> SameLineOrVersions(base[i], head[i])
  {
    StartStaysPrefix(base[line], oldText, VERSION_PREFIX);
    assert head[line][..|newText|] == newText;
    StartStaysPrefix(head[line], newText, VERSION_PREFIX);
  }

  lemma SameLineComposes(a: string, b: string, c: string)
    requires SameLineOrVersions(a, b) && SameLineOrVersions(b, c)
    ensures SameLineOrVersions(a, c)
  {
  }

  lemma SamePackageComposes(a: string, b: string, c: string)
    requires SamePackage(a, b) && SamePackage(b, c)
    ensures SamePackage(a, c)
  {
    forall i | 0 <= i < |Lines(a)|
      ensures SameLineOrVersions(Lines(a)[i], Lines(c)[i])
    {
      SameLineComposes(Lines(a)[i], Lines(b)[i], Lines(c)[i]);
    }
  }

  lemma SamePackagesCompose(a: seq<string>, b: seq<string>, c: seq<string>)
    requires SamePackages(a, b) && SamePackages(b, c)
    ensures SamePackages(a, c)
  {
    forall i | 0 <= i < |a|
      ensures SamePackage(a[i], c[i])
    {
      SamePackageComposes(a[i], b[i], c[i]);
    }
  }

  lemma SameManifestComposes(a: string, b: string, c: string)
    requires SameManifest(a, b) && SameManifest(b, c)
    ensures SameManifest(a, c)
  {
  }

  lemma SameLockfileItself(text: string)
    ensures SameLockfile(text, text)
  {
  }

  // --- The rewritten line is the version line still ---

  lemma {:induction false} TrimEndKeepsEnd(text: string, trail: string)
    requires text != [] && !IsWhitespace(text[|text| - 1]) && forall i :: 0 <= i < |trail| ==> IsWhitespace(trail[i])
    ensures TrimEnd(text + trail) == text
    decreases |trail|
  {
    if trail == [] {
      assert text + trail == text;
    } else {
      assert (text + trail)[|text + trail| - 1] == trail[|trail| - 1];
      assert (text + trail)[..|text + trail| - 1] == text + trail[..|trail| - 1];
      TrimEndKeepsEnd(text, trail[..|trail| - 1]);
    }
  }

  lemma {:induction false} LeadingIsLead(lead: string, rest: string)
    requires (forall i :: 0 <= i < |lead| ==> IsWhitespace(lead[i])) && rest != [] && !IsWhitespace(rest[0])
    ensures LeadingWhitespace(lead + rest) == |lead|
    decreases |lead|
  {
    if lead == [] {
      assert lead + rest == rest;
    } else {
      assert (lead + rest)[1..] == lead[1..] + rest;
      LeadingIsLead(lead[1..], rest);
    }
  }

  lemma {:induction false} TrimEndCutsSpace(text: string)
    ensures forall i :: |TrimEnd(text)| <= i < |text| ==> IsWhitespace(text[i])
    decreases |text|
  {
    if text != [] && IsWhitespace(text[|text| - 1]) {
      TrimEndCutsSpace(text[..|text| - 1]);
    }
  }

  lemma TrimReadsBack(lead: string, part: string, trail: string)
    requires part != [] && !IsWhitespace(part[0]) && !IsWhitespace(part[|part| - 1])
    requires forall i :: 0 <= i < |lead| ==> IsWhitespace(lead[i])
    requires forall i :: 0 <= i < |trail| ==> IsWhitespace(trail[i])
    ensures Trim(lead + (part + trail)) == part
  {
    LeadingIsLead(lead, part + trail);
    assert (lead + (part + trail))[|lead|..] == part + trail;
    TrimEndKeepsEnd(part, trail);
  }

  lemma TrailIsSpace(line: string)
    ensures var length := LeadingWhitespace(line);
            forall i :: length + |Trim(line)| <= i < |line| ==> IsWhitespace(line[i])
  {
    var rest := line[LeadingWhitespace(line)..];
    TrimEndCutsSpace(rest);
    assert forall i :: LeadingWhitespace(line) <= i < |line| ==> line[i] == rest[i - LeadingWhitespace(line)];
  }

  lemma SpaceFrom(line: string, from: nat)
    requires from <= |line| && forall i :: from <= i < |line| ==> IsWhitespace(line[i])
    ensures forall i :: 0 <= i < |line[from..]| ==> IsWhitespace(line[from..][i])
  {
  }

  lemma AroundTrimmed(line: string, part: string) returns (lead: string, trail: string)
    ensures forall i :: 0 <= i < |lead| ==> IsWhitespace(lead[i])
    ensures forall i :: 0 <= i < |trail| ==> IsWhitespace(trail[i])
    ensures WithTrimmedPart(line, part) == lead + part + trail
  {
    var length := LeadingWhitespace(line);
    lead, trail := line[..length], line[length + |Trim(line)|..];
    TrailIsSpace(line);
    SpaceFrom(line, length + |Trim(line)|);
  }

  /** Trimming gives back a part that starts and ends with no space, put where the trimmed part was. */
  lemma TrimmedPartReadsBack(line: string, part: string)
    requires part != [] && !IsWhitespace(part[0]) && !IsWhitespace(part[|part| - 1])
    ensures Trim(WithTrimmedPart(line, part)) == part
  {
    var lead, trail := AroundTrimmed(line, part);
    TrimReadsBack(lead, part, trail);
    PartsRegroup(lead, part, trail);
  }

  lemma PartsRegroup(lead: string, part: string, trail: string)
    ensures lead + part + trail == lead + (part + trail)
  {
  }

  // --- One bump, in those terms ---

  /** Rewriting the version line leaves it the first version line. */
  lemma VersionLineStays(lines: seq<string>, at: nat, rewritten: string)
    requires FirstVersionLine(lines, 0) == Some(at) && StartsWith(Trim(rewritten), VERSION_PREFIX)
    ensures FirstVersionLine(lines[at := rewritten], 0) == Some(at)
  {
    var after := lines[at := rewritten];
    forall i | 0 <= i <= at
      ensures IsInWorkspacePackage(after, i) == IsInWorkspacePackage(lines, i)
    {
      SectionReadsBefore(lines, after, i);
    }
    assert Trim(after[at])[..1] == Trim(after[at])[..|VERSION_PREFIX|][..1] == "v";
    assert !IsTableHeader(after[at]);
    assert IsVersionLine(after, at);
    forall i | 0 <= i < at
      ensures !IsVersionLine(after, i)
    {
      assert !IsVersionLine(lines, i);
    }
    FirstIsFirst(after, 0, at);
  }

  lemma {:induction false} SectionReadsBefore(lines: seq<string>, other: seq<string>, at: nat)
    requires at <= |lines| && at <= |other| && forall i :: 0 <= i < at ==> lines[i] == other[i]
    ensures IsInWorkspacePackage(lines, at) == IsInWorkspacePackage(other, at)
    decreases at
  {
    if at > 0 {
      SectionReadsBefore(lines, other, at - 1);
    }
  }

  lemma {:induction false} FirstIsFirst(lines: seq<string>, from: nat, at: nat)
    requires from <= at < |lines| && IsVersionLine(lines, at) && forall i :: from <= i < at ==> !IsVersionLine(lines, i)
    ensures FirstVersionLine(lines, from) == Some(at)
    decreases at - from
  {
    if from < at {
      assert !IsVersionLine(lines, from);
      FirstIsFirst(lines, from + 1, at);
    }
  }

  lemma VersionTextFacts(version: string)
    ensures var text := VersionLineText(version);
            && text != [] && !IsWhitespace(text[0]) && !IsWhitespace(text[|text| - 1])
            && StartsWith(text, VERSION_PREFIX)
  {
    var text := VersionLineText(version);
    assert text[..|VERSION_PREFIX|] == VERSION_PREFIX && text[0] == 'v' && text[|text| - 1] == '\"';
  }

  lemma RewrittenGivesVersion(line: string, version: string, rewritten: string)
    requires rewritten == WithTrimmedPart(line, VersionLineText(version))
    ensures StartsWith(Trim(rewritten), VERSION_PREFIX)
  {
    VersionTextFacts(version);
    TrimmedPartReadsBack(line, VersionLineText(version));
  }

  lemma MovedVersionLineIsSame(base: string, head: string)
    requires OnlyVersionLineMoved(base, head)
    ensures SameManifest(base, head)
  {
    var at := FirstVersionLine(Lines(base), 0).value;
    var rewritten := Lines(head)[at];
    RewrittenGivesVersion(Lines(base)[at], WorkspaceVersion(head).value, rewritten);
    VersionLineStays(Lines(base), at, rewritten);
    assert Lines(head) == Lines(base)[at := rewritten];
  }

  /** An accepted bump leaves both files the same, but for their version lines. */
  lemma BumpKeepsVersionFiles(changedPaths: seq<string>, texts: VersionBumpTexts)
    requires IsVersionOnlyBump(changedPaths, texts)
    ensures SameManifest(texts.baseManifest, texts.headManifest) && SameLockfile(texts.baseLockfile, texts.headLockfile)
  {
    AcceptedBumpChangesOnlyVersions(changedPaths, texts);
    MovedVersionLineIsSame(texts.baseManifest, texts.headManifest);
    var basePackages := SplitOn(texts.baseLockfile, LOCKFILE_PACKAGE_SEPARATOR);
    var headPackages := SplitOn(texts.headLockfile, LOCKFILE_PACKAGE_SEPARATOR);
    forall i | 0 <= i < |basePackages|
      ensures SamePackage(basePackages[i], headPackages[i])
    {
      MovedLineIsVersions(basePackages[i], headPackages[i], WorkspaceVersion(texts.baseManifest).value,
                          WorkspaceVersion(texts.headManifest).value);
    }
  }
}
