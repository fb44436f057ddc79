// Where a `mod` declaration leads (xtask/src/audit_test_declarations.rs), told
// from the written line and from whole paths.

module DeclarationEdges {
  import opened Wrappers
  import opened TextSearch
  import opened ModulePaths
  import opened Graphs
  import opened TestDeclarations

  // --- The written line ---

  /** The words before the name: `mod` alone, or anything that ends in whitespace and does not start with `mod`. */
  predicate IsLead(lead: string, line: string) {
    if StartsWith(line, "mod ") then lead == "mod " else lead == "" || IsWhitespace(lead[|lead| - 1])
  }

  ghost predicate IsWritten(line: string, lead: string, front: string, name: string, back: string) {
    && IsAllWhitespace(front) && IsAllWhitespace(back) && line == lead + front + name + back + ";" && IsLead(lead, line)
  }

  /** A bare identifier between the words before it and the closing semicolon. */
  ghost predicate Declares(line: string, name: string) {
    IsBareIdentifier(name) && exists lead, front, back :: IsWritten(line, lead, front, name, back)
  }

  lemma IdentifierHasNoWhitespace(name: string)
    requires IsBareIdentifier(name)
    ensures IsTrimmed(name) && forall i :: 0 <= i < |name| ==> !IsWhitespace(name[i])
  {
  }

  lemma {:induction false} WordStartFacts(text: string, end: nat)
    requires end <= |text|
    ensures var start := WordStart(text, end);
            && (forall i :: start <= i < end ==> !IsWhitespace(text[i]))
            && (start > 0 ==> IsWhitespace(text[start - 1]))
    decreases end
  {
    if end > 0 && !IsWhitespace(text[end - 1]) {
      WordStartFacts(text, end - 1);
    }
  }

  lemma {:induction false} WordStartOf(text: string, end: nat, start: nat)
    requires start <= end <= |text| && (start == 0 || IsWhitespace(text[start - 1]))
    requires forall i :: start <= i < end ==> !IsWhitespace(text[i])
    ensures WordStart(text, end) == start
    decreases end
  {
    if start < end {
      WordStartOf(text, end - 1, start);
    }
  }

  /** The last word stands before the trailing whitespace, and after whitespace or at the start. */
  lemma LastWordMeans(text: string, lead: string, word: string, back: string)
    requires IsAllWhitespace(back) && text == lead + word + back
    requires lead == "" || IsWhitespace(lead[|lead| - 1])
    requires word != "" && forall i :: 0 <= i < |word| ==> !IsWhitespace(word[i])
    ensures LastWord(text) == Some(word)
  {
    var trimmed := lead + word;
    assert trimmed[|trimmed| - 1] == word[|word| - 1];
    TrimEndOf(trimmed, back);
    assert forall i :: |lead| <= i < |trimmed| ==> trimmed[i] == word[i - |lead|];
    WordStartOf(trimmed, |trimmed|, |lead|);
    assert trimmed[|lead|..] == word;
  }

  lemma LastWordStands(text: string) returns (lead: string, back: string)
    requires LastWord(text).Some?
    ensures IsAllWhitespace(back) && text == lead + LastWord(text).value + back
    ensures lead == "" || IsWhitespace(lead[|lead| - 1])
  {
    var trimmed := TrimEnd(text);
    TrimEndDropsBlanks(text);
    var start := WordStart(trimmed, |trimmed|);
    WordStartFacts(trimmed, |trimmed|);
    lead, back := trimmed[..start], text[|trimmed|..];
    assert text == trimmed + back && trimmed == lead + trimmed[start..];
  }

  /** A declaration is read exactly from a line that writes it. */
  lemma DeclaredMeans(line: string, name: string)
    ensures DeclaredModuleName(line) == Some(name) <==> Declares(line, name)
  {
    if DeclaredModuleName(line) == Some(name) {
      DeclaredIsWritten(line, name);
    }
    if Declares(line, name) {
      var lead, front, back :| IsWritten(line, lead, front, name, back);
      WrittenIsDeclared(line, lead, front, name, back);
    }
  }

  lemma DeclaredUnfolds(line: string, text: string, name: string)
    requires line == text + ";"
    ensures DeclaredModuleName(line) == Some(name) <==>
              && IsBareIdentifier(name)
              && if StartsWith(text, "mod ") then Trim(text[4..]) == name
                 else LastWord(text).Some? && Trim(LastWord(text).value) == name
  {
    assert line[|line| - 1..] == ";" && line[..|line| - 1] == text;
  }

  lemma DeclaredIsWritten(line: string, name: string)
    requires DeclaredModuleName(line) == Some(name)
    ensures Declares(line, name)
  {
    assert line[|line| - 1..] == ";";
    var text := line[..|line| - 1];
    assert line == text + ";";
    DeclaredUnfolds(line, text, name);
    NotModAgain(line, text);
    if StartsWith(text, "mod ") {
      ModNameIsWritten(line, text, name);
    } else {
      LastWordIsWritten(line, text, name);
    }
  }

  lemma ModNameIsWritten(line: string, text: string, name: string)
    requires line == text + ";" && StartsWith(text, "mod ") && StartsWith(line, "mod ")
    requires IsBareIdentifier(name) && Trim(text[4..]) == name
    ensures Declares(line, name)
  {
    TrimMeans(text[4..], name);
    var front, back :| IsAllWhitespace(front) && IsAllWhitespace(back) && text[4..] == front + name + back;
    Assembled(line, text[..4], text[4..], front, name, back, ";");
    assert text == text[..4] + text[4..];
    assert IsLead(text[..4], line);
    assert IsWritten(line, text[..4], front, name, back);
  }

  lemma Assembled(line: string, lead: string, rest: string, front: string, name: string, back: string, end: string)
    requires rest == front + name + back
    ensures lead + rest + end == lead + front + name + back + end
  {
    assert lead + rest == lead + front + name + back;
  }

  lemma LastWordIsWritten(line: string, text: string, name: string)
    requires line == text + ";" && !StartsWith(line, "mod ")
    requires IsBareIdentifier(name) && LastWord(text).Some? && Trim(LastWord(text).value) == name
    ensures Declares(line, name)
  {
    var lead, back := LastWordStands(text);
    var word := LastWord(text).value;
    TrimMeans(word, name);
    var front, after :| IsAllWhitespace(front) && IsAllWhitespace(after) && word == front + name + after;
    LastWordOnly(lead, front, name, after, back, line);
  }

  lemma NotModAgain(line: string, text: string)
    requires line == text + ";"
    ensures StartsWith(line, "mod ") <==> StartsWith(text, "mod ")
  {
    if |text| >= 4 {
      assert line[..4] == text[..4];
    } else if |line| == 4 {
      assert line[3] == ';';
      assert line[..4][3] != "mod "[3];
    }
  }

  lemma LastWordOnly(lead: string, front: string, name: string, after: string, back: string, line: string)
    requires IsBareIdentifier(name) && IsAllWhitespace(front) && IsAllWhitespace(after) && IsAllWhitespace(back)
    requires line == lead + (front + name + after) + back + ";" && !StartsWith(line, "mod ")
    requires lead == "" || IsWhitespace(lead[|lead| - 1])
    ensures Declares(line, name)
  {
    assert line == lead + front + name + (after + back) + ";";
    assert IsAllWhitespace(after + back);
    assert IsWritten(line, lead, front, name, after + back);
  }

  lemma WrittenIsDeclared(line: string, lead: string, front: string, name: string, back: string)
    requires IsBareIdentifier(name) && IsWritten(line, lead, front, name, back)
    ensures DeclaredModuleName(line) == Some(name)
  {
    var text := lead + front + name + back;
    DeclaredUnfolds(line, text, name);
    NotModAgain(line, text);
    if StartsWith(line, "mod ") {
      ModNameIsRead(text, lead, front, name, back);
    } else {
      LastWordIsRead(text, lead, front, name, back);
    }
  }

  lemma ModNameIsRead(text: string, lead: string, front: string, name: string, back: string)
    requires IsBareIdentifier(name) && IsAllWhitespace(front) && IsAllWhitespace(back)
    requires |lead| == 4 && text == lead + front + name + back
    ensures Trim(text[4..]) == name
  {
    IdentifierHasNoWhitespace(name);
    assert text[4..] == front + name + back;
    TrimOf(front, name, back);
  }

  lemma LastWordIsRead(text: string, lead: string, front: string, name: string, back: string)
    requires IsBareIdentifier(name) && IsAllWhitespace(front) && IsAllWhitespace(back)
    requires text == lead + front + name + back && (lead == "" || IsWhitespace(lead[|lead| - 1]))
    ensures LastWord(text) == Some(name) && Trim(name) == name
  {
    IdentifierHasNoWhitespace(name);
    LeadEndsInWhitespace(lead, front);
    LastWordMeans(text, lead + front, name, back);
    TrimOf("", name, "");
    assert "" + name + "" == name;
  }

  lemma LeadEndsInWhitespace(lead: string, front: string)
    requires IsAllWhitespace(front) && (lead == "" || IsWhitespace(lead[|lead| - 1]))
    ensures var both := lead + front; both == "" || IsWhitespace(both[|both| - 1])
  {
    var both := lead + front;
    assert front != "" ==> both[|both| - 1] == front[|front| - 1];
    assert front == "" ==> both == lead;
  }

  /** The path attribute gives what stands between its first two double quotes. */
  lemma QuotedMeans(line: string, path: string)
    ensures ExtractQuotedPath(line) == Some(path) <==> exists front, back :: IsQuoted(line, front, path, back)
  {
    if ExtractQuotedPath(line) == Some(path) {
      ExtractedIsQuoted(line, path);
    }
    if front, back :| IsQuoted(line, front, path, back) {
      QuotedIsExtracted(line, front, path, back);
    }
  }

  lemma ExtractedIsQuoted(line: string, path: string)
    requires ExtractQuotedPath(line) == Some(path)
    ensures exists front, back :: IsQuoted(line, front, path, back)
  {
    FindFirstFacts(line, "\"");
    var open := FindFirst(line, "\"").value;
    var rest := line[open + 1..];
    FindFirstFacts(rest, "\"");
    var length := FindFirst(rest, "\"").value;
    BeforeQuote(line, open);
    BeforeQuote(rest, length);
    Requoted(line, line[..open], rest, path, rest[length + 1..]);
  }

  lemma Requoted(line: string, front: string, rest: string, path: string, back: string)
    requires line == front + "\"" + rest && rest == path + "\"" + back && LacksChar(front, '"') && LacksChar(path, '"')
    ensures IsQuoted(line, front, path, back)
  {
  }

  lemma QuotedIsExtracted(line: string, front: string, path: string, back: string)
    requires IsQuoted(line, front, path, back)
    ensures ExtractQuotedPath(line) == Some(path)
  {
    var rest := path + "\"" + back;
    assert line == front + "\"" + rest;
    QuoteAfter(front, rest);
    QuoteAfter(path, back);
    assert line[|front| + 1..] == rest && rest[..|path|] == path;
  }

  ghost predicate IsQuoted(line: string, front: string, path: string, back: string) {
    LacksChar(front, '"') && LacksChar(path, '"') && line == front + "\"" + path + "\"" + back
  }

  lemma QuoteAt(text: string, at: nat)
    ensures OccursAt(text, "\"", at) <==> at < |text| && text[at] == '"'
  {
    if at < |text| {
      assert text[at..at + 1] == [text[at]];
    }
  }

  lemma BeforeQuote(text: string, at: nat)
    requires OccursAt(text, "\"", at) && forall i: nat :: i < at ==> !OccursAt(text, "\"", i)
    ensures LacksChar(text[..at], '"') && text == text[..at] + "\"" + text[at + 1..]
  {
    QuoteAt(text, at);
    forall i | 0 <= i < at
      ensures text[..at][i] != '"'
    {
      QuoteAt(text, i);
    }
  }

  lemma QuoteAfter(front: string, rest: string)
    requires LacksChar(front, '"')
    ensures FindFirst(front + "\"" + rest, "\"") == Some(|front|)
  {
    var text := front + "\"" + rest;
    FindFirstFacts(text, "\"");
    QuoteAt(text, |front|);
    forall at: nat | at < |front|
      ensures !OccursAt(text, "\"", at)
    {
      QuoteAt(text, at);
      assert text[at] == front[at];
    }
    assert Contains(text, "\"");
  }

  // --- The folders a plain declaration is looked up in ---

  lemma {:induction false} LastSlashOf(text: string, end: nat, slash: nat)
    requires slash < end <= |text| && text[slash] == '/' && forall i :: slash < i < end ==> text[i] != '/'
    ensures LastSlash(text, end) == Some(slash)
    decreases end
  {
    if end - 1 > slash {
      LastSlashOf(text, end - 1, slash);
    }
  }

  lemma ParentAndName(directory: string, name: string)
    requires HasNoSlash(name)
    ensures ParentDirectory(directory + "/" + name) == Some(directory) && FileName(directory + "/" + name) == name
  {
    var path := directory + "/" + name;
    assert forall i :: |directory| < i < |path| ==> path[i] == name[i - |directory| - 1];
    LastSlashOf(path, |path|, |directory|);
    assert path[..|directory|] == directory && path[|directory| + 1..] == name;
  }

  /** Among such paths only that of a `mod.rs` ends so. */
  lemma ModFileOnly(directory: string, stem: string)
    requires HasNoSlash(stem)
    ensures EndsWith(directory + "/" + stem + ".rs", "/mod.rs") <==> stem == "mod"
  {
    var path, tail := directory + "/" + stem + ".rs", "/mod.rs";
    assert forall i :: 0 <= i < |stem| ==> path[|directory| + 1 + i] == stem[i];
    assert path[|directory|] == '/';
    if stem == "mod" {
      assert path == directory + tail;
    }
    if EndsWith(path, tail) {
      var start := |path| - 7;
      assert forall i :: 0 <= i < 7 ==> path[start + i] == tail[i];
      assert forall i :: 0 < i < 7 ==> tail[i] != '/';
      assert tail[0] == '/';
      assert path[start + 0] == '/';
      assert start <= |directory|;
      assert path[start + (|directory| - start)] == '/';
      assert start == |directory|;
      assert stem == path[start + 1..start + 4];
    }
  }

  lemma LookupOf(directory: string, stem: string)
    requires HasNoSlash(stem)
    ensures LookupPrefixes(directory + "/" + stem + ".rs") ==
              if stem == "mod" then [directory] else [directory, directory + "/" + stem]
  {
    var path, name := directory + "/" + stem + ".rs", stem + ".rs";
    assert path == directory + "/" + name;
    ParentAndName(directory, name);
    ModFileOnly(directory, stem);
    assert name[|name| - 3..] == ".rs" && name[..|name| - 3] == stem;
    assert |directory + "/" + stem| > |directory|;
  }

  // --- The edges ---

  /** The file a line of `directory/stem.rs` leads to, before it is looked up among the sources. */
  ghost predicate LeadsTo(directory: string, stem: string, declaration: Declaration, next: string) {
    var name := declaration.moduleName;
    match declaration.relocatedPath
    case Some(relocated) => next == Normalized(directory + "/" + relocated)
    case None =>
      || next == Normalized(directory + "/" + name + ".rs")
      || next == Normalized(directory + "/" + name + "/mod.rs")
      || (stem != "mod" && next == Normalized(directory + "/" + stem + "/" + name + ".rs"))
      || (stem != "mod" && next == Normalized(directory + "/" + stem + "/" + name + "/mod.rs"))
  }

  ghost predicate IsPlaceIn(folder: string, name: string, next: string) {
    next == Normalized(folder + "/" + name + ".rs") || next == Normalized(folder + "/" + name + "/mod.rs")
  }

  lemma PlacesOfFirst(folder: string, others: seq<string>, name: string, next: string)
    ensures next in PlainResolutions([folder] + others, name) <==> IsPlaceIn(folder, name, next) || next in PlainResolutions(others, name)
  {
    assert ([folder] + others)[1..] == others;
    var first := [Normalized(folder + "/" + name + ".rs"), Normalized(folder + "/" + name + "/mod.rs")];
    assert PlainResolutions([folder] + others, name) == first + PlainResolutions(others, name);
    assert IsPlaceIn(folder, name, next) <==> next == first[0] || next == first[1];
  }

  lemma PlacesOfLookup(directory: string, stem: string, name: string, next: string)
    requires HasNoSlash(stem)
    ensures next in PlainResolutions(LookupPrefixes(directory + "/" + stem + ".rs"), name) <==>
              IsPlaceIn(directory, name, next) || (stem != "mod" && IsPlaceIn(directory + "/" + stem, name, next))
  {
    LookupOf(directory, stem);
    var owned := directory + "/" + stem;
    assert [directory] + [] == [directory] && [owned] + [] == [owned];
    PlacesOfFirst(directory, if stem == "mod" then [] else [owned], name, next);
    PlacesOfFirst(owned, [], name, next);
  }

  lemma LedFromFolders(directory: string, stem: string, name: string, next: string)
    ensures LeadsTo(directory, stem, Declaration(name, None), next) <==>
              IsPlaceIn(directory, name, next) || (stem != "mod" && IsPlaceIn(directory + "/" + stem, name, next))
  {
  }

  lemma ResolvesTo(directory: string, stem: string, declaration: Declaration, next: string)
    requires HasNoSlash(stem)
    ensures next in Resolutions(directory + "/" + stem + ".rs", declaration) <==> LeadsTo(directory, stem, declaration, next)
  {
    var path := directory + "/" + stem + ".rs";
    match declaration.relocatedPath
    case Some(relocated) =>
      assert path == directory + "/" + (stem + ".rs");
      ParentAndName(directory, stem + ".rs");
      assert Resolutions(path, declaration) == [Normalized(directory + "/" + relocated)];
    case None =>
      PlacesOfLookup(directory, stem, declaration.moduleName, next);
      LedFromFolders(directory, stem, declaration.moduleName, next);
      assert declaration == Declaration(declaration.moduleName, None);
      assert Resolutions(path, declaration) == PlainResolutions(LookupPrefixes(path), declaration.moduleName);
  }

  /** The line declares a module: it is no comment and no attribute, and it is written as a declaration. */
  ghost predicate DeclaresAt(lines: seq<string>, at: nat, name: string)
    requires at < |lines|
  {
    var trimmed := Trim(lines[at]);
    !StartsWith(trimmed, "//") && !StartsWith(trimmed, "#[") && Declares(trimmed, name)
  }

  lemma LineDeclares(lines: seq<string>, at: nat, declaration: Declaration)
    requires at < |lines|
    ensures LineDeclaration(lines, at) == Some(declaration) <==>
              DeclaresAt(lines, at, declaration.moduleName) && declaration.relocatedPath == PendingPath(lines, at)
  {
    DeclaredMeans(Trim(lines[at]), declaration.moduleName);
  }

  lemma {:induction false} GatheredStepwise(isGathered: nat -> bool, isOn: nat -> bool, count: nat)
    requires !isGathered(0) && forall k: nat :: k < count ==> (isGathered(k + 1) <==> isGathered(k) || isOn(k))
    ensures isGathered(count) <==> exists at: nat :: at < count && isOn(at)
    decreases count
  {
    if count > 0 {
      GatheredStepwise(isGathered, isOn, count - 1);
      assert isGathered(count - 1 + 1) <==> isGathered(count - 1) || isOn(count - 1);
    }
  }

  predicate IsGathered(lines: seq<string>, declaration: Declaration, count: nat) {
    count <= |lines| && declaration in DeclarationsIn(lines, count)
  }

  predicate IsOn(lines: seq<string>, declaration: Declaration, at: nat) {
    at < |lines| && LineDeclaration(lines, at) == Some(declaration)
  }

  lemma GatheredNext(lines: seq<string>, declaration: Declaration, count: nat)
    requires count < |lines|
    ensures IsGathered(lines, declaration, count + 1) <==> IsGathered(lines, declaration, count) || IsOn(lines, declaration, count)
  {
  }

  lemma DeclarationsComeFromLines(lines: seq<string>, declaration: Declaration)
    ensures IsGathered(lines, declaration, |lines|) <==> exists at: nat :: at < |lines| && IsOn(lines, declaration, at)
  {
    var isGathered, isOn := (k: nat) => IsGathered(lines, declaration, k), (k: nat) => IsOn(lines, declaration, k);
    forall k: nat | k < |lines|
      ensures isGathered(k + 1) <==> isGathered(k) || isOn(k)
    {
      GatheredNext(lines, declaration, k);
    }
    GatheredStepwise(isGathered, isOn, |lines|);
    assert forall at: nat :: isOn(at) <==> IsOn(lines, declaration, at);
  }

  lemma {:induction false} ResolutionsComeFromDeclarations(path: string, declarations: seq<Declaration>, next: string)
    ensures next in AllResolutions(path, declarations) <==> exists d :: d in declarations && next in Resolutions(path, d)
  {
    if declarations != [] {
      ResolutionsComeFromDeclarations(path, declarations[1..], next);
      assert declarations == [declarations[0]] + declarations[1..];
    }
  }

  /** Line `at` of the file declares a module that leads to this file. */
  ghost predicate LineLeadsTo(lines: seq<string>, at: nat, name: string, directory: string, stem: string, next: string)
    requires at < |lines|
  {
    DeclaresAt(lines, at, name) && LeadsTo(directory, stem, Declaration(name, PendingPath(lines, at)), next)
  }

  ghost predicate SomeLineLeadsTo(lines: seq<string>, directory: string, stem: string, next: string) {
    exists at: nat, name :: at < |lines| && LineLeadsTo(lines, at, name, directory, stem, next)
  }

  lemma DeclaredPathsMeans(directory: string, stem: string, content: string, next: string)
    requires HasNoSlash(stem)
    ensures next in DeclaredPaths(directory + "/" + stem + ".rs", content) <==> SomeLineLeadsTo(Lines(content), directory, stem, next)
  {
    var path, lines := directory + "/" + stem + ".rs", Lines(content);
    var declarations := DeclarationsIn(lines, |lines|);
    ResolutionsComeFromDeclarations(path, declarations, next);
    if next in AllResolutions(path, declarations) {
      var d :| d in declarations && next in Resolutions(path, d);
      DeclarationsComeFromLines(lines, d);
      assert IsGathered(lines, d, |lines|);
      var at: nat :| at < |lines| && IsOn(lines, d, at);
      LineDeclares(lines, at, d);
      ResolvesTo(directory, stem, d, next);
      assert LineLeadsTo(lines, at, d.moduleName, directory, stem, next);
    }
    if SomeLineLeadsTo(lines, directory, stem, next) {
      var at: nat, name :| at < |lines| && LineLeadsTo(lines, at, name, directory, stem, next);
      var d := Declaration(name, PendingPath(lines, at));
      LineDeclares(lines, at, d);
      assert IsOn(lines, d, at);
      DeclarationsComeFromLines(lines, d);
      assert IsGathered(lines, d, |lines|);
      ResolvesTo(directory, stem, d, next);
    }
  }

  /** The edges from `directory/stem.rs` are those to the existing files one of its lines leads to. */
  lemma EdgeMeans(sources: map<string, string>, directory: string, stem: string, next: string)
    requires HasNoSlash(stem) && directory + "/" + stem + ".rs" in sources
    ensures var path := directory + "/" + stem + ".rs";
            next in Neighbors(DeclarationGraph(sources), path) <==>
              next in sources && SomeLineLeadsTo(Lines(sources[path]), directory, stem, next)
  {
    DeclaredPathsMeans(directory, stem, sources[directory + "/" + stem + ".rs"], next);
  }

  /** In a normalized folder a plain name is a normalized path. */
  lemma PlainNameIsNormal(directory: string, name: string)
    requires directory != "" && Normalized(directory) == directory && IsPlain(name)
    ensures Normalized(directory + "/" + name) == directory + "/" + name
  {
    PlainIsNormal(directory);
    SegmentsAppend(directory, name);
    SegmentsOfOne(name);
    PlainIsNormal(directory + "/" + name);
  }

  lemma FileNameIsPlain(name: string)
    requires name != "" && HasNoSlash(name)
    ensures IsPlain(name + ".rs")
  {
    var file := name + ".rs";
    assert forall i :: 0 <= i < |file| ==> file[i] == if i < |name| then name[i] else ".rs"[i - |name|];
  }

  lemma IdentifierIsPlain(name: string)
    requires IsBareIdentifier(name)
    ensures IsPlain(name)
  {
    assert forall i :: 0 <= i < |name| ==> name[i] != '/' && name[i] != '.';
  }

  /** The four places a plain `mod name;` of `directory/stem.rs` can stand for. */
  function PlainPlaces(directory: string, stem: string, name: string): set<string> {
    { directory + "/" + name + ".rs",
      directory + "/" + name + "/mod.rs",
      directory + "/" + stem + "/" + name + ".rs",
      directory + "/" + stem + "/" + name + "/mod.rs" }
  }

  lemma PlacesInFolder(directory: string, name: string)
    requires directory != "" && Normalized(directory) == directory && IsBareIdentifier(name)
    ensures Normalized(directory + "/" + name + ".rs") == directory + "/" + name + ".rs"
    ensures Normalized(directory + "/" + name + "/mod.rs") == directory + "/" + name + "/mod.rs"
  {
    IdentifierIsPlain(name);
    FileNameIsPlain(name);
    PlainNameIsNormal(directory, name + ".rs");
    assert directory + "/" + (name + ".rs") == directory + "/" + name + ".rs";
    PlainNameIsNormal(directory, name);
    FileNameIsPlain("mod");
    PlainNameIsNormal(directory + "/" + name, "mod" + ".rs");
    assert directory + "/" + name + "/" + ("mod" + ".rs") == directory + "/" + name + "/mod.rs";
  }

  lemma PlaceIsLed(directory: string, stem: string, name: string, next: string)
    requires directory != "" && Normalized(directory) == directory && IsPlain(stem) && stem != "mod" && IsBareIdentifier(name)
    ensures LeadsTo(directory, stem, Declaration(name, None), next) <==> next in PlainPlaces(directory, stem, name)
  {
    PlacesInFolder(directory, name);
    PlainNameIsNormal(directory, stem);
    PlacesInFolder(directory + "/" + stem, name);
  }

  /** A plain declaration reaches whichever of its four places exist. */
  lemma PlainDeclarationReaches(sources: map<string, string>, directory: string, stem: string, at: nat, name: string, next: string)
    requires directory != "" && Normalized(directory) == directory && IsPlain(stem) && stem != "mod"
    requires var path := directory + "/" + stem + ".rs";
             path in sources && at < |Lines(sources[path])|
             && DeclaresAt(Lines(sources[path]), at, name) && PendingPath(Lines(sources[path]), at).None?
    requires next in sources && next in PlainPlaces(directory, stem, name)
    ensures next in Neighbors(DeclarationGraph(sources), directory + "/" + stem + ".rs")
  {
    PlaceIsLed(directory, stem, name, next);
    var lines := Lines(sources[directory + "/" + stem + ".rs"]);
    assert LineLeadsTo(lines, at, name, directory, stem, next);
    EdgeMeans(sources, directory, stem, next);
  }

  /** Cargo takes a file standing directly in `tests` for a target. */
  lemma RootTargetMeans(path: string)
    ensures IsRootTarget(path) <==> exists stem :: HasNoSlash(stem) && path == "tests/" + stem + ".rs"
  {
    if IsRootTarget(path) {
      var rest := path[6..];
      var stem := rest[..|rest| - 3];
      assert rest == stem + rest[|rest| - 3..];
      assert path == path[..6] + rest;
      assert HasNoSlash(stem) && path == "tests/" + stem + ".rs";
    }
    if stem :| HasNoSlash(stem) && path == "tests/" + stem + ".rs" {
      var rest := stem + ".rs";
      assert path == "tests/" + rest;
      assert path[..6] == "tests/" && path[6..] == rest && rest[|rest| - 3..] == ".rs";
      assert forall i :: 0 <= i < |rest| ==> rest[i] == if i < |stem| then stem[i] else ".rs"[i - |stem|];
    }
  }

  /** A manifest names a file when it lists its path with slashes for backslashes and every `./` cut out. */
  lemma ManifestTargetMeans(path: string, targets: set<string>)
    ensures IsManifestTarget(path, targets) <==>
              JoinOn(SplitOn(JoinOn(SplitOn(path, "\\"), "/"), "./"), "") in targets
  {
    ReplaceAllIsRejoined(path, "\\", "/");
    ReplaceAllIsRejoined(ReplaceAll(path, "\\", "/"), "./", "");
  }
}
