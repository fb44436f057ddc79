// The orphaned test file audit (xtask/src/audit_test_declarations.rs): which
// files under a crate's tests/ tree no cargo target reaches through `mod`
// declarations.

module TestDeclarations {
  import opened Wrappers
  import opened TextOrder
  import opened TextSearch
  import opened ModulePaths
  import opened Graphs

  datatype Declaration = Declaration(moduleName: string, relocatedPath: Option<string>)

  datatype OrphanFinding = OrphanFinding(kind: string, crateName: string, path: string)

  // --- One line ---

  predicate IsIdentifierCharacter(c: char) {
    'a' <= c <= 'z' || 'A' <= c <= 'Z' || '0' <= c <= '9' || c == '_'
  }

  predicate IsBareIdentifier(name: string) {
    && name != ""
    && (forall i :: 0 <= i < |name| ==> IsIdentifierCharacter(name[i]))
    && !('0' <= name[0] <= '9')
  }

  /** The last word of a text: `split_whitespace().last()`. */
  function LastWord(text: string): Option<string> {
    var trimmed := TrimEnd(text);
    if trimmed == "" then None else Some(trimmed[WordStart(trimmed, |trimmed|)..])
  }

  function WordStart(text: string, end: nat): (start: nat)
    requires end <= |text|
    ensures start <= end
  {
    if end == 0 || IsWhitespace(text[end - 1]) then end else WordStart(text, end - 1)
  }

  /** The module an already trimmed line declares, by the audit's own lenient reading. */
  function DeclaredModuleName(line: string): Option<string> {
    if !EndsWith(line, ";") then None
    else
      var withoutSemicolon := line[..|line| - 1];
      var name := if StartsWith(withoutSemicolon, "mod ") then Some(withoutSemicolon[4..]) else LastWord(withoutSemicolon);
      if name.Some? && IsBareIdentifier(Trim(name.value)) then Some(Trim(name.value)) else None
  }

  /** The text between the first two double quotes. */
  function ExtractQuotedPath(line: string): Option<string> {
    match FindFirst(line, "\"")
    case None => None
    case Some(open) =>
      match FindFirst(line[open + 1..], "\"")
      case None => None
      case Some(length) => Some(line[open + 1..][..length])
  }

  predicate IsSkipped(trimmed: string) {
    trimmed == "" || StartsWith(trimmed, "//")
  }

  predicate IsAttribute(trimmed: string) {
    StartsWith(trimmed, "#[")
  }

  /** The path attribute a declaration on line `at` would take: the nearest one above with nothing but attributes, comments and blanks between. */
  function PendingPath(lines: seq<string>, at: nat): Option<string>
    requires at <= |lines|
  {
    if at == 0 then None
    else
      var trimmed := Trim(lines[at - 1]);
      if IsSkipped(trimmed) then PendingPath(lines, at - 1)
      else if IsAttribute(trimmed) then
        if StartsWith(trimmed, "#[path") then ExtractQuotedPath(trimmed) else PendingPath(lines, at - 1)
      else None
  }

  function LineDeclaration(lines: seq<string>, at: nat): Option<Declaration>
    requires at < |lines|
  {
    var trimmed := Trim(lines[at]);
    if IsSkipped(trimmed) || IsAttribute(trimmed) || DeclaredModuleName(trimmed).None? then None
    else Some(Declaration(DeclaredModuleName(trimmed).value, PendingPath(lines, at)))
  }

  /** The declarations of the first `count` lines, in order. */
  function DeclarationsIn(lines: seq<string>, count: nat): seq<Declaration>
    requires count <= |lines|
  {
    if count == 0 then []
    else
      var earlier := DeclarationsIn(lines, count - 1);
      match LineDeclaration(lines, count - 1)
      case None => earlier
      case Some(declaration) => earlier + [declaration]
  }

  /** What one line does to the pending path and to the declarations found. */
  lemma LineReads(lines: seq<string>, i: nat, trimmed: string)
    requires i < |lines| && trimmed == Trim(lines[i])
    ensures PendingPath(lines, i + 1) ==
              if IsSkipped(trimmed) then PendingPath(lines, i)
              else if IsAttribute(trimmed) then
                if StartsWith(trimmed, "#[path") then ExtractQuotedPath(trimmed) else PendingPath(lines, i)
              else None
    ensures DeclarationsIn(lines, i + 1) == DeclarationsIn(lines, i) +
              if IsSkipped(trimmed) || IsAttribute(trimmed) || DeclaredModuleName(trimmed).None? then []
              else [Declaration(DeclaredModuleName(trimmed).value, PendingPath(lines, i))]
  {
    assert DeclarationsIn(lines, i) + [] == DeclarationsIn(lines, i);
  }

  /** The source's single pass with a pending path. */
  method ModuleDeclarations(content: string) returns (declarations: seq<Declaration>)
    ensures declarations == DeclarationsIn(Lines(content), |Lines(content)|)
  {
    var lines := Lines(content);
    declarations := [];
    var pendingPath: Option<string> := None;
    var i := 0;
    while i < |lines|
      invariant 0 <= i <= |lines|
      invariant declarations == DeclarationsIn(lines, i)
      invariant pendingPath == PendingPath(lines, i)
    {
      var trimmed := Trim(lines[i]);
      LineReads(lines, i, trimmed);
      i := i + 1;
      if IsSkipped(trimmed) {
        continue;
      }
      if IsAttribute(trimmed) {
        if StartsWith(trimmed, "#[path") {
          pendingPath := ExtractQuotedPath(trimmed);
        }
        continue;
      }
      var moduleName := DeclaredModuleName(trimmed);
      if moduleName.Some? {
        declarations := declarations + [Declaration(moduleName.value, pendingPath)];
      }
      pendingPath := None;
    }
  }

  // --- Where a declaration can point ---

  function LastSlash(path: string, end: nat): (slash: Option<nat>)
    requires end <= |path|
    ensures slash.Some? ==> slash.value < end
  {
    if end == 0 then None else if path[end - 1] == '/' then Some(end - 1) else LastSlash(path, end - 1)
  }

  function ParentDirectory(path: string): Option<string> {
    match LastSlash(path, |path|)
    case None => None
    case Some(slash) => Some(path[..slash])
  }

  function FileName(path: string): string {
    match LastSlash(path, |path|)
    case None => path
    case Some(slash) => path[slash + 1..]
  }

  /** The folders a plain declaration is looked up in: the file's own, and the one a named file module owns. */
  function LookupPrefixes(containingPath: string): seq<string> {
    match ParentDirectory(containingPath)
    case None => []
    case Some(directory) =>
      var name := FileName(containingPath);
      if !EndsWith(containingPath, "/mod.rs") && EndsWith(name, ".rs") then
        var ownedFolder := directory + "/" + name[..|name| - 3];
        if ownedFolder in [directory] then [directory] else [directory, ownedFolder]
      else [directory]
  }

  function PlainResolutions(prefixes: seq<string>, moduleName: string): seq<string> {
    if prefixes == [] then []
    else
      [Normalized(prefixes[0] + "/" + moduleName + ".rs"), Normalized(prefixes[0] + "/" + moduleName + "/mod.rs")]
      + PlainResolutions(prefixes[1..], moduleName)
  }

  function Resolutions(containingPath: string, declaration: Declaration): seq<string> {
    match declaration.relocatedPath
    case Some(relocated) =>
      var base := match ParentDirectory(containingPath) case Some(directory) => directory case None => "";
      [Normalized(base + "/" + relocated)]
    case None => PlainResolutions(LookupPrefixes(containingPath), declaration.moduleName)
  }

  function AllResolutions(containingPath: string, declarations: seq<Declaration>): seq<string> {
    if declarations == [] then []
    else Resolutions(containingPath, declarations[0]) + AllResolutions(containingPath, declarations[1..])
  }

  /** Every path some declaration of the file can point at. */
  function DeclaredPaths(containingPath: string, content: string): seq<string> {
    AllResolutions(containingPath, DeclarationsIn(Lines(content), |Lines(content)|))
  }

  lemma ResolveNext(containingPath: string, declarations: seq<Declaration>, i: nat, paths: seq<string>, goal: seq<string>)
    requires i < |declarations| && goal == paths + AllResolutions(containingPath, declarations[i..])
    ensures goal == paths + Resolutions(containingPath, declarations[i]) + AllResolutions(containingPath, declarations[i + 1..])
  {
    var rest := declarations[i..];
    assert rest[0] == declarations[i] && rest[1..] == declarations[i + 1..];
    assert AllResolutions(containingPath, rest) == Resolutions(containingPath, rest[0]) + AllResolutions(containingPath, rest[1..]);
  }

  method ResolveDeclarations(containingPath: string, content: string) returns (paths: seq<string>)
    ensures paths == DeclaredPaths(containingPath, content)
  {
    var declarations := ModuleDeclarations(content);
    paths := ResolveAll(containingPath, declarations);
  }

  method ResolveAll(containingPath: string, declarations: seq<Declaration>) returns (paths: seq<string>)
    ensures paths == AllResolutions(containingPath, declarations)
  {
    ghost var goal := AllResolutions(containingPath, declarations);
    paths := [];
    var i := 0;
    assert declarations[0..] == declarations && [] + goal == goal;
    while i < |declarations|
      invariant 0 <= i <= |declarations|
      invariant goal == paths + AllResolutions(containingPath, declarations[i..])
    {
      ResolveNext(containingPath, declarations, i, paths, goal);
      paths := paths + Resolutions(containingPath, declarations[i]);
      i := i + 1;
    }
  }

  // --- The audit ---

  predicate IsRootTarget(path: string) {
    StartsWith(path, "tests/") && EndsWith(path[6..], ".rs") && HasNoSlash(path[6..])
  }

  predicate IsManifestTarget(path: string, manifestTargetPaths: set<string>) {
    ReplaceAll(ReplaceAll(path, "\\", "/"), "./", "") in manifestTargetPaths
  }

  /** The files cargo compiles by itself. */
  function RootPaths(sources: map<string, string>, manifestTargetPaths: set<string>): set<string> {
    set path | path in sources && (IsRootTarget(path) || IsManifestTarget(path, manifestTargetPaths))
  }

  /** An edge wherever a file declares a module that resolves to another file of the tree. */
  ghost function DeclarationGraph(sources: map<string, string>): Graph {
    map path | path in sources :: DeclaredFiles(sources, path)
  }

  ghost function DeclaredFiles(sources: map<string, string>, path: string): set<string>
    requires path in sources
  {
    set declared | declared in DeclaredPaths(path, sources[path]) && declared in sources
  }

  /** Cargo compiles this file: a root reaches it through declarations. */
  ghost predicate IsCompiled(sources: map<string, string>, manifestTargetPaths: set<string>, path: string) {
    IsReachedFrom(DeclarationGraph(sources), RootPaths(sources, manifestTargetPaths), path)
  }

  /** Every reached file that is not waiting has all its declared files reached. */
  ghost predicate IsExplored(graph: Graph, reachable: set<string>, frontier: seq<string>) {
    forall path :: path in reachable && path !in frontier ==> Neighbors(graph, path) <= reachable
  }

  ghost predicate AreReached(graph: Graph, roots: set<string>, paths: set<string>) {
    forall path :: path in paths ==> IsReachedFrom(graph, roots, path)
  }

  /** The files of `paths` not reached before are marked and queued; nothing else changes. */
  ghost predicate IsExpansion(paths: seq<string>, sources: set<string>, reached: set<string>, rest: seq<string>,
                              reachable: set<string>, frontier: seq<string>) {
    && (forall path :: path in reachable <==> path in reached || (path in paths && path in sources))
    && (forall path :: path in frontier <==> path in rest || (path in reachable && path !in reached))
    && (reachable == reached ==> frontier == rest)
  }

  /** The reached set and the frontier after looking at `paths` one by one. */
  function MarkAll(paths: seq<string>, sources: set<string>, reachable: set<string>, frontier: seq<string>)
    : (set<string>, seq<string>)
    decreases |paths|
  {
    if paths == [] then (reachable, frontier)
    else if paths[0] in sources && paths[0] !in reachable then
      MarkAll(paths[1..], sources, reachable + {paths[0]}, frontier + [paths[0]])
    else MarkAll(paths[1..], sources, reachable, frontier)
  }

  lemma {:induction false} MarkAllExpands(paths: seq<string>, sources: set<string>, reached: set<string>, rest: seq<string>)
    ensures var (reachable, frontier) := MarkAll(paths, sources, reached, rest);
            IsExpansion(paths, sources, reached, rest, reachable, frontier)
    decreases |paths|
  {
    if paths != [] {
      var first, others := paths[0], paths[1..];
      assert paths == [first] + others;
      assert forall path :: path in paths <==> path == first || path in others;
      if first in sources && first !in reached {
        MarkAllExpands(others, sources, reached + {first}, rest + [first]);
        var (reachable, frontier) := MarkAll(paths, sources, reached, rest);
        assert first in reachable;
      } else {
        MarkAllExpands(others, sources, reached, rest);
      }
    }
  }

  lemma MarkNext(paths: seq<string>, sources: set<string>, i: nat, reachable: set<string>, frontier: seq<string>)
    requires i < |paths|
    ensures MarkAll(paths[i..], sources, reachable, frontier) ==
              if paths[i] in sources && paths[i] !in reachable then
                MarkAll(paths[i + 1..], sources, reachable + {paths[i]}, frontier + [paths[i]])
              else MarkAll(paths[i + 1..], sources, reachable, frontier)
  {
    assert paths[i..][0] == paths[i] && paths[i..][1..] == paths[i + 1..];
  }

  /** Marks the resolved files of one reached file, queueing those not seen before. */
  method Expand(sources: map<string, string>, containingPath: string, reached: set<string>, rest: seq<string>)
    returns (reachable: set<string>, frontier: seq<string>)
    requires containingPath in sources
    ensures (reachable, frontier) == MarkAll(DeclaredPaths(containingPath, sources[containingPath]), sources.Keys, reached, rest)
  {
    var paths := ResolveDeclarations(containingPath, sources[containingPath]);
    reachable, frontier := reached, rest;
    ghost var goal := MarkAll(paths, sources.Keys, reached, rest);
    var i := 0;
    assert paths[0..] == paths;
    while i < |paths|
      invariant 0 <= i <= |paths|
      invariant goal == MarkAll(paths[i..], sources.Keys, reachable, frontier)
    {
      MarkNext(paths, sources.Keys, i, reachable, frontier);
      var resolution := paths[i];
      if resolution in sources && resolution !in reachable {
        reachable := reachable + {resolution};
        frontier := frontier + [resolution];
      }
      i := i + 1;
    }
  }

  lemma ProperSubsetIsSmaller<T>(smaller: set<T>, larger: set<T>, extra: T)
    requires smaller <= larger && extra in larger && extra !in smaller
    ensures |smaller| < |larger|
  {
    assert larger == smaller + (larger - smaller);
    assert extra in larger - smaller;
  }

  lemma ExpandedByDeclarations(sources: map<string, string>, graph: Graph, current: string, reached: set<string>,
                               rest: seq<string>, reachable: set<string>, frontier: seq<string>)
    requires current in sources && graph == DeclarationGraph(sources) && reached <= sources.Keys
    requires (reachable, frontier) == MarkAll(DeclaredPaths(current, sources[current]), sources.Keys, reached, rest)
    ensures reachable == reached + Neighbors(graph, current) && reachable <= sources.Keys
    ensures forall path :: path in frontier <==> path in rest || (path in reachable && path !in reached)
    ensures |sources.Keys - reachable| < |sources.Keys - reached| || (reachable == reached && frontier == rest)
  {
    MarkAllExpands(DeclaredPaths(current, sources[current]), sources.Keys, reached, rest);
    ExpansionLeavesLess(DeclaredPaths(current, sources[current]), sources.Keys, reached, rest, reachable, frontier);
    NeighborsAreDeclared(sources, graph, current);
  }

  lemma ExpansionLeavesLess(paths: seq<string>, sources: set<string>, reached: set<string>, rest: seq<string>,
                            reachable: set<string>, frontier: seq<string>)
    requires IsExpansion(paths, sources, reached, rest, reachable, frontier) && reached <= sources
    ensures |sources - reachable| < |sources - reached| || (reachable == reached && frontier == rest)
  {
    if reachable != reached {
      var found :| found in reachable && found !in reached;
      ProperSubsetIsSmaller(sources - reachable, sources - reached, found);
    }
  }

  lemma NeighborsAreDeclared(sources: map<string, string>, graph: Graph, current: string)
    requires current in sources && graph == DeclarationGraph(sources)
    ensures forall path :: path in Neighbors(graph, current) <==> path in DeclaredPaths(current, sources[current]) && path in sources
  {
    assert Neighbors(graph, current) == DeclaredFiles(sources, current);
  }

  lemma SplitLast<T>(items: seq<T>)
    requires items != []
    ensures items == items[..|items| - 1] + [items[|items| - 1]]
    ensures items[|items| - 1] in items
    ensures forall item :: item in items[..|items| - 1] ==> item in items
  {
  }

  /** Nothing left to expand means nothing escapes. */
  lemma ExploredIsClosed(graph: Graph, reachable: set<string>)
    requires IsExplored(graph, reachable, [])
    ensures IsClosed(graph, reachable)
  {
  }

  /** What the search keeps: everything reached is rightly so, and what is explored has its declared files reached. */
  ghost predicate IsSearching(graph: Graph, roots: set<string>, sources: set<string>, reachable: set<string>, frontier: seq<string>) {
    && roots <= reachable <= sources
    && (forall path :: path in frontier ==> path in reachable)
    && AreReached(graph, roots, reachable)
    && IsExplored(graph, reachable, frontier)
  }

  function Unreached(sources: set<string>, reachable: set<string>): nat {
    |sources - reachable|
  }

  /** One round of the search: a waiting file is explored, which reaches a new file or leaves one fewer waiting. */
  method ExploreNext(sources: map<string, string>, roots: set<string>, ghost graph: Graph, reached: set<string>, waiting: seq<string>)
    returns (reachable: set<string>, frontier: seq<string>)
    requires graph == DeclarationGraph(sources) && IsSearching(graph, roots, sources.Keys, reached, waiting) && waiting != []
    ensures IsSearching(graph, roots, sources.Keys, reachable, frontier)
    ensures || Unreached(sources.Keys, reachable) < Unreached(sources.Keys, reached)
            || (reachable == reached && |frontier| < |waiting|)
  {
    var containingPath := waiting[|waiting| - 1];
    var rest := waiting[..|waiting| - 1];
    SplitLast(waiting);
    reachable, frontier := Expand(sources, containingPath, reached, rest);
    ExpandedByDeclarations(sources, graph, containingPath, reached, rest, reachable, frontier);
    ExpansionKeepsSearch(graph, roots, reached, reachable, containingPath, rest, frontier);
  }

  /** Follows declarations from the roots until nothing new turns up. */
  method ReachFiles(sources: map<string, string>, roots: set<string>, ghost graph: Graph) returns (reachable: set<string>)
    requires roots <= sources.Keys && graph == DeclarationGraph(sources)
    ensures roots <= reachable <= sources.Keys
    ensures AreReached(graph, roots, reachable) && IsClosed(graph, reachable)
  {
    reachable := roots;
    var frontier := Ascending(reachable);
    RootsAreReached(graph, roots);
    while frontier != []
      invariant IsSearching(graph, roots, sources.Keys, reachable, frontier)
      decreases Unreached(sources.Keys, reachable), |frontier|
    {
      reachable, frontier := ExploreNext(sources, roots, graph, reachable, frontier);
    }
    ExploredIsClosed(graph, reachable);
  }

  /** The whole audit: exactly the files no root reaches, once each, in key order. */
  method AuditTestDeclarations(crateName: string, sources: map<string, string>, manifestTargetPaths: set<string>)
    returns (findings: seq<OrphanFinding>)
    ensures forall i :: 0 <= i < |findings| ==> findings[i].kind == "file" && findings[i].crateName == crateName
    ensures forall i, j :: 0 <= i < j < |findings| ==> Before(findings[i].path, findings[j].path)
    ensures forall path :: ListsPath(findings, path) <==>
              path in sources && !IsCompiled(sources, manifestTargetPaths, path)
  {
    ghost var graph := DeclarationGraph(sources);
    var roots := RootPaths(sources, manifestTargetPaths);
    var reachable := ReachFiles(sources, roots, graph);
    ReachedAreCompiled(sources, manifestTargetPaths, graph, roots, reachable);
    var orphans := Ascending(sources.Keys - reachable);
    findings := Findings(crateName, orphans);
    OrphansAreListed(crateName, sources, reachable, orphans, findings);
  }

  lemma ReachedAreCompiled(sources: map<string, string>, manifestTargetPaths: set<string>, graph: Graph, roots: set<string>,
                           reachable: set<string>)
    requires graph == DeclarationGraph(sources) && roots == RootPaths(sources, manifestTargetPaths)
    requires roots <= reachable && AreReached(graph, roots, reachable) && IsClosed(graph, reachable)
    ensures forall path :: path in reachable <==> IsCompiled(sources, manifestTargetPaths, path)
  {
    ReachedIsLeastClosed(graph, roots, reachable);
  }

  lemma OrphansAreListed(crateName: string, sources: map<string, string>, reachable: set<string>, orphans: seq<string>,
                         findings: seq<OrphanFinding>)
    requires orphans == Ascending(sources.Keys - reachable) && findings == Findings(crateName, orphans)
    ensures forall i :: 0 <= i < |findings| ==> findings[i].kind == "file" && findings[i].crateName == crateName
    ensures forall i, j :: 0 <= i < j < |findings| ==> Before(findings[i].path, findings[j].path)
    ensures forall path :: ListsPath(findings, path) <==> path in sources && path !in reachable
  {
    forall path
      ensures ListsPath(findings, path) <==> path in sources && path !in reachable
    {
      FindingsListPaths(crateName, orphans, path);
    }
  }

  ghost predicate ListsPath(findings: seq<OrphanFinding>, path: string) {
    exists i :: 0 <= i < |findings| && findings[i].path == path
  }

  lemma ExpansionKeepsSearch(graph: Graph, roots: set<string>, before: set<string>, after: set<string>, current: string,
                             rest: seq<string>, frontier: seq<string>)
    requires current in before && after == before + Neighbors(graph, current)
    requires AreReached(graph, roots, before) && IsExplored(graph, before, rest + [current])
    requires forall path :: path in frontier <==> path in rest || (path in after && path !in before)
    ensures AreReached(graph, roots, after) && IsExplored(graph, after, frontier)
  {
    forall path | path in after
      ensures IsReachedFrom(graph, roots, path)
    {
      if path !in before {
        ReachedIsClosed(graph, roots, current, path);
      }
    }
    forall path | path in after && path !in frontier
      ensures Neighbors(graph, path) <= after
    {
      assert path in rest + [current] ==> path == current;
    }
  }

  function Findings(crateName: string, paths: seq<string>): (findings: seq<OrphanFinding>)
    ensures |findings| == |paths|
    ensures forall i :: 0 <= i < |paths| ==> findings[i] == OrphanFinding("file", crateName, paths[i])
  {
    seq(|paths|, i requires 0 <= i < |paths| => OrphanFinding("file", crateName, paths[i]))
  }

  lemma FindingsListPaths(crateName: string, paths: seq<string>, path: string)
    ensures ListsPath(Findings(crateName, paths), path) <==> path in paths
  {
    if path in paths {
      var i :| 0 <= i < |paths| && paths[i] == path;
      assert Findings(crateName, paths)[i].path == path;
    }
  }

  /** The compiled files are the least set that holds the roots and follows declarations. */
  lemma CompiledIsLeastFixedPoint(sources: map<string, string>, manifestTargetPaths: set<string>, files: set<string>)
    requires RootPaths(sources, manifestTargetPaths) <= files && IsClosed(DeclarationGraph(sources), files)
    ensures forall path :: IsCompiled(sources, manifestTargetPaths, path) ==> path in files
    ensures forall path :: path in RootPaths(sources, manifestTargetPaths) ==> IsCompiled(sources, manifestTargetPaths, path)
    ensures forall path, next :: IsCompiled(sources, manifestTargetPaths, path) && next in Neighbors(DeclarationGraph(sources), path)
              ==> IsCompiled(sources, manifestTargetPaths, next)
  {
    var graph, roots := DeclarationGraph(sources), RootPaths(sources, manifestTargetPaths);
    ReachedIsLeastClosed(graph, roots, files);
    RootsAreReached(graph, roots);
    forall path, next | IsCompiled(sources, manifestTargetPaths, path) && next in Neighbors(graph, path)
      ensures IsCompiled(sources, manifestTargetPaths, next)
    {
      ReachedIsClosed(graph, roots, path, next);
    }
  }

  /** A path attribute reaches its declaration through attributes, comments and blank lines, and nothing else. */
  lemma {:induction false} PathAttributeReachesDeclaration(lines: seq<string>, attribute: nat, at: nat)
    requires attribute < at <= |lines|
    requires var trimmed := Trim(lines[attribute]); !IsSkipped(trimmed) && StartsWith(trimmed, "#[path")
    requires forall i :: attribute < i < at ==>
               IsSkipped(Trim(lines[i])) || (IsAttribute(Trim(lines[i])) && !StartsWith(Trim(lines[i]), "#[path"))
    ensures PendingPath(lines, at) == ExtractQuotedPath(Trim(lines[attribute]))
    decreases at
  {
    if attribute == at - 1 {
      var trimmed := Trim(lines[attribute]);
      assert trimmed[..2] == trimmed[..6][..2] == "#[";
    } else {
      PathAttributeReachesDeclaration(lines, attribute, at - 1);
    }
  }

  /** Any other statement in between cuts it off. */
  lemma {:induction false} StatementCutsPathAttribute(lines: seq<string>, statement: nat, at: nat)
    requires statement < at <= |lines|
    requires !IsSkipped(Trim(lines[statement])) && !IsAttribute(Trim(lines[statement]))
    requires forall i :: statement < i < at ==>
               IsSkipped(Trim(lines[i])) || (IsAttribute(Trim(lines[i])) && !StartsWith(Trim(lines[i]), "#[path"))
    ensures PendingPath(lines, at) == None
    decreases at
  {
    if statement < at - 1 {
      StatementCutsPathAttribute(lines, statement, at - 1);
    }
  }
}
