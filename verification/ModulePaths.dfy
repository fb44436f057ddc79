// Slash-separated paths as the test declaration audit handles them
// (xtask/src/audit_test_declarations.rs): splitting, joining and the lexical
// resolution of `.` and `..`.

module ModulePaths {
  import opened Wrappers
  import opened TextSearch

  function Segments(path: string): seq<string> {
    SplitOn(path, "/")
  }

  function JoinSegments(segments: seq<string>): string {
    if segments == [] then ""
    else if |segments| == 1 then segments[0]
    else segments[0] + "/" + JoinSegments(segments[1..])
  }

  /** What one segment does to the stack of resolved ones. */
  function PushSegment(resolved: seq<string>, segment: string): seq<string> {
    if segment == "." || segment == "" then resolved
    else if segment == ".." then if resolved == [] then [] else resolved[..|resolved| - 1]
    else resolved + [segment]
  }

  function Resolve(resolved: seq<string>, segments: seq<string>): seq<string>
    decreases |segments|
  {
    if segments == [] then resolved else Resolve(PushSegment(resolved, segments[0]), segments[1..])
  }

  function Normalized(path: string): string {
    JoinSegments(Resolve([], Segments(path)))
  }

  /** The source's loop over a mutable stack. */
  method NormalizeModulePath(path: string) returns (normalized: string)
    ensures normalized == Normalized(path)
  {
    var segments := Segments(path);
    var resolved: seq<string> := [];
    var i := 0;
    while i < |segments|
      invariant 0 <= i <= |segments|
      invariant Resolve([], segments) == Resolve(resolved, segments[i..])
    {
      assert segments[i..][1..] == segments[i + 1..];
      var segment := segments[i];
      if segment != "." && segment != "" {
        if segment == ".." {
          if resolved != [] {
            resolved := resolved[..|resolved| - 1];
          }
        } else {
          resolved := resolved + [segment];
        }
      }
      i := i + 1;
    }
    return JoinSegments(resolved);
  }

  // --- Splitting undoes joining ---

  predicate HasNoSlash(segment: string) {
    LacksChar(segment, '/')
  }

  lemma SlashAt(text: string, at: nat)
    ensures OccursAt(text, "/", at) <==> at < |text| && text[at] == '/'
  {
    if at < |text| {
      assert text[at..at + 1] == [text[at]];
    }
  }

  lemma NoSlashNoMatch(segment: string, at: nat)
    requires HasNoSlash(segment)
    ensures !OccursAt(segment, "/", at)
  {
    SlashAt(segment, at);
  }

  lemma SlashAfter(segment: string, rest: string)
    requires HasNoSlash(segment)
    ensures FindFirst(segment + "/" + rest, "/") == Some(|segment|)
  {
    var text := segment + "/" + rest;
    FindFirstFacts(text, "/");
    SlashAt(text, |segment|);
    forall at: nat | at < |segment|
      ensures !OccursAt(text, "/", at)
    {
      SlashAt(text, at);
      assert text[at] == segment[at];
    }
    assert Contains(text, "/");
  }

  /** A path after a slash-free first segment. */
  lemma SegmentsOfJoined(segment: string, rest: string)
    requires HasNoSlash(segment)
    ensures Segments(segment + "/" + rest) == [segment] + Segments(rest)
  {
    SlashAfter(segment, rest);
    var text := segment + "/" + rest;
    assert text[..|segment|] == segment && text[|segment| + 1..] == rest;
  }

  lemma SegmentsOfOne(segment: string)
    requires HasNoSlash(segment)
    ensures Segments(segment) == [segment]
  {
    FindFirstFacts(segment, "/");
    if FindFirst(segment, "/").Some? {
      NoSlashNoMatch(segment, FindFirst(segment, "/").value);
    }
  }

  lemma {:induction false} SegmentsHaveNoSlash(path: string)
    ensures forall i :: 0 <= i < |Segments(path)| ==> HasNoSlash(Segments(path)[i])
    decreases |path|
  {
    FindFirstFacts(path, "/");
    match FindFirst(path, "/")
    case None =>
      assert Segments(path) == [path];
      forall i | 0 <= i < |path|
        ensures path[i] != '/'
      {
        SlashAt(path, i);
        assert !OccursAt(path, "/", i);
      }
    case Some(at) =>
      SegmentsHaveNoSlash(path[at + 1..]);
      FirstPieceHasNoSlash(path, at);
      assert Segments(path) == [path[..at]] + Segments(path[at + 1..]);
  }

  lemma FirstPieceHasNoSlash(path: string, at: nat)
    requires at <= |path| && forall i: nat :: i < at ==> !OccursAt(path, "/", i)
    ensures HasNoSlash(path[..at])
  {
    forall i | 0 <= i < at
      ensures path[..at][i] != '/'
    {
      SlashAt(path, i);
    }
  }

  lemma {:induction false} SegmentsAppend(a: string, b: string)
    ensures Segments(a + "/" + b) == Segments(a) + Segments(b)
    decreases |a|
  {
    FindFirstFacts(a, "/");
    match FindFirst(a, "/")
    case None =>
      SegmentsHaveNoSlash(a);
      assert Segments(a) == [a];
      assert HasNoSlash(Segments(a)[0]);
      SegmentsOfJoined(a, b);
    case Some(at) =>
      SegmentsAppend(a[at + 1..], b);
      FirstPieceHasNoSlash(a, at);
      SplitAtSlash(a, at, b);
      SegmentsOfJoined(a[..at], a[at + 1..] + "/" + b);
  }

  lemma SplitAtSlash(a: string, at: nat, b: string)
    requires OccursAt(a, "/", at)
    ensures a + "/" + b == a[..at] + "/" + (a[at + 1..] + "/" + b)
  {
    assert a[at..at + 1] == "/";
    assert a == a[..at] + a[at..at + 1] + a[at + 1..];
  }

  lemma {:induction false} SegmentsOfJoin(segments: seq<string>)
    requires segments != [] && forall i :: 0 <= i < |segments| ==> HasNoSlash(segments[i])
    ensures Segments(JoinSegments(segments)) == segments
  {
    if |segments| == 1 {
      SegmentsOfOne(segments[0]);
    } else {
      SegmentsOfJoin(segments[1..]);
      SegmentsOfJoined(segments[0], JoinSegments(segments[1..]));
    }
  }

  // --- The laws of normalization ---

  /** A segment the resolution keeps: not empty, `.` or `..`, and without a slash. */
  predicate IsPlain(segment: string) {
    segment != "" && segment != "." && segment != ".." && HasNoSlash(segment)
  }

  predicate ArePlain(segments: seq<string>) {
    forall i :: 0 <= i < |segments| ==> IsPlain(segments[i])
  }

  lemma {:induction false} ResolvedArePlain(resolved: seq<string>, segments: seq<string>)
    requires ArePlain(resolved) && forall i :: 0 <= i < |segments| ==> HasNoSlash(segments[i])
    ensures ArePlain(Resolve(resolved, segments))
    decreases |segments|
  {
    if segments != [] {
      assert ArePlain(PushSegment(resolved, segments[0]));
      ResolvedArePlain(PushSegment(resolved, segments[0]), segments[1..]);
    }
  }

  lemma {:induction false} PlainResolveToThemselves(resolved: seq<string>, segments: seq<string>)
    requires ArePlain(segments)
    ensures Resolve(resolved, segments) == resolved + segments
    decreases |segments|
  {
    if segments == [] {
      assert resolved + segments == resolved;
    } else {
      assert segments == [segments[0]] + segments[1..];
      PlainResolveToThemselves(resolved + [segments[0]], segments[1..]);
      assert resolved + [segments[0]] + segments[1..] == resolved + segments;
    }
  }

  lemma {:induction false} ResolveAppend(resolved: seq<string>, a: seq<string>, b: seq<string>)
    ensures Resolve(resolved, a + b) == Resolve(Resolve(resolved, a), b)
    decreases |a|
  {
    if a == [] {
      assert a + b == b;
    } else {
      assert (a + b)[1..] == a[1..] + b;
      ResolveAppend(PushSegment(resolved, a[0]), a[1..], b);
    }
  }

  /** The segments a normalized path is made of; the empty path has one empty segment. */
  lemma NormalizedSegments(path: string)
    ensures var resolved := Resolve([], Segments(path));
            && ArePlain(resolved)
            && Segments(Normalized(path)) == if resolved == [] then [""] else resolved
  {
    var resolved := Resolve([], Segments(path));
    SegmentsHaveNoSlash(path);
    ResolvedArePlain([], Segments(path));
    if resolved == [] {
      SegmentsOfOne("");
    } else {
      SegmentsOfJoin(resolved);
    }
  }

  lemma ResolveNormalized(path: string)
    ensures Resolve([], Segments(Normalized(path))) == Resolve([], Segments(path))
  {
    var resolved := Resolve([], Segments(path));
    NormalizedSegments(path);
    if resolved == [] {
      assert [""][1..] == [];
      assert Resolve([], [""]) == Resolve(PushSegment([], ""), [""][1..]);
    } else {
      PlainResolveToThemselves([], resolved);
    }
  }

  /** A normalized path holds no empty segment, no `.` and no `..`. */
  lemma NormalizedIsPlain(path: string)
    ensures Normalized(path) == "" || ArePlain(Segments(Normalized(path)))
  {
    NormalizedSegments(path);
  }

  lemma NormalizeIdempotent(path: string)
    ensures Normalized(Normalized(path)) == Normalized(path)
  {
    ResolveNormalized(path);
  }

  /** Normalizing the directory first changes nothing, even when `..` climbs past its root. */
  lemma NormalizeComposes(directory: string, path: string)
    ensures Normalized(directory + "/" + path) == Normalized(Normalized(directory) + "/" + path)
  {
    SegmentsAppend(directory, path);
    SegmentsAppend(Normalized(directory), path);
    ResolveAppend([], Segments(directory), Segments(path));
    ResolveAppend([], Segments(Normalized(directory)), Segments(path));
    ResolveNormalized(directory);
  }

  // --- What each segment does, told on whole paths ---

  lemma ResolveJoined(directory: string, path: string)
    ensures Resolve([], Segments(directory + "/" + path)) == Resolve(Resolve([], Segments(directory)), Segments(path))
  {
    SegmentsAppend(directory, path);
    ResolveAppend([], Segments(directory), Segments(path));
  }

  lemma ResolveOne(resolved: seq<string>, segment: string)
    requires HasNoSlash(segment)
    ensures Resolve(resolved, Segments(segment)) == PushSegment(resolved, segment)
  {
    SegmentsOfOne(segment);
    assert [segment][1..] == [];
    assert Resolve(resolved, [segment]) == Resolve(PushSegment(resolved, segment), [segment][1..]);
  }

  /** The stack a directory and one more segment leave. */
  lemma ResolveStep(directory: string, segment: string)
    requires HasNoSlash(segment)
    ensures Resolve([], Segments(directory + "/" + segment)) == PushSegment(Resolve([], Segments(directory)), segment)
  {
    ResolveJoined(directory, segment);
    ResolveOne(Resolve([], Segments(directory)), segment);
  }

  lemma SameStackSameEnd(a: string, b: string, path: string)
    requires Resolve([], Segments(a)) == Resolve([], Segments(b))
    ensures Normalized(a + "/" + path) == Normalized(b + "/" + path)
  {
    ResolveJoined(a, path);
    ResolveJoined(b, path);
  }

  lemma PushedSegments(resolved: seq<string>, segment: string)
    requires IsPlain(segment)
    ensures PushSegment(PushSegment(resolved, segment), "..") == resolved
    ensures PushSegment([], "..") == []
    ensures PushSegment(resolved, ".") == PushSegment(resolved, "") == resolved
    ensures HasNoSlash(segment) && HasNoSlash(".") && HasNoSlash("..") && HasNoSlash("")
  {
    assert (resolved + [segment])[..|resolved|] == resolved;
  }

  lemma Regrouped(directory: string, slash: string, segment: string, path: string)
    ensures directory + (slash + segment + slash) + path == directory + slash + segment + slash + path
  {
  }

  /** A `..` takes back exactly the one plain segment before it. */
  lemma DotDotTakesBack(directory: string, segment: string, path: string)
    requires IsPlain(segment)
    ensures Normalized(directory + "/" + segment + "/../" + path) == Normalized(directory + "/" + path)
  {
    var entered := directory + "/" + segment;
    PushedSegments(Resolve([], Segments(directory)), segment);
    ResolveStep(directory, segment);
    ResolveStep(entered, "..");
    SameStackSameEnd(entered + "/" + "..", directory, path);
    Regrouped(entered, "/", "..", path);
    assert "/../" == "/" + ".." + "/";
  }

  lemma EmptyStack(directory: string)
    requires Normalized(directory) == ""
    ensures Resolve([], Segments(directory)) == []
  {
    NormalizedSegments(directory);
    SegmentsOfOne("");
    assert !IsPlain([""][0]);
  }

  /** A `..` is dropped where the segments before it leave nothing to take back. */
  lemma DotDotAtRootIsDropped(directory: string, path: string)
    requires Normalized(directory) == ""
    ensures Normalized(directory + "/../" + path) == Normalized("../" + path) == Normalized(path)
  {
    EmptyStack(directory);
    PushedSegments([], "a");
    ResolveStep(directory, "..");
    ResolveJoined(directory + "/" + "..", path);
    Regrouped(directory, "/", "..", path);
    assert "/../" == "/" + ".." + "/";
    ResolveOne([], "..");
    ResolveJoined("..", path);
    assert "../" == ".." + "/";
  }

  /** A segment the resolution skips: empty, or `.`. */
  predicate IsSkipped(segment: string) {
    segment == "" || segment == "."
  }

  /** An empty segment and a `.` leave no trace, wherever they stand. */
  lemma SkippedLeavesNoTrace(directory: string, segment: string, path: string)
    requires IsSkipped(segment)
    ensures Normalized(directory + "/" + segment + "/" + path) == Normalized(directory + "/" + path)
    ensures Normalized(segment + "/" + path) == Normalized(path) == Normalized(path + "/" + segment)
  {
    PushedSegments(Resolve([], Segments(directory)), "a");
    ResolveStep(directory, segment);
    SameStackSameEnd(directory + "/" + segment, directory, path);
    PushedSegments([], "a");
    ResolveOne([], segment);
    ResolveJoined(segment, path);
    PushedSegments(Resolve([], Segments(path)), "a");
    ResolveStep(path, segment);
  }

  lemma {:induction false} JoinOfSegments(path: string)
    ensures JoinSegments(Segments(path)) == path
    decreases |path|
  {
    FindFirstFacts(path, "/");
    match FindFirst(path, "/")
    case None =>
      assert Segments(path) == [path];
    case Some(at) =>
      JoinOfSegments(path[at + 1..]);
      var rest := Segments(path[at + 1..]);
      assert Segments(path) == [path[..at]] + rest;
      assert Segments(path)[1..] == rest && rest != [];
      assert path == path[..at] + path[at..at + 1] + path[at + 1..];
  }

  /** The normal forms are exactly the empty path and the paths of plain segments. */
  lemma PlainIsNormal(path: string)
    ensures Normalized(path) == path <==> path == "" || ArePlain(Segments(path))
  {
    NormalizedIsPlain(path);
    if path == "" {
      ResolveOne([], "");
    } else if ArePlain(Segments(path)) {
      PlainResolveToThemselves([], Segments(path));
      assert [] + Segments(path) == Segments(path);
      JoinOfSegments(path);
    }
  }
}
