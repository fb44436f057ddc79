// The read-only scan for retired native build output
// (xtask/src/retired_native_scan.rs): two worklist walks over a directory tree,
// and the totals over several, possibly overlapping, scan roots.

module RetiredNativeScan {
  import opened Wrappers
  import opened Sorting
  import opened TextOrder
  import opened TextSearch

  const LEGACY_DIRECTORY_NAME := "mlx-c-runtime-build"
  const REMOVAL_DIRECTORY_PREFIX := ".mlx-c-runtime-build.astronomical-removing-"
  const RUNTIME_BUILD_PREFIX := "astronomical-runtime-integration-"
  const BLOCK_BYTES: nat := 512

  /** A canonical path: the names from the filesystem root down. */
  type Path = seq<string>

  datatype Kind = Directory | Symlink | Other

  /** What lstat answers. */
  datatype Metadata = Metadata(kind: Kind, blocks: nat)

  /**
    * What the filesystem answers about one node: its type as its parent's
    * listing reports it, its metadata, and its own listing. Each can fail apart:
    * a directory that cannot be read still holds what it holds.
    */
  datatype Node = Node(fileType: Option<Kind>, metadata: Option<Metadata>, listing: Listing)

  datatype Listing = Listing(isReadable: bool, entries: seq<Entry>)

  datatype Entry = Entry(name: string, node: Node)

  /** A directory on a walk, with what the filesystem holds there. */
  datatype Visit = Visit(path: Path, node: Node)

  predicate IsRetiredCandidateDirectory(parent: Path, name: string) {
    && (name == LEGACY_DIRECTORY_NAME || StartsWith(name, REMOVAL_DIRECTORY_PREFIX))
    && |parent| >= 3
    && parent[|parent| - 1] == "out"
    && StartsWith(parent[|parent| - 2], RUNTIME_BUILD_PREFIX)
    && parent[|parent| - 3] == "build"
  }

  predicate IsCandidate(path: Path) {
    path != [] && IsRetiredCandidateDirectory(path[..|path| - 1], path[|path| - 1])
  }

  /** The two names a retired directory can have. */
  ghost predicate IsRetiredName(name: string) {
    || name == "mlx-c-runtime-build"
    || exists rest :: name == ".mlx-c-runtime-build.astronomical-removing-" + rest
  }

  lemma PrefixMeans(text: string, prefix: string)
    ensures StartsWith(text, prefix) <==> exists rest :: text == prefix + rest
  {
    if StartsWith(text, prefix) {
      assert text == prefix + text[|prefix|..];
    }
    if rest :| text == prefix + rest {
      assert text[..|prefix|] == prefix;
    }
  }

  ghost predicate IsRetiredPlace(path: Path, root: Path, generation: string, name: string) {
    path == root + ["build", "astronomical-runtime-integration-" + generation, "out", name] && IsRetiredName(name)
  }

  /** A candidate is a retired name in the output folder of a runtime generation under `build`, wherever that lies. */
  lemma CandidateMeans(path: Path)
    ensures IsCandidate(path) <==> exists root, generation, name :: IsRetiredPlace(path, root, generation, name)
  {
    if IsCandidate(path) {
      var end := |path| - 4;
      var name := path[end + 3];
      PrefixMeans(path[end + 1], RUNTIME_BUILD_PREFIX);
      PrefixMeans(name, REMOVAL_DIRECTORY_PREFIX);
      var generation :| path[end + 1] == RUNTIME_BUILD_PREFIX + generation;
      assert path == path[..end] + [path[end], path[end + 1], path[end + 2], name];
      assert IsRetiredPlace(path, path[..end], generation, name);
    }
    if root, generation, name :| IsRetiredPlace(path, root, generation, name) {
      RetiredIsCandidate(path, root, generation, name);
    }
  }

  lemma RetiredIsCandidate(path: Path, root: Path, generation: string, name: string)
    requires IsRetiredPlace(path, root, generation, name)
    ensures IsCandidate(path)
  {
    PrefixMeans("astronomical-runtime-integration-" + generation, RUNTIME_BUILD_PREFIX);
    PrefixMeans(name, REMOVAL_DIRECTORY_PREFIX);
    var end := |root|;
    assert path[end] == "build" && path[end + 1] == RUNTIME_BUILD_PREFIX + generation;
    assert path[end + 2] == "out" && path[end + 3] == name;
    var parent := path[..|path| - 1];
    assert parent[end + 2] == "out" && parent[end + 1] == path[end + 1] && parent[end] == "build";
  }

  // --- Allocated bytes ---

  function BytesBelow(listing: Listing): nat
    decreases listing
  {
    if listing.isReadable then BytesOfEntries(listing.entries) else 0
  }

  function BytesOfEntries(entries: seq<Entry>): nat
    decreases entries
  {
    if entries == [] then 0 else BytesOfEntry(entries[0]) + BytesOfEntries(entries[1..])
  }

  function BytesOfEntry(entry: Entry): nat
    decreases entry
  {
    match entry.node.metadata
    case None => 0
    case Some(metadata) =>
      metadata.blocks * BLOCK_BYTES + (if metadata.kind == Directory then BytesBelow(entry.node.listing) else 0)
  }

  /** The recursive sum over a directory and all that its metadata lets a walk reach. */
  function AllocatedBytes(node: Node): nat {
    (if node.metadata.Some? then node.metadata.value.blocks * BLOCK_BYTES else 0) + BytesBelow(node.listing)
  }

  /** How many nodes a listing holds at every depth: what a walk can still meet. */
  function SizeOfListing(listing: Listing): nat
    decreases listing
  {
    if listing.isReadable then SizeOfEntries(listing.entries) else 0
  }

  function SizeOfEntries(entries: seq<Entry>): nat
    decreases entries
  {
    if entries == [] then 0 else 1 + SizeOfListing(entries[0].node.listing) + SizeOfEntries(entries[1..])
  }

  function FrontierBytes(frontier: seq<Node>): nat {
    if frontier == [] then 0 else FrontierBytes(frontier[..|frontier| - 1]) + BytesBelow(frontier[|frontier| - 1].listing)
  }

  function FrontierSize(frontier: seq<Node>): nat {
    if frontier == [] then 0 else FrontierSize(frontier[..|frontier| - 1]) + 1 + SizeOfListing(frontier[|frontier| - 1].listing)
  }

  lemma FrontierPush(frontier: seq<Node>, node: Node)
    ensures FrontierBytes(frontier + [node]) == FrontierBytes(frontier) + BytesBelow(node.listing)
    ensures FrontierSize(frontier + [node]) == FrontierSize(frontier) + 1 + SizeOfListing(node.listing)
  {
    assert (frontier + [node])[..|frontier|] == frontier;
  }

  /** The worklist walk adds up exactly the recursive sum, in whatever order it visits. */
  method AllocatedBytesUnder(retired: Node) returns (total: nat)
    ensures total == AllocatedBytes(retired)
  {
    total := if retired.metadata.Some? then retired.metadata.value.blocks * BLOCK_BYTES else 0;
    var frontier := [retired];
    while frontier != []
      invariant total + FrontierBytes(frontier) == AllocatedBytes(retired)
      decreases FrontierSize(frontier)
    {
      var visited := frontier[|frontier| - 1];
      frontier := frontier[..|frontier| - 1];
      if !visited.listing.isReadable {
        continue;
      }
      var entries := visited.listing.entries;
      ghost var sizeBefore := FrontierSize(frontier) + 1 + SizeOfEntries(entries);
      var i := 0;
      while i < |entries|
        invariant 0 <= i <= |entries|
        invariant total + FrontierBytes(frontier) + BytesOfEntries(entries[i..]) == AllocatedBytes(retired)
        invariant FrontierSize(frontier) + SizeOfEntries(entries[i..]) < sizeBefore
      {
        var entry := entries[i];
        assert entries[i..][0] == entry && entries[i..][1..] == entries[i + 1..];
        i := i + 1;
        if entry.node.metadata.None? {
          continue;
        }
        total := total + entry.node.metadata.value.blocks * BLOCK_BYTES;
        if entry.node.metadata.value.kind == Directory {
          FrontierPush(frontier, entry.node);
          frontier := frontier + [entry.node];
        }
      }
    }
  }

  // --- One scan root ---

  /** What a walk adds up: directories walked, directories it could not read, candidates found. */
  datatype Tally = Tally(walked: nat, unreadable: nat, found: multiset<Visit>)

  function Add(a: Tally, b: Tally): Tally {
    Tally(a.walked + b.walked, a.unreadable + b.unreadable, a.found + b.found)
  }

  const NOTHING := Tally(0, 0, multiset{})

  function TallyOf(path: Path, listing: Listing): Tally
    decreases listing
  {
    if listing.isReadable then Add(Tally(1, 0, multiset{}), TallyOfEntries(path, listing.entries))
    else Tally(1, 1, multiset{})
  }

  function TallyOfEntries(path: Path, entries: seq<Entry>): Tally
    decreases entries
  {
    if entries == [] then NOTHING else Add(TallyOfEntry(path, entries[0]), TallyOfEntries(path, entries[1..]))
  }

  function TallyOfEntry(path: Path, entry: Entry): Tally
    decreases entry
  {
    if entry.node.fileType != Some(Directory) then NOTHING
    else if IsRetiredCandidateDirectory(path, entry.name) then Tally(0, 0, multiset{Visit(path + [entry.name], entry.node)})
    else TallyOf(path + [entry.name], entry.node.listing)
  }

  function TallyOfFrontier(frontier: seq<Visit>): Tally {
    if frontier == [] then NOTHING
    else Add(TallyOfFrontier(frontier[..|frontier| - 1]), TallyOf(frontier[|frontier| - 1].path, frontier[|frontier| - 1].node.listing))
  }

  lemma TallyPush(frontier: seq<Visit>, visit: Visit)
    ensures TallyOfFrontier(frontier + [visit]) == Add(TallyOfFrontier(frontier), TallyOf(visit.path, visit.node.listing))
  {
    assert (frontier + [visit])[..|frontier|] == frontier;
  }

  /** The bytes of a list of directories, each counted whole. */
  function SumBytes(found: seq<Visit>): nat {
    if found == [] then 0 else AllocatedBytes(found[0].node) + SumBytes(found[1..])
  }

  lemma {:induction false} SumBytesAppends(found: seq<Visit>, visit: Visit)
    ensures SumBytes(found + [visit]) == SumBytes(found) + AllocatedBytes(visit.node)
  {
    if found == [] {
      assert found + [visit] == [visit];
    } else {
      assert (found + [visit])[1..] == found[1..] + [visit];
      SumBytesAppends(found[1..], visit);
    }
  }

  // --- The order of paths ---

  /** `PathBuf` order: component by component. */
  predicate PathBefore(a: Path, b: Path) {
    if b == [] then false
    else if a == [] then true
    else Before(a[0], b[0]) || (a[0] == b[0] && PathBefore(a[1..], b[1..]))
  }

  lemma {:induction false} PathTrichotomy(a: Path, b: Path)
    ensures PathBefore(a, b) || PathBefore(b, a) || a == b
    ensures !(PathBefore(a, b) && PathBefore(b, a))
  {
    if a != [] && b != [] {
      BeforeTrichotomy(a[0], b[0]);
      PathTrichotomy(a[1..], b[1..]);
      if a[0] == b[0] && a[1..] == b[1..] {
        assert a == [a[0]] + a[1..] == [b[0]] + b[1..] == b;
      }
    }
  }

  lemma {:induction false} PathTransitive(a: Path, b: Path, c: Path)
    requires PathBefore(a, b) && PathBefore(b, c)
    ensures PathBefore(a, c)
  {
    if a != [] {
      BeforeTrichotomy(a[0], b[0]);
      BeforeTrichotomy(b[0], c[0]);
      if a[0] == b[0] == c[0] {
        PathTransitive(a[1..], b[1..], c[1..]);
      } else if Before(a[0], b[0]) && Before(b[0], c[0]) {
        BeforeTransitive(a[0], b[0], c[0]);
      }
    }
  }

  predicate IsNotAfter(a: Visit, b: Visit) {
    !PathBefore(b.path, a.path)
  }

  lemma PathOrder()
    ensures IsOrder(IsNotAfter)
  {
    forall a, b
      ensures IsNotAfter(a, b) || IsNotAfter(b, a)
    {
      PathTrichotomy(a.path, b.path);
    }
    forall a, b, c | IsNotAfter(a, b) && IsNotAfter(b, c)
      ensures IsNotAfter(a, c)
    {
      NotAfterTransitive(a.path, b.path, c.path);
    }
  }

  lemma NotAfterTransitive(a: Path, b: Path, c: Path)
    requires !PathBefore(b, a) && !PathBefore(c, b)
    ensures !PathBefore(c, a)
  {
    PathTrichotomy(a, b);
    PathTrichotomy(b, c);
    PathTrichotomy(a, c);
    if PathBefore(a, b) && PathBefore(b, c) {
      PathTransitive(a, b, c);
    }
  }

  lemma {:induction false} InsertKeepsBytes(visit: Visit, found: seq<Visit>)
    ensures SumBytes(Insert(visit, found, IsNotAfter)) == AllocatedBytes(visit.node) + SumBytes(found)
  {
    if found == [] || IsNotAfter(visit, found[0]) {
      assert ([visit] + found)[1..] == found;
    } else {
      InsertKeepsBytes(visit, found[1..]);
    }
  }

  lemma {:induction false} SortKeepsBytes(found: seq<Visit>)
    ensures SumBytes(Sort(found, IsNotAfter)) == SumBytes(found)
  {
    if found != [] {
      SortKeepsBytes(found[1..]);
      InsertKeepsBytes(found[0], Sort(found[1..], IsNotAfter));
    }
  }

  lemma SortedInPathOrder(found: seq<Visit>, sorted: seq<Visit>)
    requires sorted == Sort(found, IsNotAfter)
    ensures IsSorted(sorted, IsNotAfter) && multiset(sorted) == multiset(found) && SumBytes(sorted) == SumBytes(found)
  {
    PathOrder();
    SortSorts(found, IsNotAfter);
    SortHolds(found, IsNotAfter);
    SortKeepsBytes(found);
  }

  // --- The walk ---

  datatype ScanSummary = ScanSummary(directoriesWalked: nat, unreadableDirectories: nat, retired: seq<Visit>, retiredBytes: nat)

  function Found(retired: seq<Visit>): Tally {
    Tally(0, 0, multiset(retired))
  }

  /** What was found and what is still to be walked. */
  ghost function Standing(retired: seq<Visit>, frontier: seq<Visit>): Tally {
    Add(Found(retired), TallyOfFrontier(frontier))
  }

  lemma AddAssociates(a: Tally, b: Tally, c: Tally)
    ensures Add(Add(a, b), c) == Add(a, Add(b, c))
  {
  }

  lemma AddNothing(tally: Tally)
    ensures Add(tally, NOTHING) == tally
    ensures Add(NOTHING, tally) == tally
  {
  }

  lemma StandingFind(retired: seq<Visit>, frontier: seq<Visit>, visit: Visit)
    ensures Standing(retired + [visit], frontier) == Add(Standing(retired, frontier), Found([visit]))
  {
    assert Found(retired + [visit]) == Add(Found(retired), Found([visit]));
    AddSwaps(Found(retired), Found([visit]), TallyOfFrontier(frontier));
  }

  lemma AddSwaps(a: Tally, b: Tally, c: Tally)
    ensures Add(Add(a, b), c) == Add(Add(a, c), b)
  {
  }

  lemma StandingPush(retired: seq<Visit>, frontier: seq<Visit>, visit: Visit)
    ensures Standing(retired, frontier + [visit]) == Add(Standing(retired, frontier), TallyOf(visit.path, visit.node.listing))
  {
    TallyPush(frontier, visit);
    AddAssociates(Found(retired), TallyOfFrontier(frontier), TallyOf(visit.path, visit.node.listing));
  }

  /** The three ways an entry is taken. */
  lemma EntryTallies(path: Path, entry: Entry, visit: Visit)
    requires visit == Visit(path + [entry.name], entry.node)
    ensures TallyOfEntry(path, entry) ==
              if entry.node.fileType != Some(Directory) then NOTHING
              else if IsRetiredCandidateDirectory(path, entry.name) then Found([visit])
              else TallyOf(visit.path, visit.node.listing)
  {
    assert multiset([visit]) == multiset{visit};
  }

  /** A candidate is measured whole. */
  method MeasureCandidate(retired: seq<Visit>, bytes: nat, visit: Visit) returns (allBytes: nat)
    requires bytes == SumBytes(retired)
    ensures allBytes == SumBytes(retired + [visit])
  {
    SumBytesAppends(retired, visit);
    var measured := AllocatedBytesUnder(visit.node);
    allBytes := bytes + measured;
  }

  /** The inner loop's body: an entry is skipped, measured as a candidate, or left for the walk. */
  method ClassifyEntry(path: Path, entry: Entry, retired: seq<Visit>, bytes: nat, frontier: seq<Visit>)
      returns (allRetired: seq<Visit>, allBytes: nat, allFrontier: seq<Visit>)
    requires bytes == SumBytes(retired)
    ensures allBytes == SumBytes(allRetired)
    ensures Standing(allRetired, allFrontier) == Add(Standing(retired, frontier), TallyOfEntry(path, entry))
  {
    allRetired, allBytes, allFrontier := retired, bytes, frontier;
    var visit := Visit(path + [entry.name], entry.node);
    EntryTallies(path, entry, visit);
    if entry.node.fileType != Some(Directory) {
      AddNothing(Standing(retired, frontier));
      return;
    }
    if IsRetiredCandidateDirectory(path, entry.name) {
      StandingFind(retired, frontier, visit);
      allBytes := MeasureCandidate(retired, bytes, visit);
      allRetired := retired + [visit];
    } else {
      StandingPush(retired, frontier, visit);
      allFrontier := frontier + [visit];
    }
  }

  lemma TallyNext(before: Tally, path: Path, entries: seq<Entry>, i: nat)
    requires i < |entries|
    ensures Add(Add(before, TallyOfEntry(path, entries[i])), TallyOfEntries(path, entries[i + 1..])) ==
              Add(before, TallyOfEntries(path, entries[i..]))
  {
    assert entries[i..][0] == entries[i] && entries[i..][1..] == entries[i + 1..];
    AddAssociates(before, TallyOfEntry(path, entries[i]), TallyOfEntries(path, entries[i + 1..]));
  }

  /** The inner loop over one listing. */
  method ClassifyEntries(path: Path, entries: seq<Entry>, retired: seq<Visit>, bytes: nat, frontier: seq<Visit>)
      returns (allRetired: seq<Visit>, allBytes: nat, allFrontier: seq<Visit>)
    requires bytes == SumBytes(retired)
    ensures allBytes == SumBytes(allRetired)
    ensures Standing(allRetired, allFrontier) == Add(Standing(retired, frontier), TallyOfEntries(path, entries))
  {
    allRetired, allBytes, allFrontier := retired, bytes, frontier;
    ghost var goal := Add(Standing(retired, frontier), TallyOfEntries(path, entries));
    var i := 0;
    assert entries[0..] == entries;
    while i < |entries|
      invariant 0 <= i <= |entries|
      invariant Add(Standing(allRetired, allFrontier), TallyOfEntries(path, entries[i..])) == goal
      invariant allBytes == SumBytes(allRetired)
    {
      TallyNext(Standing(allRetired, allFrontier), path, entries, i);
      allRetired, allBytes, allFrontier := ClassifyEntry(path, entries[i], allRetired, allBytes, allFrontier);
      i := i + 1;
    }
    AddNothing(Standing(allRetired, allFrontier));
  }

  /** The worklist walk: the recursive tally, its candidates in path order, each measured whole. */
  method ScanRootForRetiredCandidates(root: Visit) returns (summary: ScanSummary)
    ensures TallyOf(root.path, root.node.listing) ==
              Tally(summary.directoriesWalked, summary.unreadableDirectories, multiset(summary.retired))
    ensures IsSorted(summary.retired, IsNotAfter) && summary.retiredBytes == SumBytes(summary.retired)
  {
    var walked, unreadable, bytes: nat := 0, 0, 0;
    var retired: seq<Visit> := [];
    var frontier := [root];
    ghost var goal := TallyOf(root.path, root.node.listing);
    WalkStarts(root);
    while frontier != []
      invariant Walks(walked, unreadable, retired, frontier, goal)
      invariant bytes == SumBytes(retired)
      decreases goal.walked - walked
    {
      var visited := frontier[|frontier| - 1];
      WalkPops(walked, unreadable, retired, frontier, goal);
      frontier := frontier[..|frontier| - 1];
      walked := walked + 1;
      if !visited.node.listing.isReadable {
        unreadable := unreadable + 1;
        continue;
      }
      retired, bytes, frontier := ClassifyEntries(visited.path, visited.node.listing.entries, retired, bytes, frontier);
    }
    WalkEnds(walked, unreadable, retired, goal);
    var sorted := Sort(retired, IsNotAfter);
    SortedInPathOrder(retired, sorted);
    summary := ScanSummary(walked, unreadable, sorted, bytes);
  }

  /** The directories walked, what was found, and what is still to be walked make up the goal. */
  ghost predicate Walks(walked: nat, unreadable: nat, retired: seq<Visit>, frontier: seq<Visit>, goal: Tally) {
    Add(Tally(walked, unreadable, multiset{}), Standing(retired, frontier)) == goal
  }

  lemma WalkStarts(root: Visit)
    ensures Walks(0, 0, [], [root], TallyOf(root.path, root.node.listing))
  {
    var tally := TallyOf(root.path, root.node.listing);
    TallyPush([], root);
    assert [] + [root] == [root];
    AddNothing(tally);
    assert Standing([], [root]) == tally;
  }

  lemma WalkEnds(walked: nat, unreadable: nat, retired: seq<Visit>, goal: Tally)
    requires Walks(walked, unreadable, retired, [], goal)
    ensures goal == Tally(walked, unreadable, multiset(retired))
  {
    AddNothing(Found(retired));
  }

  /** Popping a directory: its own count joins what was walked, its entries are what is left of it. */
  lemma WalkPops(walked: nat, unreadable: nat, retired: seq<Visit>, frontier: seq<Visit>, goal: Tally)
    requires frontier != [] && Walks(walked, unreadable, retired, frontier, goal)
    ensures var visited, rest := frontier[|frontier| - 1], frontier[..|frontier| - 1];
            && (!visited.node.listing.isReadable ==> Walks(walked + 1, unreadable + 1, retired, rest, goal))
            && (visited.node.listing.isReadable ==>
                  Add(Tally(walked + 1, unreadable, multiset{}),
                      Add(Standing(retired, rest), TallyOfEntries(visited.path, visited.node.listing.entries))) == goal)
    ensures walked < goal.walked
  {
    var visited, rest := frontier[|frontier| - 1], frontier[..|frontier| - 1];
    var own := TallyOf(visited.path, visited.node.listing);
    AddAssociates(Found(retired), TallyOfFrontier(rest), own);
    PopShuffles(walked, unreadable, Standing(retired, rest),
                TallyOfEntries(visited.path, visited.node.listing.entries));
  }

  lemma PopShuffles(walked: nat, unreadable: nat, pending: Tally, entries: Tally)
    ensures Add(Tally(walked, unreadable, multiset{}), Add(pending, Add(Tally(1, 0, multiset{}), entries))) ==
              Add(Tally(walked + 1, unreadable, multiset{}), Add(pending, entries))
    ensures Add(Tally(walked, unreadable, multiset{}), Add(pending, Tally(1, 1, multiset{}))) ==
              Add(Tally(walked + 1, unreadable + 1, multiset{}), pending)
  {
  }

  // --- What the walk finds ---

  /** The route leads from a node to another through readable listings and entries reported as directories. */
  ghost predicate Leads(listing: Listing, route: Path, target: Node)
    requires route != []
    decreases |route|
  {
    listing.isReadable && exists i :: 0 <= i < |listing.entries| && LeadsThrough(listing.entries[i], route, target)
  }

  ghost predicate LeadsThrough(entry: Entry, route: Path, target: Node)
    requires route != []
    decreases |route|, 0
  {
    && entry.name == route[0] && entry.node.fileType == Some(Directory)
    && (if |route| == 1 then entry.node == target else Leads(entry.node.listing, route[1..], target))
  }

  /** The path lies below another and is a candidate with no candidate strictly between them. */
  ghost predicate IsTopmostBelow(path: Path, below: Path) {
    && path < below
    && IsCandidate(below)
    && forall k {:trigger IsCandidate(below[..k])} :: |path| < k < |below| ==> !IsCandidate(below[..k])
  }

  /** What a scan is for: a topmost candidate below the root, reached without a symlink or an unreadable listing. */
  ghost predicate IsRetiredBelow(path: Path, listing: Listing, visit: Visit) {
    IsTopmostBelow(path, visit.path) && Leads(listing, visit.path[|path|..], visit.node)
  }

  lemma CandidateHere(path: Path, name: string)
    ensures IsCandidate(path + [name]) <==> IsRetiredCandidateDirectory(path, name)
  {
    assert (path + [name])[..|path|] == path;
  }

  /** One step down: a path below `path + [name]` is topmost from there exactly when it is from `path`, unless the step itself is a candidate. */
  lemma TopmostStep(path: Path, name: string, below: Path)
    requires |path| + 1 < |below| && path + [name] == below[..|path| + 1]
    ensures IsTopmostBelow(path, below) <==> !IsRetiredCandidateDirectory(path, name) && IsTopmostBelow(path + [name], below)
  {
    CandidateHere(path, name);
    assert below[..|path|] == below[..|path| + 1][..|path|] == path;
    if IsTopmostBelow(path, below) {
      assert !IsCandidate(below[..|path| + 1]);
    }
  }

  lemma {:induction false} FindsInListing(path: Path, listing: Listing, visit: Visit)
    ensures visit in TallyOf(path, listing).found <==> IsRetiredBelow(path, listing, visit)
    decreases listing
  {
    if listing.isReadable {
      var entries := listing.entries;
      if visit in TallyOf(path, listing).found {
        var i := FoundInSome(path, entries, visit);
        FindsInEntry(path, entries[i], visit);
      }
      if IsRetiredBelow(path, listing, visit) {
        var i :| 0 <= i < |entries| && LeadsThrough(entries[i], visit.path[|path|..], visit.node);
        FindsInEntry(path, entries[i], visit);
        SomeIsFound(path, entries, i, visit);
      }
    }
  }

  lemma {:induction false} FindsInEntry(path: Path, entry: Entry, visit: Visit)
    ensures visit in TallyOfEntry(path, entry).found <==>
              IsTopmostBelow(path, visit.path) && LeadsThrough(entry, visit.path[|path|..], visit.node)
    decreases entry
  {
    var below := path + [entry.name];
    FindsInListing(below, entry.node.listing, visit);
    if |visit.path| > |path| {
      var step := visit.path[..|path| + 1];
      StepIsPrefix(path, entry.name, visit.path);
      CandidateHere(path, entry.name);
      if |visit.path| == |path| + 1 {
        assert step == visit.path;
      } else {
        assert visit.path[|path|..][1..] == visit.path[|path| + 1..];
        if below == step {
          TopmostStep(path, entry.name, visit.path);
        }
      }
    }
  }

  lemma StepIsPrefix(path: Path, name: string, place: Path)
    requires |path| < |place|
    ensures place[|path|..][0] == place[|path|]
    ensures path + [name] <= place <==> path + [name] == place[..|path| + 1]
    ensures path + [name] <= place <==> path < place && place[|path|] == name
  {
    assert place[..|path| + 1] == place[..|path|] + [place[|path|]];
  }

  lemma {:induction false} FoundInSome(path: Path, entries: seq<Entry>, visit: Visit) returns (i: nat)
    requires visit in TallyOfEntries(path, entries).found
    ensures i < |entries| && visit in TallyOfEntry(path, entries[i]).found
    decreases |entries|
  {
    if visit in TallyOfEntry(path, entries[0]).found {
      i := 0;
    } else {
      i := FoundInSome(path, entries[1..], visit);
      i := i + 1;
    }
  }

  lemma {:induction false} SomeIsFound(path: Path, entries: seq<Entry>, i: nat, visit: Visit)
    requires i < |entries| && visit in TallyOfEntry(path, entries[i]).found
    ensures visit in TallyOfEntries(path, entries).found
    decreases |entries|
  {
    if i > 0 {
      SomeIsFound(path, entries[1..], i - 1, visit);
    }
  }

  // --- Each candidate once ---

  /** No listing in the tree names two entries alike. */
  ghost predicate HasDistinctNames(listing: Listing)
    decreases listing
  {
    var entries := listing.entries;
    && (forall i, j :: 0 <= i < j < |entries| ==> entries[i].name != entries[j].name)
    && (forall i :: 0 <= i < |entries| ==> HasDistinctNames(entries[i].node.listing))
  }

  /** A scan lists no directory twice, when each listing names its entries apart. */
  lemma {:induction false} FoundOnce(path: Path, listing: Listing, visit: Visit)
    requires HasDistinctNames(listing)
    ensures TallyOf(path, listing).found[visit] <= 1
    decreases listing
  {
    if listing.isReadable {
      FoundOnceAmong(path, listing.entries, visit);
    }
  }

  lemma {:induction false} FoundOnceAmong(path: Path, entries: seq<Entry>, visit: Visit)
    requires forall i, j :: 0 <= i < j < |entries| ==> entries[i].name != entries[j].name
    requires forall i :: 0 <= i < |entries| ==> HasDistinctNames(entries[i].node.listing)
    ensures TallyOfEntries(path, entries).found[visit] <= 1
    decreases entries
  {
    if entries != [] {
      FoundOnce(path + [entries[0].name], entries[0].node.listing, visit);
      FoundOnceAmong(path, entries[1..], visit);
      if visit in TallyOfEntry(path, entries[0]).found && visit in TallyOfEntries(path, entries[1..]).found {
        var i := FoundInSome(path, entries[1..], visit);
        FindsInEntry(path, entries[0], visit);
        FindsInEntry(path, entries[i + 1], visit);
      }
    }
  }

  // --- Over several roots ---

  datatype RetiredScanTotals = RetiredScanTotals(bytes: nat, directories: nat, unreadable: nat)

  ghost predicate IsFoundUnder(roots: seq<Visit>, visit: Visit) {
    exists i :: 0 <= i < |roots| && IsRetiredBelow(roots[i].path, roots[i].node.listing, visit)
  }

  function UnreadableUnder(roots: seq<Visit>): nat {
    if roots == [] then 0
    else UnreadableUnder(roots[..|roots| - 1]) + TallyOf(roots[|roots| - 1].path, roots[|roots| - 1].node.listing).unreadable
  }

  /** The canonical paths of directories that still have one. */
  ghost function CanonicalPaths(visits: seq<Visit>, canonical: Path -> Option<Path>): set<Path> {
    set visit | visit in visits && canonical(visit.path).Some? :: canonical(visit.path).value
  }

  /** The counted directories are found ones, as many as there are canonical paths, and one for each. */
  ghost predicate CountsEachOnce(counted: seq<Visit>, canonical: Path -> Option<Path>, found: seq<Visit>) {
    && (forall visit :: visit in counted ==> visit in found)
    && CanonicalPaths(counted, canonical) == CanonicalPaths(found, canonical)
    && |counted| == |CanonicalPaths(counted, canonical)|
    && AreApart(counted, canonical)
  }

  /** No two have the same canonical path. */
  ghost predicate AreApart(visits: seq<Visit>, canonical: Path -> Option<Path>) {
    && (forall i :: 0 <= i < |visits| ==> canonical(visits[i].path).Some?)
    && (forall i, j :: 0 <= i < j < |visits| ==> canonical(visits[i].path) != canonical(visits[j].path))
  }

  lemma CanonicalPathsGrow(visits: seq<Visit>, canonical: Path -> Option<Path>, visit: Visit)
    ensures CanonicalPaths(visits + [visit], canonical) ==
              CanonicalPaths(visits, canonical) + (if canonical(visit.path).Some? then {canonical(visit.path).value} else {})
  {
    var grown := CanonicalPaths(visits, canonical) + (if canonical(visit.path).Some? then {canonical(visit.path).value} else {});
    forall path
      ensures path in CanonicalPaths(visits + [visit], canonical) <==> path in grown
    {
      if path in CanonicalPaths(visits, canonical) {
        var earlier :| earlier in visits && canonical(earlier.path) == Some(path);
        assert earlier in visits + [visit];
      }
      assert visit in visits + [visit];
    }
  }

  lemma CountSkips(counted: seq<Visit>, canonical: Path -> Option<Path>, found: seq<Visit>, visit: Visit)
    requires CountsEachOnce(counted, canonical, found)
    requires canonical(visit.path).Some? ==> canonical(visit.path).value in CanonicalPaths(counted, canonical)
    ensures CountsEachOnce(counted, canonical, found + [visit])
  {
    CanonicalPathsGrow(found, canonical, visit);
  }

  lemma CountTakes(counted: seq<Visit>, canonical: Path -> Option<Path>, found: seq<Visit>, visit: Visit)
    requires CountsEachOnce(counted, canonical, found)
    requires canonical(visit.path).Some? && canonical(visit.path).value !in CanonicalPaths(counted, canonical)
    ensures CountsEachOnce(counted + [visit], canonical, found + [visit])
    ensures CanonicalPaths(counted + [visit], canonical) == CanonicalPaths(counted, canonical) + {canonical(visit.path).value}
  {
    CanonicalPathsGrow(counted, canonical, visit);
    CanonicalPathsGrow(found, canonical, visit);
    assert forall i :: 0 <= i < |counted| ==> counted[i] in counted;
  }

  /** The counting loop over one root's candidates: those whose canonical path is new are counted and measured. */
  method CountNewlyFound(retired: seq<Visit>, canonical: Path -> Option<Path>, keys: set<Path>,
                         ghost counted: seq<Visit>, ghost found: seq<Visit>)
      returns (allKeys: set<Path>, bytes: nat, directories: nat, ghost allCounted: seq<Visit>)
    requires CountsEachOnce(counted, canonical, found) && keys == CanonicalPaths(counted, canonical)
    ensures CountsEachOnce(allCounted, canonical, found + retired) && allKeys == CanonicalPaths(allCounted, canonical)
    ensures SumBytes(allCounted) == SumBytes(counted) + bytes && |allCounted| == |counted| + directories
  {
    allKeys, allCounted := keys, counted;
    bytes, directories := 0, 0;
    var k := 0;
    assert found + retired[..0] == found;
    while k < |retired|
      invariant 0 <= k <= |retired|
      invariant SumBytes(allCounted) == SumBytes(counted) + bytes && |allCounted| == |counted| + directories
      invariant CountsEachOnce(allCounted, canonical, found + retired[..k]) && allKeys == CanonicalPaths(allCounted, canonical)
    {
      var next := retired[k];
      assert found + retired[..k + 1] == (found + retired[..k]) + [next];
      var canonicalPath := canonical(next.path);
      if canonicalPath.None? || canonicalPath.value in allKeys {
        CountSkips(allCounted, canonical, found + retired[..k], next);
        k := k + 1;
        continue;
      }
      CountTakes(allCounted, canonical, found + retired[..k], next);
      SumBytesAppends(allCounted, next);
      allKeys := allKeys + {canonicalPath.value};
      directories := directories + 1;
      var measured := AllocatedBytesUnder(next.node);
      bytes := bytes + measured;
      allCounted := allCounted + [next];
      k := k + 1;
    }
    assert retired[..|retired|] == retired;
  }

  ghost predicate AreFoundUnder(found: seq<Visit>, roots: seq<Visit>) {
    forall visit :: visit in found <==> IsFoundUnder(roots, visit)
  }

  /** The totals count and measure one found directory for each canonical path that the roots' scans find. */
  ghost predicate AreTotals(totals: RetiredScanTotals, roots: seq<Visit>, canonical: Path -> Option<Path>,
                            counted: seq<Visit>, found: seq<Visit>) {
    && AreFoundUnder(found, roots)
    && CountsEachOnce(counted, canonical, found)
    && totals == RetiredScanTotals(SumBytes(counted), |counted|, UnreadableUnder(roots))
  }

  /**
    * The scan of one root after another. Every directory that some root's scan
    * finds and that still has a canonical path is counted and measured once,
    * however many roots find it.
    */
  method ScanAndAggregateRoots(roots: seq<Visit>, canonical: Path -> Option<Path>) returns (totals: RetiredScanTotals)
    ensures exists counted, found :: AreTotals(totals, roots, canonical, counted, found)
  {
    ghost var counted: seq<Visit>, found: seq<Visit>;
    var keys: set<Path> := {};
    var bytes, directories, unreadable: nat := 0, 0, 0;
    counted, found := [], [];
    var i := 0;
    while i < |roots|
      invariant 0 <= i <= |roots|
      invariant bytes == SumBytes(counted) && directories == |counted| && unreadable == UnreadableUnder(roots[..i])
      invariant CountsEachOnce(counted, canonical, found) && keys == CanonicalPaths(counted, canonical)
      invariant AreFoundUnder(found, roots[..i])
    {
      var summary := ScanRootForRetiredCandidates(roots[i]);
      unreadable := unreadable + summary.unreadableDirectories;
      UnreadableNext(roots, i);
      var newBytes, newDirectories;
      keys, newBytes, newDirectories, counted := CountNewlyFound(summary.retired, canonical, keys, counted, found);
      bytes, directories := bytes + newBytes, directories + newDirectories;
      FoundUnderNext(roots, i, found, summary.retired);
      found := found + summary.retired;
      i := i + 1;
    }
    assert roots[..|roots|] == roots;
    totals := RetiredScanTotals(bytes, directories, unreadable);
    assert AreTotals(totals, roots, canonical, counted, found);
  }

  lemma UnreadableNext(roots: seq<Visit>, i: nat)
    requires i < |roots|
    ensures UnreadableUnder(roots[..i + 1]) == UnreadableUnder(roots[..i]) + TallyOf(roots[i].path, roots[i].node.listing).unreadable
  {
    assert roots[..i + 1][..i] == roots[..i];
  }

  lemma FoundUnderNext(roots: seq<Visit>, i: nat, earlier: seq<Visit>, retired: seq<Visit>)
    requires i < |roots| && AreFoundUnder(earlier, roots[..i])
    requires multiset(retired) == TallyOf(roots[i].path, roots[i].node.listing).found
    ensures AreFoundUnder(earlier + retired, roots[..i + 1])
  {
    forall visit
      ensures visit in earlier + retired <==> IsFoundUnder(roots[..i + 1], visit)
    {
      FindsInListing(roots[i].path, roots[i].node.listing, visit);
      assert visit in retired <==> visit in multiset(retired);
      FoundUnderSplits(roots, i, visit);
    }
  }

  lemma FoundUnderSplits(roots: seq<Visit>, i: nat, visit: Visit)
    requires i < |roots|
    ensures IsFoundUnder(roots[..i + 1], visit) <==>
              IsFoundUnder(roots[..i], visit) || IsRetiredBelow(roots[i].path, roots[i].node.listing, visit)
  {
    var shorter, longer := roots[..i], roots[..i + 1];
    if IsFoundUnder(longer, visit) {
      var k :| 0 <= k < |longer| && IsRetiredBelow(longer[k].path, longer[k].node.listing, visit);
      if k < i {
        assert shorter[k] == longer[k];
      }
    }
    if IsFoundUnder(shorter, visit) {
      var k :| 0 <= k < |shorter| && IsRetiredBelow(shorter[k].path, shorter[k].node.listing, visit);
      assert longer[k] == shorter[k];
    }
    assert longer[i] == roots[i];
  }
}
