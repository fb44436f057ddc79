// The directories a scan walks and those it cannot read
// (xtask/src/retired_native_scan.rs): its two counters count each exactly once.

module ScanCounts {
  import opened Wrappers
  import opened RetiredNativeScan

  /** Which walked directories are asked for: all of them, or those whose listing cannot be read. */
  datatype Question = Walked | Unreadable

  predicate IsAskedFor(question: Question, listing: Listing) {
    question == Walked || !listing.isReadable
  }

  function Answer(question: Question, tally: Tally): nat {
    if question == Walked then tally.walked else tally.unreadable
  }

  // --- The places ---

  function Places(question: Question, path: Path, listing: Listing): set<Path>
    decreases listing
  {
    (if IsAskedFor(question, listing) then {path} else {})
    + (if listing.isReadable then PlacesAmong(question, path, listing.entries) else {})
  }

  function PlacesAmong(question: Question, path: Path, entries: seq<Entry>): set<Path>
    decreases entries
  {
    if entries == [] then {} else PlacesIn(question, path, entries[0]) + PlacesAmong(question, path, entries[1..])
  }

  function PlacesIn(question: Question, path: Path, entry: Entry): set<Path>
    decreases entry
  {
    if entry.node.fileType == Some(Directory) && !IsRetiredCandidateDirectory(path, entry.name) then
      Places(question, path + [entry.name], entry.node.listing)
    else {}
  }

  // --- Which places they are ---

  /** No candidate on the way from one path to another below it, nor there. */
  ghost predicate MeetsNoCandidate(path: Path, below: Path) {
    path <= below && forall k {:trigger below[..k]} :: |path| < k <= |below| ==> !IsCandidate(below[..k])
  }

  /** The directory there is reached through readable listings and directories that are no symlinks and no candidates. */
  ghost predicate IsWalkedTo(question: Question, path: Path, listing: Listing, place: Path) {
    && MeetsNoCandidate(path, place)
    && if place == path then IsAskedFor(question, listing)
       else exists node :: Leads(listing, place[|path|..], node) && IsAskedFor(question, node.listing)
  }

  ghost predicate IsWalkedThrough(question: Question, path: Path, entry: Entry, place: Path) {
    && MeetsNoCandidate(path, place) && place != path
    && exists node :: LeadsThrough(entry, place[|path|..], node) && IsAskedFor(question, node.listing)
  }

  lemma MeetsNoneStep(path: Path, name: string, below: Path)
    requires path + [name] <= below
    ensures MeetsNoCandidate(path, below) <==> !IsRetiredCandidateDirectory(path, name) && MeetsNoCandidate(path + [name], below)
  {
    CandidateHere(path, name);
    assert below[..|path| + 1] == path + [name];
    assert below[..|path|] == path;
  }

  lemma {:induction false} PlacesMean(question: Question, path: Path, listing: Listing, place: Path)
    ensures place in Places(question, path, listing) <==> IsWalkedTo(question, path, listing, place)
    decreases listing
  {
    if listing.isReadable {
      AmongMeans(question, path, listing.entries, place);
    }
    if place != path {
      WalkedThroughSome(question, path, listing, place);
    }
  }

  lemma WalkedThroughSome(question: Question, path: Path, listing: Listing, place: Path)
    requires place != path
    ensures IsWalkedTo(question, path, listing, place) <==>
              listing.isReadable && exists i :: 0 <= i < |listing.entries| && IsWalkedThrough(question, path, listing.entries[i], place)
  {
    if IsWalkedTo(question, path, listing, place) {
      var node :| Leads(listing, place[|path|..], node) && IsAskedFor(question, node.listing);
      var i :| 0 <= i < |listing.entries| && LeadsThrough(listing.entries[i], place[|path|..], node);
      assert IsWalkedThrough(question, path, listing.entries[i], place);
    }
    if listing.isReadable && exists i :: 0 <= i < |listing.entries| && IsWalkedThrough(question, path, listing.entries[i], place) {
      var i :| 0 <= i < |listing.entries| && IsWalkedThrough(question, path, listing.entries[i], place);
      var node :| LeadsThrough(listing.entries[i], place[|path|..], node) && IsAskedFor(question, node.listing);
      assert Leads(listing, place[|path|..], node);
    }
  }

  lemma {:induction false} AmongMeans(question: Question, path: Path, entries: seq<Entry>, place: Path)
    ensures place in PlacesAmong(question, path, entries) <==>
              exists i :: 0 <= i < |entries| && IsWalkedThrough(question, path, entries[i], place)
    decreases entries
  {
    if entries != [] {
      InMeans(question, path, entries[0], place);
      AmongMeans(question, path, entries[1..], place);
      var rest := entries[1..];
      assert forall i :: 0 <= i < |rest| ==> rest[i] == entries[i + 1];
      assert forall i :: 0 < i < |entries| ==> entries[i] == rest[i - 1];
    }
  }

  lemma {:induction false} InMeans(question: Question, path: Path, entry: Entry, place: Path)
    ensures place in PlacesIn(question, path, entry) <==> IsWalkedThrough(question, path, entry, place)
    decreases entry
  {
    var inner := path + [entry.name];
    PlacesMean(question, inner, entry.node.listing, place);
    if inner <= place {
      MeetsNoneStep(path, entry.name, place);
      assert place[|path|..][0] == entry.name && place[|path|..][1..] == place[|inner|..];
      if place == inner {
        assert place[|path|..] == [entry.name];
        ThroughHere(question, path, entry);
      } else {
        ThroughFurther(question, path, entry, place);
      }
    } else if path < place {
      StepIsPrefix(path, entry.name, place);
    }
  }

  lemma ThroughHere(question: Question, path: Path, entry: Entry)
    ensures (exists node :: LeadsThrough(entry, [entry.name], node) && IsAskedFor(question, node.listing)) <==>
              entry.node.fileType == Some(Directory) && IsAskedFor(question, entry.node.listing)
  {
    if entry.node.fileType == Some(Directory) {
      assert LeadsThrough(entry, [entry.name], entry.node);
    }
  }

  lemma ThroughFurther(question: Question, path: Path, entry: Entry, place: Path)
    requires path + [entry.name] < place
    ensures (exists node :: LeadsThrough(entry, place[|path|..], node) && IsAskedFor(question, node.listing)) <==>
              entry.node.fileType == Some(Directory)
              && exists node :: Leads(entry.node.listing, place[|path| + 1..], node) && IsAskedFor(question, node.listing)
  {
    var route := place[|path|..];
    assert route[0] == entry.name && route[1..] == place[|path| + 1..];
    forall node
      ensures LeadsThrough(entry, route, node) <==>
                entry.node.fileType == Some(Directory) && Leads(entry.node.listing, place[|path| + 1..], node)
    {
    }
  }

  // --- How many they are ---

  lemma {:induction false} PlacesAreCounted(question: Question, path: Path, listing: Listing)
    requires HasDistinctNames(listing)
    ensures |Places(question, path, listing)| == Answer(question, TallyOf(path, listing))
    decreases listing
  {
    if listing.isReadable {
      AmongAreCounted(question, path, listing.entries);
      AmongMeans(question, path, listing.entries, path);
      DisjointUnion(if IsAskedFor(question, listing) then {path} else {}, PlacesAmong(question, path, listing.entries));
    }
  }

  lemma DisjointUnion<T>(a: set<T>, b: set<T>)
    requires a !! b
    ensures |a + b| == |a| + |b|
  {
  }

  lemma {:induction false} AmongAreCounted(question: Question, path: Path, entries: seq<Entry>)
    requires forall i, j :: 0 <= i < j < |entries| ==> entries[i].name != entries[j].name
    requires forall i :: 0 <= i < |entries| ==> HasDistinctNames(entries[i].node.listing)
    ensures |PlacesAmong(question, path, entries)| == Answer(question, TallyOfEntries(path, entries))
    decreases entries
  {
    if entries != [] {
      InAreCounted(question, path, entries[0]);
      AmongAreCounted(question, path, entries[1..]);
      forall place | place in PlacesIn(question, path, entries[0]) && place in PlacesAmong(question, path, entries[1..])
        ensures false
      {
        InOnlyOne(question, path, entries, place);
      }
      DisjointUnion(PlacesIn(question, path, entries[0]), PlacesAmong(question, path, entries[1..]));
    }
  }

  lemma {:induction false} InAreCounted(question: Question, path: Path, entry: Entry)
    requires HasDistinctNames(entry.node.listing)
    ensures |PlacesIn(question, path, entry)| == Answer(question, TallyOfEntry(path, entry))
    decreases entry
  {
    PlacesAreCounted(question, path + [entry.name], entry.node.listing);
  }

  lemma InOnlyOne(question: Question, path: Path, entries: seq<Entry>, place: Path)
    requires entries != [] && forall i, j :: 0 <= i < j < |entries| ==> entries[i].name != entries[j].name
    requires place in PlacesIn(question, path, entries[0])
    ensures place !in PlacesAmong(question, path, entries[1..])
  {
    InMeans(question, path, entries[0], place);
    AmongMeans(question, path, entries[1..], place);
    assert entries[0].name == place[|path|..][0];
    forall i | 0 <= i < |entries[1..]|
      ensures !IsWalkedThrough(question, path, entries[1..][i], place)
    {
      assert entries[1..][i] == entries[i + 1];
    }
  }

  /** The two counters of a scan are how many directories it reaches, and how many of those it cannot read. */
  lemma CountersCount(path: Path, listing: Listing, question: Question, places: set<Path>)
    requires HasDistinctNames(listing)
    requires forall place :: place in places <==> IsWalkedTo(question, path, listing, place)
    ensures Answer(question, TallyOf(path, listing)) == |places|
  {
    forall place
      ensures place in places <==> place in Places(question, path, listing)
    {
      PlacesMean(question, path, listing, place);
    }
    assert places == Places(question, path, listing);
    PlacesAreCounted(question, path, listing);
  }
}
