// What overlapping scan roots do to the byte total
// (xtask/src/retired_native_scan.rs): each directory is counted once, but one
// found inside another has its bytes in both sums. All roots lie in one tree.

module ScanOverlap {
  import opened Wrappers
  import opened TextSearch
  import opened RetiredNativeScan

  // --- One tree ---

  function EntryNamed(entries: seq<Entry>, name: string): Option<Entry> {
    if entries == [] then None
    else if entries[0].name == name then Some(entries[0])
    else EntryNamed(entries[1..], name)
  }

  /** What the tree below a node holds at a route, readable or not. */
  function NodeAt(node: Node, route: Path): Option<Node>
    decreases |route|
  {
    if route == [] then Some(node)
    else
      match EntryNamed(node.listing.entries, route[0])
      case None => None
      case Some(entry) => NodeAt(entry.node, route[1..])
  }

  lemma {:induction false} NodeFurtherAlong(node: Node, front: Path, back: Path)
    requires NodeAt(node, front).Some?
    ensures NodeAt(node, front + back) == NodeAt(NodeAt(node, front).value, back)
    decreases |front|
  {
    if front == [] {
      assert front + back == back;
    } else {
      assert (front + back)[1..] == front[1..] + back;
      NodeFurtherAlong(EntryNamed(node.listing.entries, front[0]).value.node, front[1..], back);
    }
  }

  lemma {:induction false} EntryIsNamed(entries: seq<Entry>, i: nat)
    requires i < |entries| && forall k, l :: 0 <= k < l < |entries| ==> entries[k].name != entries[l].name
    ensures EntryNamed(entries, entries[i].name) == Some(entries[i])
  {
    if i > 0 {
      EntryIsNamed(entries[1..], i - 1);
    }
  }

  lemma {:induction false} NamedIsEntry(entries: seq<Entry>, name: string) returns (i: nat)
    requires EntryNamed(entries, name).Some?
    ensures i < |entries| && entries[i] == EntryNamed(entries, name).value && entries[i].name == name
  {
    if entries[0].name == name {
      i := 0;
    } else {
      i := NamedIsEntry(entries[1..], name);
      i := i + 1;
    }
  }

  lemma {:induction false} DistinctNamesBelow(node: Node, route: Path)
    requires HasDistinctNames(node.listing) && NodeAt(node, route).Some?
    ensures HasDistinctNames(NodeAt(node, route).value.listing)
    decreases |route|
  {
    if route != [] {
      var i := NamedIsEntry(node.listing.entries, route[0]);
      DistinctNamesBelow(node.listing.entries[i].node, route[1..]);
    }
  }

  lemma {:induction false} LeadsToNode(node: Node, route: Path, target: Node)
    requires HasDistinctNames(node.listing) && route != [] && Leads(node.listing, route, target)
    ensures NodeAt(node, route) == Some(target)
    decreases |route|
  {
    var entries := node.listing.entries;
    var i :| 0 <= i < |entries| && LeadsThrough(entries[i], route, target);
    EntryIsNamed(entries, i);
    if |route| > 1 {
      LeadsToNode(entries[i].node, route[1..], target);
    }
  }

  /** The visit stands in the tree. */
  predicate IsPlaced(world: Node, visit: Visit) {
    NodeAt(world, visit.path) == Some(visit.node)
  }

  ghost predicate ArePlaced(world: Node, visits: seq<Visit>) {
    forall i :: 0 <= i < |visits| ==> IsPlaced(world, visits[i])
  }

  lemma FoundIsPlaced(world: Node, roots: seq<Visit>, visit: Visit)
    requires HasDistinctNames(world.listing) && ArePlaced(world, roots) && IsFoundUnder(roots, visit)
    ensures IsPlaced(world, visit) && visit.node.fileType == Some(Directory)
  {
    var i :| 0 <= i < |roots| && IsRetiredBelow(roots[i].path, roots[i].node.listing, visit);
    var root, route := roots[i], visit.path[|roots[i].path|..];
    DistinctNamesBelow(world, root.path);
    LeadsToNode(root.node, route, visit.node);
    NodeFurtherAlong(world, root.path, route);
    assert visit.path == root.path + route;
    LeadsToDirectory(root.node.listing, route, visit.node);
  }

  lemma {:induction false} LeadsToDirectory(listing: Listing, route: Path, target: Node)
    requires route != [] && Leads(listing, route, target)
    ensures target.fileType == Some(Directory)
    decreases |route|
  {
    var i :| 0 <= i < |listing.entries| && LeadsThrough(listing.entries[i], route, target);
    if |route| > 1 {
      LeadsToDirectory(listing.entries[i].node.listing, route[1..], target);
    }
  }

  // --- The places one measurement adds up ---

  function MeasuredBelow(path: Path, listing: Listing): set<Path>
    decreases listing
  {
    if listing.isReadable then MeasuredAmong(path, listing.entries) else {}
  }

  function MeasuredAmong(path: Path, entries: seq<Entry>): set<Path>
    decreases entries
  {
    if entries == [] then {} else MeasuredIn(path + [entries[0].name], entries[0].node) + MeasuredAmong(path, entries[1..])
  }

  /** Nothing where the metadata cannot be read; below a node only where it is a directory. */
  function MeasuredIn(path: Path, node: Node): set<Path>
    decreases node
  {
    match node.metadata
    case None => {}
    case Some(metadata) => {path} + (if metadata.kind == Directory then MeasuredBelow(path, node.listing) else {})
  }

  function Measured(visit: Visit): set<Path> {
    {visit.path} + MeasuredBelow(visit.path, visit.node.listing)
  }

  predicate IsDirectory(node: Node) {
    node.metadata.Some? && node.metadata.value.kind == Directory
  }

  /** What a measurement reaches, step by step: listings it can read, directories on the way, metadata at the end. */
  predicate IsMeasuredBelow(listing: Listing, route: Path)
    requires route != []
    decreases |route|
  {
    && listing.isReadable
    && var entry := EntryNamed(listing.entries, route[0]);
    && entry.Some? && entry.value.node.metadata.Some?
    && (|route| == 1 || (IsDirectory(entry.value.node) && IsMeasuredBelow(entry.value.node.listing, route[1..])))
  }

  lemma {:induction false} BelowMeans(path: Path, listing: Listing, place: Path)
    requires HasDistinctNames(listing)
    ensures place in MeasuredBelow(path, listing) <==> path < place && IsMeasuredBelow(listing, place[|path|..])
    decreases listing
  {
    if listing.isReadable {
      AmongMeans(path, listing.entries, place);
    }
  }

  ghost predicate AreDistinct(entries: seq<Entry>) {
    && (forall i, j :: 0 <= i < j < |entries| ==> entries[i].name != entries[j].name)
    && (forall i :: 0 <= i < |entries| ==> HasDistinctNames(entries[i].node.listing))
  }

  lemma {:induction false} AmongMeans(path: Path, entries: seq<Entry>, place: Path)
    requires AreDistinct(entries)
    ensures place in MeasuredAmong(path, entries) <==> path < place && IsMeasuredBelow(Listing(true, entries), place[|path|..])
    decreases entries
  {
    if entries != [] {
      InMeans(path + [entries[0].name], entries[0].node, place);
      AmongMeans(path, entries[1..], place);
      if path < place {
        var route := place[|path|..];
        assert route[0] == place[|path|] && place == path + route;
        if entries[0].name == route[0] {
          NoneNamed(entries[1..], route[0]);
          assert place[|path| + 1..] == route[1..];
        }
      }
    }
  }

  lemma {:induction false} NoneNamed(entries: seq<Entry>, name: string)
    requires forall i :: 0 <= i < |entries| ==> entries[i].name != name
    ensures EntryNamed(entries, name).None?
  {
    if entries != [] {
      NoneNamed(entries[1..], name);
    }
  }

  lemma {:induction false} InMeans(path: Path, node: Node, place: Path)
    requires HasDistinctNames(node.listing)
    ensures place in MeasuredIn(path, node) <==>
              && node.metadata.Some?
              && (path == place || (path < place && IsDirectory(node) && IsMeasuredBelow(node.listing, place[|path|..])))
    decreases node
  {
    BelowMeans(path, node.listing, place);
  }

  // --- How two measurements can meet ---

  /** A place below the directory at `front` is measured exactly when that directory is, and the place from there. */
  lemma {:induction false} MeasuredThrough(node: Node, front: Path, back: Path)
    requires front != [] && back != [] && NodeAt(node, front).Some?
    ensures var middle := NodeAt(node, front).value;
            IsMeasuredBelow(node.listing, front + back) <==>
              IsMeasuredBelow(node.listing, front) && IsDirectory(middle) && IsMeasuredBelow(middle.listing, back)
    decreases |front|
  {
    assert (front + back)[1..] == front[1..] + back;
    var next := EntryNamed(node.listing.entries, front[0]).value.node;
    if |front| == 1 {
      assert (front + back)[1..] == back;
    } else {
      MeasuredThrough(next, front[1..], back);
    }
  }

  lemma MeasuredMeans(visit: Visit, place: Path)
    requires HasDistinctNames(visit.node.listing)
    ensures place in Measured(visit) <==>
              visit.path == place || (visit.path < place && IsMeasuredBelow(visit.node.listing, place[|visit.path|..]))
  {
    BelowMeans(visit.path, visit.node.listing, place);
  }

  /** lstat answers, if at all, that a directory is one. */
  predicate TypesAgree(node: Node) {
    node.metadata.Some? ==> node.metadata.value.kind == Directory
  }

  lemma MeasuredThroughDirectory(outer: Node, front: Path, inner: Node, back: Path)
    requires front != [] && NodeAt(outer, front) == Some(inner) && TypesAgree(inner)
    requires back != [] ==> IsMeasuredBelow(inner.listing, back)
    ensures IsMeasuredBelow(outer.listing, front + back) <==> IsMeasuredBelow(outer.listing, front)
  {
    if back == [] {
      assert front + back == front;
    } else {
      MeasuredThrough(outer, front, back);
      if IsMeasuredBelow(outer.listing, front) {
        MeasuredIsDirectory(outer, front);
      }
    }
  }

  /** A directory inside another: a place of it belongs to the other's measurement as well exactly when the directory itself does. */
  lemma SharedPlace(world: Node, outer: Visit, inner: Visit, place: Path)
    requires HasDistinctNames(world.listing) && IsPlaced(world, outer) && IsPlaced(world, inner)
    requires outer.path < inner.path && TypesAgree(inner.node) && place in Measured(inner)
    ensures place in Measured(outer) <==> inner.path in Measured(outer)
  {
    var front := inner.path[|outer.path|..];
    assert inner.path == outer.path + front;
    DistinctNamesBelow(world, outer.path);
    DistinctNamesBelow(world, inner.path);
    MeasuredMeans(inner, place);
    var back := place[|inner.path|..];
    assert place == inner.path + back && place[|outer.path|..] == front + back;
    MeasuredMeans(outer, place);
    MeasuredMeans(outer, inner.path);
    NodeFurtherAlong(world, outer.path, front);
    MeasuredThroughDirectory(outer.node, front, inner.node, back);
  }

  lemma {:induction false} MeasuredIsDirectory(node: Node, route: Path)
    requires route != [] && IsMeasuredBelow(node.listing, route)
    ensures NodeAt(node, route).Some? && NodeAt(node, route).value.metadata.Some?
    decreases |route|
  {
    if |route| > 1 {
      MeasuredIsDirectory(EntryNamed(node.listing.entries, route[0]).value.node, route[1..]);
    }
  }

  /** Two measurements meet only where one directory is part of the other's. */
  lemma MeetOnlyNested(world: Node, a: Visit, b: Visit, place: Path)
    requires HasDistinctNames(world.listing) && IsPlaced(world, a) && IsPlaced(world, b) && a.path != b.path
    requires TypesAgree(a.node) && TypesAgree(b.node) && place in Measured(a) && place in Measured(b)
    ensures a.path in Measured(b) || b.path in Measured(a)
  {
    DistinctNamesBelow(world, a.path);
    DistinctNamesBelow(world, b.path);
    MeasuredMeans(a, place);
    MeasuredMeans(b, place);
    if |a.path| <= |b.path| {
      assert a.path == b.path[..|a.path|];
      SharedPlace(world, a, b, place);
    } else {
      assert b.path == a.path[..|b.path|];
      SharedPlace(world, b, a, place);
    }
  }

  // --- Bytes of a set of places ---

  function BytesAt(world: Node, place: Path): nat {
    match NodeAt(world, place)
    case None => 0
    case Some(node) => if node.metadata.Some? then node.metadata.value.blocks * 512 else 0
  }

  /** The bytes at some places, each place once. */
  ghost function BytesOf(world: Node, places: set<Path>): nat {
    if places == {} then 0
    else
      var place :| place in places;
      BytesAt(world, place) + BytesOf(world, places - {place})
  }

  lemma {:induction false} BytesWith(world: Node, places: set<Path>, place: Path)
    requires place in places
    ensures BytesOf(world, places) == BytesAt(world, place) + BytesOf(world, places - {place})
    decreases places
  {
    var first :| first in places && BytesOf(world, places) == BytesAt(world, first) + BytesOf(world, places - {first});
    if first != place {
      BytesWith(world, places - {first}, place);
      BytesWith(world, places - {place}, first);
      assert places - {first} - {place} == places - {place} - {first};
    }
  }

  lemma {:induction false} BytesOfBoth(world: Node, a: set<Path>, b: set<Path>)
    ensures BytesOf(world, a + b) + BytesOf(world, a * b) == BytesOf(world, a) + BytesOf(world, b)
    decreases b
  {
    if b == {} {
      assert a + b == a && a * b == {};
    } else {
      var place :| place in b;
      BytesOfBoth(world, a, b - {place});
      BytesWith(world, b, place);
      if place in a {
        assert a + (b - {place}) == a + b && a * b - {place} == a * (b - {place});
        BytesWith(world, a * b, place);
      } else {
        assert a + b - {place} == a + (b - {place}) && a * (b - {place}) == a * b;
        BytesWith(world, a + b, place);
      }
    }
  }

  lemma {:induction false} NoBytes(world: Node, places: set<Path>)
    ensures BytesOf(world, places) == 0 <==> forall place :: place in places ==> BytesAt(world, place) == 0
    decreases places
  {
    if places != {} {
      var place :| place in places;
      BytesWith(world, places, place);
      NoBytes(world, places - {place});
      assert forall other :: other in places ==> other == place || other in places - {place};
    }
  }

  // --- A measurement adds up its places ---

  lemma {:induction false} SumsBelow(world: Node, path: Path, listing: Listing)
    requires HasDistinctNames(listing) && NodeAt(world, path).Some? && NodeAt(world, path).value.listing == listing
    ensures BytesBelow(listing) == BytesOf(world, MeasuredBelow(path, listing))
    decreases listing
  {
    if listing.isReadable {
      var entries := listing.entries;
      forall i | 0 <= i < |entries|
        ensures NodeAt(world, path + [entries[i].name]) == Some(entries[i].node)
      {
        EntryIsNamed(entries, i);
        NodeFurtherAlong(world, path, [entries[i].name]);
      }
      SumsAmong(world, path, entries);
    }
  }

  lemma {:induction false} SumsAmong(world: Node, path: Path, entries: seq<Entry>)
    requires AreDistinct(entries)
    requires forall i :: 0 <= i < |entries| ==> NodeAt(world, path + [entries[i].name]) == Some(entries[i].node)
    ensures BytesOfEntries(entries) == BytesOf(world, MeasuredAmong(path, entries))
    decreases entries
  {
    if entries != [] {
      var first, others := MeasuredIn(path + [entries[0].name], entries[0].node), MeasuredAmong(path, entries[1..]);
      SumsIn(world, path, entries[0]);
      SumsAmong(world, path, entries[1..]);
      FirstIsApart(path, entries);
      BytesOfBoth(world, first, others);
    }
  }

  lemma FirstIsApart(path: Path, entries: seq<Entry>)
    requires entries != [] && AreDistinct(entries)
    ensures MeasuredIn(path + [entries[0].name], entries[0].node) * MeasuredAmong(path, entries[1..]) == {}
  {
    var first, others := MeasuredIn(path + [entries[0].name], entries[0].node), MeasuredAmong(path, entries[1..]);
    forall place | place in first
      ensures place !in others
    {
      InMeans(path + [entries[0].name], entries[0].node, place);
      AmongMeans(path, entries[1..], place);
      NoneNamed(entries[1..], entries[0].name);
    }
  }

  lemma {:induction false} SumsIn(world: Node, path: Path, entry: Entry)
    requires HasDistinctNames(entry.node.listing) && NodeAt(world, path + [entry.name]) == Some(entry.node)
    ensures BytesOfEntry(entry) == BytesOf(world, MeasuredIn(path + [entry.name], entry.node))
    decreases entry
  {
    var place := path + [entry.name];
    if entry.node.metadata.Some? {
      var below := if IsDirectory(entry.node) then MeasuredBelow(place, entry.node.listing) else {};
      SumsBelow(world, place, entry.node.listing);
      BelowMeans(place, entry.node.listing, place);
      BytesWith(world, {place} + below, place);
      assert {place} + below - {place} == below;
    }
  }

  /** What measuring a directory yields is the bytes of the places it reaches. */
  lemma MeasurementIsBytes(world: Node, visit: Visit)
    requires HasDistinctNames(world.listing) && IsPlaced(world, visit)
    ensures AllocatedBytes(visit.node) == BytesOf(world, Measured(visit))
  {
    var below := MeasuredBelow(visit.path, visit.node.listing);
    DistinctNamesBelow(world, visit.path);
    SumsBelow(world, visit.path, visit.node.listing);
    BelowMeans(visit.path, visit.node.listing, visit.path);
    BytesWith(world, Measured(visit), visit.path);
    assert Measured(visit) - {visit.path} == below;
  }

  // --- What is counted twice ---

  /** The inner directory has bytes, and the outer one's measurement reaches it: its bytes are in both sums. */
  predicate CountsTwice(outer: Visit, inner: Visit) {
    inner.path in Measured(outer) && AllocatedBytes(inner.node) > 0
  }

  /** Directories in one tree, at different places, each with a type that lstat confirms. */
  ghost predicate AreDirectories(world: Node, counted: seq<Visit>) {
    && HasDistinctNames(world.listing)
    && ArePlaced(world, counted)
    && (forall i :: 0 <= i < |counted| ==> TypesAgree(counted[i].node))
    && (forall i, j :: 0 <= i < j < |counted| ==> counted[i].path != counted[j].path)
  }

  lemma InnerIsShared(world: Node, outer: Visit, inner: Visit)
    requires AreDirectories(world, [outer, inner]) && inner.path in Measured(outer)
    ensures BytesOf(world, Measured(outer) * Measured(inner)) == AllocatedBytes(inner.node)
  {
    assert IsPlaced(world, [outer, inner][0]) && IsPlaced(world, [outer, inner][1]) && TypesAgree([outer, inner][1].node);
    assert [outer, inner][0].path != [outer, inner][1].path;
    DistinctNamesBelow(world, outer.path);
    MeasuredMeans(outer, inner.path);
    forall place | place in Measured(inner)
      ensures place in Measured(outer)
    {
      SharedPlace(world, outer, inner, place);
    }
    assert Measured(outer) * Measured(inner) == Measured(inner);
    MeasurementIsBytes(world, inner);
  }

  /** Two measurements share bytes exactly when one counts the other's directory twice. */
  lemma SharedBytes(world: Node, a: Visit, b: Visit)
    requires AreDirectories(world, [a, b])
    ensures BytesOf(world, Measured(a) * Measured(b)) > 0 <==> CountsTwice(a, b) || CountsTwice(b, a)
  {
    var shared := Measured(a) * Measured(b);
    Reversed(world, a, b);
    assert shared == Measured(b) * Measured(a);
    if b.path in Measured(a) {
      InnerIsShared(world, a, b);
    }
    if a.path in Measured(b) {
      InnerIsShared(world, b, a);
    }
    if BytesOf(world, shared) > 0 {
      NoBytes(world, shared);
      var place :| place in shared;
      MeetOnlyNested(world, a, b, place);
    }
  }

  lemma Reversed(world: Node, a: Visit, b: Visit)
    requires AreDirectories(world, [a, b])
    ensures AreDirectories(world, [b, a])
    ensures IsPlaced(world, a) && IsPlaced(world, b) && TypesAgree(a.node) && TypesAgree(b.node) && a.path != b.path
  {
    assert IsPlaced(world, [a, b][0]) && IsPlaced(world, [a, b][1]);
    assert TypesAgree([a, b][0].node) && TypesAgree([a, b][1].node) && [a, b][0].path != [a, b][1].path;
  }

  /** Every place that some measurement reaches. */
  function MeasuredTogether(counted: seq<Visit>): set<Path> {
    if counted == [] then {} else Measured(counted[0]) + MeasuredTogether(counted[1..])
  }

  lemma {:induction false} InOneMeasurement(counted: seq<Visit>, place: Path)
    ensures place in MeasuredTogether(counted) <==> exists i :: 0 <= i < |counted| && place in Measured(counted[i])
  {
    if counted != [] {
      InOneMeasurement(counted[1..], place);
      if place in MeasuredTogether(counted[1..]) {
        var i :| 0 <= i < |counted| - 1 && place in Measured(counted[1..][i]);
        assert place in Measured(counted[i + 1]);
      }
      if i :| 0 <= i < |counted| && place in Measured(counted[i]) {
        assert i > 0 ==> counted[1..][i - 1] == counted[i];
      }
    }
  }

  /** A directory shares bytes with the others together exactly when it does with one of them. */
  lemma SharedWithOthers(world: Node, first: Visit, others: seq<Visit>)
    ensures BytesOf(world, Measured(first) * MeasuredTogether(others)) > 0 <==>
              exists i :: 0 <= i < |others| && BytesOf(world, Measured(first) * Measured(others[i])) > 0
  {
    var shared := Measured(first) * MeasuredTogether(others);
    NoBytes(world, shared);
    if BytesOf(world, shared) > 0 {
      var place :| place in shared && BytesAt(world, place) > 0;
      InOneMeasurement(others, place);
      var i :| 0 <= i < |others| && place in Measured(others[i]);
      NoBytes(world, Measured(first) * Measured(others[i]));
      assert place in Measured(first) * Measured(others[i]);
    }
    if i :| 0 <= i < |others| && BytesOf(world, Measured(first) * Measured(others[i])) > 0 {
      NoBytes(world, Measured(first) * Measured(others[i]));
      var place :| place in Measured(first) * Measured(others[i]) && BytesAt(world, place) > 0;
      InOneMeasurement(others, place);
      assert place in shared;
    }
  }

  ghost predicate SomeCountedTwice(counted: seq<Visit>) {
    exists i, j :: 0 <= i < |counted| && 0 <= j < |counted| && i != j && CountsTwice(counted[i], counted[j])
  }

  lemma PairOf(world: Node, counted: seq<Visit>, i: nat)
    requires AreDirectories(world, counted) && 0 < i < |counted|
    ensures AreDirectories(world, [counted[0], counted[i]])
  {
    assert IsPlaced(world, counted[0]) && IsPlaced(world, counted[i]);
  }

  /** The first directory against the others. */
  lemma FirstCountedTwice(world: Node, counted: seq<Visit>)
    requires AreDirectories(world, counted) && counted != []
    ensures BytesOf(world, Measured(counted[0]) * MeasuredTogether(counted[1..])) > 0 <==>
              exists i :: 0 < i < |counted| && (CountsTwice(counted[0], counted[i]) || CountsTwice(counted[i], counted[0]))
  {
    var first, others := counted[0], counted[1..];
    SharedWithOthers(world, first, others);
    forall i | 0 < i < |counted|
      ensures BytesOf(world, Measured(first) * Measured(others[i - 1])) > 0 <==>
                CountsTwice(first, counted[i]) || CountsTwice(counted[i], first)
    {
      PairOf(world, counted, i);
      SharedBytes(world, first, counted[i]);
    }
    if i :| 0 <= i < |others| && BytesOf(world, Measured(first) * Measured(others[i])) > 0 {
      assert others[i] == counted[i + 1] && others[i + 1 - 1] == others[i];
    }
  }

  lemma CountedTwiceSplits(counted: seq<Visit>)
    requires counted != []
    ensures SomeCountedTwice(counted) <==>
              || SomeCountedTwice(counted[1..])
              || exists i :: 0 < i < |counted| && (CountsTwice(counted[0], counted[i]) || CountsTwice(counted[i], counted[0]))
  {
    var others := counted[1..];
    if SomeCountedTwice(others) {
      var i, j :| 0 <= i < |others| && 0 <= j < |others| && i != j && CountsTwice(others[i], others[j]);
      assert CountsTwice(counted[i + 1], counted[j + 1]);
    }
    if SomeCountedTwice(counted) {
      var i, j :| 0 <= i < |counted| && 0 <= j < |counted| && i != j && CountsTwice(counted[i], counted[j]);
      if i > 0 && j > 0 {
        assert CountsTwice(others[i - 1], others[j - 1]);
      }
    }
  }

  /** The separate sums are at least the bytes of all measured places, and exactly those if and only if no directory is counted twice. */
  lemma {:induction false} SumsAgainstUnion(world: Node, counted: seq<Visit>)
    requires AreDirectories(world, counted)
    ensures SumBytes(counted) >= BytesOf(world, MeasuredTogether(counted))
    ensures SumBytes(counted) == BytesOf(world, MeasuredTogether(counted)) <==> !SomeCountedTwice(counted)
  {
    if counted != [] {
      assert IsPlaced(world, counted[0]);
      assert forall i :: 0 < i < |counted| ==> counted[1..][i - 1] == counted[i];
      SumsAgainstUnion(world, counted[1..]);
      MeasurementIsBytes(world, counted[0]);
      BytesOfBoth(world, Measured(counted[0]), MeasuredTogether(counted[1..]));
      FirstCountedTwice(world, counted);
      CountedTwiceSplits(counted);
    }
  }

  // --- The totals of a scan ---

  /** The roots lie in one tree that does not change while it is scanned. */
  ghost predicate AreScannedIn(world: Node, roots: seq<Visit>) {
    && HasDistinctNames(world.listing)
    && ArePlaced(world, roots)
    && (forall visit :: IsFoundUnder(roots, visit) ==> TypesAgree(visit.node))
  }

  lemma CountedAreDirectories(world: Node, roots: seq<Visit>, canonical: Path -> Option<Path>, totals: RetiredScanTotals,
                              counted: seq<Visit>, found: seq<Visit>)
    requires AreScannedIn(world, roots) && AreTotals(totals, roots, canonical, counted, found)
    ensures AreDirectories(world, counted)
    ensures forall i :: 0 <= i < |counted| ==> IsFoundUnder(roots, counted[i])
  {
    forall i | 0 <= i < |counted|
      ensures IsFoundUnder(roots, counted[i]) && IsPlaced(world, counted[i]) && TypesAgree(counted[i].node)
    {
      assert counted[i] in found;
      FoundIsPlaced(world, roots, counted[i]);
    }
  }

  /**
    * The total is at least the bytes of the places measured, each place once. It
    * is more exactly when a counted directory that has bytes lies where the
    * measurement of another counted one reaches it.
    */
  lemma TotalIsUnionUnlessNested(world: Node, roots: seq<Visit>, canonical: Path -> Option<Path>, totals: RetiredScanTotals,
                                 counted: seq<Visit>, found: seq<Visit>)
    requires AreScannedIn(world, roots) && AreTotals(totals, roots, canonical, counted, found)
    ensures totals.bytes >= BytesOf(world, MeasuredTogether(counted))
    ensures totals.bytes == BytesOf(world, MeasuredTogether(counted)) <==> !SomeCountedTwice(counted)
  {
    CountedAreDirectories(world, roots, canonical, totals, counted, found);
    SumsAgainstUnion(world, counted);
  }

  /** No scan root is a candidate directory or lies inside one. */
  predicate NoRootIsInsideCandidate(roots: seq<Visit>) {
    forall i, k {:trigger roots[i].path[..k]} :: 0 <= i < |roots| && 0 <= k <= |roots[i].path| ==> !IsCandidate(roots[i].path[..k])
  }

  lemma OutsideRootsKeepApart(roots: seq<Visit>, outer: Visit, inner: Visit)
    requires IsFoundUnder(roots, outer) && IsFoundUnder(roots, inner) && NoRootIsInsideCandidate(roots)
    ensures !(outer.path < inner.path)
  {
    if outer.path < inner.path {
      var root := RootInside(roots, outer, inner);
    }
  }

  lemma MeasuredLiesInside(world: Node, outer: Visit, inner: Path)
    requires HasDistinctNames(world.listing) && IsPlaced(world, outer) && inner in Measured(outer)
    ensures outer.path <= inner
  {
    DistinctNamesBelow(world, outer.path);
    MeasuredMeans(outer, inner);
  }

  /** What a caller can check before a scan, from the paths of the roots alone: then no byte is counted twice. */
  lemma OutsideRootsCountOnce(world: Node, roots: seq<Visit>, canonical: Path -> Option<Path>, totals: RetiredScanTotals,
                              counted: seq<Visit>, found: seq<Visit>)
    requires AreScannedIn(world, roots) && AreTotals(totals, roots, canonical, counted, found)
    requires NoRootIsInsideCandidate(roots)
    ensures totals.bytes == BytesOf(world, MeasuredTogether(counted))
  {
    CountedAreDirectories(world, roots, canonical, totals, counted, found);
    forall i, j | 0 <= i < |counted| && 0 <= j < |counted| && i != j
      ensures !CountsTwice(counted[i], counted[j])
    {
      if counted[j].path in Measured(counted[i]) {
        assert IsPlaced(world, counted[i]);
        MeasuredLiesInside(world, counted[i], counted[j].path);
        OutsideRootsKeepApart(roots, counted[i], counted[j]);
      }
    }
    assert !SomeCountedTwice(counted);
    TotalIsUnionUnlessNested(world, roots, canonical, totals, counted, found);
  }

  /** When one found directory lies inside another, the root it was found from is the other or lies inside it. */
  lemma RootInside(roots: seq<Visit>, outer: Visit, inner: Visit) returns (root: nat)
    requires IsFoundUnder(roots, outer) && IsFoundUnder(roots, inner) && outer.path < inner.path
    ensures root < |roots| && outer.path <= roots[root].path && IsCandidate(roots[root].path[..|outer.path|])
  {
    var i :| 0 <= i < |roots| && IsRetiredBelow(roots[i].path, roots[i].node.listing, inner);
    root := i;
    assert inner.path[..|outer.path|] == outer.path;
    assert |outer.path| <= |roots[i].path|;
    assert roots[i].path == inner.path[..|roots[i].path|];
    assert roots[i].path[..|outer.path|] == outer.path;
  }

  /** Where canonical paths are the paths themselves, everything found that still has one is counted. */
  lemma AllFoundAreCounted(world: Node, roots: seq<Visit>, canonical: Path -> Option<Path>, totals: RetiredScanTotals,
                           counted: seq<Visit>, found: seq<Visit>, visit: Visit)
    requires AreScannedIn(world, roots) && AreTotals(totals, roots, canonical, counted, found)
    requires forall path :: canonical(path).Some? ==> canonical(path) == Some(path)
    requires IsFoundUnder(roots, visit) && canonical(visit.path).Some?
    ensures visit in counted
  {
    CountedAreDirectories(world, roots, canonical, totals, counted, found);
    assert visit in found && visit.path in CanonicalPaths(found, canonical);
    var other :| other in counted && canonical(other.path) == Some(visit.path);
    FoundIsPlaced(world, roots, visit);
    FoundIsPlaced(world, roots, other);
  }

  /** Of two directories that the roots' scans find, one's measurement reaches the other, which has bytes. */
  ghost predicate SomeFoundCountsTwice(roots: seq<Visit>) {
    exists outer, inner :: IsFoundUnder(roots, outer) && IsFoundUnder(roots, inner) && outer.path != inner.path && CountsTwice(outer, inner)
  }

  /** Where nothing vanishes and canonical paths are the paths themselves, the tree and the roots alone tell when the total is exact. */
  lemma TotalIsUnionFromTree(world: Node, roots: seq<Visit>, canonical: Path -> Option<Path>, totals: RetiredScanTotals,
                             counted: seq<Visit>, found: seq<Visit>)
    requires AreScannedIn(world, roots) && AreTotals(totals, roots, canonical, counted, found)
    requires forall path :: canonical(path) == Some(path)
    ensures totals.bytes == BytesOf(world, MeasuredTogether(counted)) <==> !SomeFoundCountsTwice(roots)
  {
    CountedAreDirectories(world, roots, canonical, totals, counted, found);
    TotalIsUnionUnlessNested(world, roots, canonical, totals, counted, found);
    if SomeCountedTwice(counted) {
      var i, j :| 0 <= i < |counted| && 0 <= j < |counted| && i != j && CountsTwice(counted[i], counted[j]);
      assert counted[i].path != counted[j].path;
      assert IsFoundUnder(roots, counted[i]) && IsFoundUnder(roots, counted[j]);
    }
    if SomeFoundCountsTwice(roots) {
      var outer, inner :| IsFoundUnder(roots, outer) && IsFoundUnder(roots, inner) && outer.path != inner.path && CountsTwice(outer, inner);
      AllFoundAreCounted(world, roots, canonical, totals, counted, found, outer);
      AllFoundAreCounted(world, roots, canonical, totals, counted, found, inner);
      var i :| 0 <= i < |counted| && counted[i] == outer;
      var j :| 0 <= j < |counted| && counted[j] == inner;
      assert SomeCountedTwice(counted);
    }
  }

  // --- An overlap ---

  /** A readable directory that takes up no blocks itself. */
  function Folder(entries: seq<Entry>): Node {
    Node(Some(Directory), Some(Metadata(Directory, 0)), Listing(true, entries))
  }

  /** Folders along a route, and a node at its end. */
  function Chain(route: Path, last: Node): Node {
    if route == [] then last else Folder([Entry(route[0], Chain(route[1..], last))])
  }

  predicate IsFullDirectory(node: Node) {
    node.fileType == Some(Directory) && IsDirectory(node)
  }

  lemma {:induction false} AlongChain(route: Path, last: Node)
    requires IsFullDirectory(last) && HasDistinctNames(last.listing)
    ensures NodeAt(Chain(route, last), route) == Some(last)
    ensures HasDistinctNames(Chain(route, last).listing) && IsFullDirectory(Chain(route, last))
    ensures route != [] ==> Leads(Chain(route, last).listing, route, last) && IsMeasuredBelow(Chain(route, last).listing, route)
  {
    if route != [] {
      var entry := Entry(route[0], Chain(route[1..], last));
      AlongChain(route[1..], last);
      assert Chain(route, last).listing.entries == [entry];
      assert EntryNamed([entry], route[0]) == Some(entry);
      if |route| == 1 {
        assert route[1..] == [];
      }
      assert LeadsThrough([entry][0], route, last);
    }
  }

  lemma {:induction false} ChainSplits(route: Path, k: nat, last: Node)
    requires k <= |route|
    ensures Chain(route[..k], Chain(route[k..], last)) == Chain(route, last)
    decreases k
  {
    if k == 0 {
      assert route[0..] == route;
    } else {
      assert route[..k][1..] == route[1..][..k - 1] && route[k..] == route[1..][k - 1..];
      ChainSplits(route[1..], k - 1, last);
    }
  }

  ghost predicate AreAllDirectories(node: Node) {
    forall place :: NodeAt(node, place).Some? ==> IsDirectory(NodeAt(node, place).value)
  }

  lemma {:induction false} ChainOfDirectories(route: Path, last: Node, place: Path)
    requires AreAllDirectories(last) && NodeAt(Chain(route, last), place).Some?
    ensures IsDirectory(NodeAt(Chain(route, last), place).value)
    decreases |route|
  {
    if route != [] && place != [] {
      var entry := Entry(route[0], Chain(route[1..], last));
      assert EntryNamed([entry], place[0]) == if place[0] == route[0] then Some(entry) else None;
      ChainOfDirectories(route[1..], last, place[1..]);
    }
  }

  /**
    * A retired directory at `front`, reached from a root at its first `k` names,
    * and, inside it, a whole build with a retired directory of its own, reached
    * from a second root at `front`.
    */
  ghost predicate IsNest(front: Path, k: nat, back: Path, last: Node) {
    && k < |front| && back != []
    && IsTopmostBelow(front[..k], front) && IsTopmostBelow(front, front + back)
    && IsFullDirectory(last) && last.listing == Listing(true, []) && AllocatedBytes(last) > 0
  }

  function NestRoots(front: Path, k: nat, back: Path, last: Node): seq<Visit>
    requires k < |front|
  {
    [Visit(front[..k], Chain(front[k..], Chain(back, last))), Visit(front, Chain(back, last))]
  }

  lemma NestIsPlaced(front: Path, k: nat, middle: Node)
    requires k < |front| && IsFullDirectory(middle) && HasDistinctNames(middle.listing)
    ensures NodeAt(Chain(front, middle), front[..k]) == Some(Chain(front[k..], middle))
    ensures NodeAt(Chain(front, middle), front) == Some(middle)
    ensures HasDistinctNames(Chain(front, middle).listing)
  {
    AlongChain(front, middle);
    ChainSplits(front, k, middle);
    AlongChain(front[k..], middle);
    AlongChain(front[..k], Chain(front[k..], middle));
  }

  lemma NestIsInOneTree(front: Path, k: nat, back: Path, last: Node)
    requires IsNest(front, k, back, last)
    ensures AreScannedIn(Chain(front, Chain(back, last)), NestRoots(front, k, back, last))
  {
    var middle, roots := Chain(back, last), NestRoots(front, k, back, last);
    var world := Chain(front, middle);
    AlongChain(back, last);
    NestIsPlaced(front, k, middle);
    assert ArePlaced(world, roots);
    forall visit | IsFoundUnder(roots, visit)
      ensures TypesAgree(visit.node)
    {
      FoundIsPlaced(world, roots, visit);
      NestOfDirectories(front, back, last, visit.path);
    }
  }

  lemma NestOfDirectories(front: Path, back: Path, last: Node, place: Path)
    requires IsDirectory(last) && last.listing == Listing(true, [])
    requires NodeAt(Chain(front, Chain(back, last)), place).Some?
    ensures IsDirectory(NodeAt(Chain(front, Chain(back, last)), place).value)
  {
    assert AreAllDirectories(last);
    forall tail | NodeAt(Chain(back, last), tail).Some?
      ensures IsDirectory(NodeAt(Chain(back, last), tail).value)
    {
      ChainOfDirectories(back, last, tail);
    }
    ChainOfDirectories(front, Chain(back, last), place);
  }

  /** The one root's scan finds the outer directory, the other's the inner one, and measuring the outer reaches the inner. */
  lemma NestIsFound(front: Path, k: nat, back: Path, last: Node)
    requires IsNest(front, k, back, last)
    ensures IsFoundUnder(NestRoots(front, k, back, last), Visit(front, Chain(back, last)))
    ensures IsFoundUnder(NestRoots(front, k, back, last), Visit(front + back, last))
    ensures CountsTwice(Visit(front, Chain(back, last)), Visit(front + back, last))
  {
    var roots, middle := NestRoots(front, k, back, last), Chain(back, last);
    AlongChain(back, last);
    AlongChain(front[k..], middle);
    assert IsRetiredBelow(roots[0].path, roots[0].node.listing, Visit(front, middle));
    assert (front + back)[|front|..] == back;
    assert IsRetiredBelow(roots[1].path, roots[1].node.listing, Visit(front + back, last));
    MeasuredMeans(Visit(front, middle), front + back);
  }

  /** A scan of such roots reports more bytes than the places it measured hold. */
  lemma NestCountsTwice(front: Path, k: nat, back: Path, last: Node, canonical: Path -> Option<Path>,
                        totals: RetiredScanTotals, counted: seq<Visit>, found: seq<Visit>)
    requires IsNest(front, k, back, last)
    requires forall path :: canonical(path) == Some(path)
    requires AreTotals(totals, NestRoots(front, k, back, last), canonical, counted, found)
    ensures totals.bytes > BytesOf(Chain(front, Chain(back, last)), MeasuredTogether(counted))
  {
    var world, roots := Chain(front, Chain(back, last)), NestRoots(front, k, back, last);
    var outer, inner := Visit(front, Chain(back, last)), Visit(front + back, last);
    NestIsInOneTree(front, k, back, last);
    NestIsFound(front, k, back, last);
    AllFoundAreCounted(world, roots, canonical, totals, counted, found, outer);
    AllFoundAreCounted(world, roots, canonical, totals, counted, found, inner);
    var i :| 0 <= i < |counted| && counted[i] == outer;
    var j :| 0 <= j < |counted| && counted[j] == inner;
    assert SomeCountedTwice(counted);
    TotalIsUnionUnlessNested(world, roots, canonical, totals, counted, found);
  }

  const OUTER: Path := ["t", "build", "astronomical-runtime-integration-a", "out", "mlx-c-runtime-build"]
  const INWARD: Path := ["build", "astronomical-runtime-integration-b", "out", "mlx-c-runtime-build"]

  /** A directory of eight blocks. */
  const LEAF := Node(Some(Directory), Some(Metadata(Directory, 8)), Listing(true, []))

  lemma OuterIsTopmost()
    ensures IsTopmostBelow(OUTER[..1], OUTER)
  {
    assert OUTER[4] == LEGACY_DIRECTORY_NAME;
    forall k {:trigger OUTER[..k]} | 1 < k < |OUTER|
      ensures !IsCandidate(OUTER[..k])
    {
      assert |OUTER[..k][..k - 1]| < 4;
    }
  }

  lemma InnerIsTopmost()
    ensures IsTopmostBelow(OUTER, OUTER + INWARD)
  {
    var inner := OUTER + INWARD;
    assert inner[..8] == OUTER + ["build", "astronomical-runtime-integration-b", "out"];
    assert inner[8] == LEGACY_DIRECTORY_NAME && inner[..5] == OUTER;
    forall k {:trigger inner[..k]} | 5 < k < |inner|
      ensures !IsCandidate(inner[..k])
    {
      assert inner[..k][k - 1] == INWARD[k - 6];
      assert k < 9 ==> INWARD[k - 6] == "build" || INWARD[k - 6] == "astronomical-runtime-integration-b" || INWARD[k - 6] == "out";
    }
  }

  /** Such a nest: a target directory, and a second build's output left inside its retired directory. */
  lemma OverlapIsNest()
    ensures IsNest(OUTER, 1, INWARD, LEAF)
  {
    OuterIsTopmost();
    InnerIsTopmost();
    assert AllocatedBytes(LEAF) == 8 * BLOCK_BYTES;
  }

  lemma OverlapCountsTwice(canonical: Path -> Option<Path>, totals: RetiredScanTotals, counted: seq<Visit>, found: seq<Visit>)
    requires forall path :: canonical(path) == Some(path)
    requires AreTotals(totals, NestRoots(OUTER, 1, INWARD, LEAF), canonical, counted, found)
    ensures totals.bytes > BytesOf(Chain(OUTER, Chain(INWARD, LEAF)), MeasuredTogether(counted))
  {
    OverlapIsNest();
    NestCountsTwice(OUTER, 1, INWARD, LEAF, canonical, totals, counted, found);
  }
}
