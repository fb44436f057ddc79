// The crate layering check (xtask/src/check_architecture.rs): the dependency
// graph read from package records, the breadth-first search for a forbidden
// chain, and the rules that use both.

module Architecture {
  import opened Wrappers
  import opened TextOrder
  import opened Graphs

  ghost predicate NoRepeats(chain: seq<string>) {
    forall i, j :: 0 <= i < j < |chain| ==> chain[i] != chain[j]
  }

  /** A chain no other chain between the same two crates is shorter than. */
  ghost predicate IsShortest(graph: Graph, start: string, target: string, chain: seq<string>) {
    && Links(graph, start, target, chain)
    && NoRepeats(chain)
    && forall other :: Links(graph, start, target, other) ==> |chain| <= |other|
  }

  // --- What the search maintains ---

  ghost predicate HasParent(graph: Graph, from: map<string, string>, depth: map<string, nat>, crate: string)
    requires from.Keys == depth.Keys && crate in from
  {
    var parent := from[crate];
    parent in depth && crate in Neighbors(graph, parent) && depth[crate] == depth[parent] + 1
  }

  /** Every discovered crate but the start was discovered from a crate one hop nearer. */
  ghost predicate ParentsFit(graph: Graph, start: string, from: map<string, string>, depth: map<string, nat>) {
    && from.Keys == depth.Keys
    && start in depth && depth[start] == 0
    && forall crate {:trigger HasParent(graph, from, depth, crate)} ::
         crate in from && crate != start ==> HasParent(graph, from, depth, crate)
  }

  /** The queue holds discovered crates once each, nearest first, spanning at most two depths. */
  ghost predicate QueueFits(depth: map<string, nat>, queue: seq<string>) {
    && (forall i :: 0 <= i < |queue| ==> queue[i] in depth)
    && (forall i, j :: 0 <= i < j < |queue| ==> queue[i] != queue[j] && depth[queue[i]] <= depth[queue[j]])
    && (queue != [] ==> depth[queue[|queue| - 1]] <= depth[queue[0]] + 1)
  }

  /** Discovered crates are visited or queued; a visited crate has all its neighbours discovered. */
  ghost predicate VisitedFits(graph: Graph, depth: map<string, nat>, queue: seq<string>, visited: set<string>) {
    && visited <= depth.Keys
    && (forall crate :: crate in depth ==> crate in visited || crate in queue)
    && (forall crate, next :: crate in visited && next in Neighbors(graph, crate) ==>
          next in depth && depth[next] <= depth[crate] + 1)
    && (forall waiting :: waiting in queue ==> waiting in depth)
    && (forall crate, waiting :: crate in visited && waiting in queue ==> depth[crate] <= depth[waiting])
  }

  /** The crates a search can ever discover. */
  ghost function Universe(graph: Graph, start: string): set<string> {
    {start} + set crate, next | crate in graph && next in graph[crate] :: next
  }

  /** Nothing shorter than the front of the queue escapes the search. */
  lemma {:induction false} ChainIsDiscovered(graph: Graph, depth: map<string, nat>, queue: seq<string>, visited: set<string>,
                                             bound: nat, chain: seq<string>)
    requires QueueFits(depth, queue) && VisitedFits(graph, depth, queue, visited)
    requires chain != [] && IsChain(graph, chain) && chain[0] in depth && depth[chain[0]] == 0
    requires forall waiting :: waiting in queue ==> bound <= depth[waiting]
    requires |chain| - 1 <= bound
    ensures chain[|chain| - 1] in depth && depth[chain[|chain| - 1]] <= |chain| - 1
  {
    if |chain| > 1 {
      var shorter := chain[..|chain| - 1];
      assert IsChain(graph, shorter) by {
        forall i | 0 <= i < |shorter| - 1
          ensures shorter[i + 1] in Neighbors(graph, shorter[i])
        {
          assert chain[i + 1] in Neighbors(graph, chain[i]);
        }
      }
      ChainIsDiscovered(graph, depth, queue, visited, bound, shorter);
      var last := shorter[|shorter| - 1];
      assert last == chain[|chain| - 2];
      assert chain[|chain| - 2 + 1] in Neighbors(graph, chain[|chain| - 2]);
      assert last in visited;
    }
  }

  /** With an empty queue the discovered crates are closed, so an undiscovered crate is unreachable. */
  lemma ExhaustedMeansUnreachable(graph: Graph, start: string, target: string, depth: map<string, nat>, visited: set<string>)
    requires start in depth && depth[start] == 0
    requires VisitedFits(graph, depth, [], visited)
    requires target !in visited
    ensures !Reaches(graph, start, target)
  {
    forall chain | Links(graph, start, target, chain)
      ensures false
    {
      ChainIsDiscovered(graph, depth, [], visited, |chain| - 1, chain);
    }
  }

  lemma FrontIsNearest(graph: Graph, start: string, target: string, depth: map<string, nat>, queue: seq<string>,
                       visited: set<string>, other: seq<string>)
    requires start in depth && depth[start] == 0
    requires queue != [] && queue[0] == target && target !in visited
    requires QueueFits(depth, queue) && VisitedFits(graph, depth, queue, visited)
    requires Links(graph, start, target, other)
    ensures depth[target] + 1 <= |other|
  {
    if |other| - 1 < depth[target] {
      ChainIsDiscovered(graph, depth, queue, visited, depth[target], other);
      assert false;
    }
  }

  /** `reversed` climbs parent pointers from `top`, one depth at a time. */
  ghost predicate Climbs(graph: Graph, depth: map<string, nat>, top: nat, reversed: seq<string>) {
    && |reversed| <= top + 1
    && (forall i :: 0 <= i < |reversed| ==> reversed[i] in depth && depth[reversed[i]] == top - i)
    && (forall i, j :: 0 <= i && j == i + 1 && j < |reversed| ==> reversed[i] in Neighbors(graph, reversed[j]))
  }

  lemma ClimbReversedIsChain(graph: Graph, depth: map<string, nat>, top: nat, reversed: seq<string>)
    requires Climbs(graph, depth, top, reversed)
    ensures IsChain(graph, Reversed(reversed)) && NoRepeats(Reversed(reversed))
  {
    var chain := Reversed(reversed);
    forall i | 0 <= i < |chain| - 1
      ensures chain[i + 1] in Neighbors(graph, chain[i])
    {
      var lower := |reversed| - 2 - i;
      assert reversed[lower] in Neighbors(graph, reversed[lower + 1]);
    }
    forall i, j | 0 <= i < j < |chain|
      ensures chain[i] != chain[j]
    {
      assert depth[chain[i]] == top - (|reversed| - 1 - i);
      assert depth[chain[j]] == top - (|reversed| - 1 - j);
    }
  }

  /** Walks the parent pointers back from the target, as the search does once it finds it. */
  method WalkBack(graph: Graph, start: string, target: string, from: map<string, string>, ghost depth: map<string, nat>)
    returns (chain: seq<string>)
    requires ParentsFit(graph, start, from, depth)
    requires target in from
    ensures Links(graph, start, target, chain) && NoRepeats(chain) && |chain| == depth[target] + 1
  {
    var reversed: seq<string> := [];
    var walk := target;
    while walk != start
      invariant walk in from && depth[walk] <= depth[target]
      invariant |reversed| == depth[target] - depth[walk]
      invariant Climbs(graph, depth, depth[target], reversed + [walk])
      invariant (reversed + [walk])[0] == target
      decreases depth[walk]
    {
      assert HasParent(graph, from, depth, walk);
      ghost var climbed := reversed + [walk];
      reversed := reversed + [walk];
      walk := from[walk];
      assert forall i :: 0 <= i < |climbed| ==> (reversed + [walk])[i] == climbed[i];
    }
    reversed := reversed + [start];
    chain := Reversed(reversed);
    ClimbReversedIsChain(graph, depth, depth[target], reversed);
  }

  function Reversed(texts: seq<string>): (reversed: seq<string>)
    ensures |reversed| == |texts|
    ensures forall i :: 0 <= i < |texts| ==> reversed[i] == texts[|texts| - 1 - i]
  {
    seq(|texts|, i requires 0 <= i < |texts| => texts[|texts| - 1 - i])
  }

  /** The state while the neighbours of `current`, just taken off the queue, are looked at. */
  ghost predicate Expanding(graph: Graph, start: string, from: map<string, string>, depth: map<string, nat>,
                            queue: seq<string>, visited: set<string>, current: string) {
    && ParentsFit(graph, start, from, depth)
    && QueueFits(depth, queue)
    && current in depth
    && VisitedFits(graph, depth, [current] + queue, visited)
    && WaitingFits(depth, queue, visited, current)
    && depth.Keys <= Universe(graph, start)
  }

  /** What waits was not visited yet and is no nearer than `current`, nor more than one edge further. */
  ghost predicate WaitingFits(depth: map<string, nat>, queue: seq<string>, visited: set<string>, current: string) {
    && current in depth
    && forall waiting :: waiting in queue ==>
         && waiting !in visited && waiting != current
         && waiting in depth && depth[current] <= depth[waiting] <= depth[current] + 1
  }

  lemma DiscoveryKeepsWaiting(depth: map<string, nat>, queue: seq<string>, visited: set<string>, current: string, neighbor: string)
    requires WaitingFits(depth, queue, visited, current) && neighbor !in depth && neighbor !in visited
    ensures WaitingFits(depth[neighbor := depth[current] + 1], queue + [neighbor], visited, current)
  {
  }

  lemma DiscoveryKeepsParents(graph: Graph, start: string, from: map<string, string>, depth: map<string, nat>,
                              current: string, neighbor: string)
    requires ParentsFit(graph, start, from, depth)
    requires current in depth && neighbor in Neighbors(graph, current) && neighbor !in from
    ensures ParentsFit(graph, start, from[neighbor := current], depth[neighbor := depth[current] + 1])
  {
    var from', depth' := from[neighbor := current], depth[neighbor := depth[current] + 1];
    assert from'.Keys == from.Keys + {neighbor} == depth'.Keys;
    forall crate | crate in from' && crate != start
      ensures HasParent(graph, from', depth', crate)
    {
      if crate != neighbor {
        assert HasParent(graph, from, depth, crate);
      }
    }
  }

  lemma DiscoveryKeepsQueue(depth: map<string, nat>, queue: seq<string>, current: string, neighbor: string)
    requires QueueFits(depth, queue) && current in depth && neighbor !in depth
    requires forall i :: 0 <= i < |queue| ==> depth[current] <= depth[queue[i]] <= depth[current] + 1
    ensures QueueFits(depth[neighbor := depth[current] + 1], queue + [neighbor])
  {
  }

  lemma DiscoveryKeepsVisited(graph: Graph, depth: map<string, nat>, queue: seq<string>, visited: set<string>,
                              current: string, neighbor: string)
    requires VisitedFits(graph, depth, [current] + queue, visited)
    requires current in depth && neighbor !in depth
    ensures VisitedFits(graph, depth[neighbor := depth[current] + 1], [current] + (queue + [neighbor]), visited)
  {
    var depth' := depth[neighbor := depth[current] + 1];
    var waitingBefore, waitingAfter := [current] + queue, [current] + (queue + [neighbor]);
    assert waitingAfter == waitingBefore + [neighbor];
    assert current in waitingBefore;
    forall crate, next | crate in visited && next in Neighbors(graph, crate)
      ensures next in depth' && depth'[next] <= depth'[crate] + 1
    {
      assert next in depth;
    }
  }

  lemma DiscoveryKeepsExpanding(graph: Graph, start: string, from: map<string, string>, depth: map<string, nat>,
                                queue: seq<string>, visited: set<string>, current: string, neighbor: string)
    requires Expanding(graph, start, from, depth, queue, visited, current)
    requires neighbor in Neighbors(graph, current) && neighbor !in from
    ensures Expanding(graph, start, from[neighbor := current], depth[neighbor := depth[current] + 1],
                      queue + [neighbor], visited, current)
  {
    DiscoveryKeepsParents(graph, start, from, depth, current, neighbor);
    DiscoveryKeepsQueue(depth, queue, current, neighbor);
    DiscoveryKeepsVisited(graph, depth, queue, visited, current, neighbor);
    DiscoveryKeepsWaiting(depth, queue, visited, current, neighbor);
    assert neighbor in Universe(graph, start);
  }

  /** Taking the front off the queue starts an expansion of it. */
  lemma TakeFront(graph: Graph, start: string, from: map<string, string>, depth: map<string, nat>,
                  queue: seq<string>, visited: set<string>)
    requires ParentsFit(graph, start, from, depth) && QueueFits(depth, queue) && VisitedFits(graph, depth, queue, visited)
    requires forall waiting :: waiting in queue ==> waiting !in visited
    requires depth.Keys <= Universe(graph, start) && queue != []
    ensures Expanding(graph, start, from, depth, queue[1..], visited, queue[0])
  {
    assert queue == [queue[0]] + queue[1..];
    QueueTailFits(depth, queue);
    forall waiting | waiting in queue[1..]
      ensures waiting !in visited && waiting != queue[0] && depth[queue[0]] <= depth[waiting] <= depth[queue[0]] + 1
    {
      WaitingIsLater(depth, queue, visited, waiting);
    }
  }

  lemma QueueTailFits(depth: map<string, nat>, queue: seq<string>)
    requires QueueFits(depth, queue) && queue != []
    ensures queue[0] in depth && QueueFits(depth, queue[1..])
  {
    var tail := queue[1..];
    assert forall i :: 0 <= i < |tail| ==> tail[i] == queue[i + 1];
    assert tail != [] ==> depth[queue[0]] <= depth[tail[0]] && tail[|tail| - 1] == queue[|queue| - 1];
  }

  lemma WaitingIsLater(depth: map<string, nat>, queue: seq<string>, visited: set<string>, waiting: string)
    requires QueueFits(depth, queue) && queue != [] && waiting in queue[1..]
    requires forall crate :: crate in queue ==> crate !in visited
    ensures waiting in depth && queue[0] in depth && waiting != queue[0] && waiting !in visited
    ensures depth[queue[0]] <= depth[waiting] <= depth[queue[0]] + 1
  {
    var i :| 1 <= i < |queue| && queue[i] == waiting;
    assert queue[i] in queue && queue[0] in queue;
    assert i < |queue| - 1 ==> depth[queue[i]] <= depth[queue[|queue| - 1]];
  }

  /** Once every neighbour is discovered the front counts as visited. */
  lemma FinishFront(graph: Graph, depth: map<string, nat>, queue: seq<string>, visited: set<string>, current: string)
    requires current in depth && VisitedFits(graph, depth, [current] + queue, visited)
    requires forall next :: next in Neighbors(graph, current) ==> next in depth && depth[next] <= depth[current] + 1
    requires forall waiting :: waiting in queue ==> waiting in depth && depth[current] <= depth[waiting]
    ensures VisitedFits(graph, depth, queue, visited + {current})
  {
    assert forall waiting :: waiting in [current] + queue <==> waiting == current || waiting in queue;
  }

  /** The crates are discovered, no further away than one edge from `current`. */
  ghost predicate AreNear(depth: map<string, nat>, current: string, crates: seq<string>) {
    current in depth && forall crate :: crate in crates ==> crate in depth && depth[crate] <= depth[current] + 1
  }

  lemma DiscoveredIsNear(depth: map<string, nat>, current: string, crates: seq<string>, neighbor: string)
    requires AreNear(depth, current, crates) && neighbor !in depth
    ensures AreNear(depth[neighbor := depth[current] + 1], current, crates + [neighbor])
  {
  }

  /** One neighbour of `current`: discovered now, unless it was before. */
  method DiscoverNeighbor(graph: Graph, start: string, from: map<string, string>, ghost depth: map<string, nat>, waiting: seq<string>,
                          ghost visited: set<string>, current: string, ghost near: seq<string>, neighbor: string)
    returns (discoveredFrom: map<string, string>, ghost newDepth: map<string, nat>, queue: seq<string>)
    requires Expanding(graph, start, from, depth, waiting, visited, current) && AreNear(depth, current, near)
    requires neighbor in Neighbors(graph, current)
    ensures Expanding(graph, start, discoveredFrom, newDepth, queue, visited, current) && AreNear(newDepth, current, near + [neighbor])
  {
    if neighbor in from {
      KnownNeighborIsNear(graph, start, from, depth, waiting, visited, current, neighbor);
      return from, depth, waiting;
    }
    DiscoveredIsNear(depth, current, near, neighbor);
    DiscoveryKeepsExpanding(graph, start, from, depth, waiting, visited, current, neighbor);
    discoveredFrom := from[neighbor := current];
    newDepth := depth[neighbor := depth[current] + 1];
    queue := waiting + [neighbor];
  }

  /** Discovers those of the neighbours of `current` that were still unknown. */
  method DiscoverNeighbors(graph: Graph, start: string, from: map<string, string>, ghost depth: map<string, nat>,
                           rest: seq<string>, ghost visited: set<string>, current: string, neighbors: seq<string>)
    returns (discoveredFrom: map<string, string>, ghost newDepth: map<string, nat>, queue: seq<string>)
    requires Expanding(graph, start, from, depth, rest, visited, current)
    requires forall neighbor :: neighbor in neighbors ==> neighbor in Neighbors(graph, current)
    ensures Expanding(graph, start, discoveredFrom, newDepth, queue, visited, current)
    ensures AreNear(newDepth, current, neighbors)
  {
    discoveredFrom, newDepth, queue := from, depth, rest;
    var i := 0;
    while i < |neighbors|
      invariant 0 <= i <= |neighbors|
      invariant Expanding(graph, start, discoveredFrom, newDepth, queue, visited, current)
      invariant AreNear(newDepth, current, neighbors[..i])
    {
      assert neighbors[..i + 1] == neighbors[..i] + [neighbors[i]];
      discoveredFrom, newDepth, queue :=
        DiscoverNeighbor(graph, start, discoveredFrom, newDepth, queue, visited, current, neighbors[..i], neighbors[i]);
      i := i + 1;
    }
    assert neighbors[..|neighbors|] == neighbors;
  }

  /** The body of the search loop: the neighbours of `current`, in the order their set iterates. */
  method ExpandFront(graph: Graph, start: string, from: map<string, string>, ghost depth: map<string, nat>,
                     rest: seq<string>, ghost visited: set<string>, current: string)
    returns (discoveredFrom: map<string, string>, ghost newDepth: map<string, nat>, queue: seq<string>)
    requires Expanding(graph, start, from, depth, rest, visited, current)
    ensures Expanding(graph, start, discoveredFrom, newDepth, queue, visited, current)
    ensures forall next :: next in Neighbors(graph, current) ==>
              next in newDepth && newDepth[next] <= newDepth[current] + 1
  {
    var neighbors := Ascending(Neighbors(graph, current));
    discoveredFrom, newDepth, queue := DiscoverNeighbors(graph, start, from, depth, rest, visited, current, neighbors);
  }

  lemma KnownNeighborIsNear(graph: Graph, start: string, from: map<string, string>, depth: map<string, nat>,
                            queue: seq<string>, visited: set<string>, current: string, neighbor: string)
    requires Expanding(graph, start, from, depth, queue, visited, current)
    requires neighbor in from
    ensures neighbor in depth && depth[neighbor] <= depth[current] + 1
  {
    assert neighbor in visited || neighbor in [current] + queue;
    assert current in [current] + queue;
  }

  /** Breadth-first search with parent pointers. */
  method ShortestDependencyChain(graph: Graph, start: string, target: string) returns (chain: Option<seq<string>>)
    ensures chain.Some? <==> Reaches(graph, start, target)
    ensures chain.Some? ==> IsShortest(graph, start, target, chain.value)
  {
    var discoveredFrom: map<string, string> := map[start := start];
    var queue: seq<string> := [start];
    ghost var depth: map<string, nat> := map[start := 0];
    ghost var visited: set<string> := {};
    while queue != []
      invariant ParentsFit(graph, start, discoveredFrom, depth)
      invariant QueueFits(depth, queue)
      invariant VisitedFits(graph, depth, queue, visited)
      invariant target !in visited && (forall waiting :: waiting in queue ==> waiting !in visited)
      invariant depth.Keys <= Universe(graph, start)
      decreases Universe(graph, start) - visited
    {
      var current := queue[0];
      if current == target {
        var found := WalkBack(graph, start, target, discoveredFrom, depth);
        forall other | Links(graph, start, target, other)
          ensures |found| <= |other|
        {
          FrontIsNearest(graph, start, target, depth, queue, visited, other);
        }
        return Some(found);
      }
      TakeFront(graph, start, discoveredFrom, depth, queue, visited);
      discoveredFrom, depth, queue := ExpandFront(graph, start, discoveredFrom, depth, queue[1..], visited, current);
      FinishFront(graph, depth, queue, visited, current);
      visited := visited + {current};
    }
    ExhaustedMeansUnreachable(graph, start, target, depth, visited);
    return None;
  }

  // --- The graph, read from package records ---

  datatype Dependency = Dependency(name: Option<string>, kind: Option<string>)

  /** One package of `cargo metadata` after JSON decoding; `None` is a missing or mistyped member. */
  datatype Package = Package(name: Option<string>, dependencies: Option<seq<Dependency>>)

  datatype MetadataError =
    | PackageWithoutName
    | NoDependenciesArray(package: string)
    | DependencyWithoutName(package: string)
    | UnsupportedKind(kind: string, package: string, dependency: string)

  datatype CheckError =
    | BadMetadata(error: MetadataError)
    | UnknownCrate(ruleName: string, crate: string)

  function KindOf(dependency: Dependency): string {
    if dependency.kind.Some? then dependency.kind.value else "normal"
  }

  predicate IsSupportedKind(kind: string) {
    kind == "normal" || kind == "build" || kind == "dev"
  }

  /** What is wrong with one dependency record, if anything. */
  function DependencyFault(package: string, dependency: Dependency): Option<MetadataError> {
    if dependency.name.None? then Some(DependencyWithoutName(package))
    else if !IsSupportedKind(KindOf(dependency)) then
      Some(UnsupportedKind(KindOf(dependency), package, dependency.name.value))
    else None
  }

  ghost predicate IsSound(package: Package) {
    && package.name.Some?
    && package.dependencies.Some?
    && forall i :: 0 <= i < |package.dependencies.value| ==>
         DependencyFault(package.name.value, package.dependencies.value[i]).None?
  }

  /** `error` is the first thing wrong with this package. */
  ghost predicate IsFirstFault(package: Package, error: MetadataError) {
    if package.name.None? then error == PackageWithoutName
    else if package.dependencies.None? then error == NoDependenciesArray(package.name.value)
    else exists i :: 0 <= i < |package.dependencies.value|
           && DependencyFault(package.name.value, package.dependencies.value[i]) == Some(error)
           && forall j :: 0 <= j < i ==> DependencyFault(package.name.value, package.dependencies.value[j]).None?
  }

  ghost predicate Declares(package: Package, from: string, to: string) {
    && package.name == Some(from)
    && package.dependencies.Some?
    && exists i :: 0 <= i < |package.dependencies.value| && package.dependencies.value[i].name == Some(to)
  }

  /** The package became a node and what it declares became edges. */
  ghost predicate IsGrownBy(graph: Graph, package: Package, grown: Graph) {
    && package.name.Some? && grown.Keys == graph.Keys + {package.name.value}
    && forall from, to :: to in Neighbors(grown, from) <==> to in Neighbors(graph, from) || Declares(package, from, to)
  }

  /** Adds one package's dependency names to its entry, whatever their kind. */
  method AddPackage(graph: Graph, package: Package) returns (result: Result<Graph, MetadataError>)
    ensures result.Ok? <==> IsSound(package)
    ensures result.Err? ==> IsFirstFault(package, result.error)
    ensures result.Ok? ==> IsGrownBy(graph, package, result.value)
  {
    if package.name.None? {
      return Err(PackageWithoutName);
    }
    var name := package.name.value;
    var names := Neighbors(graph, name);
    if package.dependencies.None? {
      return Err(NoDependenciesArray(name));
    }
    var dependencies := package.dependencies.value;
    var i := 0;
    while i < |dependencies|
      invariant 0 <= i <= |dependencies|
      invariant forall j :: 0 <= j < i ==> DependencyFault(name, dependencies[j]).None?
      invariant forall to :: to in names <==>
                  to in Neighbors(graph, name) || exists j :: 0 <= j < i && dependencies[j].name == Some(to)
    {
      var dependency := dependencies[i];
      if dependency.name.None? {
        return Err(DependencyWithoutName(name));
      }
      if IsSupportedKind(KindOf(dependency)) {
        names := names + {dependency.name.value};
      } else {
        return Err(UnsupportedKind(KindOf(dependency), name, dependency.name.value));
      }
      i := i + 1;
    }
    return Ok(graph[name := names]);
  }

  /** The crate graph: every package a node, every declared dependency an edge, duplicates merged. */
  method DependencyGraphFromMetadata(packages: seq<Package>) returns (result: Result<Graph, MetadataError>)
    ensures result.Ok? <==> forall i :: 0 <= i < |packages| ==> IsSound(packages[i])
    ensures result.Err? ==> exists i :: 0 <= i < |packages| && IsFirstFault(packages[i], result.error)
                              && forall j :: 0 <= j < i ==> IsSound(packages[j])
    ensures result.Ok? ==> IsGraphOf(packages, result.value)
  {
    var graph: Graph := map[];
    var i := 0;
    while i < |packages|
      invariant 0 <= i <= |packages|
      invariant forall j :: 0 <= j < i ==> IsSound(packages[j])
      invariant IsGraphOf(packages[..i], graph)
    {
      var added := AddPackage(graph, packages[i]);
      if added.Err? {
        return Err(added.error);
      }
      GraphGrows(packages, i, graph, added.value);
      graph := added.value;
      i := i + 1;
    }
    assert packages[..|packages|] == packages;
    return Ok(graph);
  }

  ghost predicate IsPackage(packages: seq<Package>, crate: string) {
    exists i :: 0 <= i < |packages| && packages[i].name == Some(crate)
  }

  ghost predicate IsPackageEdge(packages: seq<Package>, from: string, to: string) {
    exists i :: 0 <= i < |packages| && Declares(packages[i], from, to)
  }

  /** The nodes are the packages and the edges are what they declare. */
  ghost predicate IsGraphOf(packages: seq<Package>, graph: Graph) {
    && (forall from, to :: to in Neighbors(graph, from) <==> IsPackageEdge(packages, from, to))
    && (forall crate :: crate in graph <==> IsPackage(packages, crate))
  }

  lemma OnePackageMore(packages: seq<Package>, i: nat, from: string, to: string)
    requires i < |packages|
    ensures IsPackageEdge(packages[..i + 1], from, to) <==> IsPackageEdge(packages[..i], from, to) || Declares(packages[i], from, to)
    ensures IsPackage(packages[..i + 1], from) <==> IsPackage(packages[..i], from) || packages[i].name == Some(from)
  {
    var fewer, more := packages[..i], packages[..i + 1];
    assert more[i] == packages[i];
    assert forall k :: 0 <= k < i ==> more[k] == fewer[k];
  }

  lemma GraphGrows(packages: seq<Package>, i: nat, graph: Graph, grown: Graph)
    requires i < |packages| && IsGraphOf(packages[..i], graph) && IsGrownBy(graph, packages[i], grown)
    ensures IsGraphOf(packages[..i + 1], grown)
  {
    forall from, to
      ensures to in Neighbors(grown, from) <==> IsPackageEdge(packages[..i + 1], from, to)
    {
      OnePackageMore(packages, i, from, to);
    }
    forall crate
      ensures crate in grown <==> IsPackage(packages[..i + 1], crate)
    {
      OnePackageMore(packages, i, crate, crate);
    }
  }

  // --- The rules ---

  datatype Rule = Rule(name: string, sourceCrate: string, forbiddenCrate: string)

  datatype Violation = Violation(rule: Rule, chain: seq<string>)

  const FORBIDDEN_DEPENDENCY_RULES: seq<Rule> := [
    Rule("policy-without-mlx-bindings", "astronomical-memory-policy", "mlx-c-rust"),
    Rule("policy-without-mlx-fork-bindings", "astronomical-memory-policy", "astronomical-mlx-c-fork"),
    Rule("family-crate-without-serving", "astronomical-jangtq2-qwen35", "astronomical-model-serving")
  ]

  predicate KnowsEndpoints(graph: Graph, rule: Rule) {
    rule.sourceCrate in graph && rule.forbiddenCrate in graph
  }

  ghost predicate NamesUnknownEndpoint(graph: Graph, rule: Rule, error: CheckError) {
    && !KnowsEndpoints(graph, rule)
    && error == if rule.sourceCrate !in graph then UnknownCrate(rule.name, rule.sourceCrate)
                else UnknownCrate(rule.name, rule.forbiddenCrate)
  }

  ghost predicate IsBroken(graph: Graph, rule: Rule) {
    Reaches(graph, rule.sourceCrate, rule.forbiddenCrate)
  }

  /** The violations name the broken rules in rule order, each with a shortest chain. */
  ghost predicate ReportsBroken(graph: Graph, rules: seq<Rule>, violations: seq<Violation>) {
    if rules == [] then violations == []
    else
      var last := rules[|rules| - 1];
      if IsBroken(graph, last) then
        && violations != []
        && violations[|violations| - 1].rule == last
        && IsShortest(graph, last.sourceCrate, last.forbiddenCrate, violations[|violations| - 1].chain)
        && ReportsBroken(graph, rules[..|rules| - 1], violations[..|violations| - 1])
      else ReportsBroken(graph, rules[..|rules| - 1], violations)
  }

  /** Checks the rules against a graph, failing closed on an unknown endpoint. */
  method CheckRules(graph: Graph, rules: seq<Rule>) returns (result: Result<seq<Violation>, CheckError>)
    ensures result.Ok? <==> forall i :: 0 <= i < |rules| ==> KnowsEndpoints(graph, rules[i])
    ensures result.Ok? ==> ReportsBroken(graph, rules, result.value)
    ensures result.Err? ==> exists i :: 0 <= i < |rules| && NamesUnknownEndpoint(graph, rules[i], result.error)
                                          && forall j :: 0 <= j < i ==> KnowsEndpoints(graph, rules[j])
  {
    var violations: seq<Violation> := [];
    var i := 0;
    while i < |rules|
      invariant 0 <= i <= |rules|
      invariant forall j :: 0 <= j < i ==> KnowsEndpoints(graph, rules[j])
      invariant ReportsBroken(graph, rules[..i], violations)
    {
      var rule := rules[i];
      if rule.sourceCrate !in graph {
        return Err(UnknownCrate(rule.name, rule.sourceCrate));
      }
      if rule.forbiddenCrate !in graph {
        return Err(UnknownCrate(rule.name, rule.forbiddenCrate));
      }
      var chain := ShortestDependencyChain(graph, rule.sourceCrate, rule.forbiddenCrate);
      assert rules[..i + 1][..i] == rules[..i];
      if chain.Some? {
        ghost var before := violations;
        violations := violations + [Violation(rule, chain.value)];
        assert violations[..|violations| - 1] == before;
      }
      i := i + 1;
    }
    assert rules[..|rules|] == rules;
    return Ok(violations);
  }

  /** The whole check: an empty report means every endpoint is known and nothing forbidden is reachable. */
  method ArchitectureViolations(packages: seq<Package>) returns (result: Result<seq<Violation>, CheckError>)
    ensures result == Ok([]) <==> LayeringHolds(packages, FORBIDDEN_DEPENDENCY_RULES)
    ensures result.Ok? ==> forall i :: 0 <= i < |result.value| ==>
              result.value[i].rule in FORBIDDEN_DEPENDENCY_RULES && IsPackageChain(packages, result.value[i].chain)
  {
    var graph := DependencyGraphFromMetadata(packages);
    if graph.Err? {
      return Err(BadMetadata(graph.error));
    }
    var rules := FORBIDDEN_DEPENDENCY_RULES;
    result := CheckRules(graph.value, rules);
    if result.Ok? {
      LayeringDecided(packages, graph.value, rules, result.value);
    } else {
      UnknownEndpointBreaksLayering(packages, graph.value, rules);
    }
  }

  lemma UnknownEndpointBreaksLayering(packages: seq<Package>, graph: Graph, rules: seq<Rule>)
    requires IsGraphOf(packages, graph)
    requires exists i :: 0 <= i < |rules| && !KnowsEndpoints(graph, rules[i])
    ensures !LayeringHolds(packages, rules)
  {
    var i :| 0 <= i < |rules| && !KnowsEndpoints(graph, rules[i]);
    assert rules[i] in rules;
  }

  lemma LayeringDecided(packages: seq<Package>, graph: Graph, rules: seq<Rule>, violations: seq<Violation>)
    requires IsGraphOf(packages, graph)
    requires forall i :: 0 <= i < |packages| ==> IsSound(packages[i])
    requires forall i :: 0 <= i < |rules| ==> KnowsEndpoints(graph, rules[i])
    requires ReportsBroken(graph, rules, violations)
    ensures violations == [] <==> LayeringHolds(packages, rules)
    ensures forall i :: 0 <= i < |violations| ==>
              violations[i].rule in rules && IsPackageChain(packages, violations[i].chain)
  {
    PackageChainsAreChains(packages, graph);
    EmptyReportMeansUnbroken(graph, rules, violations);
    forall i | 0 <= i < |violations|
      ensures violations[i].rule in rules && IsPackageChain(packages, violations[i].chain)
    {
      ReportedAreBroken(graph, rules, violations, i);
    }
    forall rule | rule in rules
      ensures IsPackage(packages, rule.sourceCrate) && IsPackage(packages, rule.forbiddenCrate)
      ensures IsBroken(graph, rule) <==> exists chain :: IsForbiddenChain(packages, rule, chain)
    {
      assert KnowsEndpoints(graph, rule);
      if IsBroken(graph, rule) {
        var chain :| Links(graph, rule.sourceCrate, rule.forbiddenCrate, chain);
        assert IsForbiddenChain(packages, rule, chain);
      }
      if exists chain :: IsForbiddenChain(packages, rule, chain) {
        var chain :| IsForbiddenChain(packages, rule, chain);
        assert Links(graph, rule.sourceCrate, rule.forbiddenCrate, chain);
      }
    }
  }

  ghost predicate IsForbiddenChain(packages: seq<Package>, rule: Rule, chain: seq<string>) {
    && chain != [] && chain[0] == rule.sourceCrate && chain[|chain| - 1] == rule.forbiddenCrate
    && IsPackageChain(packages, chain)
  }

  /** A chain read straight off the package records. */
  ghost predicate IsPackageChain(packages: seq<Package>, chain: seq<string>) {
    forall i :: 0 <= i < |chain| - 1 ==> IsPackageEdge(packages, chain[i], chain[i + 1])
  }

  /** The layering the rules ask for, in terms of the package records alone. */
  ghost predicate LayeringHolds(packages: seq<Package>, rules: seq<Rule>) {
    && (forall i :: 0 <= i < |packages| ==> IsSound(packages[i]))
    && forall rule :: rule in rules ==>
         && IsPackage(packages, rule.sourceCrate) && IsPackage(packages, rule.forbiddenCrate)
         && !exists chain :: IsForbiddenChain(packages, rule, chain)
  }

  lemma PackageChainsAreChains(packages: seq<Package>, graph: Graph)
    requires IsGraphOf(packages, graph)
    ensures forall chain :: IsChain(graph, chain) <==> IsPackageChain(packages, chain)
  {
    forall chain
      ensures IsChain(graph, chain) <==> IsPackageChain(packages, chain)
    {
      if IsChain(graph, chain) {
        forall i | 0 <= i < |chain| - 1
          ensures IsPackageEdge(packages, chain[i], chain[i + 1])
        {
          assert chain[i + 1] in Neighbors(graph, chain[i]);
        }
      }
      if IsPackageChain(packages, chain) {
        forall i | 0 <= i < |chain| - 1
          ensures chain[i + 1] in Neighbors(graph, chain[i])
        {
          assert IsPackageEdge(packages, chain[i], chain[i + 1]);
        }
      }
    }
  }

  lemma {:induction false} EmptyReportMeansUnbroken(graph: Graph, rules: seq<Rule>, violations: seq<Violation>)
    requires ReportsBroken(graph, rules, violations)
    ensures violations == [] <==> forall rule :: rule in rules ==> !IsBroken(graph, rule)
  {
    if rules != [] {
      var last := rules[|rules| - 1];
      var rest := rules[..|rules| - 1];
      assert rules == rest + [last];
      if !IsBroken(graph, last) {
        EmptyReportMeansUnbroken(graph, rest, violations);
      } else {
        assert last in rules;
      }
    }
  }

  ghost predicate IsRightlyReported(graph: Graph, rules: seq<Rule>, violation: Violation) {
    && violation.rule in rules
    && IsShortest(graph, violation.rule.sourceCrate, violation.rule.forbiddenCrate, violation.chain)
  }

  /** Every reported violation is of a given rule, and its chain is a shortest one. */
  lemma {:induction false} ReportedAreBroken(graph: Graph, rules: seq<Rule>, violations: seq<Violation>, i: nat)
    requires ReportsBroken(graph, rules, violations) && i < |violations|
    ensures IsRightlyReported(graph, rules, violations[i])
    decreases |rules|
  {
    var last, rest := rules[|rules| - 1], rules[..|rules| - 1];
    assert rules == rest + [last];
    if !IsBroken(graph, last) {
      ReportedAreBroken(graph, rest, violations, i);
    } else if i < |violations| - 1 {
      ReportedAreBroken(graph, rest, violations[..|violations| - 1], i);
    }
  }

  // --- The layering of this repository, written out ---

  /** The record has a name and lists named dependencies of the three known kinds. */
  ghost predicate IsWellFormed(package: Package) {
    && package.name.Some? && package.dependencies.Some?
    && forall i :: 0 <= i < |package.dependencies.value| ==> IsKnownDependency(package.dependencies.value[i])
  }

  /** A dependency without a kind is a normal one. */
  predicate IsKnownDependency(dependency: Dependency) {
    dependency.name.Some? && dependency.kind in {None, Some("normal"), Some("build"), Some("dev")}
  }

  lemma FaultMeans(package: string, dependency: Dependency)
    ensures DependencyFault(package, dependency).None? <==> IsKnownDependency(dependency)
    ensures dependency.name.None? ==> DependencyFault(package, dependency) == Some(DependencyWithoutName(package))
    ensures dependency.name.Some? && !IsKnownDependency(dependency) ==>
              dependency.kind.Some?
              && DependencyFault(package, dependency) == Some(UnsupportedKind(dependency.kind.value, package, dependency.name.value))
  {
  }

  /** Both crates are packages, and no chain of declared dependencies leads from the one to the other. */
  ghost predicate AreApart(packages: seq<Package>, crate: string, forbidden: string) {
    && IsPackage(packages, crate) && IsPackage(packages, forbidden)
    && !exists chain :: chain != [] && chain[0] == crate && chain[|chain| - 1] == forbidden && IsPackageChain(packages, chain)
  }

  /** The check passes exactly when the memory policy reaches neither MLX binding and the model family does not reach serving. */
  lemma LayeringInWords(packages: seq<Package>)
    ensures LayeringHolds(packages, FORBIDDEN_DEPENDENCY_RULES) <==>
              && (forall i :: 0 <= i < |packages| ==> IsWellFormed(packages[i]))
              && AreApart(packages, "astronomical-memory-policy", "mlx-c-rust")
              && AreApart(packages, "astronomical-memory-policy", "astronomical-mlx-c-fork")
              && AreApart(packages, "astronomical-jangtq2-qwen35", "astronomical-model-serving")
  {
    LayeringIsObeyed(packages, FORBIDDEN_DEPENDENCY_RULES);
    TheThreeRules((rule: Rule) => AreApart(packages, rule.sourceCrate, rule.forbiddenCrate));
  }

  lemma TheThreeRules(isObeyed: Rule -> bool)
    ensures (forall rule :: rule in FORBIDDEN_DEPENDENCY_RULES ==> isObeyed(rule)) <==>
              && isObeyed(FORBIDDEN_DEPENDENCY_RULES[0])
              && isObeyed(FORBIDDEN_DEPENDENCY_RULES[1])
              && isObeyed(FORBIDDEN_DEPENDENCY_RULES[2])
  {
    var rules := FORBIDDEN_DEPENDENCY_RULES;
    assert rules[0] in rules && rules[1] in rules && rules[2] in rules;
  }

  lemma LayeringIsObeyed(packages: seq<Package>, rules: seq<Rule>)
    ensures LayeringHolds(packages, rules) <==>
              && (forall i :: 0 <= i < |packages| ==> IsWellFormed(packages[i]))
              && forall rule :: rule in rules ==> AreApart(packages, rule.sourceCrate, rule.forbiddenCrate)
  {
    forall i | 0 <= i < |packages|
      ensures IsSound(packages[i]) <==> IsWellFormed(packages[i])
    {
      SoundMeans(packages[i]);
    }
    forall rule: Rule
      ensures IsObeyed(packages, rule) <==> AreApart(packages, rule.sourceCrate, rule.forbiddenCrate)
    {
      ApartMeans(packages, rule);
    }
    assert LayeringHolds(packages, rules) <==>
        (forall i :: 0 <= i < |packages| ==> IsSound(packages[i])) && forall rule :: rule in rules ==> IsObeyed(packages, rule);
  }

  ghost predicate IsObeyed(packages: seq<Package>, rule: Rule) {
    && IsPackage(packages, rule.sourceCrate) && IsPackage(packages, rule.forbiddenCrate)
    && !exists chain :: IsForbiddenChain(packages, rule, chain)
  }

  lemma ApartMeans(packages: seq<Package>, rule: Rule)
    ensures IsObeyed(packages, rule) <==> AreApart(packages, rule.sourceCrate, rule.forbiddenCrate)
  {
    assert forall chain :: IsForbiddenChain(packages, rule, chain) <==>
        chain != [] && chain[0] == rule.sourceCrate && chain[|chain| - 1] == rule.forbiddenCrate && IsPackageChain(packages, chain);
  }

  lemma SoundMeans(package: Package)
    ensures IsSound(package) <==> IsWellFormed(package)
  {
    if package.name.Some? {
      forall dependency: Dependency
        ensures DependencyFault(package.name.value, dependency).None? <==> IsKnownDependency(dependency)
      {
        FaultMeans(package.name.value, dependency);
      }
    }
  }
}
