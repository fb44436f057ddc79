// Directed graphs over names, as two of the repository's searches use them: crate
// dependencies and test module declarations.

module Graphs {

  type Graph = map<string, set<string>>

  function Neighbors(graph: Graph, crate: string): set<string> {
    if crate in graph then graph[crate] else {}
  }

  ghost predicate IsChain(graph: Graph, chain: seq<string>) {
    forall i :: 0 <= i < |chain| - 1 ==> chain[i + 1] in Neighbors(graph, chain[i])
  }

  /** `chain` follows dependency edges from `start` to `target`, both included. */
  ghost predicate Links(graph: Graph, start: string, target: string, chain: seq<string>) {
    && chain != []
    && chain[0] == start
    && chain[|chain| - 1] == target
    && IsChain(graph, chain)
  }

  ghost predicate Reaches(graph: Graph, start: string, target: string) {
    exists chain :: Links(graph, start, target, chain)
  }

  lemma ChainExtends(graph: Graph, start: string, middle: string, next: string)
    requires Reaches(graph, start, middle) && next in Neighbors(graph, middle)
    ensures Reaches(graph, start, next)
  {
    var chain :| Links(graph, start, middle, chain);
    var extended := chain + [next];
    forall i | 0 <= i < |extended| - 1
      ensures extended[i + 1] in Neighbors(graph, extended[i])
    {
      if i < |chain| - 1 {
        assert chain[i + 1] in Neighbors(graph, chain[i]);
      }
    }
    assert Links(graph, start, next, extended);
  }

  lemma StartIsReached(graph: Graph, start: string)
    ensures Reaches(graph, start, start)
  {
    assert Links(graph, start, start, [start]);
  }

  // --- Reachability from a set of roots is the least closed set holding them ---

  ghost predicate IsReachedFrom(graph: Graph, roots: set<string>, node: string) {
    exists root :: root in roots && Reaches(graph, root, node)
  }

  ghost predicate IsClosed(graph: Graph, nodes: set<string>) {
    forall node, next :: node in nodes && next in Neighbors(graph, node) ==> next in nodes
  }

  lemma {:induction false} ChainStaysInClosed(graph: Graph, nodes: set<string>, chain: seq<string>)
    requires IsClosed(graph, nodes) && chain != [] && chain[0] in nodes && IsChain(graph, chain)
    ensures chain[|chain| - 1] in nodes
  {
    if |chain| > 1 {
      var rest := chain[1..];
      forall i | 0 <= i < |rest| - 1
        ensures rest[i + 1] in Neighbors(graph, rest[i])
      {
        assert chain[i + 2] in Neighbors(graph, chain[i + 1]);
      }
      assert chain[0 + 1] in Neighbors(graph, chain[0]);
      ChainStaysInClosed(graph, nodes, rest);
    }
  }

  /** Every closed set holding the roots holds all they reach, so a closed set of reached nodes is exactly that. */
  lemma ReachedIsLeastClosed(graph: Graph, roots: set<string>, nodes: set<string>)
    requires roots <= nodes && IsClosed(graph, nodes)
    ensures forall node :: IsReachedFrom(graph, roots, node) ==> node in nodes
  {
    forall node | IsReachedFrom(graph, roots, node)
      ensures node in nodes
    {
      var root :| root in roots && Reaches(graph, root, node);
      var chain :| Links(graph, root, node, chain);
      ChainStaysInClosed(graph, nodes, chain);
    }
  }

  lemma ReachedIsClosed(graph: Graph, roots: set<string>, node: string, next: string)
    requires IsReachedFrom(graph, roots, node) && next in Neighbors(graph, node)
    ensures IsReachedFrom(graph, roots, next)
  {
    var root :| root in roots && Reaches(graph, root, node);
    ChainExtends(graph, root, node, next);
  }

  lemma RootsAreReached(graph: Graph, roots: set<string>)
    ensures forall root :: root in roots ==> IsReachedFrom(graph, roots, root)
  {
    forall root | root in roots
      ensures IsReachedFrom(graph, roots, root)
    {
      StartIsReached(graph, root);
    }
  }
}
