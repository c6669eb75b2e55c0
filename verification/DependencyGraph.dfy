/** Depth-first search for cycles among declared dependencies: `findDependencyCycle` of `src/domain/profile.ts`, and the
    search that `findActionCycle` of `src/domain/synchronization.ts` shares with it. */
module DependencyGraph {
  import opened Options

  /** Each declared id with the ids it names; these need not be declared themselves. */
  type Graph = map<string, seq<string>>

  datatype Node = Node(id: string, names: seq<string>)

  /** `graph.set` for one node after the other: the last declaration of an id counts. */
  function GraphOf(nodes: seq<Node>): Graph {
    if nodes == [] then map[] else GraphOf(nodes[..|nodes| - 1])[nodes[|nodes| - 1].id := nodes[|nodes| - 1].names]
  }

  lemma {:induction false} GraphDeclares(nodes: seq<Node>)
    ensures forall id :: id in GraphOf(nodes) <==> exists node :: node in nodes && node.id == id
    ensures forall id :: id in GraphOf(nodes) ==> Node(id, GraphOf(nodes)[id]) in nodes
  {
    if nodes != [] {
      var shorter, last := nodes[..|nodes| - 1], nodes[|nodes| - 1];
      GraphDeclares(shorter);
      assert nodes == shorter + [last];
      assert last == Node(last.id, last.names);
    }
  }

  ghost predicate IsLastNode(nodes: seq<Node>, id: string, k: int) {
    0 <= k < |nodes| && nodes[k].id == id && forall j :: k < j < |nodes| ==> nodes[j].id != id
  }

  lemma {:induction false} LastDeclarationCounts(nodes: seq<Node>, id: string)
    ensures id in GraphOf(nodes) <==> exists k :: IsLastNode(nodes, id, k)
    ensures forall k :: IsLastNode(nodes, id, k) ==> id in GraphOf(nodes) && GraphOf(nodes)[id] == nodes[k].names
  {
    if nodes != [] {
      var shorter, last := nodes[..|nodes| - 1], |nodes| - 1;
      LastDeclarationCounts(shorter, id);
      if nodes[last].id == id {
        assert IsLastNode(nodes, id, last);
      } else {
        forall k ensures IsLastNode(nodes, id, k) <==> IsLastNode(shorter, id, k) {}
        if id in GraphOf(shorter) {
          var k :| IsLastNode(shorter, id, k);
          assert IsLastNode(nodes, id, k);
        }
      }
    }
  }

  method BuildGraph(nodes: seq<Node>) returns (graph: Graph)
    ensures graph == GraphOf(nodes)
  {
    graph := map[];
    for k := 0 to |nodes|
      invariant graph == GraphOf(nodes[..k])
    {
      assert nodes[..k + 1][..k] == nodes[..k];
      graph := graph[nodes[k].id := nodes[k].names];
    }
    assert nodes[..|nodes|] == nodes;
  }

  // ---------------------------------------------------------------- walks and cycles

  /** `from` is declared and names `to`. */
  predicate Edge(graph: Graph, from: string, to: string) {
    from in graph && to in graph[from]
  }

  ghost predicate IsWalk(graph: Graph, walk: seq<string>) {
    walk != [] && forall k :: 0 <= k < |walk| - 1 ==> Edge(graph, walk[k], walk[k + 1])
  }

  /** A closed walk: it starts and ends with the same id and every step is an edge. */
  ghost predicate IsCycle(graph: Graph, cycle: seq<string>) {
    |cycle| > 1 && cycle[0] == cycle[|cycle| - 1] && IsWalk(graph, cycle)
  }

  ghost predicate Acyclic(graph: Graph) {
    forall cycle :: !IsCycle(graph, cycle)
  }

  ghost predicate Reaches(graph: Graph, from: string, to: string) {
    exists walk :: IsWalk(graph, walk) && walk[0] == from && walk[|walk| - 1] == to
  }

  ghost predicate Distinct(ids: seq<string>) {
    forall j, k :: 0 <= j < k < |ids| ==> ids[j] != ids[k]
  }

  lemma {:induction false} DistinctFit(ids: seq<string>, all: set<string>)
    requires Distinct(ids) && forall id :: id in ids ==> id in all
    ensures |ids| <= |all|
    decreases |ids|
  {
    if ids != [] {
      var shorter, last := ids[..|ids| - 1], ids[|ids| - 1];
      assert last in ids;
      forall id | id in shorter ensures id in all - {last} {
        var k :| 0 <= k < |shorter| && shorter[k] == id;
        assert ids[k] == id;
      }
      DistinctFit(shorter, all - {last});
    }
  }

  lemma WalkOfPart(graph: Graph, walk: seq<string>, k: nat)
    requires IsWalk(graph, walk) && k < |walk|
    ensures IsWalk(graph, walk[k..])
  {
    var part := walk[k..];
    forall j | 0 <= j < |part| - 1 ensures Edge(graph, part[j], part[j + 1]) {
      assert part[j] == walk[k + j] && part[j + 1] == walk[k + j + 1];
      assert Edge(graph, walk[k + j], walk[(k + j) + 1]);
    }
  }

  lemma WalkExtended(graph: Graph, walk: seq<string>, id: string)
    requires IsWalk(graph, walk) && Edge(graph, walk[|walk| - 1], id)
    ensures IsWalk(graph, walk + [id])
  {
    var longer := walk + [id];
    forall k | 0 <= k < |longer| - 1 ensures Edge(graph, longer[k], longer[k + 1]) {
      if k < |walk| - 1 { assert Edge(graph, walk[k], walk[k + 1]); }
    }
  }

  function PlaceOf(ids: seq<string>, id: string): (index: int)
    ensures -1 <= index < |ids|
    ensures index >= 0 ==> ids[index] == id
    ensures index == -1 <==> id !in ids
  {
    if ids == [] then -1
    else if ids[0] == id then 0
    else var index := PlaceOf(ids[1..], id); if index < 0 then -1 else index + 1
  }

  // ---------------------------------------------------------------- cycle detection

  /** Finished ids, each behind everything declared that it names: what makes a search without a find mean something. */
  ghost predicate Ranked(graph: Graph, order: seq<string>) {
    && Distinct(order)
    && forall k :: 0 <= k < |order| ==> forall to :: Edge(graph, order[k], to) && to in graph ==> to in order[..k]
  }

  /** Along a walk through ranked ids the rank goes down, so it cannot close. */
  lemma {:induction false} RanksGoDown(graph: Graph, order: seq<string>, walk: seq<string>, k: nat) returns (rank: nat)
    requires Ranked(graph, order) && IsWalk(graph, walk) && k < |walk|
    requires walk[0] in order && forall id :: id in walk ==> id in graph
    ensures rank < |order| && order[rank] == walk[k]
    ensures k > 0 ==> exists first: nat :: first < |order| && order[first] == walk[0] && rank < first
  {
    if k == 0 {
      rank :| 0 <= rank < |order| && order[rank] == walk[0];
    } else {
      var before := RanksGoDown(graph, order, walk, k - 1);
      assert Edge(graph, walk[k - 1], walk[(k - 1) + 1]) && walk[k] in walk;
      assert walk[k] in order[..before];
      rank :| 0 <= rank < before && order[rank] == walk[k];
    }
  }

  lemma RankedIsAcyclic(graph: Graph, order: seq<string>)
    requires Ranked(graph, order) && forall id :: id in graph ==> id in order
    ensures Acyclic(graph)
  {
    forall cycle ensures !IsCycle(graph, cycle) {
      if IsCycle(graph, cycle) {
        CycleIsDeclared(graph, cycle);
        assert cycle[0] in cycle;
        var rank := RanksGoDown(graph, order, cycle, |cycle| - 1);
      }
    }
  }

  lemma CycleIsDeclared(graph: Graph, cycle: seq<string>)
    requires IsCycle(graph, cycle)
    ensures forall id :: id in cycle ==> id in graph
  {
    forall id | id in cycle ensures id in graph {
      var k :| 0 <= k < |cycle| && cycle[k] == id;
      assert Edge(graph, cycle[if k == |cycle| - 1 then 0 else k], cycle[(if k == |cycle| - 1 then 0 else k) + 1]);
    }
  }

  class CycleFinder {
    const graph: Graph
    var visiting: seq<string>
    var visited: set<string>
    ghost var order: seq<string>

    ghost predicate Valid()
      reads this
    {
      && Distinct(visiting) && (forall id :: id in visiting ==> id in graph && id !in visited)
      && (visiting != [] ==> IsWalk(graph, visiting))
      && Ranked(graph, order) && forall id :: id in order <==> id in visited
    }

    constructor (graph: Graph)
      ensures this.graph == graph && Valid() && visiting == [] && visited == {}
    {
      this.graph := graph;
      visiting, visited, order := [], {}, [];
    }

    /** The inner function `dfs` of the source. */
    method Search(node: string) returns (found: Option<seq<string>>)
      requires Valid() && node in graph
      requires visiting != [] ==> Edge(graph, visiting[|visiting| - 1], node)
      modifies this
      ensures found.Some? ==> IsCycle(graph, found.value)
      ensures found.None? ==> Valid() && visiting == old(visiting) && old(visited) <= visited && node in visited
      decreases |graph.Keys| - |visiting|
    {
      if node in visited { return None; }
      var index := PlaceOf(visiting, node);
      if index >= 0 {
        found := Some(visiting[index..] + [node]);
        WalkOfPart(graph, visiting, index);
        WalkExtended(graph, visiting[index..], node);
        return;
      }
      Enter(node);
      var names := graph[node];
      for k := 0 to |names|
        invariant Valid() && visiting == old(visiting) + [node] && old(visited) <= visited
        invariant forall j :: 0 <= j < k && names[j] in graph ==> names[j] in visited
      {
        if names[k] in graph {
          DistinctFit(visiting, graph.Keys);
          found := Search(names[k]);
          if found.Some? { return; }
        }
      }
      Leave(node);
      found := None;
    }

    method Enter(node: string)
      requires Valid() && node in graph && node !in visited && node !in visiting
      requires visiting != [] ==> Edge(graph, visiting[|visiting| - 1], node)
      modifies this`visiting
      ensures Valid() && visiting == old(visiting) + [node]
      ensures |visiting| <= |graph.Keys|
    {
      if visiting != [] { WalkExtended(graph, visiting, node); }
      visiting := visiting + [node];
      DistinctFit(visiting, graph.Keys);
    }

    method Leave(node: string)
      requires Valid() && visiting != [] && visiting[|visiting| - 1] == node
      requires forall to :: Edge(graph, node, to) && to in graph ==> to in visited
      modifies this
      ensures Valid() && visiting == old(visiting)[..|old(visiting)| - 1] && visited == old(visited) + {node}
    {
      ghost var all := visiting;
      visiting := visiting[..|visiting| - 1];
      visited := visited + {node};
      RankedExtended(graph, order, node);
      order := order + [node];
      forall id | id in visiting ensures id in graph && id !in visited {
        var k :| 0 <= k < |visiting| && visiting[k] == id;
        assert all[k] == id && id in all;
      }
      if visiting != [] {
        forall k | 0 <= k < |visiting| - 1 ensures Edge(graph, visiting[k], visiting[k + 1]) {
          assert Edge(graph, all[k], all[k + 1]);
        }
      }
    }
  }

  lemma RankedExtended(graph: Graph, order: seq<string>, node: string)
    requires Ranked(graph, order) && node !in order
    requires forall to :: Edge(graph, node, to) && to in graph ==> to in order
    ensures Ranked(graph, order + [node])
  {
    var longer := order + [node];
    forall k, to | 0 <= k < |longer| && Edge(graph, longer[k], to) && to in graph ensures to in longer[..k] {
      if k < |order| { assert longer[..k] == order[..k]; } else { assert longer[..k] == order; }
    }
  }

  /** A cycle of the graph over declared ids, or None exactly when there is none. */
  method FindCycle(nodes: seq<Node>) returns (found: Option<seq<string>>)
    ensures found.Some? ==> IsCycle(GraphOf(nodes), found.value)
    ensures found.None? <==> Acyclic(GraphOf(nodes))
  {
    var graph := BuildGraph(nodes);
    var finder := new CycleFinder(graph);
    GraphDeclares(nodes);
    for k := 0 to |nodes|
      invariant finder.graph == graph && finder.Valid() && finder.visiting == [] && fresh(finder)
      invariant forall j :: 0 <= j < k ==> nodes[j].id in finder.visited
    {
      assert nodes[k] in nodes;
      found := finder.Search(nodes[k].id);
      if found.Some? { return; }
    }
    RankedIsAcyclic(graph, finder.order);
    return None;
  }

  // ---------------------------------------------------------------- the source's two callers

  /** A profile resource as far as the graph is concerned; `dependsOn` may be missing. */
  datatype Resource = Resource(id: string, dependsOn: Option<seq<string>>)

  function Names(resource: Resource): seq<string> {
    if resource.dependsOn.Some? then resource.dependsOn.value else []
  }

  function NodesOf(resources: seq<Resource>): seq<Node> {
    seq(|resources|, k requires 0 <= k < |resources| => Node(resources[k].id, Names(resources[k])))
  }

  /** The resource that declares `from` last lists `to` as a dependency. */
  ghost predicate Needs(resources: seq<Resource>, from: string, to: string) {
    exists k :: DeclaresLast(resources, from, k) && resources[k].dependsOn.Some? && to in resources[k].dependsOn.value
  }

  ghost predicate DeclaresLast(resources: seq<Resource>, id: string, k: int) {
    0 <= k < |resources| && resources[k].id == id && forall j :: k < j < |resources| ==> resources[j].id != id
  }

  /** Resources of which each needs the next, back to the first. */
  ghost predicate IsNeedCycle(resources: seq<Resource>, cycle: seq<string>) {
    |cycle| > 1 && cycle[0] == cycle[|cycle| - 1]
      && forall k :: 0 <= k < |cycle| - 1 ==> Needs(resources, cycle[k], cycle[k + 1])
  }

  lemma EdgesAreNeeds(resources: seq<Resource>, from: string, to: string)
    ensures Edge(GraphOf(NodesOf(resources)), from, to) <==> Needs(resources, from, to)
  {
    var nodes := NodesOf(resources);
    LastDeclarationCounts(nodes, from);
    forall k ensures IsLastNode(nodes, from, k) <==> DeclaresLast(resources, from, k) {
      assert forall j :: 0 <= j < |resources| ==> nodes[j].id == resources[j].id;
    }
  }

  lemma CyclesAreNeedCycles(resources: seq<Resource>, cycle: seq<string>)
    ensures IsCycle(GraphOf(NodesOf(resources)), cycle) <==> IsNeedCycle(resources, cycle)
  {
    forall k | 0 <= k < |cycle| - 1
      ensures Edge(GraphOf(NodesOf(resources)), cycle[k], cycle[k + 1]) <==> Needs(resources, cycle[k], cycle[k + 1])
    {
      EdgesAreNeeds(resources, cycle[k], cycle[k + 1]);
    }
  }

  method FindDependencyCycle(resources: seq<Resource>) returns (found: Option<seq<string>>)
    ensures found.Some? ==> IsNeedCycle(resources, found.value)
    ensures found.None? <==> forall cycle :: !IsNeedCycle(resources, cycle)
  {
    found := FindCycle(NodesOf(resources));
    forall cycle ensures IsCycle(GraphOf(NodesOf(resources)), cycle) <==> IsNeedCycle(resources, cycle) {
      CyclesAreNeedCycles(resources, cycle);
    }
  }
}
