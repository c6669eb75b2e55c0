/** `topologicalOrder` of `src/domain/profile.ts`: dependencies first, and total even where they form cycles. */
module TopologicalOrder {
  import opened DependencyGraph

  /** Every id that is declared or named. */
  function Mentioned(graph: Graph): set<string> {
    graph.Keys + set id, k | id in graph && 0 <= k < |graph[id]| :: graph[id][k]
  }

  lemma NamedIsMentioned(graph: Graph, from: string, to: string)
    requires Edge(graph, from, to)
    ensures to in Mentioned(graph)
  {
    var k :| 0 <= k < |graph[from]| && graph[from][k] == to;
  }

  /** What is named comes earlier, unless it leads back and so no order could do better. */
  ghost predicate Placed(graph: Graph, order: seq<string>, k: nat)
    requires k < |order|
  {
    forall to :: Edge(graph, order[k], to) ==> to in order[..k] || Reaches(graph, to, order[k])
  }

  ghost predicate DependenciesFirst(graph: Graph, order: seq<string>) {
    forall k: nat :: k < |order| ==> Placed(graph, order, k)
  }

  /** Strictly dependencies first: the order promised for a graph without cycles. */
  ghost predicate IsTopological(graph: Graph, order: seq<string>) {
    forall k, to :: 0 <= k < |order| && Edge(graph, order[k], to) ==> to in order[..k]
  }

  lemma ClosingWalk(graph: Graph, from: string, to: string)
    requires Edge(graph, from, to) && Reaches(graph, to, from)
    ensures !Acyclic(graph)
  {
    var walk :| IsWalk(graph, walk) && walk[0] == to && walk[|walk| - 1] == from;
    var cycle := [from] + walk;
    forall k | 0 <= k < |cycle| - 1 ensures Edge(graph, cycle[k], cycle[k + 1]) {
      if k > 0 { assert Edge(graph, walk[k - 1], walk[(k - 1) + 1]); }
    }
    assert IsCycle(graph, cycle);
  }

  lemma AcyclicIsTopological(graph: Graph, order: seq<string>)
    requires DependenciesFirst(graph, order) && Acyclic(graph)
    ensures IsTopological(graph, order)
  {
    forall k, to | 0 <= k < |order| && Edge(graph, order[k], to) ensures to in order[..k] {
      assert Placed(graph, order, k);
      if Reaches(graph, to, order[k]) { ClosingWalk(graph, order[k], to); }
    }
  }

  lemma Appended(graph: Graph, order: seq<string>, id: string)
    requires DependenciesFirst(graph, order)
    requires forall to :: Edge(graph, id, to) ==> to in order || Reaches(graph, to, id)
    ensures DependenciesFirst(graph, order + [id])
  {
    var longer := order + [id];
    forall k: nat | k < |longer| ensures Placed(graph, longer, k) {
      if k < |order| {
        assert Placed(graph, order, k) && longer[..k] == order[..k];
      } else {
        assert longer[..k] == order;
      }
    }
  }

  ghost predicate Holds(ids: seq<string>, all: set<string>) {
    Distinct(ids) && forall id :: id in ids <==> id in all
  }

  lemma Pushed(ids: seq<string>, all: set<string>, id: string)
    requires Holds(ids, all) && id !in all
    ensures Holds(ids + [id], all + {id})
  {
  }

  lemma Popped(ids: seq<string>, all: set<string>)
    requires Holds(ids, all) && ids != []
    ensures Holds(ids[..|ids| - 1], all - {ids[|ids| - 1]})
  {
    var shorter, last := ids[..|ids| - 1], ids[|ids| - 1];
    assert ids == shorter + [last];
    forall id | id in shorter ensures id in all && id != last {
      assert id in ids;
    }
  }

  ghost predicate IsTrail(graph: Graph, trail: seq<string>) {
    trail == [] || IsWalk(graph, trail)
  }

  lemma TrailPopped(graph: Graph, trail: seq<string>)
    requires IsTrail(graph, trail) && trail != []
    ensures IsTrail(graph, trail[..|trail| - 1])
  {
    var shorter := trail[..|trail| - 1];
    forall k | 0 <= k < |shorter| - 1 ensures Edge(graph, shorter[k], shorter[k + 1]) {
      assert Edge(graph, trail[k], trail[k + 1]);
    }
  }

  /** What is on the trail reaches the id at its end. */
  lemma TrailReaches(graph: Graph, trail: seq<string>, id: string)
    requires IsTrail(graph, trail) && id in trail
    ensures Reaches(graph, id, trail[|trail| - 1])
  {
    var k :| 0 <= k < |trail| && trail[k] == id;
    WalkOfPart(graph, trail, k);
    assert trail[k..][0] == id && trail[k..][|trail| - k - 1] == trail[|trail| - 1];
  }

  ghost predicate NamesAreIn(graph: Graph, id: string, ids: set<string>) {
    id in graph ==> forall to :: to in graph[id] ==> to in ids
  }

  lemma LastIsPlaced(graph: Graph, ordered: seq<string>, emitted: set<string>, trail: seq<string>,
                     visiting: set<string>)
    requires Holds(ordered, emitted) && Holds(trail, visiting) && IsTrail(graph, trail) && trail != []
    requires DependenciesFirst(graph, ordered) && NamesAreIn(graph, trail[|trail| - 1], emitted + visiting)
    ensures DependenciesFirst(graph, ordered + [trail[|trail| - 1]])
  {
    var id := trail[|trail| - 1];
    forall to | Edge(graph, id, to) ensures to in ordered || Reaches(graph, to, id) {
      if to in visiting { TrailReaches(graph, trail, to); }
    }
    Appended(graph, ordered, id);
  }

  lemma LeftAgain(trail: seq<string>, visiting: set<string>, id: string)
    requires id !in visiting
    ensures (trail + [id])[..|trail + [id]| - 1] == trail && visiting + {id} - {id} == visiting
  {
  }

  class Sorter {
    const graph: Graph
    var ordered: seq<string>
    var emitted: set<string>
    var visiting: set<string>
    /** The ids being visited, outermost first. */
    ghost var trail: seq<string>

    ghost predicate Valid()
      reads this
    {
      && Holds(ordered, emitted) && Holds(trail, visiting) && emitted !! visiting
      && emitted + visiting <= Mentioned(graph)
      && IsTrail(graph, trail) && DependenciesFirst(graph, ordered)
    }

    constructor (graph: Graph)
      ensures this.graph == graph && Valid() && ordered == [] && emitted == {} && trail == []
    {
      this.graph := graph;
      ordered, emitted, visiting, trail := [], {}, {}, [];
    }

    /** The inner function `visit` of the source. */
    method Visit(id: string)
      requires Valid() && id in Mentioned(graph)
      requires trail != [] ==> Edge(graph, trail[|trail| - 1], id)
      modifies this
      ensures Valid() && trail == old(trail) && visiting == old(visiting)
      ensures old(emitted) <= emitted && id in emitted + visiting
      ensures id in old(emitted) ==> ordered == old(ordered)
      ensures id !in old(emitted + visiting) && NamesAreIn(graph, id, old(emitted)) ==> ordered == old(ordered) + [id]
      decreases |Mentioned(graph)| - |trail|, 0
    {
      if id in emitted || id in visiting { return; }
      Enter(id);
      VisitNames(id);
      LeftAgain(old(trail), old(visiting), id);
      Leave(id);
    }

    /** The loop of `visit` over what an id names. */
    method VisitNames(id: string)
      requires Valid() && trail != [] && trail[|trail| - 1] == id && |trail| <= |Mentioned(graph)|
      modifies this
      ensures Valid() && trail == old(trail) && visiting == old(visiting)
      ensures old(emitted) <= emitted && NamesAreIn(graph, id, emitted + visiting)
      ensures NamesAreIn(graph, id, old(emitted)) ==> ordered == old(ordered)
      decreases |Mentioned(graph)| - |trail|, 1
    {
      var names := if id in graph then graph[id] else [];
      for k := 0 to |names|
        invariant Valid() && trail == old(trail) && visiting == old(visiting)
        invariant old(emitted) <= emitted
        invariant forall j :: 0 <= j < k ==> names[j] in emitted + visiting
        invariant NamesAreIn(graph, id, old(emitted)) ==> ordered == old(ordered)
      {
        assert names[k] in names;
        NamedIsMentioned(graph, id, names[k]);
        Visit(names[k]);
      }
    }

    method Enter(id: string)
      requires Valid() && id in Mentioned(graph) && id !in emitted && id !in visiting
      requires trail != [] ==> Edge(graph, trail[|trail| - 1], id)
      modifies this`visiting, this`trail
      ensures Valid() && trail == old(trail) + [id] && visiting == old(visiting) + {id}
      ensures |trail| <= |Mentioned(graph)|
    {
      if trail != [] { WalkExtended(graph, trail, id); }
      Pushed(trail, visiting, id);
      visiting := visiting + {id};
      trail := trail + [id];
      DistinctFit(trail, Mentioned(graph));
    }

    method Leave(id: string)
      requires Valid() && trail != [] && trail[|trail| - 1] == id && NamesAreIn(graph, id, emitted + visiting)
      modifies this
      ensures Valid() && trail == old(trail)[..|old(trail)| - 1] && visiting == old(visiting) - {id}
      ensures ordered == old(ordered) + [id] && emitted == old(emitted) + {id}
    {
      assert id in trail;
      LastIsPlaced(graph, ordered, emitted, trail, visiting);
      TrailPopped(graph, trail);
      Popped(trail, visiting);
      Pushed(ordered, emitted, id);
      visiting := visiting - {id};
      emitted := emitted + {id};
      ordered := ordered + [id];
      trail := trail[..|trail| - 1];
    }
  }

  /** Distinct ids, each of which names only earlier ones. */
  ghost predicate IsOrdered(graph: Graph, ids: seq<string>) {
    Distinct(ids) && forall k :: 0 <= k < |ids| ==> NamesEarlier(graph, ids, k)
  }

  ghost predicate NamesEarlier(graph: Graph, ids: seq<string>, k: int)
    requires 0 <= k < |ids|
  {
    ids[k] in graph && forall to :: to in graph[ids[k]] ==> to in ids[..k]
  }

  lemma NextIsNew(graph: Graph, ids: seq<string>, k: nat, emitted: set<string>)
    requires IsOrdered(graph, ids) && k < |ids| && Holds(ids[..k], emitted)
    ensures ids[k] !in emitted && NamesAreIn(graph, ids[k], emitted)
    ensures ids[..k + 1] == ids[..k] + [ids[k]]
  {
    assert NamesEarlier(graph, ids, k);
  }

  method VisitAll(graph: Graph, ids: seq<string>) returns (ordered: seq<string>)
    requires forall id :: id in ids ==> id in graph
    ensures Distinct(ordered) && DependenciesFirst(graph, ordered)
    ensures forall id :: id in ids ==> id in ordered
    ensures forall id :: id in ordered ==> id in Mentioned(graph)
    ensures IsOrdered(graph, ids) ==> ordered == ids
  {
    var sorter := new Sorter(graph);
    for k := 0 to |ids|
      invariant sorter.graph == graph && sorter.Valid() && sorter.trail == [] && fresh(sorter)
      invariant forall j :: 0 <= j < k ==> ids[j] in sorter.emitted
      invariant IsOrdered(graph, ids) ==> sorter.ordered == ids[..k]
    {
      if IsOrdered(graph, ids) { NextIsNew(graph, ids, k, sorter.emitted); }
      assert ids[k] in ids && sorter.visiting == {};
      sorter.Visit(ids[k]);
    }
    ordered := sorter.ordered;
    assert ids[..|ids|] == ids;
  }

  lemma WhatReachesIsDeclared(graph: Graph, id: string, to: string)
    requires Reaches(graph, id, to) && to in graph
    ensures id in graph
  {
    var walk :| IsWalk(graph, walk) && walk[0] == id && walk[|walk| - 1] == to;
    if |walk| > 1 { assert Edge(graph, walk[0], walk[0 + 1]); }
  }

  lemma NothingIsMissing(graph: Graph, ordered: seq<string>)
    requires DependenciesFirst(graph, ordered) && forall id :: id in graph ==> id in ordered
    ensures forall id :: id in Mentioned(graph) ==> id in ordered
  {
    forall id | id in Mentioned(graph) ensures id in ordered {
      if id !in graph {
        var from :| from in graph && Edge(graph, from, id);
        var k: nat :| k < |ordered| && ordered[k] == from;
        assert Placed(graph, ordered, k);
        if id !in ordered { WhatReachesIsDeclared(graph, id, from); }
      }
    }
  }

  function Ids(resources: seq<Resource>): seq<string> {
    seq(|resources|, k requires 0 <= k < |resources| => resources[k].id)
  }

  lemma DeclaredIds(resources: seq<Resource>)
    ensures forall id :: id in GraphOf(NodesOf(resources)) <==> id in Ids(resources)
  {
    var nodes, ids := NodesOf(resources), Ids(resources);
    GraphDeclares(nodes);
    assert forall k :: 0 <= k < |nodes| ==> nodes[k] in nodes && nodes[k].id == ids[k];
  }

  /** Every declared or named id once, dependencies first; an input that already is in such an order is left alone. */
  method TopologicalOrder(resources: seq<Resource>) returns (ordered: seq<string>)
    ensures Distinct(ordered)
    ensures forall id :: id in ordered <==> id in Mentioned(GraphOf(NodesOf(resources)))
    ensures DependenciesFirst(GraphOf(NodesOf(resources)), ordered)
    ensures Acyclic(GraphOf(NodesOf(resources))) ==> IsTopological(GraphOf(NodesOf(resources)), ordered)
    ensures IsOrdered(GraphOf(NodesOf(resources)), Ids(resources)) ==> ordered == Ids(resources)
  {
    var graph := BuildGraph(NodesOf(resources));
    DeclaredIds(resources);
    ordered := VisitAll(graph, Ids(resources));
    NothingIsMissing(graph, ordered);
    if Acyclic(graph) { AcyclicIsTopological(graph, ordered); }
  }
}
