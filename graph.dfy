/** The graph object of planning/Graph.java: the built network and one
    visited flag per node (the `visited` field of planning/Node.java), which
    the two searches set as they recurse and which every public query clears
    before it returns. Each method is proved against its function in module
    RouteSearch. */
module RoadGraph {
  import opened Common
  import opened RoadNetwork
  import opened GraphBuild
  import opened EdgeOrder
  import opened RouteSearch

  class Graph {
    const net: Network
    const visited: array<bool>

    /** The network is built and there is one flag per node. */
    ghost predicate Shape()
      reads this
    {
      WellFormed(net) && visited.Length == |net.nodes|
    }

    /** Between queries no node is marked. */
    ghost predicate Valid()
      reads this, visited
    {
      Shape() && forall i :: 0 <= i < visited.Length ==> !visited[i]
    }

    /** A graph over a built network; every node starts unvisited. */
    constructor (built: Network)
      requires WellFormed(built)
      ensures net == built && Valid() && fresh(visited)
    {
      net := built;
      visited := new bool[|built.nodes|](_ => false);
    }

    /** `isValidRoute`: the depth-first search from the road's edge on fresh
        flags, which are cleared again afterwards. A road the graph does not
        know has no edge, which the source dereferences. */
    method IsValidRoute(road: Road, dest: Point) returns (found: bool)
      requires Valid() && road in net.edgeOf
      modifies visited
      ensures Valid()
      ensures found == Dfs(net, dest, net.edgeOf[road], Unvisited(|net.nodes|)).0
      ensures found <==> exists w :: IsWalk(net, w) && w[0] == net.edgeOf[road] && EdgeReaches(net, w[|w| - 1], dest)
    {
      var e := net.edgeOf[road];
      assert visited[..] == Unvisited(|net.nodes|);
      found := DepthFirstSearch(e, dest);
      DfsIff(net, dest, e);
      SetNodesToUnvisited();
    }

    /** `planRoute`: nothing when there is no valid route; otherwise the path
        search from the endpoint of the road closer to the destination, on
        fresh flags, which are cleared again afterwards. */
    method PlanRoute(road: Road, dest: Point) returns (route: Option<seq<nat>>)
      requires Valid() && Incident(net) && road in net.edgeOf
      modifies visited
      ensures Valid()
      ensures route == PlannedRoute(net, net.edgeOf[road], dest)
    {
      var e := net.edgeOf[road];
      route := None;
      var valid := IsValidRoute(road, dest);
      if valid {
        var start := Seed(net, e, dest);
        assert visited[..] == Unvisited(|net.nodes|);
        route := PathFindingSearch(start, dest);
        SetNodesToUnvisited();
      }
    }

    /** `depthFirstSearch` from edge `e`. */
    method DepthFirstSearch(e: nat, dest: Point) returns (found: bool)
      requires Shape() && e < |net.edges|
      modifies visited
      ensures (found, visited[..]) == Dfs(net, dest, e, old(visited[..]))
      decreases CountFalse(visited[..]), 2, 0
    {
      if EdgeReaches(net, e, dest) {
        return true;
      }
      ghost var v0 := visited[..];
      found := ExpandNode(e, net.edges[e].start, dest);
      if found {
        return;
      }
      if HasEndNode(net.edges[e]) {
        CountFalseGrows(v0, visited[..]);
        found := ExpandNode(e, net.edges[e].end.value, dest);
      }
    }

    /** One of the two node blocks of `depthFirstSearch`: an unvisited
        endpoint `n` of edge `e` is marked and each of its incident edges
        other than `e` is searched until one finds the destination. */
    method ExpandNode(e: nat, n: nat, dest: Point) returns (found: bool)
      requires Shape() && e < |net.edges| && n < |net.nodes|
      modifies visited
      ensures (found, visited[..]) == Expand(net, dest, e, n, old(visited[..]))
      decreases CountFalse(visited[..]), 1, 0
    {
      found := false;
      if visited[n] {
        return;
      }
      ghost var v0 := visited[..];
      visited[n] := true;
      CountFalseMark(v0, n);
      var roads := net.nodes[n].roads;
      var k := 0;
      while k < |roads|
        invariant 0 <= k <= |roads|
        invariant Expand(net, dest, e, n, v0) == Loop(net, dest, e, n, k, visited[..])
        invariant CountFalse(visited[..]) < CountFalse(v0)
      {
        if roads[k] != e {
          ghost var before := visited[..];
          found := DepthFirstSearch(roads[k], dest);
          CountFalseGrows(before, visited[..]);
          if found {
            return;
          }
        }
        k := k + 1;
      }
    }

    /** `pathFindingSearch` from node `n`. */
    method PathFindingSearch(n: nat, dest: Point) returns (route: Option<seq<nat>>)
      requires Shape() && Incident(net) && n < |net.nodes|
      modifies visited
      ensures (route, visited[..]) == Search(net, dest, n, old(visited[..]))
      decreases CountFalse(visited[..]), 1, 0
    {
      var adjacent := DestinationAdjacent(n, dest);
      if adjacent {
        return Some([n]);
      }
      ghost var v0 := visited[..];
      var sorted := SortEdgesByClosestIntersection(n, dest);
      assert sorted == SortedEdges(net, n, dest);
      route := None;
      var k := 0;
      while k < |sorted|
        invariant 0 <= k <= |sorted|
        invariant route == None
        invariant Search(net, dest, n, v0) == SearchLoop(net, dest, n, sorted, k, visited[..])
        invariant CountFalse(visited[..]) <= CountFalse(v0)
      {
        route := TryEdge(n, dest, sorted, k);
        if route.Some? {
          return;
        }
        k := k + 1;
      }
    }

    /** One pass of the loop of `pathFindingSearch` over the `k`-th sorted
        edge: when it has an end node whose far node is unvisited, the far
        node is marked and searched, and a route found from it is extended
        by `n`. */
    method TryEdge(n: nat, dest: Point, sorted: seq<nat>, k: nat) returns (route: Option<seq<nat>>)
      requires Shape() && Incident(net) && n < |net.nodes|
      requires k < |sorted| && forall i :: 0 <= i < |sorted| ==> sorted[i] in net.nodes[n].roads
      modifies visited
      ensures route.Some? ==> SearchLoop(net, dest, n, sorted, k, old(visited[..])) == (route, visited[..])
      ensures route.None? ==> SearchLoop(net, dest, n, sorted, k, old(visited[..]))
                              == SearchLoop(net, dest, n, sorted, k + 1, visited[..])
      ensures Grows(old(visited[..]), visited[..])
      ensures CountFalse(visited[..]) <= CountFalse(old(visited[..]))
      decreases CountFalse(visited[..]), 0, 0
    {
      route := None;
      if HasEndNode(net.edges[sorted[k]]) {
        var next := NextNode(net, n, sorted[k]);
        if !visited[next] {
          ghost var before := visited[..];
          SearchLoopVisit(net, dest, n, sorted, k, before);
          visited[next] := true;
          CountFalseMark(before, next);
          route := PathFindingSearch(next, dest);
          CountFalseGrows(before[next := true], visited[..]);
          if route.Some? {
            route := Some([n] + route.value);
          }
          return;
        }
      }
      SearchLoopSkip(net, dest, n, sorted, k, visited[..]);
    }

    /** The first loop of `pathFindingSearch`: whether some incident edge of
        node `n` has the destination on its road. */
    method DestinationAdjacent(n: nat, dest: Point) returns (adjacent: bool)
      requires Shape() && n < |net.nodes|
      ensures adjacent <==> ReachesFrom(net, dest, n)
    {
      var edges := net.nodes[n].roads;
      for k := 0 to |edges|
        invariant forall i :: 0 <= i < k ==> !EdgeReaches(net, edges[i], dest)
      {
        if EdgeReaches(net, edges[k], dest) {
          return true;
        }
      }
      return false;
    }

    /** `sortEdgesByClosestIntersectionToDestination`: node `n`'s incident
        edges inserted one at a time into a new list. */
    method SortEdgesByClosestIntersection(n: nat, dest: Point) returns (sorted: seq<nat>)
      requires n < |net.nodes|
      ensures sorted == Sort(net.nodes[n].roads, Keys(net, n, dest))
    {
      var edges := net.nodes[n].roads;
      ghost var key := Keys(net, n, dest);
      sorted := [];
      for k := 0 to |edges|
        invariant sorted == Sort(edges[..k], key)
      {
        SortStep(edges, key, k, sorted);
        sorted := PlaceEdge(n, dest, sorted, edges[k]);
      }
      assert edges[..|edges|] == edges;
    }

    /** One pass of the sort's outer loop: an edge without a far node goes
        last; otherwise the edge goes before the first edge without a far
        node or with a strictly farther far node, or last if there is none. */
    method PlaceEdge(n: nat, dest: Point, sorted: seq<nat>, e1: nat) returns (r: seq<nat>)
      ensures r == Insert(sorted, Keys(net, n, dest), e1)
    {
      var key := Keys(net, n, dest);
      var placed := false;
      var key1 := EdgeKey(net, n, dest, e1);
      if key1.None? {
        return sorted + [e1];
      }
      r := sorted;
      var i := 0;
      while i < |sorted|
        invariant 0 <= i <= |sorted|
        invariant !placed && r == sorted
        invariant forall m :: 0 <= m < i ==> !GoesBefore(key1.value, key(sorted[m]))
      {
        var key2 := EdgeKey(net, n, dest, sorted[i]);
        if key2.None? || key1.value < key2.value {
          r := sorted[..i] + [e1] + sorted[i..];
          placed := true;
          break;
        }
        i := i + 1;
      }
      InsertPosUnique(sorted, key, key1.value, i);
      if !placed {
        r := sorted[..i] + [e1] + sorted[i..];
      }
    }

    /** `setNodesToUnvisited`: clears every node's flag. */
    method SetNodesToUnvisited()
      requires Shape()
      modifies visited
      ensures Valid()
    {
      for i := 0 to visited.Length
        invariant forall m :: 0 <= m < i ==> !visited[m]
      {
        visited[i] := false;
      }
    }
  }

  /** When no road is listed by more than two intersections, every edge in a
      node's incident list starts or ends at that node. */
  lemma BuiltIncident(ints: seq<Intersection>)
    requires forall q :: ListCount(ints, q) <= 2
    ensures Incident(Resolved(Topology(ints)))
  {
    var t := Topology(ints);
    var r := Resolved(t);
    forall i, k | 0 <= i < |r.nodes| && 0 <= k < |r.nodes[i].roads|
      ensures r.edges[r.nodes[i].roads[k]].start == i || r.edges[r.nodes[i].roads[k]].end == Some(i)
    {
      TopologyNode(ints, i);
      var q := ints[i].roads[k];
      assert r.nodes[i].roads[k] == t.edgeOf[q];
      ListerCases(ints, q, i);
      TopologyEdge(ints, q);
      assert r.edges[t.edgeOf[q]] == ResolveEdge(t, t.edgeOf[q]);
    }
  }

  /** The graph constructor: build the network from the intersections, or
      reject the map when a road attaches to its start intersection at
      neither end. */
  method NewGraph(ints: seq<Intersection>) returns (r: Result<Graph, BuildError>)
    ensures r.Success? <==> forall j :: 0 <= j < |Topology(ints).edges| ==> Attaches(Topology(ints), j)
    ensures r.Success? ==> r.value.net == Resolved(Topology(ints)) && r.value.Valid() && fresh(r.value.visited)
    ensures r.Success? && (forall q :: ListCount(ints, q) <= 2) ==> Incident(r.value.net)
    ensures r.Failure? ==> exists j :: 0 <= j < |Topology(ints).edges| && !Attaches(Topology(ints), j)
                                      && r.error == MapInvalid(Topology(ints).roads[j])
  {
    var built := BuildNetwork(ints);
    if built.Failure? {
      return Failure(built.error);
    }
    if forall q :: ListCount(ints, q) <= 2 {
      BuiltIncident(ints);
    }
    var g := new Graph(built.value);
    return Success(g);
  }
}
