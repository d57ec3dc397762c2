/** Building the road graph from the host's intersections (the constructor of
    planning/Graph.java). The first pass makes one node per intersection and
    one edge per road; the second pass resolves the end position of every road
    that ends in open space. */
module GraphBuild {
  import opened Common
  import opened RoadNetwork

  const Empty: Network := Network([], [], [], map[])

  // ------------------------------------------------------- first pass, as functions

  /** One road listed at node `n`: an edge already made for the road gets `n`
      as its end node, otherwise a new edge starts at `n`; either way the
      edge joins `n`'s incident list. */
  function ListRoad(net: Network, n: nat, road: Road): (r: Network)
    requires Linked(net) && n < |net.nodes|
    ensures Linked(r) && |r.nodes| == |net.nodes| && |r.edges| >= |net.edges|
  {
    if road in net.edgeOf then
      var j := net.edgeOf[road];
      net.(edges := net.edges[j := SetEndNode(net.edges[j], n)],
           nodes := net.nodes[n := AddRoad(net.nodes[n], j)])
    else
      var j := |net.edges|;
      Network(net.nodes[n := AddRoad(net.nodes[n], j)], net.edges + [NewEdge(n)],
              net.roads + [road], net.edgeOf[road := j])
  }

  /** The roads of one intersection, listed in the host's order. */
  function ListRoads(net: Network, n: nat, rs: seq<Road>): (r: Network)
    requires Linked(net) && n < |net.nodes|
    ensures Linked(r) && |r.nodes| == |net.nodes| && |r.edges| >= |net.edges|
    decreases |rs|
  {
    if rs == [] then net
    else ListRoad(ListRoads(net, n, rs[..|rs| - 1]), n, rs[|rs| - 1])
  }

  /** A node for a new intersection, appended to the network. */
  function AddNode(net: Network, i: Intersection): (r: Network)
    requires Linked(net)
    ensures Linked(r) && |r.nodes| == |net.nodes| + 1
  {
    net.(nodes := net.nodes + [NewNode(i)])
  }

  /** The network after the first pass over the given intersections. */
  function Topology(ints: seq<Intersection>): (t: Network)
    ensures Linked(t) && |t.nodes| == |ints|
  {
    if ints == [] then Empty
    else
      var pre := Topology(ints[..|ints| - 1]);
      ListRoads(AddNode(pre, ints[|ints| - 1]), |pre.nodes|, ints[|ints| - 1].roads)
  }

  // ------------------------------------------------------- second pass, as functions

  /** The road of edge `j` attaches to its start node at one of its two ends,
      or the edge needs no end position. */
  predicate Attaches(net: Network, j: nat)
    requires Linked(net) && j < |net.edges|
  {
    net.edges[j].end.Some? || SetEndPosition(net.nodes[net.edges[j].start], net.edges[j], net.roads[j]).Success?
  }

  /** Edge `j` after the second pass, when its road attaches. */
  function ResolveEdge(net: Network, j: nat): (e: Edge)
    requires Linked(net) && j < |net.edges|
  {
    if net.edges[j].end.Some? then net.edges[j]
    else net.edges[j].(endPosition := Some(net.roads[j].startPos))
  }

  /** The network after a successful second pass: it is well formed. */
  function Resolved(net: Network): (r: Network)
    requires Linked(net)
    ensures WellFormed(r)
    ensures r.nodes == net.nodes && r.roads == net.roads && r.edgeOf == net.edgeOf
  {
    net.(edges := seq(|net.edges|, j requires 0 <= j < |net.edges| => ResolveEdge(net, j)))
  }

  // ------------------------------------------------------- what the first pass builds

  /** How many times the intersections list a road, in all. */
  function ListCount(ints: seq<Intersection>, road: Road): nat
  {
    if ints == [] then 0
    else ListCount(ints[..|ints| - 1], road) + multiset(ints[|ints| - 1].roads)[road]
  }

  lemma {:induction false} CountZeroIff(ints: seq<Intersection>, road: Road)
    ensures ListCount(ints, road) == 0 <==> forall j :: 0 <= j < |ints| ==> road !in ints[j].roads
  {
    if ints != [] {
      var pre := ints[..|ints| - 1];
      CountZeroIff(pre, road);
      assert forall j :: 0 <= j < |pre| ==> pre[j] == ints[j];
    }
  }

  /** The first intersection that lists the road. */
  function FirstLister(ints: seq<Intersection>, road: Road): (i: nat)
    requires ListCount(ints, road) > 0
    ensures i < |ints| && road in ints[i].roads
    ensures forall j :: 0 <= j < i ==> road !in ints[j].roads
  {
    var pre := ints[..|ints| - 1];
    CountZeroIff(pre, road);
    if ListCount(pre, road) > 0 then FirstLister(pre, road) else |ints| - 1
  }

  /** The last intersection that lists the road. */
  function LastLister(ints: seq<Intersection>, road: Road): (i: nat)
    requires ListCount(ints, road) > 0
    ensures i < |ints| && road in ints[i].roads
    ensures forall j :: i < j < |ints| ==> road !in ints[j].roads
  {
    if road in ints[|ints| - 1].roads then |ints| - 1
    else LastLister(ints[..|ints| - 1], road)
  }

  /** The incident list a node gets for the roads `rs`, given the edge of each road. */
  function MapRoads(m: map<Road, nat>, rs: seq<Road>): (es: seq<nat>)
    ensures |es| == |rs| && forall k :: 0 <= k < |rs| && rs[k] in m ==> es[k] == m[rs[k]]
  {
    seq(|rs|, k requires 0 <= k < |rs| => if rs[k] in m then m[rs[k]] else 0)
  }

  /** Listing roads adds exactly those roads as keys and never moves a road to another edge. */
  lemma {:induction false} ListRoadsKeys(net: Network, n: nat, rs: seq<Road>)
    requires Linked(net) && n < |net.nodes|
    ensures forall q :: q in ListRoads(net, n, rs).edgeOf <==> q in net.edgeOf || q in rs
    ensures forall q :: q in net.edgeOf ==> ListRoads(net, n, rs).edgeOf[q] == net.edgeOf[q]
    decreases |rs|
  {
    if rs != [] {
      ListRoadsKeys(net, n, rs[..|rs| - 1]);
      assert forall q :: q in rs <==> q in rs[..|rs| - 1] || q == rs[|rs| - 1];
    }
  }

  /** One listed road: the road gets an edge (keeping every other road's),
      and that edge joins the incident list of node `n` only. */
  lemma ListRoadStep(net: Network, n: nat, road: Road)
    requires Linked(net) && n < |net.nodes|
    ensures road in ListRoad(net, n, road).edgeOf
    ensures ListRoad(net, n, road).nodes == net.nodes[n := AddRoad(net.nodes[n], ListRoad(net, n, road).edgeOf[road])]
    ensures forall q :: q in ListRoad(net, n, road).edgeOf <==> q in net.edgeOf || q == road
    ensures forall q :: q in net.edgeOf ==> ListRoad(net, n, road).edgeOf[q] == net.edgeOf[q]
  {
  }

  /** One listed road, seen from the edge of road `q`: it changes only when
      `q` is the listed road, and then it gets `n` as its end node (or is new
      and starts at `n`). */
  lemma ListRoadEdgeStep(net: Network, n: nat, road: Road, q: Road)
    requires Linked(net) && n < |net.nodes|
    ensures q in net.edgeOf ==>
      ListRoad(net, n, road).edges[net.edgeOf[q]]
        == (if q == road then SetEndNode(net.edges[net.edgeOf[q]], n) else net.edges[net.edgeOf[q]])
    ensures q !in net.edgeOf && q == road ==>
      ListRoad(net, n, road).edges[ListRoad(net, n, road).edgeOf[q]] == NewEdge(n)
  {
  }

  /** Mapping a list extended by one road, in a map that extends the one used before. */
  lemma MapRoadsSnoc(m: map<Road, nat>, m': map<Road, nat>, rs: seq<Road>, x: Road)
    requires forall k :: 0 <= k < |rs| ==> rs[k] in m && rs[k] in m' && m'[rs[k]] == m[rs[k]]
    requires x in m'
    ensures MapRoads(m', rs + [x]) == MapRoads(m, rs) + [m'[x]]
  {
  }

  /** Listing roads at node `n` gives each of them an edge and leaves every
      other node alone. */
  lemma {:induction false} ListRoadsOthers(net: Network, n: nat, rs: seq<Road>)
    requires Linked(net) && n < |net.nodes|
    ensures forall k :: 0 <= k < |rs| ==> rs[k] in ListRoads(net, n, rs).edgeOf
    ensures forall i :: 0 <= i < |net.nodes| && i != n ==> ListRoads(net, n, rs).nodes[i] == net.nodes[i]
    decreases |rs|
  {
    if rs != [] {
      var pre, x := rs[..|rs| - 1], rs[|rs| - 1];
      var mid := ListRoads(net, n, pre);
      var r := ListRoad(mid, n, x);
      assert r == ListRoads(net, n, rs);
      ListRoadsOthers(net, n, pre);
      ListRoadStep(mid, n, x);
      forall k | 0 <= k < |rs| ensures rs[k] in r.edgeOf {
        if k < |pre| {
          assert rs[k] == pre[k];
        }
      }
      forall i | 0 <= i < |net.nodes| && i != n ensures r.nodes[i] == net.nodes[i] {
        assert r.nodes[i] == mid.nodes[i];
      }
    }
  }

  /** Listing roads at node `n` appends their edges to `n`'s list, in order. */
  lemma {:induction false} ListRoadsNodes(net: Network, n: nat, rs: seq<Road>)
    requires Linked(net) && n < |net.nodes|
    ensures ListRoads(net, n, rs).nodes[n]
         == net.nodes[n].(roads := net.nodes[n].roads + MapRoads(ListRoads(net, n, rs).edgeOf, rs))
    decreases |rs|
  {
    if rs != [] {
      var pre, x := rs[..|rs| - 1], rs[|rs| - 1];
      var mid := ListRoads(net, n, pre);
      var r := ListRoad(mid, n, x);
      assert r == ListRoads(net, n, rs);
      ListRoadsNodes(net, n, pre);
      ListRoadsOthers(net, n, pre);
      ListRoadStep(mid, n, x);
      assert rs == pre + [x];
      AppendMapped(net.nodes[n].roads, mid.edgeOf, r.edgeOf, pre, x);
    }
  }

  /** A list that holds a prefix and the mapped roads keeps that form when
      one more road is mapped onto its end in an extended map. */
  lemma AppendMapped(base: seq<nat>, m: map<Road, nat>, m': map<Road, nat>, rs: seq<Road>, x: Road)
    requires forall k :: 0 <= k < |rs| ==> rs[k] in m && rs[k] in m' && m'[rs[k]] == m[rs[k]]
    requires x in m'
    ensures base + MapRoads(m, rs) + [m'[x]] == base + MapRoads(m', rs + [x])
  {
    MapRoadsSnoc(m, m', rs, x);
  }

  /** What listing roads at node `n` does to the edge of road `q`: an existing
      edge gets `n` as its end node if `q` is listed; a new edge starts at
      `n` and also ends at `n` when `q` is listed twice. */
  lemma {:induction false} ListRoadsEdge(net: Network, n: nat, rs: seq<Road>, q: Road)
    requires Linked(net) && n < |net.nodes|
    requires q in net.edgeOf || q in rs
    ensures q in ListRoads(net, n, rs).edgeOf
    ensures q in net.edgeOf ==>
      ListRoads(net, n, rs).edges[net.edgeOf[q]]
        == (if q in rs then net.edges[net.edgeOf[q]].(end := Some(n)) else net.edges[net.edgeOf[q]])
    ensures q !in net.edgeOf ==>
      ListRoads(net, n, rs).edges[ListRoads(net, n, rs).edgeOf[q]]
        == Edge(n, if multiset(rs)[q] >= 2 then Some(n) else None, None)
    decreases |rs|
  {
    ListRoadsKeys(net, n, rs);
    if rs != [] {
      var pre := rs[..|rs| - 1];
      var x := rs[|rs| - 1];
      assert rs == pre + [x];
      assert forall v :: v in rs <==> v in pre || v == x;
      var mid := ListRoads(net, n, pre);
      ListRoadsKeys(net, n, pre);
      ListRoadEdgeStep(mid, n, x, q);
      if q in net.edgeOf || q in pre {
        ListRoadsEdge(net, n, pre, q);
      }
      assert multiset(rs)[q] == multiset(pre)[q] + (if q == x then 1 else 0);
      assert q in pre <==> multiset(pre)[q] > 0;
    }
  }

  /** A road is a key of the built map exactly when some intersection lists it. */
  lemma {:induction false} TopologyKeys(ints: seq<Intersection>, q: Road)
    ensures q in Topology(ints).edgeOf <==> ListCount(ints, q) > 0
  {
    if ints != [] {
      var pre := ints[..|ints| - 1];
      var last := ints[|ints| - 1];
      TopologyKeys(pre, q);
      var added := AddNode(Topology(pre), last);
      ListRoadsKeys(added, |Topology(pre).nodes|, last.roads);
      assert q in last.roads <==> multiset(last.roads)[q] > 0;
    }
  }

  /** Node `i` copies intersection `i` and lists, in the intersection's order,
      the edge of every road the intersection lists, whether the edge was
      created there or back-filled. */
  lemma {:induction false} TopologyNode(ints: seq<Intersection>, i: nat)
    requires i < |ints|
    ensures forall k :: 0 <= k < |ints[i].roads| ==> ints[i].roads[k] in Topology(ints).edgeOf
    ensures Topology(ints).nodes[i]
         == Node(ints[i].pos, ints[i].width, ints[i].length, MapRoads(Topology(ints).edgeOf, ints[i].roads))
  {
    var pre := ints[..|ints| - 1];
    var last := ints[|ints| - 1];
    var t := Topology(ints);
    var n := |Topology(pre).nodes|;
    var added := AddNode(Topology(pre), last);
    ListRoadsNodes(added, n, last.roads);
    ListRoadsOthers(added, n, last.roads);
    ListRoadsKeys(added, n, last.roads);
    if i < n {
      TopologyNode(pre, i);
      assert pre[i] == ints[i];
      assert added.nodes[i] == Topology(pre).nodes[i];
      assert MapRoads(Topology(pre).edgeOf, ints[i].roads) == MapRoads(t.edgeOf, ints[i].roads);
    }
  }

  /** The edge of a listed road starts at the first intersection listing it,
      and ends at the last one when the road is listed more than once (every
      later listing overwrites the end node); it has no end position yet. */
  lemma {:induction false} TopologyEdge(ints: seq<Intersection>, q: Road)
    requires ListCount(ints, q) > 0
    ensures q in Topology(ints).edgeOf
    ensures Topology(ints).edges[Topology(ints).edgeOf[q]]
         == Edge(FirstLister(ints, q), if ListCount(ints, q) >= 2 then Some(LastLister(ints, q)) else None, None)
  {
    var pre := ints[..|ints| - 1];
    var last := ints[|ints| - 1];
    var n := |Topology(pre).nodes|;
    var added := AddNode(Topology(pre), last);
    TopologyKeys(ints, q);
    TopologyKeys(pre, q);
    assert q in last.roads <==> multiset(last.roads)[q] > 0;
    if ListCount(pre, q) > 0 {
      TopologyEdge(pre, q);
      ListRoadsEdge(added, n, last.roads, q);
      ListRoadsKeys(added, n, last.roads);
    } else {
      ListRoadsEdge(added, n, last.roads, q);
    }
  }

  /** An intersection that lists a road is its first lister, or its last
      lister when the road is listed at least twice, or else the road is
      listed at least three times. */
  lemma {:induction false} ListerCases(ints: seq<Intersection>, q: Road, i: nat)
    requires i < |ints| && q in ints[i].roads
    ensures ListCount(ints, q) > 0
    ensures || i == FirstLister(ints, q)
            || (i == LastLister(ints, q) && ListCount(ints, q) >= 2)
            || ListCount(ints, q) >= 3
  {
    var pre := ints[..|ints| - 1];
    var last := ints[|ints| - 1];
    CountZeroIff(ints, q);
    CountZeroIff(pre, q);
    assert q in last.roads <==> multiset(last.roads)[q] > 0;
    if i < |pre| {
      assert pre[i] == ints[i];
      ListerCases(pre, q, i);
    }
  }

  // ------------------------------------------------------- the constructor

  /** The body of the constructor's inner loop: back-fill the end node of the
      road's edge or create the edge, then append it to the node's list. */
  method AttachRoad(net: Network, n: nat, road: Road) returns (r: Network)
    requires Linked(net) && n < |net.nodes|
    ensures r == ListRoad(net, n, road)
  {
    r := net;
    var j;
    if road in r.edgeOf {
      j := r.edgeOf[road];
      r := r.(edges := r.edges[j := SetEndNode(r.edges[j], n)]);
    } else {
      j := |r.edges|;
      r := Network(r.nodes, r.edges + [NewEdge(n)], r.roads + [road], r.edgeOf[road := j]);
    }
    r := r.(nodes := r.nodes[n := AddRoad(r.nodes[n], j)]);
  }

  /** The first loop of the graph constructor: a node per intersection, and
      per road listed there, a new or back-filled edge. */
  method FirstPass(ints: seq<Intersection>) returns (net: Network)
    ensures net == Topology(ints)
  {
    net := Empty;
    var i := 0;
    while i < |ints|
      invariant 0 <= i <= |ints|
      invariant net == Topology(ints[..i])
    {
      var n := |net.nodes|;
      net := net.(nodes := net.nodes + [NewNode(ints[i])]);
      ghost var added := net;
      assert ints[..i + 1][..i] == ints[..i];
      assert added == AddNode(Topology(ints[..i]), ints[i]);
      var rs := ints[i].roads;
      var k := 0;
      while k < |rs|
        invariant 0 <= k <= |rs| && n < |added.nodes|
        invariant Linked(added)
        invariant net == ListRoads(added, n, rs[..k])
      {
        net := AttachRoad(net, n, rs[k]);
        assert rs[..k + 1][..k] == rs[..k];
        k := k + 1;
      }
      assert rs[..k] == rs;
      assert Topology(ints[..i + 1]) == ListRoads(added, n, rs);
      i := i + 1;
    }
    assert ints[..i] == ints;
  }

  /** The second loop of the graph constructor: every edge without an end
      node gets an end position, or the map is rejected. */
  method SecondPass(t: Network) returns (r: Result<Network, BuildError>)
    requires Linked(t)
    ensures r.Success? <==> forall j :: 0 <= j < |t.edges| ==> Attaches(t, j)
    ensures r.Success? ==> r.value == Resolved(t)
    ensures r.Failure? ==> exists j :: 0 <= j < |t.edges| && !Attaches(t, j) && r.error == MapInvalid(t.roads[j])
  {
    var net := t;
    var j := 0;
    while j < |net.edges|
      invariant 0 <= j <= |net.edges| == |t.edges|
      invariant net.nodes == t.nodes && net.roads == t.roads && net.edgeOf == t.edgeOf
      invariant forall k :: 0 <= k < j ==> Attaches(t, k) && net.edges[k] == ResolveEdge(t, k)
      invariant forall k :: j <= k < |net.edges| ==> net.edges[k] == t.edges[k]
    {
      if !HasEndNode(net.edges[j]) {
        var resolved := SetEndPosition(net.nodes[net.edges[j].start], net.edges[j], net.roads[j]);
        if resolved.Failure? {
          assert !Attaches(t, j);
          return Failure(resolved.error);
        }
        net := net.(edges := net.edges[j := resolved.value]);
      }
      j := j + 1;
    }
    assert net.edges == Resolved(t).edges;
    return Success(net);
  }

  /** The graph constructor. A road attaching to its start intersection at
      neither end is a fatal map error, reported as a failure. */
  method BuildNetwork(ints: seq<Intersection>) returns (r: Result<Network, BuildError>)
    ensures r.Success? <==> forall j :: 0 <= j < |Topology(ints).edges| ==> Attaches(Topology(ints), j)
    ensures r.Success? ==> r.value == Resolved(Topology(ints)) && WellFormed(r.value)
    ensures r.Failure? ==> exists j :: 0 <= j < |Topology(ints).edges| && !Attaches(Topology(ints), j)
                                      && r.error == MapInvalid(Topology(ints).roads[j])
  {
    var t := FirstPass(ints);
    r := SecondPass(t);
  }
}
