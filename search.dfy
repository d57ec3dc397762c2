/** The two searches of planning/Graph.java, stated as functions of the
    network and of the visited flags, which they thread through: the
    reachability check `depthFirstSearch` and the greedy path search
    `pathFindingSearch` with its edge order. */
module RouteSearch {
  import opened Common
  import opened RoadNetwork
  import opened EdgeOrder

  // ---------------------------------------------------------------- visited flags

  /** The number of unvisited nodes: every recursive step of both searches
      first marks one of them. */
  function CountFalse(v: seq<bool>): nat
  {
    if v == [] then 0 else (if v[0] then 0 else 1) + CountFalse(v[1..])
  }

  /** The flags `w` keep every mark of `v`: a search never unmarks a node. */
  predicate Grows(v: seq<bool>, w: seq<bool>)
  {
    |v| == |w| && forall i :: 0 <= i < |v| ==> v[i] ==> w[i]
  }

  /** Flags for `count` nodes, none of them visited. */
  function Unvisited(count: nat): (v: seq<bool>)
    ensures |v| == count && forall i :: 0 <= i < count ==> !v[i]
  {
    seq(count, _ => false)
  }

  lemma {:induction false} CountFalseGrows(v: seq<bool>, w: seq<bool>)
    requires Grows(v, w)
    ensures CountFalse(w) <= CountFalse(v)
  {
    if v != [] {
      assert Grows(v[1..], w[1..]) by {
        forall i | 0 <= i < |v[1..]| ensures v[1..][i] ==> w[1..][i] {
          assert v[1..][i] == v[i + 1] && w[1..][i] == w[i + 1];
        }
      }
      CountFalseGrows(v[1..], w[1..]);
    }
  }

  lemma {:induction false} CountFalseMark(v: seq<bool>, n: nat)
    requires n < |v| && !v[n]
    ensures CountFalse(v[n := true]) < CountFalse(v)
  {
    if n > 0 {
      assert v[n := true][1..] == v[1..][n - 1 := true];
      CountFalseMark(v[1..], n - 1);
    } else {
      assert v[n := true][1..] == v[1..];
    }
  }

  // ---------------------------------------------------------------- depthFirstSearch

  /** `depthFirstSearch` from edge `e`: the destination is on `e`'s road, or
      it is found through the start node of `e` or then through its end node.
      It answers whether it found the destination, and the flags it leaves. */
  function Dfs(net: Network, dest: Point, e: nat, v: seq<bool>): (r: (bool, seq<bool>))
    requires WellFormed(net) && e < |net.edges| && |v| == |net.nodes|
    ensures Grows(v, r.1)
    ensures EdgeReaches(net, e, dest) ==> r == (true, v)
    decreases CountFalse(v), 2, 0
  {
    if EdgeReaches(net, e, dest) then (true, v)
    else
      var a := Expand(net, dest, e, net.edges[e].start, v);
      CountFalseGrows(v, a.1);
      if a.0 || net.edges[e].end.None? then a
      else Expand(net, dest, e, net.edges[e].end.value, a.1)
  }

  /** Node `n`, an endpoint of edge `e`, is searched only if unvisited: it is
      marked, and then every incident edge except `e` is searched in turn. */
  function Expand(net: Network, dest: Point, e: nat, n: nat, v: seq<bool>): (r: (bool, seq<bool>))
    requires WellFormed(net) && e < |net.edges| && n < |net.nodes| && |v| == |net.nodes|
    ensures Grows(v, r.1)
    ensures v[n] ==> r == (false, v)
    decreases CountFalse(v), 1, 0
  {
    if v[n] then (false, v)
    else
      CountFalseMark(v, n);
      Loop(net, dest, e, n, 0, v[n := true])
  }

  /** The loop over node `n`'s incident edges from position `k`; it stops at
      the first edge whose search finds the destination. */
  function Loop(net: Network, dest: Point, e: nat, n: nat, k: nat, v: seq<bool>): (r: (bool, seq<bool>))
    requires WellFormed(net) && e < |net.edges| && n < |net.nodes| && |v| == |net.nodes|
    requires k <= |net.nodes[n].roads|
    ensures Grows(v, r.1)
    decreases CountFalse(v), 3, |net.nodes[n].roads| - k
  {
    var roads := net.nodes[n].roads;
    if k == |roads| then (false, v)
    else if roads[k] == e then Loop(net, dest, e, n, k + 1, v)
    else
      var a := Dfs(net, dest, roads[k], v);
      CountFalseGrows(v, a.1);
      if a.0 then a else Loop(net, dest, e, n, k + 1, a.1)
  }

  /** Edge `f` leaves one of the endpoints of edge `e`. */
  predicate Adjacent(net: Network, e: nat, f: nat)
    requires WellFormed(net) && e < |net.edges|
  {
    f in net.nodes[net.edges[e].start].roads
    || (net.edges[e].end.Some? && f in net.nodes[net.edges[e].end.value].roads)
  }

  /** A sequence of edges, each leaving an endpoint of the one before. */
  predicate IsWalk(net: Network, w: seq<nat>)
    requires WellFormed(net)
  {
    && |w| >= 1
    && (forall i :: 0 <= i < |w| ==> w[i] < |net.edges|)
    && (forall i :: 0 <= i < |w| - 1 ==> Adjacent(net, w[i], w[i + 1]))
  }

  /** The depth-first search is sound: when it answers true, a walk of
      adjacent edges leads from `e` to an edge with the destination on its road. */
  lemma {:induction false} DfsSound(net: Network, dest: Point, e: nat, v: seq<bool>) returns (w: seq<nat>)
    requires WellFormed(net) && e < |net.edges| && |v| == |net.nodes|
    requires Dfs(net, dest, e, v).0
    ensures IsWalk(net, w) && w[0] == e && EdgeReaches(net, w[|w| - 1], dest)
    decreases CountFalse(v), 2, 0
  {
    if EdgeReaches(net, e, dest) {
      w := [e];
    } else {
      var a := Expand(net, dest, e, net.edges[e].start, v);
      var t;
      if a.0 {
        t := ExpandSound(net, dest, e, net.edges[e].start, v);
      } else {
        CountFalseGrows(v, a.1);
        t := ExpandSound(net, dest, e, net.edges[e].end.value, a.1);
      }
      w := [e] + t;
    }
  }

  lemma {:induction false} ExpandSound(net: Network, dest: Point, e: nat, n: nat, v: seq<bool>) returns (w: seq<nat>)
    requires WellFormed(net) && e < |net.edges| && n < |net.nodes| && |v| == |net.nodes|
    requires n == net.edges[e].start || net.edges[e].end == Some(n)
    requires Expand(net, dest, e, n, v).0
    ensures IsWalk(net, w) && Adjacent(net, e, w[0]) && EdgeReaches(net, w[|w| - 1], dest)
    decreases CountFalse(v), 1, 0
  {
    CountFalseMark(v, n);
    w := LoopSound(net, dest, e, n, 0, v[n := true]);
  }

  lemma {:induction false} LoopSound(net: Network, dest: Point, e: nat, n: nat, k: nat, v: seq<bool>) returns (w: seq<nat>)
    requires WellFormed(net) && e < |net.edges| && n < |net.nodes| && |v| == |net.nodes|
    requires k <= |net.nodes[n].roads|
    requires Loop(net, dest, e, n, k, v).0
    ensures IsWalk(net, w) && w[0] in net.nodes[n].roads && EdgeReaches(net, w[|w| - 1], dest)
    decreases CountFalse(v), 3, |net.nodes[n].roads| - k
  {
    var roads := net.nodes[n].roads;
    if roads[k] == e {
      w := LoopSound(net, dest, e, n, k + 1, v);
    } else {
      var a := Dfs(net, dest, roads[k], v);
      CountFalseGrows(v, a.1);
      if a.0 {
        w := DfsSound(net, dest, roads[k], v);
      } else {
        w := LoopSound(net, dest, e, n, k + 1, a.1);
      }
    }
  }

  // ---------------------------------------------------------------- completeness of depthFirstSearch

  /** Edge `f` is finished under flags `w`: its road does not have the
      destination on it, and both of its endpoints are marked. */
  predicate Done(net: Network, dest: Point, f: nat, w: seq<bool>)
    requires WellFormed(net) && f < |net.edges| && |w| == |net.nodes|
  {
    && !EdgeReaches(net, f, dest)
    && w[net.edges[f].start]
    && (net.edges[f].end.Some? ==> w[net.edges[f].end.value])
  }

  /** Every incident edge of node `n` from position `k` on, except `e`, is finished. */
  predicate RoadsDone(net: Network, dest: Point, n: nat, e: nat, k: nat, w: seq<bool>)
    requires WellFormed(net) && n < |net.nodes| && |w| == |net.nodes|
  {
    forall j :: k <= j < |net.nodes[n].roads| && net.nodes[n].roads[j] != e ==> Done(net, dest, net.nodes[n].roads[j], w)
  }

  /** Every node marked in `w` but not in `v` has all its incident edges finished. */
  predicate Closed(net: Network, dest: Point, v: seq<bool>, w: seq<bool>)
    requires WellFormed(net) && |v| == |net.nodes| && |w| == |net.nodes|
  {
    forall n :: 0 <= n < |v| && w[n] && !v[n] ==>
      forall j :: 0 <= j < |net.nodes[n].roads| ==> Done(net, dest, net.nodes[n].roads[j], w)
  }

  lemma DoneGrows(net: Network, dest: Point, f: nat, w: seq<bool>, w': seq<bool>)
    requires WellFormed(net) && f < |net.edges| && |w| == |net.nodes| && Grows(w, w')
    requires Done(net, dest, f, w)
    ensures Done(net, dest, f, w')
  {
  }

  lemma RoadsDoneGrows(net: Network, dest: Point, n: nat, e: nat, k: nat, w: seq<bool>, w': seq<bool>)
    requires WellFormed(net) && n < |net.nodes| && |w| == |net.nodes| && Grows(w, w')
    requires RoadsDone(net, dest, n, e, k, w)
    ensures RoadsDone(net, dest, n, e, k, w')
  {
  }

  /** Closing two stretches of a search in sequence closes both together. */
  lemma ClosedTrans(net: Network, dest: Point, v: seq<bool>, v1: seq<bool>, v2: seq<bool>)
    requires WellFormed(net) && |v| == |net.nodes| && Grows(v, v1) && Grows(v1, v2)
    requires Closed(net, dest, v, v1) && Closed(net, dest, v1, v2)
    ensures Closed(net, dest, v, v2)
  {
  }

  /** Node `n`, marked while edge `e` was searched, is closed once `e` is
      finished as well. */
  lemma CloseNode(net: Network, dest: Point, e: nat, n: nat, v: seq<bool>, w: seq<bool>)
    requires WellFormed(net) && e < |net.edges| && n < |net.nodes| && |v| == |net.nodes|
    requires Grows(v[n := true], w) && Closed(net, dest, v[n := true], w)
    requires !v[n] ==> RoadsDone(net, dest, n, e, 0, w)
    requires Done(net, dest, e, w)
    ensures Closed(net, dest, v, w)
  {
    forall m | 0 <= m < |v| && w[m] && !v[m]
      ensures forall j :: 0 <= j < |net.nodes[m].roads| ==> Done(net, dest, net.nodes[m].roads[j], w)
    {
      if m != n {
        assert !v[n := true][m];
      }
    }
  }

  /** A search of edge `e` that answers false finishes `e` and closes every
      node it marks. */
  lemma {:induction false} DfsFalse(net: Network, dest: Point, e: nat, v: seq<bool>)
    requires WellFormed(net) && e < |net.edges| && |v| == |net.nodes|
    requires !Dfs(net, dest, e, v).0
    ensures Done(net, dest, e, Dfs(net, dest, e, v).1) && Closed(net, dest, v, Dfs(net, dest, e, v).1)
    decreases CountFalse(v), 2, 0
  {
    var s := net.edges[e].start;
    var a := Expand(net, dest, e, s, v);
    CountFalseGrows(v, a.1);
    ExpandFalse(net, dest, e, s, v);
    if net.edges[e].end.None? {
      CloseNode(net, dest, e, s, v, a.1);
    } else {
      var t := net.edges[e].end.value;
      var b := Expand(net, dest, e, t, a.1);
      ExpandFalse(net, dest, e, t, a.1);
      CloseNode(net, dest, e, t, a.1, b.1);
      ClosedTrans(net, dest, v[s := true], a.1, b.1);
      if !v[s] {
        RoadsDoneGrows(net, dest, s, e, 0, a.1, b.1);
      }
      CloseNode(net, dest, e, s, v, b.1);
    }
  }

  /** An endpoint `n` of `e` that answers false ends up marked, and when the
      search marked it, every incident edge of it but `e` is finished. */
  lemma {:induction false} ExpandFalse(net: Network, dest: Point, e: nat, n: nat, v: seq<bool>)
    requires WellFormed(net) && e < |net.edges| && n < |net.nodes| && |v| == |net.nodes|
    requires !Expand(net, dest, e, n, v).0
    ensures var w := Expand(net, dest, e, n, v).1;
            && w[n] && Grows(v[n := true], w) && Closed(net, dest, v[n := true], w)
            && (!v[n] ==> RoadsDone(net, dest, n, e, 0, w))
    decreases CountFalse(v), 1, 0
  {
    if v[n] {
      assert v[n := true] == v;
    } else {
      CountFalseMark(v, n);
      LoopFalse(net, dest, e, n, 0, v[n := true]);
    }
  }

  lemma {:induction false} LoopFalse(net: Network, dest: Point, e: nat, n: nat, k: nat, v: seq<bool>)
    requires WellFormed(net) && e < |net.edges| && n < |net.nodes| && |v| == |net.nodes|
    requires k <= |net.nodes[n].roads|
    requires !Loop(net, dest, e, n, k, v).0
    ensures RoadsDone(net, dest, n, e, k, Loop(net, dest, e, n, k, v).1)
    ensures Closed(net, dest, v, Loop(net, dest, e, n, k, v).1)
    decreases CountFalse(v), 3, |net.nodes[n].roads| - k
  {
    var roads := net.nodes[n].roads;
    if k < |roads| {
      if roads[k] == e {
        LoopFalse(net, dest, e, n, k + 1, v);
      } else {
        var a := Dfs(net, dest, roads[k], v);
        CountFalseGrows(v, a.1);
        DfsFalse(net, dest, roads[k], v);
        LoopFalse(net, dest, e, n, k + 1, a.1);
        var w := Loop(net, dest, e, n, k + 1, a.1).1;
        DoneGrows(net, dest, roads[k], a.1, w);
        ClosedTrans(net, dest, v, a.1, w);
      }
    }
  }

  /** Along a walk from a finished edge, with every marked node closed,
      every edge is finished. */
  lemma {:induction false} WalkDone(net: Network, dest: Point, w: seq<nat>, r: seq<bool>, i: nat)
    requires WellFormed(net) && IsWalk(net, w) && |r| == |net.nodes| && i < |w|
    requires Closed(net, dest, Unvisited(|net.nodes|), r) && Done(net, dest, w[0], r)
    ensures Done(net, dest, w[i], r)
  {
    if i > 0 {
      WalkDone(net, dest, w, r, i - 1);
      var e := net.edges[w[i - 1]];
      var p := if w[i] in net.nodes[e.start].roads then e.start else e.end.value;
      assert w[i] in net.nodes[p].roads;
      var j :| 0 <= j < |net.nodes[p].roads| && net.nodes[p].roads[j] == w[i];
      assert r[p] && !Unvisited(|net.nodes|)[p];
    }
  }

  /** The depth-first search is complete: on fresh flags it finds every
      walk from `e` to an edge with the destination on its road. */
  lemma DfsComplete(net: Network, dest: Point, e: nat, w: seq<nat>)
    requires WellFormed(net) && IsWalk(net, w) && w[0] == e
    ensures !Dfs(net, dest, e, Unvisited(|net.nodes|)).0 ==> !EdgeReaches(net, w[|w| - 1], dest)
  {
    var u := Unvisited(|net.nodes|);
    if !Dfs(net, dest, e, u).0 {
      DfsFalse(net, dest, e, u);
      WalkDone(net, dest, w, Dfs(net, dest, e, u).1, |w| - 1);
    }
  }

  /** On fresh flags the depth-first search answers true exactly when a walk
      of adjacent edges leads from `e` to an edge with the destination on its road. */
  lemma DfsIff(net: Network, dest: Point, e: nat)
    requires WellFormed(net) && e < |net.edges|
    ensures Dfs(net, dest, e, Unvisited(|net.nodes|)).0
        <==> exists w :: IsWalk(net, w) && w[0] == e && EdgeReaches(net, w[|w| - 1], dest)
  {
    if Dfs(net, dest, e, Unvisited(|net.nodes|)).0 {
      var w := DfsSound(net, dest, e, Unvisited(|net.nodes|));
    } else {
      forall w | IsWalk(net, w) && w[0] == e
        ensures !EdgeReaches(net, w[|w| - 1], dest)
      {
        DfsComplete(net, dest, e, w);
      }
    }
  }

  // ---------------------------------------------------------------- edge order

  /** The key the edge sort compares: the squared straight-line distance from
      the destination to the node `getEndOfRoad` answers for edge `j` seen
      from node `n`, or none when it answers nothing. */
  function EdgeKey(net: Network, n: nat, dest: Point, j: nat): Option<real>
  {
    if j < |net.edges| then
      match EndOfRoad(net.edges[j], n)
      case None => None
      case Some(m) => if m < |net.nodes| then Some(StraightLineDistanceSq(net.nodes[m], dest)) else None
    else None
  }

  function Keys(net: Network, n: nat, dest: Point): nat -> Option<real>
  {
    (j: nat) => EdgeKey(net, n, dest, j)
  }

  /** Node `n`'s incident edges in the order the path search tries them. */
  function SortedEdges(net: Network, n: nat, dest: Point): (s: seq<nat>)
    requires WellFormed(net) && n < |net.nodes|
    ensures multiset(s) == multiset(net.nodes[n].roads)
    ensures forall i :: 0 <= i < |s| ==> s[i] in net.nodes[n].roads && s[i] < |net.edges|
  {
    var s := Sort(net.nodes[n].roads, Keys(net, n, dest));
    assert forall i :: 0 <= i < |s| ==> s[i] in multiset(s);
    s
  }

  // ---------------------------------------------------------------- pathFindingSearch

  /** Every incident edge of a node has that node as its start or its end. */
  predicate Incident(net: Network)
    requires WellFormed(net)
  {
    forall i, k :: 0 <= i < |net.nodes| && 0 <= k < |net.nodes[i].roads| ==>
      net.edges[net.nodes[i].roads[k]].start == i || net.edges[net.nodes[i].roads[k]].end == Some(i)
  }

  /** Some incident edge of node `n` has the destination on its road. */
  predicate ReachesFrom(net: Network, dest: Point, n: nat)
    requires WellFormed(net) && n < |net.nodes|
  {
    exists k :: 0 <= k < |net.nodes[n].roads| && EdgeReaches(net, net.nodes[n].roads[k], dest)
  }

  /** The node the path search moves to over incident edge `j` of node `n`. */
  function NextNode(net: Network, n: nat, j: nat): (m: nat)
    requires WellFormed(net) && Incident(net) && n < |net.nodes| && j in net.nodes[n].roads
    requires net.edges[j].end.Some?
    ensures m < |net.nodes| && EndOfRoad(net.edges[j], n) == Some(m)
  {
    EndOfRoad(net.edges[j], n).value
  }

  /** `pathFindingSearch` from node `n`: the route [n] when an incident edge
      reaches the destination, else the first route found through the
      incident edges in sorted order, each far node searched only if
      unvisited and marked before it is searched. */
  function Search(net: Network, dest: Point, n: nat, v: seq<bool>): (r: (Option<seq<nat>>, seq<bool>))
    requires WellFormed(net) && Incident(net) && n < |net.nodes| && |v| == |net.nodes|
    ensures Grows(v, r.1)
    decreases CountFalse(v), 1, 0
  {
    if ReachesFrom(net, dest, n) then (Some([n]), v)
    else SearchLoop(net, dest, n, SortedEdges(net, n, dest), 0, v)
  }

  function SearchLoop(net: Network, dest: Point, n: nat, sorted: seq<nat>, k: nat, v: seq<bool>)
    : (r: (Option<seq<nat>>, seq<bool>))
    requires WellFormed(net) && Incident(net) && n < |net.nodes| && |v| == |net.nodes|
    requires k <= |sorted| && forall i :: 0 <= i < |sorted| ==> sorted[i] in net.nodes[n].roads
    ensures Grows(v, r.1)
    decreases CountFalse(v), 0, |sorted| - k
  {
    if k == |sorted| then (None, v)
    else if net.edges[sorted[k]].end.None? then SearchLoop(net, dest, n, sorted, k + 1, v)
    else
      var m := NextNode(net, n, sorted[k]);
      if v[m] then SearchLoop(net, dest, n, sorted, k + 1, v)
      else
        CountFalseMark(v, m);
        var a := Search(net, dest, m, v[m := true]);
        CountFalseGrows(v[m := true], a.1);
        if a.0.Some? then (Some([n] + a.0.value), a.1)
        else SearchLoop(net, dest, n, sorted, k + 1, a.1)
  }

  /** One pass of the path search's loop over an edge it skips: one without
      an end node, or one whose far node is already visited. */
  lemma SearchLoopSkip(net: Network, dest: Point, n: nat, sorted: seq<nat>, k: nat, v: seq<bool>)
    requires WellFormed(net) && Incident(net) && n < |net.nodes| && |v| == |net.nodes|
    requires k < |sorted| && forall i :: 0 <= i < |sorted| ==> sorted[i] in net.nodes[n].roads
    requires net.edges[sorted[k]].end.None? || v[NextNode(net, n, sorted[k])]
    ensures SearchLoop(net, dest, n, sorted, k, v) == SearchLoop(net, dest, n, sorted, k + 1, v)
  {
  }

  /** One pass of the path search's loop over an edge whose far node is
      unvisited: the far node is marked and searched, and the loop goes on
      only when that search finds nothing. */
  lemma SearchLoopVisit(net: Network, dest: Point, n: nat, sorted: seq<nat>, k: nat, v: seq<bool>)
    requires WellFormed(net) && Incident(net) && n < |net.nodes| && |v| == |net.nodes|
    requires k < |sorted| && forall i :: 0 <= i < |sorted| ==> sorted[i] in net.nodes[n].roads
    requires net.edges[sorted[k]].end.Some? && !v[NextNode(net, n, sorted[k])]
    ensures var m := NextNode(net, n, sorted[k]);
            var a := Search(net, dest, m, v[m := true]);
            SearchLoop(net, dest, n, sorted, k, v)
            == if a.0.Some? then (Some([n] + a.0.value), a.1) else SearchLoop(net, dest, n, sorted, k + 1, a.1)
  {
  }

  /** Node `b` follows node `a` on a route: it is what `getEndOfRoad` answers
      from `a` for an incident edge of `a` that has an end node. */
  predicate Step(net: Network, a: nat, b: nat)
    requires WellFormed(net) && a < |net.nodes|
  {
    exists j :: j in net.nodes[a].roads && j < |net.edges| && net.edges[j].end.Some? && EndOfRoad(net.edges[j], a) == Some(b)
  }

  /** A route: a sequence of nodes, each following the one before, the last
      with an incident edge that has the destination on its road. */
  predicate IsRoute(net: Network, dest: Point, p: seq<nat>)
    requires WellFormed(net)
  {
    && |p| >= 1
    && (forall i :: 0 <= i < |p| ==> p[i] < |net.nodes|)
    && (forall i :: 0 <= i < |p| - 1 ==> Step(net, p[i], p[i + 1]))
    && ReachesFrom(net, dest, p[|p| - 1])
  }

  /** A route the path search returns begins at the node searched from and
      is a route to the destination. */
  lemma {:induction false} SearchSound(net: Network, dest: Point, n: nat, v: seq<bool>)
    requires WellFormed(net) && Incident(net) && n < |net.nodes| && |v| == |net.nodes|
    requires Search(net, dest, n, v).0.Some?
    ensures IsRoute(net, dest, Search(net, dest, n, v).0.value) && Search(net, dest, n, v).0.value[0] == n
    decreases CountFalse(v), 1, 0
  {
    if !ReachesFrom(net, dest, n) {
      SearchLoopSound(net, dest, n, SortedEdges(net, n, dest), 0, v);
    }
  }

  lemma {:induction false} SearchLoopSound(net: Network, dest: Point, n: nat, sorted: seq<nat>, k: nat, v: seq<bool>)
    requires WellFormed(net) && Incident(net) && n < |net.nodes| && |v| == |net.nodes|
    requires k <= |sorted| && forall i :: 0 <= i < |sorted| ==> sorted[i] in net.nodes[n].roads
    requires SearchLoop(net, dest, n, sorted, k, v).0.Some?
    ensures IsRoute(net, dest, SearchLoop(net, dest, n, sorted, k, v).0.value)
         && SearchLoop(net, dest, n, sorted, k, v).0.value[0] == n
    decreases CountFalse(v), 0, |sorted| - k
  {
    if net.edges[sorted[k]].end.None? {
      SearchLoopSound(net, dest, n, sorted, k + 1, v);
    } else {
      var m := NextNode(net, n, sorted[k]);
      if v[m] {
        SearchLoopSound(net, dest, n, sorted, k + 1, v);
      } else {
        CountFalseMark(v, m);
        var a := Search(net, dest, m, v[m := true]);
        CountFalseGrows(v[m := true], a.1);
        if a.0.Some? {
          SearchSound(net, dest, m, v[m := true]);
          var p := [n] + a.0.value;
          assert Step(net, n, m);
          assert forall i :: 1 <= i < |p| ==> p[i] == a.0.value[i - 1];
        } else {
          SearchLoopSound(net, dest, n, sorted, k + 1, a.1);
        }
      }
    }
  }

  /** The path search answers the one-node route exactly when an incident
      edge of the node reaches the destination. */
  lemma {:induction false} SearchSingleIff(net: Network, dest: Point, n: nat, v: seq<bool>)
    requires WellFormed(net) && Incident(net) && n < |net.nodes| && |v| == |net.nodes|
    ensures Search(net, dest, n, v).0 == Some([n]) <==> ReachesFrom(net, dest, n)
  {
    if Search(net, dest, n, v).0 == Some([n]) {
      SearchSound(net, dest, n, v);
    }
  }

  // ---------------------------------------------------------------- planRoute

  /** The node the path search starts from: the start node of a road without
      an end node, else whichever endpoint is closer to the destination, the
      start node on a tie. */
  function Seed(net: Network, e: nat, dest: Point): (n: nat)
    requires WellFormed(net) && e < |net.edges|
    ensures n < |net.nodes|
    ensures n == net.edges[e].start || Some(n) == net.edges[e].end
    ensures net.edges[e].end.None? ==> n == net.edges[e].start
    ensures net.edges[e].end.Some? ==>
      && StraightLineDistanceSq(net.nodes[n], dest) <= StraightLineDistanceSq(net.nodes[net.edges[e].start], dest)
      && StraightLineDistanceSq(net.nodes[n], dest) <= StraightLineDistanceSq(net.nodes[net.edges[e].end.value], dest)
    ensures net.edges[e].end.Some? && n != net.edges[e].start ==>
      StraightLineDistanceSq(net.nodes[net.edges[e].end.value], dest)
        < StraightLineDistanceSq(net.nodes[net.edges[e].start], dest)
  {
    var edge := net.edges[e];
    if edge.end.None? then edge.start
    else if StraightLineDistanceSq(net.nodes[edge.start], dest) > StraightLineDistanceSq(net.nodes[edge.end.value], dest)
    then edge.end.value
    else edge.start
  }

  /** `planRoute` from edge `e`: nothing when the reachability check fails,
      else the path search from the seed node, both on fresh flags. */
  function PlannedRoute(net: Network, e: nat, dest: Point): Option<seq<nat>>
    requires WellFormed(net) && Incident(net) && e < |net.edges|
  {
    if !Dfs(net, dest, e, Unvisited(|net.nodes|)).0 then None
    else Search(net, dest, Seed(net, e, dest), Unvisited(|net.nodes|)).0
  }

  /** A planned route is a route to the destination from the seed node, and
      there is none when the reachability check fails. */
  lemma {:induction false} PlannedRouteSound(net: Network, e: nat, dest: Point)
    requires WellFormed(net) && Incident(net) && e < |net.edges|
    ensures !Dfs(net, dest, e, Unvisited(|net.nodes|)).0 ==> PlannedRoute(net, e, dest) == None
    ensures PlannedRoute(net, e, dest).Some? ==>
      IsRoute(net, dest, PlannedRoute(net, e, dest).value) && PlannedRoute(net, e, dest).value[0] == Seed(net, e, dest)
  {
    if PlannedRoute(net, e, dest).Some? {
      SearchSound(net, dest, Seed(net, e, dest), Unvisited(|net.nodes|));
    }
  }

  /** A planned route starts at the seed node. */
  lemma PlannedRouteStart(net: Network, e: nat, dest: Point)
    requires WellFormed(net) && Incident(net) && e < |net.edges|
    ensures PlannedRoute(net, e, dest).Some? ==>
      |PlannedRoute(net, e, dest).value| > 0 && PlannedRoute(net, e, dest).value[0] == Seed(net, e, dest)
  {
    PlannedRouteSound(net, e, dest);
  }

  // ---------------------------------------------------------------- the two searches disagree

  /** Intersections A (node 0) and B (node 1) joined by one road (edge 0),
      with a dead-end road at A (edge 1) and one at B (edge 2), numbered in
      the order the constructor creates them. */
  const DeadEnds: Network := Network(
    [Node(Point(0.0, 0.0), 10.0, 10.0, [0, 1]), Node(Point(100.0, 0.0), 10.0, 10.0, [0, 2])],
    [Edge(0, Some(1), None), Edge(0, None, Some(Point(0.0, -200.0))), Edge(1, None, Some(Point(100.0, 200.0)))],
    [Road(1, Point(0.0, 0.0), Point(100.0, 0.0)), Road(3, Point(0.0, -200.0), Point(0.0, 0.0)),
     Road(2, Point(100.0, 200.0), Point(100.0, 0.0))],
    map[Road(1, Point(0.0, 0.0), Point(100.0, 0.0)) := 0, Road(3, Point(0.0, -200.0), Point(0.0, 0.0)) := 1,
        Road(2, Point(100.0, 200.0), Point(100.0, 0.0)) := 2])

  /** A destination on the dead end at A. */
  const DeadEndGoal: Point := Point(0.0, -150.0)

  /** The concrete network is well formed, satisfies `Incident` and has the
      shape `TwoDeadEnds` describes. */
  lemma DeadEndsShape()
    ensures WellFormed(DeadEnds) && Incident(DeadEnds) && TwoDeadEnds(DeadEnds, DeadEndGoal)
  {
    DeadEndsIncident();
    DeadEndsReach();
  }

  lemma DeadEndsIncident()
    ensures WellFormed(DeadEnds) && Incident(DeadEnds)
  {
    DeadEndsLinked();
    var net := DeadEnds;
    assert net.nodes[0].roads == [0, 1] && net.nodes[1].roads == [0, 2];
  }

  lemma DeadEndsReach()
    ensures WellFormed(DeadEnds) && TwoDeadEnds(DeadEnds, DeadEndGoal)
  {
    DeadEndsLinked();
    var net := DeadEnds;
    assert net.nodes[0].position == Point(0.0, 0.0) && net.nodes[1].position == Point(100.0, 0.0);
    assert FarPoint(net, net.edges[0]) == Point(100.0, 0.0);
    assert FarPoint(net, net.edges[1]) == Point(0.0, -200.0);
    assert FarPoint(net, net.edges[2]) == Point(100.0, 200.0);
    InBoxIsNear(net.nodes[0].position, FarPoint(net, net.edges[1]), DeadEndGoal);
    BelowBoxIsFar(net.nodes[0].position, FarPoint(net, net.edges[0]), DeadEndGoal);
    BelowBoxIsFar(net.nodes[1].position, FarPoint(net, net.edges[2]), DeadEndGoal);
  }

  lemma DeadEndsLinked()
    ensures WellFormed(DeadEnds)
  {
    var net := DeadEnds;
    assert forall j :: 0 <= j < 3 ==> net.roads[j] in net.edgeOf && net.edgeOf[net.roads[j]] == j;
    forall r | r in net.edgeOf
      ensures net.edgeOf[r] < |net.roads| && net.roads[net.edgeOf[r]] == r
    {
      assert r == net.roads[0] || r == net.roads[1] || r == net.roads[2];
    }
  }

  /** A destination inside a road's box is on the road. */
  lemma InBoxIsNear(a: Point, b: Point, d: Point)
    requires InBox(d, a, b)
    ensures ClosestPointDistanceSq(a, b, d) < AllowedDistanceSq
  {
  }

  /** A destination at least 50 below a road's box is not on the road. */
  lemma BelowBoxIsFar(a: Point, b: Point, d: Point)
    requires d.y <= MinOf(a.y, b.y) - AllowedDistanceFromDestination
    ensures ClosestPointDistanceSq(a, b, d) >= AllowedDistanceSq
  {
    var cx := Clamp(d.x, MinOf(a.x, b.x), MaxOf(a.x, b.x));
    var cy := Clamp(d.y, MinOf(a.y, b.y), MaxOf(a.y, b.y));
    assert cy == MinOf(a.y, b.y);
    SquareMonotone(AllowedDistanceFromDestination, d.y - cy);
    SquareZeroIff(d.x - cx);
    assert Square(AllowedDistanceFromDestination) == AllowedDistanceSq;
  }

  /** A node none of whose two incident edges has the destination on its road. */
  lemma MissAll(net: Network, dest: Point, n: nat, a: nat, b: nat)
    requires WellFormed(net) && n < |net.nodes| && net.nodes[n].roads == [a, b]
    requires a < |net.edges| && b < |net.edges|
    requires !EdgeReaches(net, a, dest) && !EdgeReaches(net, b, dest)
    ensures !ReachesFrom(net, dest, n)
  {
  }

  /** Node `b` is a trap for the path search: its incident edges are a road
      `j` that ends at `b` and a dead end `d`, and neither has the
      destination on its road. */
  predicate Trap(net: Network, dest: Point, b: nat, j: nat, d: nat)
    requires WellFormed(net)
  {
    && b < |net.nodes| && j < |net.edges| && d < |net.edges| && j != d
    && net.nodes[b].roads == [j, d]
    && net.edges[j].start != b && net.edges[j].end == Some(b) && net.edges[d].end.None?
    && !ReachesFrom(net, dest, b)
  }

  /** The edges of a trap in sorted order are its two edges, each once. */
  lemma TrapSorted(net: Network, dest: Point, b: nat, j: nat, d: nat)
    requires WellFormed(net) && Trap(net, dest, b, j, d)
    ensures var s := SortedEdges(net, b, dest);
            |s| == 2 && (s[0] == j || s[0] == d) && (s[1] == j || s[1] == d)
  {
    var s := SortedEdges(net, b, dest);
    assert |s| == |multiset(s)| == 2;
    assert s[0] in net.nodes[b].roads && s[1] in net.nodes[b].roads;
  }

  /** With the trap marked, the path search's loop there finds nothing: seen
      from `b` the road `j` leads back to `b`, and the dead end has no end node. */
  lemma {:induction false} TrapLoopMarked(net: Network, dest: Point, b: nat, j: nat, d: nat, k: nat, v: seq<bool>)
    requires WellFormed(net) && Incident(net) && Trap(net, dest, b, j, d)
    requires |v| == |net.nodes| && v[b] && k <= 2
    ensures SearchLoop(net, dest, b, SortedEdges(net, b, dest), k, v).0 == None
    decreases 2 - k
  {
    var s := SortedEdges(net, b, dest);
    TrapSorted(net, dest, b, j, d);
    if k < 2 {
      if s[k] == j {
        assert NextNode(net, b, j) == b;
      }
      SearchLoopSkip(net, dest, b, s, k, v);
      TrapLoopMarked(net, dest, b, j, d, k + 1, v);
    }
  }

  /** The path search from a trap finds nothing, whatever is marked. */
  lemma {:induction false} TrapLoop(net: Network, dest: Point, b: nat, j: nat, d: nat, k: nat, v: seq<bool>)
    requires WellFormed(net) && Incident(net) && Trap(net, dest, b, j, d)
    requires |v| == |net.nodes| && k <= 2
    ensures SearchLoop(net, dest, b, SortedEdges(net, b, dest), k, v).0 == None
    decreases 2 - k
  {
    var s := SortedEdges(net, b, dest);
    TrapSorted(net, dest, b, j, d);
    if v[b] {
      TrapLoopMarked(net, dest, b, j, d, k, v);
    } else if k < 2 {
      if s[k] == d {
        SearchLoopSkip(net, dest, b, s, k, v);
        TrapLoop(net, dest, b, j, d, k + 1, v);
      } else {
        assert NextNode(net, b, j) == b;
        SearchLoopVisit(net, dest, b, s, k, v);
        TrapLoopMarked(net, dest, b, j, d, 0, v[b := true]);
        var a := Search(net, dest, b, v[b := true]);
        TrapLoopMarked(net, dest, b, j, d, k + 1, a.1);
      }
    }
  }

  /** The shape of `DeadEnds`, with the destination on the dead end at A
      only: the facts the two searches depend on, without the coordinates. */
  predicate TwoDeadEnds(net: Network, dest: Point)
    requires WellFormed(net)
  {
    && |net.nodes| == 2 && |net.edges| == 3
    && net.nodes[0].roads == [0, 1] && net.nodes[1].roads == [0, 2]
    && net.edges[0].start == 0 && net.edges[0].end == Some(1)
    && net.edges[1].start == 0 && net.edges[1].end.None?
    && net.edges[2].start == 1 && net.edges[2].end.None?
    && EdgeReaches(net, 1, dest) && !EdgeReaches(net, 0, dest) && !EdgeReaches(net, 2, dest)
  }

  /** As written, the reachability check and the path search disagree: from
      the dead end at B the destination on the dead end at A is reachable,
      yet no route is planned, because `getEndOfRoad` seen from B answers B. */
  lemma ReachableButNoRoute()
    ensures WellFormed(DeadEnds) && Incident(DeadEnds)
    ensures Dfs(DeadEnds, DeadEndGoal, 2, Unvisited(|DeadEnds.nodes|)).0
    ensures PlannedRoute(DeadEnds, 2, DeadEndGoal) == None
  {
    DeadEndsShape();
    TwoDeadEndsReachable(DeadEnds, DeadEndGoal);
    TwoDeadEndsNoRoute(DeadEnds, DeadEndGoal);
  }

  /** The depth-first search from the dead end at B crosses to A and finds
      the dead end at A. */
  lemma TwoDeadEndsReachable(net: Network, dest: Point)
    requires WellFormed(net) && TwoDeadEnds(net, dest)
    ensures Dfs(net, dest, 2, Unvisited(|net.nodes|)).0
  {
    assert Dfs(net, dest, 1, [true, true]).0;
    assert Loop(net, dest, 0, 0, 1, [true, true]).0;
    assert Loop(net, dest, 0, 0, 0, [true, true]).0;
    assert [false, true][0 := true] == [true, true];
    assert Expand(net, dest, 0, 0, [false, true]).0;
    assert Dfs(net, dest, 0, [false, true]).0;
    assert Loop(net, dest, 2, 1, 0, [false, true]).0;
    assert Unvisited(2)[1 := true] == [false, true];
    assert Expand(net, dest, 2, 1, Unvisited(2)).0;
  }

  /** The path search from B, the seed of the dead end at B, finds nothing. */
  lemma TwoDeadEndsNoRoute(net: Network, dest: Point)
    requires WellFormed(net) && Incident(net) && TwoDeadEnds(net, dest)
    ensures Search(net, dest, 1, Unvisited(|net.nodes|)).0 == None
    ensures Seed(net, 2, dest) == 1
  {
    MissAll(net, dest, 1, 0, 2);
    assert Trap(net, dest, 1, 0, 2);
    TrapLoop(net, dest, 1, 0, 2, 0, Unvisited(2));
  }
}
