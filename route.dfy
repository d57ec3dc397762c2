/** The planned route of planning/Route.java: the graph, the node list still
    ahead of the car, the destination, and the position of the node last
    handed to the planner. */
module Routing {
  import opened Common
  import opened RoadNetwork
  import opened RouteSearch
  import opened RoadGraph

  // ---------------------------------------------------------------- the distance estimate

  /** The length of a leg between two intersections: along y when they share
      their x coordinate, else along x. */
  function Leg(a: Point, b: Point): (d: real)
    ensures d >= 0.0
    ensures a.x == b.x ==> d == Abs(a.y - b.y)
    ensures a.x != b.x ==> d == Abs(a.x - b.x)
  {
    if a.x == b.x then Abs(a.y - b.y) else Abs(a.x - b.x)
  }

  lemma LegSymmetric(a: Point, b: Point)
    ensures Leg(a, b) == Leg(b, a)
  {
  }

  /** The sum of the legs between consecutive nodes of the route. */
  function Legs(ps: seq<Point>): (d: real)
    ensures d >= 0.0
  {
    if |ps| < 2 then 0.0 else Legs(ps[..|ps| - 1]) + Leg(ps[|ps| - 2], ps[|ps| - 1])
  }

  /** The last stretch, from the final node to the destination: the larger
      of the two axis distances. */
  function FinalLeg(p: Point, dest: Point): (d: real)
    ensures d >= 0.0
    ensures d == Abs(p.x - dest.x) || d == Abs(p.y - dest.y)
    ensures d >= Abs(p.x - dest.x) && d >= Abs(p.y - dest.y)
  {
    Max(Abs(p.x - dest.x), Abs(p.y - dest.y))
  }

  /** The estimate `distanceToDestination` computes: the legs of the route,
      the leg from the previous node to the first one, and the last stretch
      to the destination; from the previous node alone when the route is empty. */
  function RouteDistance(prev: Point, ps: seq<Point>, dest: Point): (d: real)
    ensures d >= 0.0
  {
    if |ps| > 0 then Legs(ps) + Leg(ps[0], prev) + FinalLeg(ps[|ps| - 1], dest)
    else FinalLeg(prev, dest)
  }

  /** The legs of a route are its first leg plus the legs of the rest. */
  lemma {:induction false} LegsFront(ps: seq<Point>)
    requires |ps| >= 2
    ensures Legs(ps) == Leg(ps[0], ps[1]) + Legs(ps[1..])
  {
    if |ps| > 2 {
      var pre := ps[..|ps| - 1];
      LegsFront(pre);
      assert pre[1..] == ps[1..][..|ps[1..]| - 1];
    } else {
      assert Legs(ps[..1]) == 0.0;
    }
  }

  /** Popping the first node drops exactly the leg from the previous node to
      it, so the estimate never grows. */
  lemma {:induction false} PopDropsFirstLeg(prev: Point, ps: seq<Point>, dest: Point)
    requires |ps| > 0
    ensures RouteDistance(prev, ps, dest) == Leg(ps[0], prev) + RouteDistance(ps[0], ps[1..], dest)
    ensures RouteDistance(ps[0], ps[1..], dest) <= RouteDistance(prev, ps, dest)
  {
    if |ps| >= 2 {
      LegsFront(ps);
      LegSymmetric(ps[0], ps[1]);
      assert ps[1..][|ps[1..]| - 1] == ps[|ps| - 1];
    } else {
      assert Legs(ps) == 0.0;
    }
  }

  /** The positions of the route's nodes. */
  function Positions(net: Network, route: seq<nat>): (ps: seq<Point>)
    requires forall i :: 0 <= i < |route| ==> route[i] < |net.nodes|
    ensures |ps| == |route| && forall i :: 0 <= i < |route| ==> ps[i] == net.nodes[route[i]].position
  {
    seq(|route|, i requires 0 <= i < |route| => net.nodes[route[i]].position)
  }

  // ---------------------------------------------------------------- the route object

  predicate NodesIn(net: Network, route: seq<nat>)
  {
    forall i :: 0 <= i < |route| ==> route[i] < |net.nodes|
  }

  class Route {
    const graph: Graph
    var currentRoute: Option<seq<nat>>
    var destination: Option<Point>
    var previousNodePosition: Option<Point>

    ghost predicate Valid()
      reads this, graph, graph.visited
    {
      graph.Valid() && (currentRoute.Some? ==> NodesIn(graph.net, currentRoute.value))
    }

    /** A route over a built graph; nothing is planned yet. */
    constructor (g: Graph)
      requires g.Valid()
      ensures Valid() && graph == g
      ensures currentRoute == None && destination == None && previousNodePosition == None
    {
      graph := g;
      currentRoute := None;
      destination := None;
      previousNodePosition := None;
    }

    /** `planRoute`: the route is replaced by the graph's answer even when
        there is none; the destination only changes when there is one. */
    method PlanRoute(road: Road, dest: Point) returns (ok: bool)
      requires Valid() && Incident(graph.net) && road in graph.net.edgeOf
      modifies this, graph.visited
      ensures Valid()
      ensures currentRoute == PlannedRoute(graph.net, graph.net.edgeOf[road], dest)
      ensures ok <==> currentRoute.Some?
      ensures destination == (if ok then Some(dest) else old(destination))
      ensures previousNodePosition == old(previousNodePosition)
    {
      PlannedRouteSound(graph.net, graph.net.edgeOf[road], dest);
      currentRoute := graph.PlanRoute(road, dest);
      if currentRoute.None? {
        return false;
      }
      destination := Some(dest);
      return true;
    }

    /** `distanceToDestination`: the legs summed in a loop, then the first
        leg and the last stretch. It changes nothing. A route that was never
        popped has no previous position, which the source dereferences. */
    method DistanceToDestination() returns (total: real)
      requires Valid() && currentRoute.Some? && destination.Some? && previousNodePosition.Some?
      ensures total == RouteDistance(previousNodePosition.value, Positions(graph.net, currentRoute.value), destination.value)
      ensures total >= 0.0
    {
      var ps := Positions(graph.net, currentRoute.value);
      var prev, dest := previousNodePosition.value, destination.value;
      total := 0.0;
      var i := 0;
      while i < |ps| - 1
        invariant |ps| == 0 ==> i == 0 && total == 0.0
        invariant |ps| > 0 ==> 0 <= i < |ps| && total == Legs(ps[..i + 1])
      {
        assert ps[..i + 2][..i + 1] == ps[..i + 1];
        total := total + Leg(ps[i], ps[i + 1]);
        i := i + 1;
      }
      var finalPosition;
      if |ps| > 0 {
        assert ps[..i + 1] == ps;
        total := total + Leg(ps[0], prev);
        finalPosition := ps[|ps| - 1];
      } else {
        finalPosition := prev;
      }
      total := total + FinalLeg(finalPosition, dest);
    }

    /** `nextIntersectionPosition`: the first node of the route is removed
        and its position returned and remembered; an empty route answers
        nothing and changes nothing. */
    method NextIntersectionPosition() returns (p: Option<Point>)
      requires Valid() && currentRoute.Some?
      modifies this
      ensures Valid() && currentRoute.Some? && destination == old(destination)
      ensures old(currentRoute.value) == [] ==>
        p == None && currentRoute == old(currentRoute) && previousNodePosition == old(previousNodePosition)
      ensures old(currentRoute.value) != [] ==>
        && p == Some(graph.net.nodes[old(currentRoute.value)[0]].position)
        && currentRoute == Some(old(currentRoute.value)[1..])
        && previousNodePosition == p
    {
      var route := currentRoute.value;
      if |route| > 0 {
        previousNodePosition := Some(graph.net.nodes[route[0]].position);
        currentRoute := Some(route[1..]);
        return previousNodePosition;
      }
      return None;
    }
  }

  /** What the estimate loses when the route is popped: with the route and
      the previous position as the pop leaves them, the estimate is the old
      one minus the leg from the old previous position to the popped node. */
  lemma PopShortensEstimate(net: Network, route: seq<nat>, prev: Point, dest: Point)
    requires NodesIn(net, route) && |route| > 0
    ensures NodesIn(net, route[1..])
    ensures RouteDistance(net.nodes[route[0]].position, Positions(net, route[1..]), dest)
         == RouteDistance(prev, Positions(net, route), dest) - Leg(net.nodes[route[0]].position, prev)
  {
    PopDropsFirstLeg(prev, Positions(net, route), dest);
    assert Positions(net, route)[1..] == Positions(net, route[1..]);
  }
}
