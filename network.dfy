/** The road graph's vertices and edges (planning/Node.java, planning/Edge.java).
    Nodes and edges refer to one another, so both are values held in the
    sequences of a `Network`, and a reference to a node or an edge is its
    index there. */
module RoadNetwork {
  import opened Common

  /** A road of the host world: its identity and its two raw endpoints. */
  datatype Road = Road(id: nat, startPos: Point, endPos: Point)

  /** An intersection of the host world, with the roads it lists in the
      host's iteration order. */
  datatype Intersection = Intersection(pos: Point, width: real, length: real, roads: seq<Road>)

  /** A graph vertex: one intersection and the indices of its incident edges.
      Its visited flag lives in the `Graph` that owns the network. */
  datatype Node = Node(position: Point, width: real, length: real, roads: seq<nat>)

  /** A graph edge: one road, from its start node to an optional end node or,
      when it ends in open space, to an end position. */
  datatype Edge = Edge(start: nat, end: Option<nat>, endPosition: Option<Point>)

  /** The built graph: nodes, edges, and the road each edge stands for, with
      the reverse lookup from road to edge (the source's `HashMap<Road, Edge>`). */
  datatype Network = Network(nodes: seq<Node>, edges: seq<Edge>, roads: seq<Road>, edgeOf: map<Road, nat>)

  datatype BuildError = MapInvalid(road: Road)

  /** A road whose closest point lies nearer than this reaches the destination. */
  const AllowedDistanceFromDestination: real := 50.0
  const AllowedDistanceSq: real := AllowedDistanceFromDestination * AllowedDistanceFromDestination

  // ---------------------------------------------------------------- Node

  /** A new node for an intersection. */
  function NewNode(i: Intersection): (n: Node)
    ensures n.position == i.pos && n.width == i.width && n.length == i.length
    ensures n.roads == []
  {
    Node(i.pos, i.width, i.length, [])
  }

  /** Appends an edge to the node's incident list. */
  function AddRoad(n: Node, edge: nat): (r: Node)
    ensures r.roads == n.roads + [edge]
    ensures r.position == n.position && r.width == n.width && r.length == n.length
  {
    n.(roads := n.roads + [edge])
  }

  /** The squared straight-line distance from the node to a destination. */
  function StraightLineDistanceSq(n: Node, destination: Point): (d: real)
    ensures d >= 0.0
    ensures d == 0.0 <==> destination == n.position
  {
    DistanceSqZeroIff(n.position, destination);
    DistanceSq(n.position, destination)
  }

  // ---------------------------------------------------------------- Edge

  /** A new edge leaves its start node and has neither end node nor end position yet. */
  function NewEdge(start: nat): (e: Edge)
    ensures e.start == start && !HasEndNode(e) && e.endPosition == None
  {
    Edge(start, None, None)
  }

  predicate HasEndNode(e: Edge)
  {
    e.end.Some?
  }

  /** Sets the end node and leaves the rest of the edge as it was. */
  function SetEndNode(e: Edge, n: nat): (r: Edge)
    ensures r.end == Some(n) && HasEndNode(r)
    ensures r.start == e.start && r.endPosition == e.endPosition
  {
    e.(end := Some(n))
  }

  /** The node the source calls "the other end" of the edge, seen from `n`.
      Seen from the end node it answers that same node, because the source's
      parameter shadows its field. */
  function EndOfRoad(e: Edge, n: nat): (r: Option<nat>)
  {
    if e.start == n then e.end
    else if e.end == Some(n) then Some(n)
    else None
  }

  /** Whatever `EndOfRoad` answers is the edge's end node or nothing, so the
      start node is answered only for a road that loops back onto it. */
  lemma {:induction false} EndOfRoadIsEndNode(e: Edge, n: nat)
    ensures EndOfRoad(e, n).Some? ==> EndOfRoad(e, n) == e.end
    ensures EndOfRoad(e, n).None? <==> (e.start == n && e.end.None?) || (e.start != n && e.end != Some(n))
    ensures e.start != n && e.end == Some(n) ==> EndOfRoad(e, n) == Some(n)
  {
  }

  /** The end of a road's box: its end node's position, else its end position. */
  function FarPoint(net: Network, e: Edge): Point
    requires e.end.Some? ==> e.end.value < |net.nodes|
    requires e.end.Some? || e.endPosition.Some?
  {
    if e.end.None? then e.endPosition.value else net.nodes[e.end.value].position
  }

  /** The coordinate of the segment [lo, hi] that is closest to `v`. */
  function Clamp(v: real, lo: real, hi: real): (r: real)
    requires lo <= hi
    ensures lo <= r <= hi
    ensures lo <= v <= hi ==> r == v
  {
    if v > lo then (if v < hi then v else hi) else lo
  }

  function MinOf(a: real, b: real): real { if a > b then b else a }
  function MaxOf(a: real, b: real): real { if a > b then a else b }

  predicate InBox(p: Point, a: Point, b: Point)
  {
    MinOf(a.x, b.x) <= p.x <= MaxOf(a.x, b.x) && MinOf(a.y, b.y) <= p.y <= MaxOf(a.y, b.y)
  }

  /** The squared distance from the destination to the point of the box
      spanned by `a` and `b` that is closest to it, clamping each axis. */
  function ClosestPointDistanceSq(a: Point, b: Point, destination: Point): (d: real)
    ensures d >= 0.0
    ensures InBox(destination, a, b) ==> d == 0.0
  {
    var cx := Clamp(destination.x, MinOf(a.x, b.x), MaxOf(a.x, b.x));
    var cy := Clamp(destination.y, MinOf(a.y, b.y), MaxOf(a.y, b.y));
    DistanceSqZeroIff(Point(cx, cy), destination);
    DistanceSq(Point(cx, cy), destination)
  }

  /** Clamping gives the point of [lo, hi] nearest to `v`, on one axis. */
  lemma {:induction false} ClampIsClosest(v: real, lo: real, hi: real, w: real)
    requires lo <= hi && lo <= w <= hi
    ensures Square(v - Clamp(v, lo, hi)) <= Square(v - w)
  {
    SquareMonotone(v - Clamp(v, lo, hi), v - w);
  }

  /** No point of the road's box is closer to the destination than the clamped one. */
  lemma {:induction false} ClosestPointIsClosest(a: Point, b: Point, destination: Point, p: Point)
    requires InBox(p, a, b)
    ensures ClosestPointDistanceSq(a, b, destination) <= DistanceSq(p, destination)
  {
    var cx := Clamp(destination.x, MinOf(a.x, b.x), MaxOf(a.x, b.x));
    var cy := Clamp(destination.y, MinOf(a.y, b.y), MaxOf(a.y, b.y));
    ClampIsClosest(destination.x, MinOf(a.x, b.x), MaxOf(a.x, b.x), p.x);
    ClampIsClosest(destination.y, MinOf(a.y, b.y), MaxOf(a.y, b.y), p.y);
  }

  /** Squared distance from the destination to the closest point of the edge's road. */
  function EdgeDistanceSq(net: Network, e: Edge, destination: Point): real
    requires e.start < |net.nodes|
    requires e.end.Some? ==> e.end.value < |net.nodes|
    requires e.end.Some? || e.endPosition.Some?
  {
    ClosestPointDistanceSq(net.nodes[e.start].position, FarPoint(net, e), destination)
  }

  /** The destination is on the road when the road's closest point lies
      strictly within 50 of it. */
  predicate DestinationOnRoad(net: Network, e: Edge, destination: Point)
    requires e.start < |net.nodes|
    requires e.end.Some? ==> e.end.value < |net.nodes|
    requires e.end.Some? || e.endPosition.Some?
  {
    EdgeDistanceSq(net, e, destination) < AllowedDistanceSq
  }

  /** A destination strictly within 50 of either end of a road, or anywhere in
      its box, is on the road. */
  lemma {:induction false} NearEndIsOnRoad(net: Network, e: Edge, destination: Point)
    requires e.start < |net.nodes|
    requires e.end.Some? ==> e.end.value < |net.nodes|
    requires e.end.Some? || e.endPosition.Some?
    requires DistanceSq(net.nodes[e.start].position, destination) < AllowedDistanceSq
          || DistanceSq(FarPoint(net, e), destination) < AllowedDistanceSq
          || InBox(destination, net.nodes[e.start].position, FarPoint(net, e))
    ensures DestinationOnRoad(net, e, destination)
  {
    var a, b := net.nodes[e.start].position, FarPoint(net, e);
    if DistanceSq(a, destination) < AllowedDistanceSq {
      ClosestPointIsClosest(a, b, destination, a);
    } else if DistanceSq(b, destination) < AllowedDistanceSq {
      ClosestPointIsClosest(a, b, destination, b);
    }
  }

  /** A position attaches to the start intersection when it lies within the
      intersection's width on x and its length on y, bounds included. */
  predicate ConnectedToIntersection(start: Node, p: Point)
  {
    Abs(start.position.x - p.x) <= start.width && Abs(start.position.y - p.y) <= start.length
  }

  /** Resolves the end position of an edge without an end node. Both
      accepting branches store the road's start position; a road attaching
      at neither end is a fatal map error. */
  function SetEndPosition(start: Node, e: Edge, road: Road): (r: Result<Edge, BuildError>)
    ensures r.Success? <==> ConnectedToIntersection(start, road.endPos) || ConnectedToIntersection(start, road.startPos)
    ensures r.Success? ==> r.value == e.(endPosition := Some(road.startPos))
    ensures r.Failure? ==> r.error == MapInvalid(road)
  {
    if ConnectedToIntersection(start, road.endPos) then Success(e.(endPosition := Some(road.startPos)))
    else if ConnectedToIntersection(start, road.startPos) then Success(e.(endPosition := Some(road.startPos)))
    else Failure(MapInvalid(road))
  }

  // ---------------------------------------------------------------- Network

  predicate NodeWellFormed(n: Node, edgeCount: nat)
  {
    forall k :: 0 <= k < |n.roads| ==> n.roads[k] < edgeCount
  }

  predicate EdgeWellFormed(e: Edge, nodeCount: nat)
  {
    e.start < nodeCount && (e.end.Some? ==> e.end.value < nodeCount)
  }

  /** Every edge has an end node or an end position. */
  predicate EdgeResolved(e: Edge)
  {
    e.end.Some? || e.endPosition.Some?
  }

  /** The indices are in range and `roads`/`edgeOf` are inverse to each
      other: exactly one edge per road. */
  predicate Linked(net: Network)
  {
    && (forall i :: 0 <= i < |net.nodes| ==> NodeWellFormed(net.nodes[i], |net.edges|))
    && (forall j :: 0 <= j < |net.edges| ==> EdgeWellFormed(net.edges[j], |net.nodes|))
    && |net.roads| == |net.edges|
    && (forall j :: 0 <= j < |net.roads| ==> net.roads[j] in net.edgeOf && net.edgeOf[net.roads[j]] == j)
    && (forall r :: r in net.edgeOf ==> net.edgeOf[r] < |net.roads| && net.roads[net.edgeOf[r]] == r)
  }

  /** A built network: linked, and every edge resolved. */
  predicate WellFormed(net: Network)
  {
    Linked(net) && forall j :: 0 <= j < |net.edges| ==> EdgeResolved(net.edges[j])
  }

  /** The destination test of edge `j`, for a well-formed network. */
  predicate EdgeReaches(net: Network, j: nat, destination: Point)
    requires WellFormed(net) && j < |net.edges|
  {
    DestinationOnRoad(net, net.edges[j], destination)
  }
}
