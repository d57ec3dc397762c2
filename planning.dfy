/** The coordinator of planning/PlanningControl.java: it plans a route,
    and on every tick gates the throttle on the collision and traffic-light
    handlers, steers towards the current direction, and moves its
    navigation state through the intersections of the route. */
module Planning {
  import opened Common
  import opened RoadNetwork
  import opened RouteSearch
  import opened RoadGraph
  import opened Routing
  import opened Observations
  import opened Collisions
  import opened RoadRules
  import opened Control

  /** Half the largest intersection, less five: how far past the previous
      intersection a hook turn drives before it commits. */
  const HookDistance: real := 10.0
  /** An intersection this far away or nearer along an axis does not set a
      direction. */
  const MaxIntersectionSize: real := 30.0
  /** The destination is reached within this distance along the heading axis. */
  const ArrivalDistance: real := 3.0
  const AverageSpeed: real := 40.0
  const AccelerateValue: real := 1.0
  const BrakeValue: real := -1.0

  datatype Direction = North | South | East | West

  // ---------------------------------------------------------------- directions

  /** `getDirectionAngle`: the angle to face for a direction, -1 for none. */
  function DirectionAngle(d: Option<Direction>): (a: int)
    ensures d.None? <==> a == -1
    ensures d.Some? ==> 0 <= a < 360 && a % 90 == 0
  {
    match d
    case Some(North) => 90
    case Some(South) => 270
    case Some(East) => 0
    case Some(West) => 180
    case None => -1
  }

  /** Different directions have different angles. */
  lemma DirectionAngleInjective(d: Option<Direction>, e: Option<Direction>)
    ensures DirectionAngle(d) == DirectionAngle(e) <==> d == e
  {
  }

  /** How far a point lies along a direction. */
  function Progress(d: Direction, p: Point): real
  {
    match d
    case East => p.x
    case West => -p.x
    case North => p.y
    case South => -p.y
  }

  /** `reachedIntersection`: a one-sided test along the heading; a car with
      no heading never arrives. */
  function ReachedIntersection(heading: Option<Direction>, pos: Point, target: Point): bool
  {
    if heading == Some(East) then pos.x >= target.x
    else if heading == Some(West) then pos.x <= target.x
    else if heading == Some(North) then pos.y >= target.y
    else if heading == Some(South) then pos.y <= target.y
    else false
  }

  /** `distanceToNextIntersection`: the signed distance still to go along
      the heading; zero with no heading. */
  function DistanceToNextIntersection(heading: Option<Direction>, pos: Point, target: Point): real
  {
    if heading == Some(East) then target.x - pos.x
    else if heading == Some(West) then pos.x - target.x
    else if heading == Some(North) then target.y - pos.y
    else if heading == Some(South) then pos.y - target.y
    else 0.0
  }

  /** The car has reached the intersection exactly when it is at least as
      far along its heading as the intersection, that is when no distance is
      left to go. */
  lemma ReachedIffNothingLeft(heading: Option<Direction>, pos: Point, target: Point)
    ensures ReachedIntersection(heading, pos, target)
        <==> heading.Some? && Progress(heading.value, pos) >= Progress(heading.value, target)
    ensures heading.Some? ==>
              DistanceToNextIntersection(heading, pos, target) == Progress(heading.value, target) - Progress(heading.value, pos)
    ensures heading.Some? ==> (ReachedIntersection(heading, pos, target) <==> DistanceToNextIntersection(heading, pos, target) <= 0.0)
  {
  }

  /** `setNextIntersectionDirection`: towards the intersection along x when
      it is more than 30 away along x, else along y when it is more than 30
      away along y; otherwise the direction is kept. */
  function NextIntersectionDirection(current: Option<Direction>, pos: Point, target: Point): Option<Direction>
  {
    if Abs(pos.x - target.x) > MaxIntersectionSize then
      (if pos.x > target.x then Some(West) else Some(East))
    else if Abs(pos.y - target.y) > MaxIntersectionSize then
      (if pos.y > target.y then Some(South) else Some(North))
    else current
  }

  /** A direction the choice sets points at the intersection, which lies
      more than 30 ahead along it; the x axis wins whenever it qualifies. */
  lemma NextDirectionPointsAhead(current: Option<Direction>, pos: Point, target: Point)
    ensures var r := NextIntersectionDirection(current, pos, target);
            && (r == current || Progress(r.value, target) - Progress(r.value, pos) > MaxIntersectionSize)
            && (Abs(pos.x - target.x) > MaxIntersectionSize ==> r == Some(East) || r == Some(West))
            && (r != current ==> Abs(pos.x - target.x) > MaxIntersectionSize || Abs(pos.y - target.y) > MaxIntersectionSize)
            && (Abs(pos.x - target.x) <= MaxIntersectionSize && Abs(pos.y - target.y) <= MaxIntersectionSize ==> r == current)
  {
  }

  /** `setDestinationDirection`: towards the destination along the axis on
      which it is farther away; a tie goes to the y axis. */
  function DestinationDirection(pos: Point, dest: Point): Direction
  {
    if Abs(pos.x - dest.x) > Abs(pos.y - dest.y) then
      (if pos.x > dest.x then West else East)
    else
      (if pos.y > dest.y then South else North)
  }

  /** The destination lies ahead along the chosen direction, by the larger
      of the two axis distances. */
  lemma DestinationDirectionAhead(pos: Point, dest: Point)
    ensures var d := DestinationDirection(pos, dest);
            Progress(d, dest) - Progress(d, pos) == Max(Abs(pos.x - dest.x), Abs(pos.y - dest.y))
  {
  }

  /** The answer `hookTurnRequired` gives, as written: a hook turn exactly
      when the car heads north, whatever comes next (the method
      `PlanningControl.HookTurnRequired` shows its four tests reduce to this). */
  predicate HookTurn(current: Option<Direction>, next: Option<Direction>)
  {
    current == Some(North)
  }

  /** A right turn: the next direction lies a quarter turn clockwise of the
      current one, that is 90 degrees less in `getDirectionAngle`'s terms. */
  predicate RightTurn(current: Option<Direction>, next: Option<Direction>)
  {
    current.Some? && next.Some? && DirectionAngle(next) == (DirectionAngle(current) + 270) % 360
  }

  /** The four right turns are the pairs the source's tests name: east then
      south, west then north, south then west, north then east. */
  lemma RightTurnCases(current: Option<Direction>, next: Option<Direction>)
    ensures RightTurn(current, next) <==>
            || (current == Some(East) && next == Some(South))
            || (current == Some(West) && next == Some(North))
            || (current == Some(South) && next == Some(West))
            || (current == Some(North) && next == Some(East))
  {
  }

  /** Where the answer as written and a hook turn on every right turn part:
      heading north without turning right, where a hook turn is still taken,
      and every right turn but the one from north, where none is. */
  lemma HookTurnVersusRightTurn(current: Option<Direction>, next: Option<Direction>)
    ensures HookTurn(current, next) != RightTurn(current, next) <==>
            || (current == Some(North) && next != Some(East))
            || (current != Some(North) && RightTurn(current, next))
  {
    RightTurnCases(current, next);
  }

  /** The earlier tests have no effect: heading east into a turn south needs
      no hook turn, and heading north needs one even to go straight on. */
  lemma HookTurnEarlierTestsOverwritten()
    ensures !HookTurn(Some(East), Some(South)) && RightTurn(Some(East), Some(South))
    ensures !HookTurn(Some(West), Some(North)) && RightTurn(Some(West), Some(North))
    ensures !HookTurn(Some(South), Some(West)) && RightTurn(Some(South), Some(West))
    ensures HookTurn(Some(North), Some(North)) && !RightTurn(Some(North), Some(North))
  {
  }

  /** The distance along the heading's axis between two points: x for east
      and west, y otherwise. */
  function AxisDifference(heading: Option<Direction>, p: Point, q: Point): (d: real)
    ensures d >= 0.0
  {
    if heading == Some(East) || heading == Some(West) then Abs(p.x - q.x) else Abs(p.y - q.y)
  }

  // ---------------------------------------------------------------- the navigation state

  /** The fields `update` moves through: the heading, the direction to take
      at the next turn, whether a turn is under way, the next and the
      previous intersection, and whether the destination is reached. */
  datatype Nav = Nav(
    currentDirection: Option<Direction>,
    nextDirection: Option<Direction>,
    turning: bool,
    next: Option<Point>,
    prev: Option<Point>,
    reached: bool)

  /** A turn under way always has an intersection it started from. */
  predicate NavValid(n: Nav)
  {
    n.turning ==> n.prev.Some?
  }

  /** One tick of the navigation part of `update`, for the car at `pos`,
      where `upcoming` is what popping the route would give. While there is
      a next intersection: a turn under way commits the next direction,
      at once, or for a hook turn once the car is more than 10 past the
      previous intersection; otherwise, on reaching the intersection, the
      route is popped, a turn begins, and the direction after it is chosen
      towards the new next intersection or, when the route is used up,
      towards the destination. With no next intersection only arrival at
      the destination is checked. */
  function Navigate(n: Nav, pos: Point, dest: Point, upcoming: Option<Point>): (r: Nav)
    requires NavValid(n)
    ensures NavValid(r)
  {
    if n.next.Some? then
      if n.turning then
        if HookTurn(n.currentDirection, n.nextDirection) then
          if AxisDifference(n.currentDirection, pos, n.prev.value) > HookDistance then
            n.(currentDirection := n.nextDirection, turning := false)
          else n
        else n.(currentDirection := n.nextDirection, turning := false)
      else if ReachedIntersection(n.currentDirection, pos, n.next.value) then
        n.(prev := n.next, next := upcoming, turning := true,
           nextDirection := if upcoming.Some? then NextIntersectionDirection(n.nextDirection, pos, upcoming.value)
                            else Some(DestinationDirection(pos, dest)))
      else n
    else if AxisDifference(n.currentDirection, pos, dest) < ArrivalDistance then n.(reached := true)
    else n
  }

  /** A hook turn commits the next direction exactly when the car is more
      than 10 past the previous intersection along its heading's axis; any
      other turn commits on the first tick. */
  lemma TurnCommits(n: Nav, pos: Point, dest: Point, upcoming: Option<Point>)
    requires NavValid(n) && n.next.Some? && n.turning
    ensures var r := Navigate(n, pos, dest, upcoming);
            && (!r.turning <==> !HookTurn(n.currentDirection, n.nextDirection)
                                || AxisDifference(n.currentDirection, pos, n.prev.value) > HookDistance)
            && (!r.turning ==> r.currentDirection == n.nextDirection)
            && (r.turning ==> r == n)
  {
  }

  /** Arrival at the next intersection pops the route, starts a turn and
      keeps the heading; before arrival nothing changes. */
  lemma ArrivalPops(n: Nav, pos: Point, dest: Point, upcoming: Option<Point>)
    requires NavValid(n) && n.next.Some? && !n.turning
    ensures var r := Navigate(n, pos, dest, upcoming);
            && (ReachedIntersection(n.currentDirection, pos, n.next.value) ==>
                  r.prev == n.next && r.next == upcoming && r.turning && r.currentDirection == n.currentDirection)
            && (!ReachedIntersection(n.currentDirection, pos, n.next.value) ==> r == n)
  {
  }

  /** The heading, the turn flag and the next direction never change over
      any run of ticks once there is no next intersection: the turn towards
      the destination chosen at the last intersection is never committed,
      and the destination, once reached, stays reached. */
  lemma {:induction false} FinalTurnNeverCommitted(n: Nav, ps: seq<Point>, dest: Point, ups: seq<Option<Point>>)
    requires NavValid(n) && n.next.None? && |ups| == |ps|
    decreases |ps|
    ensures var r := Run(n, ps, dest, ups);
            && r.currentDirection == n.currentDirection && r.turning == n.turning
            && r.nextDirection == n.nextDirection && r.next.None? && r.prev == n.prev
            && (n.reached ==> r.reached)
  {
    if ps != [] {
      var m := Navigate(n, ps[0], dest, ups[0]);
      FinalTurnNeverCommitted(m, ps[1..], dest, ups[1..]);
    }
  }

  /** Ticks in sequence, the car at `ps[i]` and the route giving `ups[i]`
      on the i-th. */
  function Run(n: Nav, ps: seq<Point>, dest: Point, ups: seq<Option<Point>>): (r: Nav)
    requires NavValid(n) && |ups| == |ps|
    ensures NavValid(r)
    decreases |ps|
  {
    if ps == [] then n else Run(Navigate(n, ps[0], dest, ups[0]), ps[1..], dest, ups[1..])
  }

  /** The destination is reached on a tick exactly when there is no next
      intersection and the car is within 3 of it along the heading's axis,
      or it was reached before. */
  lemma ReachedWhenClose(n: Nav, pos: Point, dest: Point, upcoming: Option<Point>)
    requires NavValid(n)
    ensures Navigate(n, pos, dest, upcoming).reached
        <==> n.reached || (n.next.None? && AxisDifference(n.currentDirection, pos, dest) < ArrivalDistance)
  {
  }

  /** The position of the first node of a route, if it has one. */
  function Upcoming(net: Network, route: seq<nat>): (p: Option<Point>)
    requires NodesIn(net, route)
    ensures p.None? <==> route == []
  {
    if route == [] then None else Some(net.nodes[route[0]].position)
  }

  // ---------------------------------------------------------------- the perception gates

  /** The observations ordered by time to collision. */
  predicate ByTimeToCollision(s: seq<Observation>)
  {
    forall i, j :: 0 <= i < j < |s| ==> s[i].timeToCollision <= s[j].timeToCollision
  }

  /** Whether a tick accelerates: never once the destination is reached;
      with no perception results always otherwise; else only when no
      observation is imminent and the closest light does not stop the car. */
  predicate Accelerates(reached: bool, results: Option<seq<Observation>>)
  {
    && !reached
    && (results.Some? ==>
          && !(exists i :: 0 <= i < |results.value| && Imminent(results.value[i]))
          && !(|Rebuild(TrafficLights(results.value))| > 0 && StopFor(Rebuild(TrafficLights(results.value))[0])))
  }

  /** The gate stops the car for an imminent collision whatever order the
      observations come in, and for the closest light, the first of the
      closest ones in the order given. */
  lemma AcceleratesIff(reached: bool, results: seq<Observation>)
    ensures Accelerates(reached, Some(results))
        <==> && !reached
             && (forall o :: o in results ==> !Imminent(o))
             && (forall ls :: ls == TrafficLights(results) ==> !(|ls| > 0 && StopFor(ls[FirstClosest(ls)])))
  {
    StopForClosest(TrafficLights(results));
    if exists o :: o in results && Imminent(o) {
      var o :| o in results && Imminent(o);
      var i :| 0 <= i < |results| && results[i] == o;
    }
  }

  // ---------------------------------------------------------------- the coordinator

  class PlanningControl {
    const car: Car
    const controller: CarController
    const route: Route
    const collisionHandler: CollisionHandler
    const roadRuleHandler: RoadRuleHandler

    var currentPosition: Point
    var currentDirection: Option<Direction>
    var nextIntersectionDirection: Option<Direction>
    var destination: Option<Point>
    var turning: bool
    var positionOfNextIntersection: Option<Point>
    var prevIntersection: Option<Point>
    var destinationReached: bool

    ghost predicate Valid()
      reads this, controller, route, route.graph, route.graph.visited
    {
      && route.Valid()
      && controller.car == car
      && NavValid(State())
    }

    /** The navigation fields as one value. */
    ghost function State(): Nav
      reads this
    {
      Nav(currentDirection, nextIntersectionDirection, turning, positionOfNextIntersection,
          prevIntersection, destinationReached)
    }

    /** A coordinator for a car on a built graph: heading east, nothing
        planned, no destination. */
    constructor (c: Car, g: Graph)
      requires g.Valid()
      ensures Valid() && car == c && route.graph == g
      ensures fresh(route) && fresh(controller) && fresh(collisionHandler) && fresh(roadRuleHandler)
      ensures currentPosition == c.position && currentDirection == Some(East)
      ensures nextIntersectionDirection == None && !turning && positionOfNextIntersection == None
      ensures prevIntersection == None && destination == None && !destinationReached
      ensures route.currentRoute == None && route.destination == None && route.previousNodePosition == None
      ensures collisionHandler.collisionObjectList == None && roadRuleHandler.trafficLights == None
    {
      car := c;
      controller := new CarController(c);
      currentPosition := c.position;
      route := new Route(g);
      collisionHandler := new CollisionHandler();
      roadRuleHandler := new RoadRuleHandler();
      currentDirection := Some(East);
      nextIntersectionDirection := None;
      destination := None;
      turning := false;
      positionOfNextIntersection := None;
      prevIntersection := None;
      destinationReached := false;
    }

    /** `planRoute` from the road the car is on: on success the destination
        is set, the first node of the route is popped as the next
        intersection, the direction towards it is chosen from the position
        of the last tick, and the destination is not yet reached; on failure
        only the route object changes. */
    method PlanRoute(startingRoad: Road, dest: Point) returns (validRoute: bool)
      requires Valid() && Incident(route.graph.net) && startingRoad in route.graph.net.edgeOf
      modifies this, route, route.graph.visited
      ensures Valid()
      ensures var planned := PlannedRoute(route.graph.net, route.graph.net.edgeOf[startingRoad], dest);
              && (validRoute <==> planned.Some?)
              && (validRoute ==> |planned.value| > 0 && route.currentRoute == Some(planned.value[1..]))
      ensures validRoute ==>
                && destination == Some(dest) && !destinationReached
                && positionOfNextIntersection
                   == Some(route.graph.net.nodes[Seed(route.graph.net, route.graph.net.edgeOf[startingRoad], dest)].position)
                && route.previousNodePosition == positionOfNextIntersection
                && nextIntersectionDirection
                   == NextIntersectionDirection(old(nextIntersectionDirection), currentPosition, positionOfNextIntersection.value)
      ensures route.destination == (if validRoute then Some(dest) else old(route.destination))
      ensures !validRoute ==>
                && route.currentRoute == None && destination == old(destination)
                && route.previousNodePosition == old(route.previousNodePosition)
                && positionOfNextIntersection == old(positionOfNextIntersection)
                && nextIntersectionDirection == old(nextIntersectionDirection)
                && destinationReached == old(destinationReached)
      ensures currentPosition == old(currentPosition) && currentDirection == old(currentDirection)
      ensures turning == old(turning) && prevIntersection == old(prevIntersection)
    {
      ghost var e := route.graph.net.edgeOf[startingRoad];
      PlannedRouteStart(route.graph.net, e, dest);
      validRoute := route.PlanRoute(startingRoad, dest);
      if validRoute {
        BeginRoute(dest);
      }
    }

    /** The success branch of `planRoute`. */
    method BeginRoute(dest: Point)
      requires route.Valid() && route.currentRoute.Some? && route.currentRoute.value != []
      modifies this, route
      ensures route.Valid() && route.destination == old(route.destination)
      ensures destination == Some(dest) && !destinationReached
      ensures positionOfNextIntersection == Some(route.graph.net.nodes[old(route.currentRoute.value)[0]].position)
      ensures route.currentRoute == Some(old(route.currentRoute.value)[1..])
      ensures route.previousNodePosition == positionOfNextIntersection
      ensures nextIntersectionDirection
           == NextIntersectionDirection(old(nextIntersectionDirection), currentPosition, positionOfNextIntersection.value)
      ensures currentPosition == old(currentPosition) && currentDirection == old(currentDirection)
      ensures turning == old(turning) && prevIntersection == old(prevIntersection)
    {
      destination := Some(dest);
      positionOfNextIntersection := route.NextIntersectionPosition();
      SetNextIntersectionDirection();
      destinationReached := false;
    }

    /** `eta`: the remaining distance over the average speed, where the
        remaining distance is the route's estimate plus the signed distance
        to the next intersection; zero when there is no next intersection.
        After a failed plan the route is gone while the next intersection
        is kept, which the source dereferences. */
    method Eta() returns (e: real)
      requires Valid()
      requires positionOfNextIntersection.Some? ==>
        route.currentRoute.Some? && route.destination.Some? && route.previousNodePosition.Some?
      ensures positionOfNextIntersection.None? ==> e == 0.0
      ensures positionOfNextIntersection.Some? ==>
        e == (RouteDistance(route.previousNodePosition.value, Positions(route.graph.net, route.currentRoute.value),
                            route.destination.value)
              + DistanceToNextIntersection(currentDirection, car.position, positionOfNextIntersection.value)) / AverageSpeed
      ensures (&& positionOfNextIntersection.Some? && currentDirection.Some?
               && !ReachedIntersection(currentDirection, car.position, positionOfNextIntersection.value))
              ==> e > 0.0
    {
      var routeDistance := 0.0;
      var toNext := 0.0;
      if positionOfNextIntersection.Some? {
        routeDistance := route.DistanceToDestination();
        toNext := DistanceToNextIntersectionOf();
        ReachedIffNothingLeft(currentDirection, car.position, positionOfNextIntersection.value);
      }
      var totalDistance := routeDistance + toNext;
      return totalDistance / AverageSpeed;
    }

    /** `distanceToNextIntersection`, read from the car's position. */
    method DistanceToNextIntersectionOf() returns (d: real)
      requires positionOfNextIntersection.Some?
      ensures d == DistanceToNextIntersection(currentDirection, car.position, positionOfNextIntersection.value)
    {
      var target, pos := positionOfNextIntersection.value, car.position;
      d := 0.0;
      if currentDirection == Some(East) {
        d := target.x - pos.x;
      } else if currentDirection == Some(West) {
        d := pos.x - target.x;
      } else if currentDirection == Some(North) {
        d := target.y - pos.y;
      } else if currentDirection == Some(South) {
        d := pos.y - target.y;
      }
    }

    /** `update`: the position is refreshed; with no destination nothing
        else happens. Otherwise the car is throttled and steered, and the
        navigation state takes one step. Popping the route after a failed
        plan would dereference the missing route. */
    method Update(results: array?<Observation>)
      requires Valid()
      requires destination.Some? && positionOfNextIntersection.Some? && !turning
               && ReachedIntersection(currentDirection, car.position, positionOfNextIntersection.value)
               ==> route.currentRoute.Some?
      modifies this, car`log, collisionHandler, roadRuleHandler, route, results
      ensures Valid() && currentPosition == car.position
      ensures old(destination).None? ==>
                && State() == old(State()) && car.log == old(car.log) && destination == None
                && unchanged(route, collisionHandler, roadRuleHandler)
                && (results != null ==> unchanged(results))
      ensures old(destination).Some? ==>
                var popped := old(positionOfNextIntersection).Some? && !old(turning)
                              && ReachedIntersection(old(currentDirection), car.position, old(positionOfNextIntersection).value);
                && destination == old(destination)
                && car.log == old(car.log)
                     + Throttle(if Accelerates(old(destinationReached), if results == null then None else Some(results[..]))
                                then AccelerateValue else BrakeValue)
                     + TurnCommands(TurnAmount(DirectionAngle(old(currentDirection)), car.heading))
                && State() == Navigate(old(State()), car.position, destination.value,
                                       if popped then Upcoming(route.graph.net, old(route.currentRoute).value) else None)
                && route.currentRoute == (if popped && old(route.currentRoute).value != []
                                          then Some(old(route.currentRoute).value[1..]) else old(route.currentRoute))
                && route.destination == old(route.destination)
                && route.previousNodePosition == (if popped && old(route.currentRoute).value != []
                                                  then positionOfNextIntersection else old(route.previousNodePosition))
      ensures results == null ==> unchanged(collisionHandler, roadRuleHandler)
      ensures results != null && old(destination).Some? ==>
                && multiset(results[..]) == multiset(old(results[..])) && ByTimeToCollision(results[..])
                && collisionHandler.collisionObjectList == Some(results[..])
                && roadRuleHandler.trafficLights == Some(Rebuild(TrafficLights(results[..])))
    {
      currentPosition := car.position;
      if destination.None? {
        return;
      }
      Respond(results);
      Advance();
    }

    /** The throttle-and-steer half of `update`. */
    method Respond(results: array?<Observation>)
      requires controller.car == car
      modifies car`log, collisionHandler, roadRuleHandler, results
      ensures car.log == old(car.log)
                + Throttle(if Accelerates(destinationReached, if results == null then None else Some(results[..]))
                           then AccelerateValue else BrakeValue)
                + TurnCommands(TurnAmount(DirectionAngle(currentDirection), car.heading))
      ensures results == null ==> unchanged(collisionHandler, roadRuleHandler)
      ensures results != null ==>
                && multiset(results[..]) == multiset(old(results[..])) && ByTimeToCollision(results[..])
                && collisionHandler.collisionObjectList == Some(results[..])
                && roadRuleHandler.trafficLights == Some(Rebuild(TrafficLights(results[..])))
    {
      if results == null {
        if !destinationReached {
          controller.AdjustCar(DirectionAngle(currentDirection), AccelerateValue);
        } else {
          controller.AdjustCar(DirectionAngle(currentDirection), BrakeValue);
        }
      } else {
        var go := Gate(results);
        if go {
          controller.AdjustCar(DirectionAngle(currentDirection), AccelerateValue);
        } else {
          controller.AdjustCar(DirectionAngle(currentDirection), BrakeValue);
        }
      }
    }

    /** The perception part of `update`: the results are sorted in place and
        handed to both handlers, and the throttle decision is taken from
        them; the handlers are only asked while the destination is not
        reached. */
    method Gate(results: array<Observation>) returns (go: bool)
      modifies collisionHandler, roadRuleHandler, results
      ensures multiset(results[..]) == multiset(old(results[..])) && ByTimeToCollision(results[..])
      ensures collisionHandler.collisionObjectList == Some(results[..])
      ensures roadRuleHandler.trafficLights == Some(Rebuild(TrafficLights(results[..])))
      ensures go == Accelerates(destinationReached, Some(results[..]))
    {
      PrioritisePerceptionResponse(results);
      collisionHandler.Update(results[..]);
      var trafficLights := CollectTrafficLights(results);
      roadRuleHandler.Update(trafficLights);
      go := !destinationReached;
      if go {
        var imminent := collisionHandler.CollisionImminent();
        go := !imminent;
        if go {
          var stop := roadRuleHandler.CheckForStop();
          go := !stop;
        }
      }
    }

    /** `hookTurnRequired`: four tests in turn, each assigning the answer,
        so the last one decides. */
    method HookTurnRequired() returns (required: bool)
      ensures required <==> currentDirection == Some(North)
      ensures required == HookTurn(currentDirection, nextIntersectionDirection)
    {
      if currentDirection == Some(East) {
        required := nextIntersectionDirection == Some(South);
      }
      if currentDirection == Some(West) {
        required := nextIntersectionDirection == Some(North);
      }
      if currentDirection == Some(South) {
        required := nextIntersectionDirection == Some(West);
      }
      if currentDirection == Some(North) {
        required := true;
      } else {
        required := false;
      }
    }

    /** The navigation half of `update`. */
    method Advance()
      requires Valid() && destination.Some? && currentPosition == car.position
      requires positionOfNextIntersection.Some? && !turning
               && ReachedIntersection(currentDirection, car.position, positionOfNextIntersection.value)
               ==> route.currentRoute.Some?
      modifies this, route
      ensures Valid() && destination == old(destination) && currentPosition == old(currentPosition)
      ensures var popped := old(positionOfNextIntersection).Some? && !old(turning)
                            && ReachedIntersection(old(currentDirection), car.position, old(positionOfNextIntersection).value);
              && State() == Navigate(old(State()), car.position, destination.value,
                                     if popped then Upcoming(route.graph.net, old(route.currentRoute).value) else None)
              && route.currentRoute == (if popped && old(route.currentRoute).value != []
                                        then Some(old(route.currentRoute).value[1..]) else old(route.currentRoute))
              && route.destination == old(route.destination)
              && route.previousNodePosition == (if popped && old(route.currentRoute).value != []
                                                then positionOfNextIntersection else old(route.previousNodePosition))
    {
      if positionOfNextIntersection.Some? {
        if turning {
          var hook := HookTurnRequired();
          if hook {
            var axisDif := AxisDifference(currentDirection, car.position, prevIntersection.value);
            if axisDif > HookDistance {
              currentDirection := nextIntersectionDirection;
              turning := false;
            }
          } else {
            currentDirection := nextIntersectionDirection;
            turning := false;
          }
        } else {
          if ReachedIntersection(currentDirection, car.position, positionOfNextIntersection.value) {
            prevIntersection := positionOfNextIntersection;
            positionOfNextIntersection := route.NextIntersectionPosition();
            if positionOfNextIntersection.Some? {
              SetNextIntersectionDirection();
              turning := true;
            } else {
              SetDestinationDirection();
              turning := true;
            }
          }
        }
      } else {
        var axisDif := AxisDifference(currentDirection, car.position, destination.value);
        if axisDif < ArrivalDistance {
          destinationReached := true;
        }
      }
    }

    /** `setNextIntersectionDirection`, from the position of the last tick. */
    method SetNextIntersectionDirection()
      requires positionOfNextIntersection.Some?
      modifies this`nextIntersectionDirection
      ensures nextIntersectionDirection
           == NextIntersectionDirection(old(nextIntersectionDirection), currentPosition, positionOfNextIntersection.value)
    {
      var target := positionOfNextIntersection.value;
      var axisDifference := Abs(currentPosition.x - target.x);
      if axisDifference > MaxIntersectionSize {
        if currentPosition.x > target.x {
          nextIntersectionDirection := Some(West);
        } else {
          nextIntersectionDirection := Some(East);
        }
      } else {
        axisDifference := Abs(currentPosition.y - target.y);
        if axisDifference > MaxIntersectionSize {
          if currentPosition.y > target.y {
            nextIntersectionDirection := Some(South);
          } else {
            nextIntersectionDirection := Some(North);
          }
        }
      }
    }

    /** `setDestinationDirection`, from the position of the last tick. */
    method SetDestinationDirection()
      requires destination.Some?
      modifies this`nextIntersectionDirection
      ensures nextIntersectionDirection == Some(DestinationDirection(currentPosition, destination.value))
    {
      var dest := destination.value;
      var xAxisDifference := Abs(currentPosition.x - dest.x);
      var yAxisDifference := Abs(currentPosition.y - dest.y);
      if xAxisDifference > yAxisDifference {
        if currentPosition.x > dest.x {
          nextIntersectionDirection := Some(West);
        } else {
          nextIntersectionDirection := Some(East);
        }
      } else {
        if currentPosition.y > dest.y {
          nextIntersectionDirection := Some(South);
        } else {
          nextIntersectionDirection := Some(North);
        }
      }
    }

    /** The for-each loop of `update` that gathers the traffic lights. */
    static method CollectTrafficLights(results: array<Observation>) returns (lights: seq<Observation>)
      ensures lights == TrafficLights(results[..])
    {
      lights := [];
      for i := 0 to results.Length
        invariant lights == TrafficLights(results[..i])
      {
        assert results[..i + 1][..i] == results[..i];
        if results[i].objectType == TrafficLight {
          lights := lights + [results[i]];
        }
      }
      assert results[..results.Length] == results[..];
    }

    /** `prioritisePerceptionResponse`: a selection sort in place, which
        leaves the observations in nondecreasing time to collision. */
    static method PrioritisePerceptionResponse(results: array<Observation>)
      modifies results
      ensures multiset(results[..]) == multiset(old(results[..]))
      ensures ByTimeToCollision(results[..])
    {
      var i := 0;
      while i < results.Length - 1
        invariant 0 <= i <= results.Length || (results.Length == 0 && i == 0)
        invariant multiset(results[..]) == multiset(old(results[..]))
        invariant forall p, q :: 0 <= p < q < i ==> results[p].timeToCollision <= results[q].timeToCollision
        invariant forall p, q :: 0 <= p < i <= q < results.Length ==> results[p].timeToCollision <= results[q].timeToCollision
      {
        var index := LeastFrom(results, i);
        Swap(results, i, index);
        i := i + 1;
      }
    }

    /** Exchanges two observations. */
    static method Swap(results: array<Observation>, i: nat, j: nat)
      requires i < results.Length && j < results.Length
      modifies results
      ensures results[i] == old(results[j]) && results[j] == old(results[i])
      ensures forall k :: 0 <= k < results.Length && k != i && k != j ==> results[k] == old(results[k])
      ensures multiset(results[..]) == multiset(old(results[..]))
    {
      results[i], results[j] := results[j], results[i];
    }

    /** The inner loop of the sort: the first index from `i` on with the
        least time to collision. */
    static method LeastFrom(results: array<Observation>, i: nat) returns (index: nat)
      requires i < results.Length
      ensures i <= index < results.Length
      ensures forall j :: i <= j < results.Length ==> results[index].timeToCollision <= results[j].timeToCollision
      ensures forall j :: i <= j < index ==> results[j].timeToCollision > results[index].timeToCollision
    {
      index := i;
      for j := i + 1 to results.Length
        invariant i <= index < j
        invariant forall k :: i <= k < j ==> results[index].timeToCollision <= results[k].timeToCollision
        invariant forall k :: i <= k < index ==> results[k].timeToCollision > results[index].timeToCollision
      {
        if results[j].timeToCollision < results[index].timeToCollision {
          index := j;
        }
      }
    }
  }
}
