# Route planning for a simulated car

This project models the planning subsystem of a car in a road-world
simulation. Each tick the subsystem decides whether the car accelerates or
brakes, which way it faces, and when it moves on to the next intersection of
a planned route. It has these parts:

- **The road graph.** Nodes are intersections and edges are roads. It is
  built from the world's intersections in two passes.
- **Two searches over the graph.** A depth-first reachability check comes
  first. Then a greedy path search tries each node's roads in order of how
  close their far intersection is to the destination. Both searches mark
  nodes as visited and clear the marks afterwards.
- **The route.** This is the list of intersections still ahead. It gives a
  distance estimate to the destination and pops the next intersection.
- **Two gates on the throttle.** The collision handler trips for an
  observation whose time to collision lies strictly between -1 and 2
  seconds. The road-rule handler
  trips for a close red or amber light that faces the car.
- **The car controller.** It turns the car towards a wanted angle along the
  shorter arc, at most 20 degrees per tick.
- **The coordinator.** It plans the route, drives the gates and the
  controller, and steps the navigation state: the heading, the direction of
  the next turn, whether a turn is under way, hook turns, and arrival.

How the model is laid out:

- **Graph values.** Nodes and edges refer to each other, so both are values
  in the sequences of a `Network`. A reference to a node or an edge is its
  index there.
- **Visited flags.** These are the only node state the searches change, so
  they are an `array<bool>` in class `RoadGraph.Graph`.
- **Search functions.** The searches are recursive functions that take and
  return the flags as a `seq<bool>`. Each `Graph` method is proved equal to
  its function, both in its answer and in the flags it leaves behind.
- **Mutable classes.** The route, the handlers, the controller, the car and
  the coordinator are classes whose methods update their fields.
- **Squared distances.** Euclidean distances are compared as squares.
  Square root is monotone, so every comparison keeps its outcome, and the
  radius 50 becomes 2500.

Several behaviours of the code are modelled as written, not as its comments
describe them:

- `hookTurnRequired` answers true exactly when the car heads north. Its last
  `if`/`else` overwrites the three earlier tests. The model proves exactly
  where this differs from a hook turn on every right turn.
- `getEndOfRoad`, asked from a road's end node, returns that same node. The
  parameter shadows the field.
- `setEndPosition` stores the road's start position in both accepting
  branches.
- The traffic-light list compares every light only with its front element. A
  closer light is inserted twice.
- The turn towards the destination, chosen at the last intersection, is
  never committed. Once there is no next intersection, only arrival is
  checked.
- `planRoute` does not reset the heading, the turn flag or the previous
  intersection. A failed plan still discards the previous route.
- The search's start node is never marked visited, so a route may pass
  through it again.
- `isValidRoute` and `planRoute` can disagree. The depth-first search walks
  roads in both directions. The path search cannot leave a node over a road
  that ends there, because `getEndOfRoad` answers the same node. Take two
  intersections A and B joined by one road from A to B, each with a dead-end
  road. A car on the dead end at B is told a destination on the dead end at
  A is reachable, yet no route is planned.

## Model

| member | source | states |
|---|---|---|
| RoadNetwork.NewNode | planning/Node.java:27-33 | A new node copies the intersection's position, width and length and has no incident roads |
| RoadNetwork.AddRoad | planning/Node.java:105-107 | Adding a road appends exactly that edge to the incident list and keeps the rest of the node |
| RoadNetwork.StraightLineDistanceSq | planning/Node.java:94-103 | The squared straight-line distance is non-negative and zero exactly when the destination is the node's position |
| RoadNetwork.NewEdge | planning/Edge.java:26-29 | A new edge starts at the given node and has neither an end node nor an end position |
| RoadNetwork.SetEndNode | planning/Edge.java:35-37 | Setting the end node makes `hasEndNode` true and changes nothing else of the edge |
| RoadNetwork.EndOfRoadIsEndNode | planning/Edge.java:44-53 | `getEndOfRoad` answers the end node or nothing. From the start it answers the end node. From the end node it answers that node itself. It answers nothing when the node is neither endpoint or the road has no end node |
| RoadNetwork.Clamp | planning/Edge.java:164-184 | The closest coordinate lies in the road's range and equals the destination's coordinate when that is inside the range |
| RoadNetwork.ClosestPointDistanceSq | planning/Edge.java:124-194 | The distance to the road's closest point is non-negative and zero for a destination inside the road's box |
| RoadNetwork.ClosestPointIsClosest | planning/Edge.java:124-194 | No point of the road's box is closer to the destination than the point the clamping picks |
| RoadNetwork.NearEndIsOnRoad | planning/Edge.java:108-116 | A destination within 50 of either end of a road, or inside its box, is on the road |
| RoadNetwork.SetEndPosition | planning/Edge.java:87-100 | Succeeds exactly when either end of the road lies within the start intersection's width and length. Success stores the road's start position and leaves the rest of the edge as it was. Otherwise the map is rejected naming that road |
| GraphBuild.ListRoad | planning/Graph.java:45-55 | Listing a road keeps the network linked: indices in range and one edge per road. The node count is kept and no edge is lost |
| GraphBuild.ListRoads | planning/Graph.java:43-56 | Listing all roads of an intersection keeps the network linked, with the same nodes and no fewer edges |
| GraphBuild.AddNode | planning/Graph.java:41-42 | A new intersection adds exactly one node and keeps the network linked |
| GraphBuild.Topology | planning/Graph.java:35-57 | The first pass gives a linked network with one node per intersection |
| GraphBuild.ListRoadsKeys | planning/Graph.java:45-55 | After listing, a road has an edge exactly when it had one before or was listed. Edges already made keep their index |
| GraphBuild.ListRoadsNodes | planning/Graph.java:45-55 | Listing an intersection's roads appends their edges to its node, in listing order |
| GraphBuild.ListRoadsEdge | planning/Graph.java:47-54 | A road listed before gets this node as its end node. A new road gets an edge starting here, ending here as well when it is listed twice |
| GraphBuild.TopologyKeys | planning/Graph.java:40-57 | A road has an edge exactly when some intersection lists it |
| GraphBuild.TopologyNode | planning/Graph.java:40-57 | Every node holds its intersection's position, width and length and the edges of its roads, in the intersection's order |
| GraphBuild.TopologyEdge | planning/Graph.java:40-57 | A road's edge starts at the first intersection that lists it. Its end node is the last one that lists it, when it is listed at least twice, and it has no end position yet |
| GraphBuild.Resolved | planning/Graph.java:59-65 | The second pass leaves nodes and road lookup unchanged and gives a well-formed network in which every edge has an end node or an end position |
| GraphBuild.AttachRoad | planning/Graph.java:45-55 | The loop body of the first pass computes exactly one road's listing |
| GraphBuild.FirstPass | planning/Graph.java:35-57 | The nested loops of the first pass compute exactly `Topology` |
| GraphBuild.SecondPass | planning/Graph.java:59-65 | Succeeds exactly when every road without an end node attaches to its start intersection. The result is the resolved network. A failure names a road that does not attach |
| GraphBuild.BuildNetwork | planning/Graph.java:29-66 | The constructor succeeds exactly when every road attaches and then yields a well-formed network |
| EdgeOrder.InsertPos | planning/Graph.java:173-189 | The insertion index is the first position whose edge has no far node or a strictly farther one |
| EdgeOrder.InsertPosUnique | planning/Graph.java:173-189 | Any index where the inner loop stops is that insertion index |
| EdgeOrder.Sort | planning/Graph.java:158-192 | The sorted list is a permutation of the node's incident edges |
| EdgeOrder.InsertPermutes | planning/Graph.java:166-190 | One insertion adds exactly the edge to the list |
| EdgeOrder.InsertOrdered | planning/Graph.java:166-190 | Inserting into an ordered list keeps it ordered by far-node distance, edges without a far node last |
| EdgeOrder.SortOrdered | planning/Graph.java:158-192 | The sorted list is ordered by far-node distance, edges without a far node last |
| EdgeOrder.InsertSelect | planning/Graph.java:166-190 | An inserted edge goes after every edge with the same key, and the other edges of that key keep their order |
| EdgeOrder.SortStable | planning/Graph.java:158-192 | The sort is stable: edges with equal distance, and edges without a far node, keep their incidence order |
| RouteSearch.CountFalseGrows | planning/Node.java:78-80 | A search that only sets visited flags never increases the number of unvisited nodes |
| RouteSearch.CountFalseMark | planning/Node.java:78-80 | Marking an unvisited node strictly decreases the number of unvisited nodes, which bounds both searches |
| RouteSearch.Dfs | planning/Graph.java:212-253 | `depthFirstSearch` never unmarks a node, and an edge that has the destination on its road answers true without marking anything |
| RouteSearch.Expand | planning/Graph.java:222-249 | An already visited endpoint is not expanded and changes nothing |
| RouteSearch.Loop | planning/Graph.java:227-233 | The loop over a node's other edges never unmarks a node |
| RouteSearch.DfsSound | planning/Graph.java:212-253 | A true answer is backed by a walk of adjacent edges from the given edge to an edge that has the destination on its road |
| RouteSearch.DfsFalse | planning/Graph.java:212-253 | After a false answer the edge is finished: its road misses the destination and its endpoints are marked. Every node the search marked has all its roads finished |
| RouteSearch.ExpandFalse | planning/Graph.java:222-249 | After a false answer the endpoint is marked. If this search marked it, every other road at it is finished |
| RouteSearch.LoopFalse | planning/Graph.java:227-233 | After a false answer every remaining road of the node except the current one is finished, and every node marked meanwhile is finished |
| RouteSearch.WalkDone | planning/Graph.java:212-253 | Once the first edge is finished and every marked node is finished, every edge along any walk is finished |
| RouteSearch.DfsComplete | planning/Graph.java:212-253 | On fresh flags a false answer means no walk from the edge ends at an edge with the destination on its road |
| RouteSearch.DfsIff | planning/Graph.java:212-253 | On fresh flags the answer is true exactly when a walk of adjacent edges leads from the edge to an edge with the destination on its road |
| RouteSearch.ExpandSound | planning/Graph.java:222-249 | A true answer from a node block is backed by a walk starting at an edge adjacent to the current one |
| RouteSearch.LoopSound | planning/Graph.java:227-233 | A true answer from the edge loop is backed by a walk starting at one of the node's edges |
| RouteSearch.SortedEdges | planning/Graph.java:134 | The edges the path search tries are a permutation of the node's incident edges |
| RouteSearch.NextNode | planning/Graph.java:138-139 | The node the path search moves to is a node of the graph and is what `getEndOfRoad` answers |
| RouteSearch.Search | planning/Graph.java:121-150 | `pathFindingSearch` never unmarks a node |
| RouteSearch.SearchLoop | planning/Graph.java:137-149 | The loop over the sorted edges never unmarks a node |
| RouteSearch.SearchLoopSkip | planning/Graph.java:138-140 | An edge without an end node, or whose far node is visited, is skipped with the flags unchanged |
| RouteSearch.SearchLoopVisit | planning/Graph.java:140-146 | An unvisited far node is marked and then searched. A route found there is returned with the current node in front. Otherwise the loop goes on with the flags that search left |
| RouteSearch.SearchSound | planning/Graph.java:121-150 | A route found starts at the given node. Each next node follows over one of its incident roads, and the last node has a road with the destination on it |
| RouteSearch.SearchLoopSound | planning/Graph.java:137-149 | A route found by the loop is a route to the destination |
| RouteSearch.SearchSingleIff | planning/Graph.java:127-132 | The search answers the one-node route exactly when one of the node's roads has the destination on it |
| RouteSearch.Seed | planning/Graph.java:97-106 | The start node is an endpoint of the road: the start node when there is no end node, else the endpoint closer to the destination, the start node on a tie |
| RouteSearch.PlannedRouteSound | planning/Graph.java:89-113 | No route when the reachability check fails. A planned route starts at the seed node and reaches the destination step by step |
| RouteSearch.PlannedRouteStart | planning/Graph.java:95-108 | A planned route is non-empty and starts at the seed node |
| RouteSearch.TrapLoop | planning/Graph.java:137-149 | Take a node whose roads are one ending at it and one dead end, neither with the destination on it. The path search's loop there finds nothing, whatever is marked |
| RouteSearch.TwoDeadEndsReachable | planning/Graph.java:212-253 | On two intersections joined by one road, each with a dead end, the reachability check from the dead end at B finds the destination on the dead end at A |
| RouteSearch.TwoDeadEndsNoRoute | planning/Graph.java:121-150 | On the same network the path search from B, the dead end's seed, finds no route |
| RouteSearch.ReachableButNoRoute | planning/Edge.java:44-48 | On a concrete such network the reachability check answers true while no route is planned |
| RoadGraph.Graph.constructor | planning/Graph.java:29-66 | A new graph has one flag per node, all unvisited |
| RoadGraph.Graph.IsValidRoute | planning/Graph.java:74-81 | True exactly when a walk of adjacent roads leads from the car's road to a road with the destination on it. The answer is the depth-first search on fresh flags, and the flags are all cleared afterwards |
| RoadGraph.Graph.PlanRoute | planning/Graph.java:89-113 | The route is the planned route of the road's edge, and the flags are all cleared afterwards |
| RoadGraph.Graph.DepthFirstSearch | planning/Graph.java:212-253 | The recursive method's answer and the flags it leaves are exactly those of `Dfs` |
| RoadGraph.Graph.ExpandNode | planning/Graph.java:222-249 | One node block's answer and flags are exactly those of `Expand` |
| RoadGraph.Graph.PathFindingSearch | planning/Graph.java:121-150 | The recursive method's route and the flags it leaves are exactly those of `Search` |
| RoadGraph.Graph.TryEdge | planning/Graph.java:137-148 | One pass of the edge loop either returns the loop's answer or hands the loop on to the next edge, never unmarking a node. The number of unvisited nodes never grows |
| RoadGraph.Graph.DestinationAdjacent | planning/Graph.java:127-133 | True exactly when some incident road has the destination on it |
| RoadGraph.Graph.SortEdgesByClosestIntersection | planning/Graph.java:158-192 | The list built by insertion is exactly `Sort` of the incident edges |
| RoadGraph.Graph.PlaceEdge | planning/Graph.java:166-190 | One outer pass inserts the edge at the insertion index, or appends it when it has no far node |
| RoadGraph.Graph.SetNodesToUnvisited | planning/Graph.java:198-202 | Every node is unvisited afterwards |
| RoadGraph.NewGraph | planning/Graph.java:29-66 | A graph is built exactly when every road attaches, over the resolved network with all flags clear. If no road is listed at more than two intersections, every road in a node's list starts or ends there. Otherwise the map is rejected naming a road that does not attach |
| RoadGraph.BuiltIncident | planning/Graph.java:40-56 | If no road is listed at more than two intersections, every road in a built node's list starts or ends at that node |
| GraphBuild.ListerCases | planning/Graph.java:45-55 | An intersection listing a road is the road's first lister, or its last lister when the road is listed twice or more, or else the road is listed three times or more |
| Routing.Leg | planning/Route.java:64-70 | A leg is non-negative: the y distance when x is shared, else the x distance |
| Routing.LegSymmetric | planning/Route.java:64-82 | A leg's length does not depend on its direction |
| Routing.Legs | planning/Route.java:61-71 | The summed legs are non-negative |
| Routing.FinalLeg | planning/Route.java:91-99 | The last stretch is the larger of the two axis distances to the destination |
| Routing.RouteDistance | planning/Route.java:52-102 | The distance estimate is never negative |
| Routing.LegsFront | planning/Route.java:61-71 | The legs of a route are its first leg plus the legs of the rest |
| Routing.PopDropsFirstLeg | planning/Route.java:52-102 | Dropping the first node removes exactly the leg to it, so the estimate never grows |
| Routing.PopShortensEstimate | planning/Route.java:52-119 | After a pop the estimate is the old one minus the leg from the old previous node to the popped one |
| Routing.Route.constructor | planning/Route.java:28-30 | A new route has the graph and nothing planned |
| Routing.Route.PlanRoute | planning/Route.java:38-46 | The route becomes the graph's planned route even when there is none. The answer says whether there is one. The destination changes only on success |
| Routing.Route.DistanceToDestination | planning/Route.java:52-102 | The loop computes the estimate `RouteDistance` and changes nothing |
| Routing.Route.NextIntersectionPosition | planning/Route.java:108-119 | A non-empty route loses its first node, whose position is returned and remembered. An empty route answers nothing and changes nothing |
| Observations.TrafficLights | planning/PlanningControl.java:150-155 | The lights are exactly the observations classed as traffic lights |
| Collisions.CollisionHandler.constructor | planning/CollisionHandler.java:23-25 | No list is stored before the first update |
| Collisions.CollisionHandler.Update | planning/CollisionHandler.java:31-33 | The stored list becomes the argument |
| Collisions.CollisionHandler.CollisionImminent | planning/CollisionHandler.java:39-53 | True exactly when some stored observation has time to collision strictly between -1 and 2 |
| RoadRules.Rebuild | planning/RoadRuleHandler.java:26-52 | The rebuilt list is at least as long as the lights and at most twice as long |
| RoadRules.PlaceCounts | planning/RoadRuleHandler.java:32-49 | Placing a light adds it once or twice and keeps every other entry |
| RoadRules.RebuildPerLight | planning/RoadRuleHandler.java:26-52 | Counting repeated lights, every light appears at least once and at most twice in the rebuilt list, and nothing else appears |
| RoadRules.FirstClosest | planning/RoadRuleHandler.java:36-45 | The first light at the least distance |
| RoadRules.RebuildFront | planning/RoadRuleHandler.java:26-52 | The front of the rebuilt list is the first light at the least distance |
| RoadRules.RebuildHoldsInput | planning/RoadRuleHandler.java:26-52 | The rebuilt list holds exactly the given lights |
| RoadRules.StopForClosest | planning/RoadRuleHandler.java:58-82 | The car stops exactly when the closest light faces it, is closer than 10 and is red or amber |
| RoadRules.RoadRuleHandler.constructor | planning/RoadRuleHandler.java:17-19 | No list before the first update |
| RoadRules.RoadRuleHandler.Update | planning/RoadRuleHandler.java:26-52 | The stored list is the rebuilt list of the given lights, replacing the old one |
| RoadRules.RoadRuleHandler.PlaceLight | planning/RoadRuleHandler.java:32-49 | The inner loop places one light exactly as `Place` says |
| RoadRules.RoadRuleHandler.CheckForStop | planning/RoadRuleHandler.java:58-82 | True exactly when the front light faces the car, is closer than 10 and reports red or amber. A missing state or an empty list never stops |
| Control.Throttle | planning/CarController.java:37-43 | Accelerate exactly for a positive value, brake exactly for a negative one, nothing at zero |
| Control.Wrap | planning/CarController.java:56-60 | The wrapped difference is the same angle. It lies within half a circle whenever the difference is in (-540, 540], which holds for every heading in [0, 360) and every wanted angle the coordinator asks for |
| Control.WrapIsShortest | planning/CarController.java:55-60 | No other representative of the angle is smaller in magnitude |
| Control.TurnAmount | planning/CarController.java:49-72 | No turn exactly when the heading is the wanted angle. Otherwise the turn has the sign of the wrapped difference and its magnitude capped at 20 |
| Control.TurnArrives | planning/CarController.java:67-70 | An uncapped turn brings the heading onto the wanted angle, up to a full circle |
| Control.CarController.constructor | planning/CarController.java:18-20 | The controller drives the given car |
| Control.CarController.AdjustCar | planning/CarController.java:27-31 | The car gets the throttle command, then the turn command |
| Control.CarController.Accelerate | planning/CarController.java:37-43 | The car gets exactly the throttle command |
| Control.CarController.Turn | planning/CarController.java:49-72 | The car gets exactly the turn `TurnAmount` gives, or none |
| Planning.DirectionAngle | planning/PlanningControl.java:346-358 | -1 exactly when there is no direction. Otherwise a right angle in [0, 360) |
| Planning.DirectionAngleInjective | planning/PlanningControl.java:346-358 | Different directions face different angles |
| Planning.ReachedIffNothingLeft | planning/PlanningControl.java:225-254 | The car has reached the intersection exactly when the distance left along its heading is not positive. With no heading it never arrives |
| Planning.NextDirectionPointsAhead | planning/PlanningControl.java:258-281 | A newly set direction points at the intersection, which lies more than 30 ahead along it. x wins when both qualify, and the direction is kept when neither does |
| Planning.DestinationDirectionAhead | planning/PlanningControl.java:286-307 | The destination lies ahead along the chosen direction by the larger axis distance |
| Planning.RightTurnCases | planning/PlanningControl.java:316-333 | A right turn, a quarter turn clockwise in `getDirectionAngle`'s angles, is exactly one of the four pairs the tests name |
| Planning.HookTurnVersusRightTurn | planning/PlanningControl.java:314-339 | The answer as written differs from a hook turn on every right turn exactly in two cases: heading north without turning east, and a right turn from east, west or south |
| Planning.HookTurnEarlierTestsOverwritten | planning/PlanningControl.java:316-333 | The east, west and south tests have no effect: their right turns get no hook turn, and heading north straight on gets one |
| Planning.AxisDifference | planning/PlanningControl.java:175-181 | The distance along the heading's axis is non-negative |
| Planning.Navigate | planning/PlanningControl.java:168-215 | One navigation step keeps a started turn's previous intersection defined |
| Planning.TurnCommits | planning/PlanningControl.java:171-189 | A hook turn commits exactly when the car is more than 10 past the previous intersection. Any other turn commits at once. A commit adopts the next direction, and otherwise nothing changes |
| Planning.ArrivalPops | planning/PlanningControl.java:192-202 | On reaching the intersection the route is popped, a turn starts and the heading is kept. Before that nothing changes |
| Planning.FinalTurnNeverCommitted | planning/PlanningControl.java:168-215 | With no next intersection, no run of ticks changes the heading, the turn flag or the next direction. Reaching the destination is permanent |
| Planning.ReachedWhenClose | planning/PlanningControl.java:204-215 | The destination is reached exactly when there is no next intersection and it is within 3 along the heading's axis, or it was reached before |
| Planning.AcceleratesIff | planning/PlanningControl.java:136-164 | A tick with observations accelerates exactly when the destination is not reached and no observation is imminent. The closest light must also not stop the car |
| Planning.PlanningControl.constructor | planning/PlanningControl.java:66-76 | A new coordinator heads east with a fresh route, controller and handlers. Nothing is planned: no destination, no turn, no next or previous intersection, not arrived, and both handlers empty |
| Planning.PlanningControl.PlanRoute | planning/PlanningControl.java:83-97 | Succeeds exactly when a route is planned. Success sets the destination in both places, pops the seed node as the next intersection, chooses the direction towards it and clears arrival. Failure discards the route and keeps everything else, the route's destination and previous node included |
| Planning.PlanningControl.BeginRoute | planning/PlanningControl.java:88-93 | The success branch pops the first node and chooses the direction from the last tick's position |
| Planning.PlanningControl.Eta | planning/PlanningControl.java:103-114 | Zero with no next intersection. Otherwise the route estimate plus the distance left along the heading, over 40. Positive while the intersection is ahead |
| Planning.PlanningControl.DistanceToNextIntersectionOf | planning/PlanningControl.java:364-375 | The signed distance left along the heading, zero with no heading |
| Planning.PlanningControl.Update | planning/PlanningControl.java:124-219 | The position is refreshed, and with no destination nothing else changes. Otherwise the car gets the gated throttle and the turn towards its heading. The navigation state takes one `Navigate` step, popping the route only on arrival. The route keeps its destination, and its previous node becomes the popped intersection. The results are sorted and handed to both handlers. With no destination the route, both handlers and the results are untouched. Without results both handlers are untouched |
| Planning.PlanningControl.Respond | planning/PlanningControl.java:136-164 | Accelerate exactly when the gate passes. Without results, exactly when the destination is not reached, and both handlers are untouched. Then turn towards the heading |
| Planning.PlanningControl.Gate | planning/PlanningControl.java:143-163 | The results become a permutation ordered by time to collision and are stored in both handlers. The gate passes exactly as `Accelerates` says |
| Planning.PlanningControl.Advance | planning/PlanningControl.java:168-215 | The navigation fields move exactly as `Navigate` says, popping the route only on arrival. The route keeps its destination, and its previous node becomes the popped intersection |
| Planning.PlanningControl.HookTurnRequired | planning/PlanningControl.java:314-339 | The four tests run in turn, and the answer is true exactly when the car heads north, whatever the next direction |
| Planning.PlanningControl.SetNextIntersectionDirection | planning/PlanningControl.java:258-281 | The next direction becomes `NextIntersectionDirection` of the last tick's position |
| Planning.PlanningControl.SetDestinationDirection | planning/PlanningControl.java:286-307 | The next direction points at the destination along its farther axis |
| Planning.PlanningControl.CollectTrafficLights | planning/PlanningControl.java:150-155 | The loop gathers exactly the traffic lights of the results, in order |
| Planning.PlanningControl.PrioritisePerceptionResponse | planning/PlanningControl.java:382-397 | The selection sort leaves a permutation of the results in nondecreasing time to collision |
| Planning.PlanningControl.Swap | planning/PlanningControl.java:391-393 | Exactly two entries are exchanged |
| Planning.PlanningControl.LeastFrom | planning/PlanningControl.java:386-389 | The inner loop finds the first index from `i` on with the least time to collision |

## Left out

- The host world is not part of this model: `World`, `Road`, `Intersection`, `Car` and `PerceptionResponse`. Each becomes a datatype or a small class holding only the fields the planner reads. The road the car stands on is a parameter of `PlanRoute`, because `world.roadAtPoint` is not part of this model.
- Iteration order of the host's hash maps: an intersection's roads and the graph's road map are taken in a fixed order. An intersection lists its roads as a sequence. The second pass visits roads in edge order, and its outcome does not depend on the order.
- `System.exit` on an invalid map becomes a `Failure` result naming the road.
- Console logging is left out.
- Floating point: coordinates, distances and angles are exact reals. `float` and `double` rounding and the `(float)` casts are not modelled.
- `Math.sqrt` is replaced by comparisons of squared distances, which have the same outcomes.
- The car's physics (`car.update(delta)`) is left out. `Control.Car` only records the commands it is given, so its heading and position are inputs and `delta` is dropped.
- Calls the source makes on null references are preconditions:
  - `checkForStop` and `collisionImminent` before the first update;
  - `distanceToDestination` before the first pop;
  - `eta` after a failed plan that keeps an old next intersection;
  - a road the graph does not know;
  - popping the route after a failed plan.
- RouteSearch.Incident: the path search requires every incident edge of a node to have that node as an endpoint. `RoadGraph.BuiltIncident` proves this for every built graph in which no road is listed at more than two intersections. A road listed at three or more breaks it in the source, and `getEndOfRoad` then answers null, which the source dereferences.
- Collisions.CollisionHandler.Update: the stored list is a snapshot of the sorted results. The source stores the caller's array itself, but nothing changes it between the update and the check.
- Node's `getRoads` aliasing is not modelled. The sort builds a new list and never changes the node's own list.
- Control.Car.Turn: records the turn but leaves the heading as it is. The heading is advanced by the host's physics, which is not part of this model.
