/** What the perception subsystem reports to the planner each tick (the
    host's `PerceptionResponse`), reduced to the fields the planner reads. */
module Observations {
  import opened Common

  /** The object classes of the host; the planner only tells traffic lights
      apart from everything else. */
  datatype Classification = TrafficLight | OtherObject

  datatype LightState = Red | Amber | Green

  /** One perceived object: its class, the time to collision, its distance,
      the angle of its direction vector in degrees, and for a traffic light
      the state it reports, if any. */
  datatype Observation = Observation(
    objectType: Classification,
    timeToCollision: real,
    distance: real,
    angle: real,
    state: Option<LightState>)

  /** The traffic lights among the observations, in their order. */
  function TrafficLights(results: seq<Observation>): (ls: seq<Observation>)
    ensures forall i :: 0 <= i < |ls| ==> ls[i].objectType == TrafficLight
    ensures forall o :: o in results && o.objectType == TrafficLight <==> o in ls
    ensures |ls| <= |results|
  {
    if results == [] then []
    else TrafficLights(results[..|results| - 1])
         + (if results[|results| - 1].objectType == TrafficLight then [results[|results| - 1]] else [])
  }
}
