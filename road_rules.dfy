/** The traffic-light gate of planning/RoadRuleHandler.java: each tick it
    rebuilds its list of lights so that the closest one is at the front, and
    then decides from the front light whether the car must stop. */
module RoadRules {
  import opened Common
  import opened Observations

  /** Lights at or beyond this distance are ignored. */
  const StopDistance: real := 10.0
  /** A light whose direction angle is below this faces the car. */
  const FacingAngle: real := 180.0

  // ---------------------------------------------------------------- the rebuilt list

  /** One light placed into the list built so far. Only the front light is
      ever compared: a light strictly closer than it goes to the front and
      is then added a second time, at the front again when it faces the
      car, else at the end; any other light is added once at the end. */
  function Place(s: seq<Observation>, l: Observation): seq<Observation>
  {
    if |s| < 1 then [l]
    else if l.distance < s[0].distance then
      (if l.angle < FacingAngle then [l, l] + s else [l] + s + [l])
    else s + [l]
  }

  /** The list `update` builds from the lights, in their order. */
  function Rebuild(ls: seq<Observation>): (s: seq<Observation>)
    ensures |ls| <= |s| <= 2 * |ls|
  {
    if ls == [] then [] else Place(Rebuild(ls[..|ls| - 1]), ls[|ls| - 1])
  }

  /** Placing a light adds it once or twice and keeps everything else. */
  lemma PlaceCounts(s: seq<Observation>, l: Observation)
    ensures multiset(Place(s, l)) == multiset(s) + multiset{l}
         || multiset(Place(s, l)) == multiset(s) + multiset{l, l}
  {
  }

  /** The rebuilt list holds every light at least once and at most twice,
      counting repeated lights: as multisets it lies between the lights and
      the lights taken twice. */
  lemma {:induction false} RebuildPerLight(ls: seq<Observation>)
    ensures multiset(ls) <= multiset(Rebuild(ls)) <= multiset(ls) + multiset(ls)
  {
    if ls != [] {
      var pre, l := ls[..|ls| - 1], ls[|ls| - 1];
      assert ls == pre + [l];
      RebuildPerLight(pre);
      PlaceCounts(Rebuild(pre), l);
    }
  }

  /** The index of the first light at the least distance. */
  function FirstClosest(ls: seq<Observation>): (i: nat)
    requires |ls| > 0
    ensures i < |ls|
    ensures forall j :: 0 <= j < |ls| ==> ls[i].distance <= ls[j].distance
    ensures forall j :: 0 <= j < i ==> ls[j].distance > ls[i].distance
  {
    if |ls| == 1 then 0
    else
      var i := FirstClosest(ls[..|ls| - 1]);
      if ls[|ls| - 1].distance < ls[i].distance then |ls| - 1 else i
  }

  /** The front of the rebuilt list is the first light at the least distance. */
  lemma {:induction false} RebuildFront(ls: seq<Observation>)
    requires |ls| > 0
    ensures Rebuild(ls)[0] == ls[FirstClosest(ls)]
  {
    if |ls| > 1 {
      var pre := ls[..|ls| - 1];
      RebuildFront(pre);
      assert pre[FirstClosest(pre)] == ls[FirstClosest(pre)];
    }
  }

  /** The rebuilt list holds exactly the lights given, some of them twice. */
  lemma {:induction false} RebuildHoldsInput(ls: seq<Observation>)
    ensures forall o :: o in Rebuild(ls) <==> o in ls
  {
    if ls != [] {
      var pre := ls[..|ls| - 1];
      RebuildHoldsInput(pre);
      assert ls == pre + [ls[|ls| - 1]];
    }
  }

  // ---------------------------------------------------------------- the stop rule

  /** The front light faces the car, is strictly closer than 10, and is red
      or amber; a light without a state never stops the car. */
  predicate StopFor(front: Observation)
  {
    front.angle < FacingAngle && front.distance < StopDistance
    && front.state.Some? && (front.state.value == Red || front.state.value == Amber)
  }

  /** The car stops for the lights exactly when the closest of them, the
      first one at the least distance, faces it, is closer than 10 and shows
      red or amber; no lights, no stop. */
  lemma StopForClosest(ls: seq<Observation>)
    ensures (|Rebuild(ls)| > 0 && StopFor(Rebuild(ls)[0]))
        <==> (|ls| > 0 && StopFor(ls[FirstClosest(ls)]))
  {
    if |ls| > 0 {
      RebuildFront(ls);
    }
  }

  class RoadRuleHandler {
    var trafficLights: Option<seq<Observation>>

    /** No list until the first update. */
    constructor ()
      ensures trafficLights == None
    {
      trafficLights := None;
    }

    /** `update`: the lights are placed one at a time into a new list, which
        replaces the old one entirely. */
    method Update(lights: seq<Observation>)
      modifies this
      ensures trafficLights == Some(Rebuild(lights))
    {
      var sorted: seq<Observation> := [];
      for k := 0 to |lights|
        invariant sorted == Rebuild(lights[..k])
      {
        assert lights[..k + 1][..k] == lights[..k];
        sorted := PlaceLight(sorted, lights[k]);
      }
      assert lights[..|lights|] == lights;
      trafficLights := Some(sorted);
    }

    /** One pass of `update`'s outer loop: the inner loop compares the light
        with the front of the list on every pass, inserts it twice and stops
        at the first pass where it is closer, and otherwise runs out and
        appends it. */
    static method PlaceLight(sorted: seq<Observation>, l: Observation) returns (r: seq<Observation>)
      ensures r == Place(sorted, l)
    {
      r := sorted;
      if |r| < 1 {
        return [l];
      }
      var i := 0;
      while i < |r|
        invariant 0 <= i <= |r| && r == sorted
        invariant i > 0 ==> sorted[0].distance <= l.distance
      {
        var currentClosest := r[0];
        if l.distance < currentClosest.distance {
          r := [l] + r;
          if l.angle < FacingAngle {
            r := [l] + r;
          } else {
            r := r + [l];
          }
          break;
        }
        i := i + 1;
      }
      if i == |r| {
        r := r + [l];
      }
    }

    /** `checkForStop`: whether the front light stops the car. Before the
        first update there is no list, which the source dereferences. */
    method CheckForStop() returns (b: bool)
      requires trafficLights.Some?
      ensures b <==> |trafficLights.value| > 0 && StopFor(trafficLights.value[0])
    {
      var lights := trafficLights.value;
      if |lights| < 1 {
        return false;
      }
      var closest := lights[0];
      if closest.angle < FacingAngle {
        if closest.distance < StopDistance {
          if closest.state.None? {
            return false;
          }
          if closest.state.value == Red || closest.state.value == Amber {
            return true;
          }
        }
      }
      return false;
    }
  }
}
