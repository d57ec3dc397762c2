/** The collision gate of planning/CollisionHandler.java: it keeps the
    latest observations and says whether a collision is imminent. */
module Collisions {
  import opened Common
  import opened Observations

  /** An object closer in time than two seconds, and not more than one
      second in the past, makes a collision imminent; both bounds are strict. */
  predicate Imminent(o: Observation)
  {
    -1.0 < o.timeToCollision < 2.0
  }

  class CollisionHandler {
    var collisionObjectList: Option<seq<Observation>>

    /** Nothing is stored until the first update. */
    constructor ()
      ensures collisionObjectList == None
    {
      collisionObjectList := None;
    }

    /** `update`: the stored list becomes the argument. */
    method Update(result: seq<Observation>)
      modifies this
      ensures collisionObjectList == Some(result)
    {
      collisionObjectList := Some(result);
    }

    /** `collisionImminent`: whether some stored observation is imminent.
        Before the first update there is no list, which the source
        dereferences. */
    method CollisionImminent() returns (b: bool)
      requires collisionObjectList.Some?
      ensures b <==> exists i :: 0 <= i < |collisionObjectList.value| && Imminent(collisionObjectList.value[i])
    {
      var list := collisionObjectList.value;
      if |list| > 0 {
        for i := 0 to |list|
          invariant forall k :: 0 <= k < i ==> !Imminent(list[k])
        {
          if list[i].timeToCollision < 2.0 && list[i].timeToCollision > -1.0 {
            return true;
          }
        }
      }
      return false;
    }
  }
}
