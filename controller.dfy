/** The actuator wrapper of planning/CarController.java: each tick it gives
    the car one throttle command and then at most one turn command, a turn
    towards the wanted angle along the shorter arc and never larger than the
    turn speed. */
module Control {
  import opened Common

  /** The largest turn issued in one tick, in degrees. */
  const TurnSpeed: real := 20.0

  /** What the planner can ask of the car. */
  datatype Command = Accelerate | Brake | Turn(degrees: real)

  /** The car as far as the planner drives it: its position, the angle of
      its velocity in degrees, and the commands it has been given so far. */
  class Car {
    var position: Point
    var heading: real
    var log: seq<Command>

    constructor (p: Point, h: real)
      ensures position == p && heading == h && log == []
    {
      position := p;
      heading := h;
      log := [];
    }

    method Accelerate()
      modifies this`log
      ensures log == old(log) + [Command.Accelerate]
    {
      log := log + [Command.Accelerate];
    }

    method Brake()
      modifies this`log
      ensures log == old(log) + [Command.Brake]
    {
      log := log + [Command.Brake];
    }

    method Turn(degrees: real)
      modifies this`log
      ensures log == old(log) + [Command.Turn(degrees)]
    {
      log := log + [Command.Turn(degrees)];
    }
  }

  /** The throttle step: accelerate for a positive value, brake for a
      negative one, nothing at zero. */
  function Throttle(value: real): (cs: seq<Command>)
    ensures cs == [Command.Accelerate] <==> value > 0.0
    ensures cs == [Command.Brake] <==> value < 0.0
    ensures cs == [] <==> value == 0.0
  {
    if value > 0.0 then [Command.Accelerate]
    else if value < 0.0 then [Command.Brake]
    else []
  }

  /** The angle difference moved once by a full circle when it is more than
      half a circle either way. */
  function Wrap(diff: real): (w: real)
    ensures w == diff || w == diff - 360.0 || w == diff + 360.0
    ensures -540.0 < diff <= 540.0 ==> -180.0 <= w <= 180.0
  {
    if diff > 180.0 then diff - 360.0
    else if diff < -180.0 then diff + 360.0
    else diff
  }

  /** For the differences that can arise between two angles in degrees, the
      wrapped difference is the shortest way round: no other representative
      of the same angle is smaller in magnitude. */
  lemma {:induction false} WrapIsShortest(diff: real, k: int)
    requires -540.0 < diff <= 540.0
    ensures Abs(Wrap(diff)) <= Abs(diff + 360.0 * k as real)
  {
    if k >= 1 {
      assert 360.0 * k as real >= 360.0;
    } else if k <= -1 {
      assert 360.0 * k as real <= -360.0;
    }
  }

  /** The turn `turn` issues for the wanted angle from the current heading:
      none when the car already points that way; otherwise the wrapped
      difference, cut down to the turn speed with its sign kept. */
  function TurnAmount(target: int, heading: real): (t: Option<real>)
    ensures t.None? <==> heading == target as real
    ensures t.Some? ==> Abs(t.value) <= TurnSpeed
    ensures t.Some? ==> (t.value > 0.0 <==> Wrap(target as real - heading) > 0.0)
    ensures t.Some? ==> (t.value < 0.0 <==> Wrap(target as real - heading) < 0.0)
    ensures t.Some? ==> Abs(t.value) == (if Abs(Wrap(target as real - heading)) > TurnSpeed then TurnSpeed
                                         else Abs(Wrap(target as real - heading)))
  {
    if heading == target as real then None
    else
      var diff := Wrap(target as real - heading);
      if Abs(diff) > TurnSpeed then Some(if diff > 0.0 then TurnSpeed else -TurnSpeed)
      else Some(diff)
  }

  /** When the wanted angle is within the turn speed, the issued turn brings
      the heading onto it, up to a full circle. */
  lemma TurnArrives(target: int, heading: real)
    requires TurnAmount(target, heading).Some?
    requires Abs(Wrap(target as real - heading)) <= TurnSpeed
    ensures var h := heading + TurnAmount(target, heading).value;
            h == target as real || h == target as real - 360.0 || h == target as real + 360.0
  {
  }

  /** The turn commands of one tick. */
  function TurnCommands(t: Option<real>): seq<Command>
  {
    if t.Some? then [Command.Turn(t.value)] else []
  }

  class CarController {
    const car: Car

    constructor (c: Car)
      ensures car == c
    {
      car := c;
    }

    /** `adjustCar`: the throttle step, then the turn step. */
    method AdjustCar(turnAngle: int, accelerationValue: real)
      modifies car`log
      ensures car.log == old(car.log) + Throttle(accelerationValue) + TurnCommands(TurnAmount(turnAngle, car.heading))
    {
      Accelerate(accelerationValue);
      Turn(turnAngle);
    }

    method Accelerate(accelerationValue: real)
      modifies car`log
      ensures car.log == old(car.log) + Throttle(accelerationValue)
    {
      if accelerationValue > 0.0 {
        car.Accelerate();
      } else if accelerationValue < 0.0 {
        car.Brake();
      }
    }

    method Turn(turnAngle: int)
      modifies car`log
      ensures car.log == old(car.log) + TurnCommands(TurnAmount(turnAngle, car.heading))
    {
      if car.heading != turnAngle as real {
        var angleDifference := turnAngle as real - car.heading;
        if angleDifference > 180.0 {
          angleDifference := angleDifference - 360.0;
        } else if angleDifference < -180.0 {
          angleDifference := angleDifference + 360.0;
        }
        if Abs(angleDifference) > TurnSpeed {
          if angleDifference > 0.0 {
            car.Turn(TurnSpeed);
          } else {
            car.Turn(-TurnSpeed);
          }
        } else {
          car.Turn(angleDifference);
        }
      }
    }
  }
}
