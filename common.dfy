/** Shared value types of the planning subsystem: optional values, failure
    results and points of the plane with real coordinates. */
module Common {

  datatype Option<+T> = None | Some(value: T)

  datatype Result<+T, +E> = Success(value: T) | Failure(error: E)

  /** A position in the simulated world (a `Point2D.Double` of the host). */
  datatype Point = Point(x: real, y: real)

  function Abs(v: real): (r: real)
    ensures r >= 0.0
    ensures r == v || r == -v
  {
    if v < 0.0 then -v else v
  }

  function Max(a: real, b: real): (r: real)
    ensures r >= a && r >= b
    ensures r == a || r == b
  {
    if a > b then a else b
  }

  /** Real product, kept behind a function so that the solver treats squares
      as plain terms. */
  function Mul(a: real, b: real): real
  {
    a * b
  }

  /** The square of a real. */
  function Square(v: real): real
  {
    Mul(Abs(v), Abs(v))
  }

  /** Square of the Euclidean distance between two points. The source takes the
      square root; since the root is monotone, every comparison it makes on
      distances is the same comparison on squared distances. */
  function DistanceSq(a: Point, b: Point): real
  {
    Square(b.x - a.x) + Square(b.y - a.y)
  }

  lemma MulPositive(a: real, b: real)
    requires a > 0.0 && b > 0.0
    ensures Mul(a, b) > 0.0
  {
  }

  lemma MulMonotone(a: real, b: real, c: real)
    requires 0.0 <= a <= b && 0.0 <= c
    ensures Mul(a, c) <= Mul(b, c)
  {
  }

  /** A square is non-negative and vanishes only at zero. */
  lemma {:induction false} SquareZeroIff(v: real)
    ensures Square(v) >= 0.0
    ensures Square(v) == 0.0 <==> v == 0.0
  {
    var t := Abs(v);
    if t > 0.0 {
      MulPositive(t, t);
    } else {
      assert Mul(t, t) == 0.0 * 0.0;
    }
  }

  /** Squaring is monotone in the magnitude. */
  lemma {:induction false} SquareMonotone(a: real, b: real)
    requires Abs(a) <= Abs(b)
    ensures Square(a) <= Square(b)
  {
    var s, t := Abs(a), Abs(b);
    MulMonotone(s, t, s);
    MulMonotone(s, t, t);
    assert Mul(t, s) == Mul(s, t);
  }

  /** The squared distance is non-negative and vanishes exactly when the two
      points coincide. */
  lemma {:induction false} DistanceSqZeroIff(a: Point, b: Point)
    ensures DistanceSq(a, b) >= 0.0
    ensures DistanceSq(a, b) == 0.0 <==> a == b
  {
    SquareZeroIff(b.x - a.x);
    SquareZeroIff(b.y - a.y);
  }
}
