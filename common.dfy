/** Shared vocabulary: optional values, results, coordinates, the great-circle
    distance, and Python's `round` on exact reals. */
module Common {

  datatype Option<+T> = None | Some(value: T)

  datatype Result<+T, +E> = Ok(value: T) | Err(error: E)

  /** A point as the database stores it: latitude and longitude in degrees. */
  datatype Coord = Coord(lat: real, lon: real)

  /** The great-circle (haversine) distance in metres between two points.
      Its trigonometry is not modelled: all the model relies on is that a
      distance is never negative. */
  type Haversine = h: (Coord, Coord) -> real | forall a, b :: h(a, b) >= 0.0
    witness (a: Coord, b: Coord) => 0.0

  /** Python's `round(x)`: nearest integer, ties to the even neighbour. */
  function RoundHalfEven(x: real): (r: int)
    ensures x - 0.5 <= r as real <= x + 0.5
    ensures x - 0.5 == r as real || x + 0.5 == r as real ==> r % 2 == 0
  {
    var f := x.Floor;
    var frac := x - f as real;
    if frac < 0.5 then f
    else if frac > 0.5 then f + 1
    else if f % 2 == 0 then f
    else f + 1
  }

  /** Python's `round(x, 1)`: to one decimal place, ties to even tenths. */
  function RoundTenth(x: real): (r: real)
    ensures x - 0.05 <= r <= x + 0.05
    ensures (r * 10.0).Floor as real == r * 10.0
  {
    RoundHalfEven(x * 10.0) as real / 10.0
  }

  lemma RoundHalfEvenMonotone(x: real, y: real)
    requires x <= y
    ensures RoundHalfEven(x) <= RoundHalfEven(y)
  {
    var fx, fy := x.Floor, y.Floor;
    if fx == fy {
      assert x - fx as real <= y - fy as real;
    } else {
      assert fx + 1 <= fy;
    }
  }

  lemma RoundTenthMonotone(x: real, y: real)
    requires x <= y
    ensures RoundTenth(x) <= RoundTenth(y)
  {
    RoundHalfEvenMonotone(x * 10.0, y * 10.0);
  }

  lemma RoundOfNonNegative(x: real)
    requires x >= 0.0
    ensures RoundHalfEven(x) >= 0 && RoundTenth(x) >= 0.0
  {
    assert x * 10.0 >= 0.0;
  }
}
