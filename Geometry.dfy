/** Planar positions and the communication-range test of run.py. */
module Geometry {

  datatype Position = Position(x: real, y: real)

  /** Radius of a bus's communication range, in metres (run.py, `comm_range`). */
  const CommRange: real := 100.0

  /** The square of the Euclidean distance; the source takes its square root. */
  function SquaredDistance(p: Position, q: Position): (d: real)
    ensures d >= 0.0
  {
    var dx, dy := p.x - q.x, p.y - q.y;
    assert dx * dx >= 0.0 && dy * dy >= 0.0;
    dx * dx + dy * dy
  }

  /** The car is within the bus's range; the threshold is inclusive. */
  predicate InRange(p: Position, q: Position)
  {
    SquaredDistance(p, q) <= CommRange * CommRange
  }

  /**
   * The squared test agrees with the source's test on the distance itself:
   * for the non-negative `dist` whose square is the squared distance (the
   * value `math.sqrt` returns), `dist <= CommRange` exactly when in range.
   */
  lemma InRangeIffDistanceWithin(p: Position, q: Position, dist: real)
    requires dist >= 0.0 && dist * dist == SquaredDistance(p, q)
    ensures InRange(p, q) <==> dist <= CommRange
  {
    if dist <= CommRange {
      assert dist * dist <= dist * CommRange <= CommRange * CommRange;
    } else {
      assert dist * dist > CommRange * dist > CommRange * CommRange;
    }
  }
}
