/** The four directions of a maze cell, in the order the source enumerates them. */
module Directions {

  datatype Direction = North | South | East | West

  /** Every direction, in declaration order (what `Direction.values()` yields). */
  const AllDirections: seq<Direction> := [North, South, East, West]

  /** Position of a direction in `AllDirections`. */
  function Ordinal(d: Direction): (n: nat)
    ensures n < |AllDirections| && AllDirections[n] == d
  {
    match d
    case North => 0
    case South => 1
    case East => 2
    case West => 3
  }
}
