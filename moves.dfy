/** Unit moves on the grid, shared by the solver and by the player. */
module Moves {
  import opened Directions
  import opened Locations

  /** One step toward `d`: NORTH and SOUTH change the row by -1 and +1, EAST and WEST the column by +1 and -1. */
  function MoveToNextCell(c: Coord, d: Direction): (r: Coord)
    ensures r == Coord(c.i + RowDelta(d), c.j + ColDelta(d))
    ensures (r.i == c.i && (r.j == c.j + 1 || r.j == c.j - 1)) || (r.j == c.j && (r.i == c.i + 1 || r.i == c.i - 1))
  {
    match d
    case North => Coord(c.i - 1, c.j)
    case South => Coord(c.i + 1, c.j)
    case East => Coord(c.i, c.j + 1)
    case West => Coord(c.i, c.j - 1)
  }

  /** Row and column change of a unit step toward `d`. */
  function RowDelta(d: Direction): int
  {
    match d
    case North => -1
    case South => 1
    case East => 0
    case West => 0
  }

  function ColDelta(d: Direction): int
  {
    match d
    case North => 0
    case South => 0
    case East => 1
    case West => -1
  }

  /** `n` unit steps toward `d` (the loop of `moveToOppositeCell`, run `n` times). */
  function Steps(n: int, c: Coord, d: Direction): (r: Coord)
    ensures RowDelta(d) == 0 ==> r.i == c.i
    ensures ColDelta(d) == 0 ==> r.j == c.j
    decreases n
  {
    if n <= 0 then c else Steps(n - 1, MoveToNextCell(c, d), d)
  }

  /** `n` steps shift the position by `n` times the unit delta; the other coordinate stays. */
  lemma {:induction false} StepsShift(n: nat, c: Coord, d: Direction)
    ensures Steps(n, c, d) == Coord(c.i + n * RowDelta(d), c.j + n * ColDelta(d))
  {
    if n > 0 {
      StepsShift(n - 1, MoveToNextCell(c, d), d);
    }
  }

  /** Taking `n + 1` steps is taking `n` steps and then one more. */
  lemma {:induction false} StepsSnoc(n: nat, c: Coord, d: Direction)
    ensures Steps(n + 1, c, d) == MoveToNextCell(Steps(n, c, d), d)
  {
    if n > 0 {
      StepsSnoc(n - 1, MoveToNextCell(c, d), d);
    }
  }
}
