/**
 * A grid position (row `i`, column `j`). `Coord` is the value of a position, compared
 * componentwise, as the maze's start, goal, path and visited set use it; `Location` is the
 * mutable object whose fields the player's moves update in place.
 */
module Locations {

  datatype Coord = Coord(i: int, j: int)

  class Location {
    var i: int
    var j: int

    constructor (i: int, j: int)
      ensures this.i == i && this.j == j
    {
      this.i := i;
      this.j := j;
    }

    function GetI(): int
      reads this
    {
      i
    }

    function GetJ(): int
      reads this
    {
      j
    }

    /** The position this object currently holds, as a value. */
    function Value(): Coord
      reads this
    {
      Coord(i, j)
    }

    method SetI(i: int)
      modifies this
      ensures this.i == i && this.j == old(this.j)
    {
      this.i := i;
    }

    method SetJ(j: int)
      modifies this
      ensures this.j == j && this.i == old(this.i)
    {
      this.j := j;
    }

    /** Two locations are equal when both coordinates are equal. */
    predicate Equals(other: Location)
      reads this, other
      ensures Equals(other) <==> Value() == other.Value()
    {
      i == other.i && j == other.j
    }

    function HashCode(): int
      reads this
    {
      i * 17 + j
    }
  }

  /** `Equals` is an equivalence relation that coincides with equality of values. */
  lemma EqualsIsValueEquality(a: Location, b: Location, c: Location)
    ensures a.Equals(a)
    ensures a.Equals(b) <==> a.Value() == b.Value()
    ensures a.Equals(b) ==> b.Equals(a)
    ensures a.Equals(b) && b.Equals(c) ==> a.Equals(c)
  {
  }

  /** Equal locations hash alike, so they can serve as keys of a hash set. */
  lemma EqualLocationsHashAlike(a: Location, b: Location)
    requires a.Equals(b)
    ensures a.HashCode() == b.HashCode()
  {
  }
}
