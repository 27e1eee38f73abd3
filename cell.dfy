/**
 * A maze cell: its ID and position, a wall flag per direction (all standing at creation),
 * and at most one item, a gold coin or a thief.
 */
module Cells {
  import opened Directions
  import opened Locations
  import opened MazeHelper

  /** A wall map with an entry for every direction. */
  predicate Complete(walls: map<Direction, bool>)
  {
    forall d: Direction :: d in walls
  }

  const AllWallsStanding: map<Direction, bool> :=
    map[North := true, South := true, East := true, West := true]

  /** A fresh wall map has every direction, all standing. */
  lemma AllWallsStandingComplete()
    ensures Complete(AllWallsStanding)
    ensures forall d :: AllWallsStanding[d]
  {
    forall d: Direction ensures d in AllWallsStanding && AllWallsStanding[d] {
      match d
      case North =>
      case South =>
      case East =>
      case West =>
    }
  }

  /** The directions among `ds` whose wall is down, in the order of `ds`. */
  function OpenAmong(ds: seq<Direction>, walls: map<Direction, bool>): seq<Direction>
    requires Complete(walls)
  {
    if ds == [] then []
    else
      var last := ds[|ds| - 1];
      OpenAmong(ds[..|ds| - 1], walls) + (if !walls[last] then [last] else [])
  }

  /** The directions whose wall is down, in NORTH, SOUTH, EAST, WEST order. */
  function OpenDirections(walls: map<Direction, bool>): (r: seq<Direction>)
    requires Complete(walls)
    ensures forall d :: d in r <==> !walls[d]
  {
    OpenAmongPrefix(|AllDirections|, walls);
    assert AllDirections[..|AllDirections|] == AllDirections;
    OpenAmong(AllDirections, walls)
  }

  /** The first `n` directions contribute exactly their open ones, in increasing order. */
  lemma {:induction false} OpenAmongPrefix(n: nat, walls: map<Direction, bool>)
    requires Complete(walls) && n <= |AllDirections|
    ensures forall d :: d in OpenAmong(AllDirections[..n], walls) <==> Ordinal(d) < n && !walls[d]
    ensures forall a, b :: 0 <= a < b < |OpenAmong(AllDirections[..n], walls)| ==>
      Ordinal(OpenAmong(AllDirections[..n], walls)[a]) < Ordinal(OpenAmong(AllDirections[..n], walls)[b])
  {
    if n > 0 {
      OpenAmongPrefix(n - 1, walls);
      assert AllDirections[..n][..n - 1] == AllDirections[..n - 1];
      assert Ordinal(AllDirections[n - 1]) == n - 1;
      forall d ensures Ordinal(d) < n ==> Ordinal(d) < n - 1 || d == AllDirections[n - 1] {
        assert AllDirections[Ordinal(d)] == d;
      }
    }
  }

  /** `OpenDirections` lists exactly the directions whose wall is down, each once, in declaration order. */
  lemma OpenDirectionsSpec(walls: map<Direction, bool>)
    requires Complete(walls)
    ensures forall d :: d in OpenDirections(walls) <==> !walls[d]
    ensures forall a, b :: 0 <= a < b < |OpenDirections(walls)| ==>
      Ordinal(OpenDirections(walls)[a]) < Ordinal(OpenDirections(walls)[b])
  {
    OpenAmongPrefix(|AllDirections|, walls);
    assert AllDirections[..|AllDirections|] == AllDirections;
  }

  /** The wall map after tearing down the wall at `d`; only a direction that has an entry changes. */
  function TornDown(walls: map<Direction, bool>, d: Direction): (r: map<Direction, bool>)
    ensures Complete(walls) ==> Complete(r) && !r[d] && forall d' :: d' != d ==> r[d'] == walls[d']
  {
    if d in walls then walls[d := false] else walls
  }

  class Cell {
    const id: int
    const location: Coord
    var walls: map<Direction, bool>
    var hasGoldCoin: bool
    var hasThief: bool

    /** Every direction has a wall flag and the cell holds at most one item. */
    ghost predicate Valid()
      reads this
    {
      Complete(walls) && !(hasGoldCoin && hasThief)
    }

    constructor (id: int, cols: int)
      requires cols != 0
      ensures Valid()
      ensures this.id == id && location == IdToLocation(id, cols)
      ensures walls == AllWallsStanding && !hasGoldCoin && !hasThief
    {
      AllWallsStandingComplete();
      this.id := id;
      location := IdToLocation(id, cols);
      walls := AllWallsStanding;
      hasGoldCoin := false;
      hasThief := false;
    }

    /** Only the wall at `d` goes down (`Map.replace` changes a key only if it is present). */
    method TearDownWall(d: Direction)
      modifies this`walls
      ensures walls == TornDown(old(walls), d)
      ensures old(Valid()) ==> Valid()
    {
      if d in walls {
        walls := walls[d := false];
      }
    }

    /** Setting a coin where a thief is fails and changes nothing; clearing the coin always succeeds. */
    method SetHasGoldCoin(b: bool) returns (ok: bool)
      modifies this
      ensures ok == !(b && old(hasThief))
      ensures hasGoldCoin == (if ok then b else old(hasGoldCoin))
      ensures walls == old(walls) && hasThief == old(hasThief)
      ensures old(Valid()) ==> Valid()
    {
      if b && hasThief {
        return false;
      }
      hasGoldCoin := b;
      ok := true;
    }

    /** Setting a thief where a coin is fails and changes nothing. */
    method SetHasThiefTrue() returns (ok: bool)
      modifies this
      ensures ok == !old(hasGoldCoin)
      ensures hasThief == (ok || old(hasThief))
      ensures walls == old(walls) && hasGoldCoin == old(hasGoldCoin)
      ensures old(Valid()) ==> Valid()
    {
      if hasGoldCoin {
        return false;
      }
      hasThief := true;
      ok := true;
    }

    method FindNoWallDirection() returns (dirs: seq<Direction>)
      requires Complete(walls)
      ensures dirs == OpenDirections(walls)
    {
      dirs := [];
      var k := 0;
      while k < |AllDirections|
        invariant 0 <= k <= |AllDirections|
        invariant dirs == OpenAmong(AllDirections[..k], walls)
      {
        var d := AllDirections[k];
        assert AllDirections[..k + 1][..k] == AllDirections[..k];
        if !walls[d] {
          dirs := dirs + [d];
        }
        k := k + 1;
      }
      assert AllDirections[..k] == AllDirections;
    }
  }

  /** Tearing the same wall down twice is the same as once. */
  lemma TearDownIdempotent(walls: map<Direction, bool>, d: Direction)
    ensures TornDown(TornDown(walls, d), d) == TornDown(walls, d)
  {
  }
}
