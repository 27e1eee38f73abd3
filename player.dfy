/** The player: a position updated in place by its moves, and a gold count that never goes negative. */
module Players {
  import opened Directions
  import opened Locations
  import opened MazeHelper
  import opened Moves

  /**
   * Gold left after meeting a thief: the count drops by the rounded-up tenth of itself
   * and is clamped at zero.
   */
  function GoldAfterTheft(gold: int): (r: int)
    ensures gold >= 0 ==> 0 <= r <= gold
    ensures gold >= 0 ==> 10 * (gold - r) >= gold && 10 * (gold - r - 1) < gold
    ensures gold > 0 ==> r < gold
  {
    var left := gold - XPercentageInInt(gold, ThiefPercent);
    if left < 0 then 0 else left
  }

  lemma GoldAfterTheftExamples()
    ensures GoldAfterTheft(7) == 6 && GoldAfterTheft(0) == 0 && GoldAfterTheft(10) == 9 && GoldAfterTheft(11) == 9
  {
  }

  class Player {
    const location: Location
    var gold: int

    ghost predicate Valid()
      reads this
    {
      gold >= 0
    }

    constructor (start: Location)
      ensures location == start && gold == 0 && Valid()
    {
      location := start;
      gold := 0;
    }

    function GetGold(): int
      reads this
    {
      gold
    }

    function GetLocation(): Location
    {
      location
    }

    /** One unit step toward `d`; the gold count does not change. */
    method Move(d: Direction)
      modifies location
      ensures location.Value() == MoveToNextCell(old(location.Value()), d)
    {
      match d
      case North => UpdateLocationI(-1);
      case South => UpdateLocationI(1);
      case East => UpdateLocationJ(1);
      case West => UpdateLocationJ(-1);
    }

    method CollectGold()
      modifies this
      ensures gold == old(gold) + 1
      ensures old(Valid()) ==> Valid()
    {
      gold := gold + 1;
    }

    method LoseGold()
      modifies this
      ensures gold == GoldAfterTheft(old(gold))
      ensures old(Valid()) ==> Valid()
    {
      gold := gold - XPercentageInInt(gold, ThiefPercent);
      if gold < 0 {
        gold := 0;
      }
    }

    method UpdateLocationI(delta: int)
      modifies location
      ensures location.Value() == Coord(old(location.i) + delta, old(location.j))
    {
      location.SetI(location.GetI() + delta);
    }

    method UpdateLocationJ(delta: int)
      modifies location
      ensures location.Value() == Coord(old(location.i), old(location.j) + delta)
    {
      location.SetJ(location.GetJ() + delta);
    }
  }
}
