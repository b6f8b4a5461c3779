/** Rings whose slots are stamped with the lap of the item they hold. */
module GenerationStamps {
  import opened Arith

  /** The lap on which an item passes its slot. */
  function Lap(item: int, slots: int): int
    requires slots > 0
  {
    item / slots
  }

  /** Lap of the latest item below the frontier that uses slot j. */
  function LatestLap(frontier: int, slots: int, j: int): int
    requires slots > 0
  {
    (frontier - 1 - j) / slots
  }

  /** A slot has reached an item's lap exactly when the item is below the frontier, and shows just
      that lap exactly when the item has not been overwritten either. */
  lemma LapMatches(frontier: int, slots: int, item: int)
    requires slots > 0
    ensures LatestLap(frontier, slots, item % slots) >= Lap(item, slots) <==> item < frontier
    ensures LatestLap(frontier, slots, item % slots) == Lap(item, slots) <==> frontier - slots <= item < frontier
  {
    var a, k := frontier - 1 - item % slots, item / slots;
    DivGe(a, slots, k);
    DivGe(a, slots, k + 1);
    MulDist(k, 1, slots);
  }

  /** Writing the item at the frontier moves its own slot to its lap and leaves the others. */
  lemma LatestLapStep(frontier: int, slots: int, j: int)
    requires slots > 0 && 0 <= j < slots
    ensures LatestLap(frontier + 1, slots, j)
         == if j == frontier % slots then Lap(frontier, slots) else LatestLap(frontier, slots, j)
  {
    var q, r := frontier / slots, frontier % slots;
    assert frontier == q * slots + r;
    MulDist(q, -1, slots);
    DivUnique(frontier - j, slots, if j <= r then q else q - 1);
    if j != r {
      DivUnique(frontier - 1 - j, slots, if j < r then q else q - 1);
    }
  }

  ghost predicate ShowsLaps(ring: seq<int>, slots: int, frontier: int) {
    && slots > 0 && |ring| == slots
    && forall j :: 0 <= j < slots ==> ring[j] == LatestLap(frontier, slots, j)
  }

  /** Writing again an item still on its lap changes nothing. */
  lemma ShowsLapsAgain(ring: seq<int>, slots: int, frontier: int, item: int)
    requires ShowsLaps(ring, slots, frontier) && frontier - slots <= item < frontier
    ensures ring[item % slots := Lap(item, slots)] == ring
  {
    LapMatches(frontier, slots, item);
  }

  lemma ShowsLapsStep(ring: seq<int>, slots: int, frontier: int)
    requires ShowsLaps(ring, slots, frontier)
    ensures ShowsLaps(ring[frontier % slots := Lap(frontier, slots)], slots, frontier + 1)
  {
    forall j | 0 <= j < slots
      ensures LatestLap(frontier + 1, slots, j)
           == if j == frontier % slots then Lap(frontier, slots) else LatestLap(frontier, slots, j)
    {
      LatestLapStep(frontier, slots, j);
    }
  }
}
