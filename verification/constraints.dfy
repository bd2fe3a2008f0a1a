/**
 * The deal-constraint table: for each deal, how many combinations of which
 * size a player must lay down. Nothing in the game session enforces it yet.
 */
module Constraints {
  /** Marks a combination constraint that fixes no size. */
  const NoSizeConstraint: int := -1

  datatype CombinationConstraint = CombinationConstraint(sizeConstraint: int, pure: bool)

  /** A deal asks for `size` combinations, each meeting `combinationConstraint`. */
  datatype DealConstraint = DealConstraint(size: nat, combinationConstraint: CombinationConstraint)

  /** The constraint record for one combination; purity is off unless asked for. */
  function BuildCombinationConstraint(size: int, pure: bool := false): (c: CombinationConstraint)
    ensures c.sizeConstraint == size && c.pure == pure
  {
    CombinationConstraint(size, pure)
  }

  /** Deal 0: two combinations of three cards; deal 1: one combination of four. */
  const DealConstraints: seq<DealConstraint> := [
    DealConstraint(2, BuildCombinationConstraint(3)),
    DealConstraint(1, BuildCombinationConstraint(4))
  ]

  const NumDeals: nat := |DealConstraints|

  /**
   * The table has two deals, none of them pure, and every size it asks for is
   * one the combination validator can accept (3 to 5 cards).
   */
  lemma DealConstraintsTable()
    ensures NumDeals == 2
    ensures DealConstraints[0].size == 2 && DealConstraints[0].combinationConstraint.sizeConstraint == 3
    ensures DealConstraints[1].size == 1 && DealConstraints[1].combinationConstraint.sizeConstraint == 4
    ensures forall i :: 0 <= i < NumDeals ==>
      && !DealConstraints[i].combinationConstraint.pure
      && DealConstraints[i].combinationConstraint.sizeConstraint != NoSizeConstraint
      && 3 <= DealConstraints[i].combinationConstraint.sizeConstraint <= 5
  {
  }
}
