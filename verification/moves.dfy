/** What the players read of a usable move: its id, its base power, its
    damage category and the targeting rule the simulator applies to it.
    Move data itself is a read-only lookup outside the model; a move arrives
    here with these attributes already filled in. */
module Moves {

  datatype Category = Physical | Special | Status

  /** The targeting rules that matter when a double battle order names a
      target. Every rule that takes no target (the user itself, its side,
      all adjacent pokemon, a random foe, ...) is folded into NoTargetRule. */
  datatype TargetRule =
    | AnyOther            // any other pokemon on the field
    | Normal              // an adjacent pokemon, ally or foe
    | AdjacentAlly
    | AdjacentAllyOrSelf
    | AdjacentFoe
    | NoTargetRule

  datatype MoveInfo = MoveInfo(id: string, basePower: nat, category: Category, rule: TargetRule)

  /** Ids of the moves a pokemon can use; the battle keeps them in a
      dictionary, so no id repeats. */
  predicate DistinctIds(moves: seq<MoveInfo>) {
    forall i, j :: 0 <= i < j < |moves| ==> moves[i].id != moves[j].id
  }
}
