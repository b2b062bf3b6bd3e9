/** The single battle players: the random player's choice among every legal
    order, and the max-base-power baseline, which uses the strongest move
    whenever one is usable and otherwise falls back to the random choice. */
module Baselines {

  import opened Results
  import opened Orders
  import opened Moves
  import opened Text

  /** The part of a single battle a player decides on. */
  datatype SinglesView = SinglesView(
    availableMoves: seq<MoveInfo>,
    availableSwitches: seq<string>,
    canMegaEvolve: bool,
    canDynamax: bool)

  function PlainMoveOrders(moves: seq<MoveInfo>, g: Gimmick): (r: seq<Order>)
    ensures |r| == |moves|
    ensures forall i :: 0 <= i < |moves| ==> r[i] == MoveOrder(moves[i].id, g, NoTarget)
  {
    if |moves| == 0 then [] else [MoveOrder(moves[0].id, g, NoTarget)] + PlainMoveOrders(moves[1..], g)
  }

  /** Every legal order: each move, each switch, and each move again with
      mega evolution or dynamax when the side may still use them. */
  function SinglesChoices(b: SinglesView): seq<Order> {
    PlainMoveOrders(b.availableMoves, NoGimmick)
    + SwitchOrders(b.availableSwitches)
    + (if b.canMegaEvolve then PlainMoveOrders(b.availableMoves, Mega) else [])
    + (if b.canDynamax then PlainMoveOrders(b.availableMoves, Dynamax) else [])
  }

  /** A uniformly random legal order; `pick` stands for the random draw.
      With no legal order the default order is sent. */
  function ChooseRandomSingles(b: SinglesView, pick: nat): (o: Order)
    ensures o == DefaultOrder <==> |SinglesChoices(b)| == 0
    ensures o != DefaultOrder ==> o in SinglesChoices(b)
  {
    var choices := SinglesChoices(b);
    if |choices| == 0 then DefaultOrder else choices[PickIndex(pick, |choices|)]
  }

  /** With no usable move, the only legal orders are the switches. */
  lemma NoMovesOnlySwitches(b: SinglesView)
    requires |b.availableMoves| == 0
    ensures SinglesChoices(b) == SwitchOrders(b.availableSwitches)
  {
  }

  /** Without moves, the random player switches to one of the available
      pokemon, or sends the default order when none is available. */
  lemma RandomWithoutMoves(b: SinglesView, pick: nat)
    requires |b.availableMoves| == 0
    ensures |b.availableSwitches| == 0 ==> ChooseRandomSingles(b, pick) == DefaultOrder
    ensures |b.availableSwitches| > 0 ==>
      exists k :: 0 <= k < |b.availableSwitches| && ChooseRandomSingles(b, pick) == SwitchOrder(b.availableSwitches[k])
  {
    NoMovesOnlySwitches(b);
    if |b.availableSwitches| > 0 {
      var k := PickIndex(pick, |b.availableSwitches|);
      assert ChooseRandomSingles(b, pick) == SwitchOrder(b.availableSwitches[k]);
    }
  }

  // ------------------------------------------------------ max base power

  /** Index k holds the first move of greatest base power, which is the move
      Python's `max` returns. */
  predicate IsFirstMax(moves: seq<MoveInfo>, k: int) {
    && 0 <= k < |moves|
    && (forall j :: 0 <= j < |moves| ==> moves[j].basePower <= moves[k].basePower)
    && (forall j :: 0 <= j < k ==> moves[j].basePower < moves[k].basePower)
  }

  /** Only one index is the first maximum. */
  lemma FirstMaxUnique(moves: seq<MoveInfo>, k1: int, k2: int)
    requires IsFirstMax(moves, k1) && IsFirstMax(moves, k2)
    ensures k1 == k2
  {
    assert moves[k1].basePower == moves[k2].basePower;
  }

  /** A left-to-right scan that replaces the best move only on a strictly
      greater base power. */
  method BestMoveIndex(moves: seq<MoveInfo>) returns (k: nat)
    requires |moves| > 0
    ensures IsFirstMax(moves, k)
  {
    k := 0;
    var i := 1;
    while i < |moves|
      invariant 1 <= i <= |moves|
      invariant k < i
      invariant forall j :: 0 <= j < i ==> moves[j].basePower <= moves[k].basePower
      invariant forall j :: 0 <= j < k ==> moves[j].basePower < moves[k].basePower
    {
      if moves[i].basePower > moves[k].basePower {
        k := i;
      }
      i := i + 1;
    }
  }

  /** The max-base-power player: the strongest usable move, plainly, when
      there is one; otherwise the random player's choice. */
  method ChooseMaxBasePower(b: SinglesView, pick: nat) returns (o: Order)
    ensures |b.availableMoves| == 0 ==> o == ChooseRandomSingles(b, pick)
    ensures |b.availableMoves| > 0 ==>
      exists k :: IsFirstMax(b.availableMoves, k) && o == MoveOrder(b.availableMoves[k].id, NoGimmick, NoTarget)
  {
    if |b.availableMoves| == 0 {
      o := ChooseRandomSingles(b, pick);
    } else {
      var k := BestMoveIndex(b.availableMoves);
      o := MoveOrder(b.availableMoves[k].id, NoGimmick, NoTarget);
    }
  }

  /** A plain move order is written `/choose move <id>` and a switch
      `/choose switch <species>`. */
  lemma SinglesMessageFormats(id: string, species: string)
    ensures OrderMessage(MoveOrder(id, NoGimmick, NoTarget)) == "/choose move " + id
    ensures OrderMessage(SwitchOrder(species)) == "/choose switch " + species
  {
    assert ChoiceWords(MoveOrder(id, NoGimmick, NoTarget)) == ["move", id];
    assert Join(["move", id]) == "move" + " " + id;
    assert "/choose " + ("move" + " " + id) == "/choose move " + id;
    assert ChoiceWords(SwitchOrder(species)) == ["switch", species];
    assert Join(["switch", species]) == "switch" + " " + species;
    assert "/choose " + ("switch" + " " + species) == "/choose switch " + species;
  }

  /** The baseline's sequence of situations: nothing available gives the
      default order, a lone switch gives that switch, and once moves are
      available the one of greatest base power is used, the newest when it
      is strictly stronger than the earlier ones. */
  lemma MaxBasePowerScenario(b: SinglesView, pick: nat, ponyta: string, protect: MoveInfo, quickAttack: MoveInfo, flamethrower: MoveInfo)
    requires b.availableMoves == [] && b.availableSwitches == []
    requires protect.basePower < quickAttack.basePower < flamethrower.basePower
    ensures ChooseRandomSingles(b, pick) == DefaultOrder
    ensures ChooseRandomSingles(b.(availableSwitches := [ponyta]), pick) == SwitchOrder(ponyta)
    ensures IsFirstMax([protect], 0)
    ensures IsFirstMax([protect, quickAttack], 1)
    ensures IsFirstMax([protect, quickAttack, flamethrower], 2)
  {
    RandomWithoutMoves(b.(availableSwitches := [ponyta]), pick);
  }
}
