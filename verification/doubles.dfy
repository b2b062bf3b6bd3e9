/** The random player of a double battle. For each of the player's two
    active slots it lists the legal choices: every move with every target
    the move's rule allows among the occupied positions, the same with
    dynamax while the side may still dynamax, and every switch. Slot 1 picks
    first; once it has picked a dynamax choice, slot 2 is offered none. */
module Doubles {

  import opened Results
  import opened Orders
  import opened Moves

  /** Index of an own active slot: 0 for the first (`a`), 1 for the second. */
  type SlotIndex = k: int | 0 <= k <= 1

  /** The own position of a slot: -1 for the first, -2 for the second. */
  function SelfPosition(k: SlotIndex): Position {
    if k == 0 then -1 else -2
  }

  function AllyPosition(k: SlotIndex): Position {
    if k == 0 then -2 else -1
  }

  /** Candidate targets of a rule before occupancy is taken into account. */
  function RuleTargets(rule: TargetRule, k: SlotIndex): seq<Position> {
    match rule
    case AnyOther => [AllyPosition(k), 1, 2]
    case Normal => [AllyPosition(k), 1, 2]
    case AdjacentAlly => [AllyPosition(k)]
    case AdjacentAllyOrSelf => [AllyPosition(k), SelfPosition(k)]
    case AdjacentFoe => [1, 2]
    case NoTargetRule => [NoTarget]
  }

  /** A max move hits a foe, except the status one (Max Guard), which
      takes no target. */
  function DynamaxRuleTargets(m: MoveInfo): seq<Position> {
    if m.category == Status then [NoTarget] else [1, 2]
  }

  /** The targets whose position holds a pokemon, in their order; "no
      target" is always kept. */
  function KeepOccupied(ts: seq<Position>, occupied: set<Position>): (r: seq<Position>)
    ensures |r| <= |ts|
    ensures forall t :: t in r <==> t in ts && (t == NoTarget || t in occupied)
  {
    if |ts| == 0 then []
    else
      var rest := KeepOccupied(ts[1..], occupied);
      assert forall t :: t in ts <==> t == ts[0] || t in ts[1..];
      if ts[0] == NoTarget || ts[0] in occupied then [ts[0]] + rest else rest
  }

  /** The targets a move may be given from slot k, with or without dynamax. */
  function TargetsFor(k: SlotIndex, m: MoveInfo, g: Gimmick, occupied: set<Position>): seq<Position> {
    KeepOccupied(if g == Dynamax then DynamaxRuleTargets(m) else RuleTargets(m.rule, k), occupied)
  }

  /** One order per target, in the targets' order. */
  function MoveBlock(id: string, g: Gimmick, ts: seq<Position>): (r: seq<Order>)
    ensures |r| == |ts|
    ensures forall i :: 0 <= i < |ts| ==> r[i] == MoveOrder(id, g, ts[i])
  {
    if |ts| == 0 then [] else [MoveOrder(id, g, ts[0])] + MoveBlock(id, g, ts[1..])
  }

  /** Every move with every allowed target, move by move. */
  function MoveChoices(k: SlotIndex, moves: seq<MoveInfo>, g: Gimmick, occupied: set<Position>): seq<Order> {
    if |moves| == 0 then []
    else MoveBlock(moves[0].id, g, TargetsFor(k, moves[0], g, occupied)) + MoveChoices(k, moves[1..], g, occupied)
  }

  /** What an active slot can do this turn. */
  datatype Active = Active(moves: seq<MoveInfo>, switches: seq<string>, canDynamax: bool)

  /** The choices of slot k; `dynamaxOpen` is false once the other slot has
      already taken the side's dynamax this turn. */
  function SlotChoices(k: SlotIndex, a: Active, occupied: set<Position>, dynamaxOpen: bool): seq<Order> {
    MoveChoices(k, a.moves, NoGimmick, occupied)
    + (if a.canDynamax && dynamaxOpen then MoveChoices(k, a.moves, Dynamax, occupied) else [])
    + SwitchOrders(a.switches)
  }

  // ------------------------------------------------------------ counting

  /** Properties of a single choice, as the substring tests on the written
      choices inspect them: the move id, the word ` dynamax`, the target
      written last. The test counts substrings, so its counts agree with these
      exact matches only when no move id occurs inside another choice's text
      ("thunder" occurs inside "move thunderbolt 1", " dynamax" inside
      "move dynamaxcannon"). */
  datatype Probe = UsesMove(id: string) | UsesDynamax | AimsAt(t: Position)

  predicate Matches(p: Probe, o: Order) {
    match p
    case UsesMove(id) => o.MoveOrder? && o.moveId == id
    case UsesDynamax => IsDynamaxOrder(o)
    case AimsAt(t) => o.MoveOrder? && o.target == t
  }

  /** The number of choices matching a probe. */
  function Count(cs: seq<Order>, p: Probe): (n: nat)
    ensures n <= |cs|
  {
    if |cs| == 0 then 0 else (if Matches(p, cs[0]) then 1 else 0) + Count(cs[1..], p)
  }

  lemma {:induction false} CountAppend(a: seq<Order>, b: seq<Order>, p: Probe)
    ensures Count(a + b, p) == Count(a, p) + Count(b, p)
  {
    if |a| > 0 {
      assert (a + b)[1..] == a[1..] + b;
      CountAppend(a[1..], b, p);
    } else {
      assert a + b == b;
    }
  }

  /** Choices are counted by position: a count is positive exactly when
      some choice matches. */
  lemma {:induction false} CountPositive(cs: seq<Order>, p: Probe)
    ensures Count(cs, p) > 0 <==> exists i :: 0 <= i < |cs| && Matches(p, cs[i])
  {
    if |cs| > 0 {
      CountPositive(cs[1..], p);
      assert forall i :: 1 <= i < |cs| ==> cs[i] == cs[1..][i - 1];
      if Count(cs[1..], p) > 0 {
        var i :| 0 <= i < |cs[1..]| && Matches(p, cs[1..][i]);
        assert Matches(p, cs[i + 1]);
      }
    }
  }

  lemma {:induction false} SwitchesMatchNoMove(switches: seq<string>, p: Probe)
    ensures Count(SwitchOrders(switches), p) == 0
  {
    if |switches| > 0 {
      assert SwitchOrders(switches)[1..] == SwitchOrders(switches[1..]);
      SwitchesMatchNoMove(switches[1..], p);
    }
  }

  /** A block counts once per target for its own move and never for
      another move. */
  lemma {:induction false} BlockCountsMove(id: string, g: Gimmick, ts: seq<Position>, other: string)
    ensures Count(MoveBlock(id, g, ts), UsesMove(other)) == if other == id then |ts| else 0
  {
    if |ts| > 0 {
      assert MoveBlock(id, g, ts)[1..] == MoveBlock(id, g, ts[1..]);
      BlockCountsMove(id, g, ts[1..], other);
    }
  }

  /** A block counts once per target for dynamax exactly when it is a
      dynamax block. */
  lemma {:induction false} BlockCountsDynamax(id: string, g: Gimmick, ts: seq<Position>)
    ensures Count(MoveBlock(id, g, ts), UsesDynamax) == if g == Dynamax then |ts| else 0
  {
    if |ts| > 0 {
      assert MoveBlock(id, g, ts)[1..] == MoveBlock(id, g, ts[1..]);
      BlockCountsDynamax(id, g, ts[1..]);
    }
  }

  /** A block aims at a position once per occurrence of it among the targets. */
  lemma {:induction false} BlockCountsTarget(id: string, g: Gimmick, ts: seq<Position>, t: Position)
    ensures Count(MoveBlock(id, g, ts), AimsAt(t)) == multiset(ts)[t]
  {
    if |ts| > 0 {
      var b := MoveBlock(id, g, ts);
      assert b[1..] == MoveBlock(id, g, ts[1..]);
      BlockCountsTarget(id, g, ts[1..], t);
      assert Count(b, AimsAt(t)) == (if ts[0] == t then 1 else 0) + Count(b[1..], AimsAt(t));
      assert ts == [ts[0]] + ts[1..];
      assert multiset(ts)[t] == (if ts[0] == t then 1 else 0) + multiset(ts[1..])[t];
    }
  }

  /** Moves other than `id` contribute no choice using `id`. */
  lemma {:induction false} AbsentMoveCountsZero(k: SlotIndex, moves: seq<MoveInfo>, g: Gimmick, occupied: set<Position>, id: string)
    requires forall j :: 0 <= j < |moves| ==> moves[j].id != id
    ensures Count(MoveChoices(k, moves, g, occupied), UsesMove(id)) == 0
  {
    if |moves| > 0 {
      BlockCountsMove(moves[0].id, g, TargetsFor(k, moves[0], g, occupied), id);
      CountAppend(MoveBlock(moves[0].id, g, TargetsFor(k, moves[0], g, occupied)), MoveChoices(k, moves[1..], g, occupied), UsesMove(id));
      AbsentMoveCountsZero(k, moves[1..], g, occupied, id);
    }
  }

  /** With distinct ids, a move appears once per allowed target. */
  lemma {:induction false} MoveCount(k: SlotIndex, moves: seq<MoveInfo>, g: Gimmick, occupied: set<Position>, i: nat)
    requires DistinctIds(moves) && i < |moves|
    ensures Count(MoveChoices(k, moves, g, occupied), UsesMove(moves[i].id)) == |TargetsFor(k, moves[i], g, occupied)|
  {
    var id := moves[i].id;
    var head := MoveBlock(moves[0].id, g, TargetsFor(k, moves[0], g, occupied));
    CountAppend(head, MoveChoices(k, moves[1..], g, occupied), UsesMove(id));
    BlockCountsMove(moves[0].id, g, TargetsFor(k, moves[0], g, occupied), id);
    if i == 0 {
      AbsentMoveCountsZero(k, moves[1..], g, occupied, id);
    } else {
      assert DistinctIds(moves[1..]);
      assert moves[1..][i - 1] == moves[i];
      MoveCount(k, moves[1..], g, occupied, i - 1);
    }
  }

  /** Dynamax choices come only from dynamax blocks, one per target. */
  lemma {:induction false} DynamaxCountOneFoe(k: SlotIndex, moves: seq<MoveInfo>, g: Gimmick, occupied: set<Position>)
    requires 1 in occupied && 2 !in occupied
    ensures Count(MoveChoices(k, moves, g, occupied), UsesDynamax) == if g == Dynamax then |moves| else 0
  {
    if |moves| > 0 {
      var ts := TargetsFor(k, moves[0], g, occupied);
      CountAppend(MoveBlock(moves[0].id, g, ts), MoveChoices(k, moves[1..], g, occupied), UsesDynamax);
      BlockCountsDynamax(moves[0].id, g, ts);
      DynamaxCountOneFoe(k, moves[1..], g, occupied);
      if g == Dynamax {
        DynamaxTargetsOneFoe(moves[0], occupied);
      }
    }
  }

  lemma DynamaxTargetsOneFoe(m: MoveInfo, occupied: set<Position>)
    requires 1 in occupied && 2 !in occupied
    ensures KeepOccupied(DynamaxRuleTargets(m), occupied) == (if m.category == Status then [NoTarget] else [1])
  {
    if m.category != Status {
      assert [1, 2][1..] == [2];
      assert KeepOccupied([2], occupied) == [];
    } else {
      assert KeepOccupied([NoTarget][1..], occupied) == [];
    }
  }

  /** No choice aims at an unoccupied position. */
  lemma {:induction false} NoChoiceAimsAtEmpty(k: SlotIndex, moves: seq<MoveInfo>, g: Gimmick, occupied: set<Position>, t: Position)
    requires t != NoTarget && t !in occupied
    ensures Count(MoveChoices(k, moves, g, occupied), AimsAt(t)) == 0
  {
    if |moves| > 0 {
      var ts := TargetsFor(k, moves[0], g, occupied);
      CountAppend(MoveBlock(moves[0].id, g, ts), MoveChoices(k, moves[1..], g, occupied), AimsAt(t));
      BlockCountsTarget(moves[0].id, g, ts, t);
      assert t !in ts;
      NoChoiceAimsAtEmpty(k, moves[1..], g, occupied, t);
    }
  }

  /** A target some move allows is aimed at by some choice. */
  lemma {:induction false} AllowedTargetIsChosen(k: SlotIndex, moves: seq<MoveInfo>, g: Gimmick, occupied: set<Position>, i: nat, t: Position)
    requires i < |moves| && t in TargetsFor(k, moves[i], g, occupied)
    ensures Count(MoveChoices(k, moves, g, occupied), AimsAt(t)) > 0
  {
    var ts := TargetsFor(k, moves[0], g, occupied);
    var head, tail := MoveBlock(moves[0].id, g, ts), MoveChoices(k, moves[1..], g, occupied);
    assert MoveChoices(k, moves, g, occupied) == head + tail;
    CountAppend(head, tail, AimsAt(t));
    if i == 0 {
      BlockCountsTarget(moves[0].id, g, ts, t);
      assert t in multiset(ts);
    } else {
      assert moves[1..][i - 1] == moves[i];
      AllowedTargetIsChosen(k, moves[1..], g, occupied, i - 1, t);
    }
  }

  // ------------------------------------------------- target table sizes

  /** Own slots both active and only the first foe slot occupied. */
  const OneFoe: set<Position> := {-1, -2, 1}

  /** Own slots both active and both foe slots occupied. */
  const TwoFoes: set<Position> := {-1, -2, 1, 2}

  lemma TargetCountsOneFoe(k: SlotIndex, m: MoveInfo)
    ensures 1 <= |TargetsFor(k, m, NoGimmick, OneFoe)| <= 2
    ensures |TargetsFor(k, m, Dynamax, OneFoe)| == 1
  {
    DynamaxTargetsOneFoe(m, OneFoe);
    var ts := RuleTargets(m.rule, k);
    var r := KeepOccupied(ts, OneFoe);
    assert ts[0] in r;
    if m.rule.AnyOther? || m.rule.Normal? {
      assert ts[1..] == [1, 2] && [1, 2][1..] == [2];
      assert KeepOccupied([2], OneFoe) == [];
      assert KeepOccupied([1, 2], OneFoe) == [1];
    }
  }

  lemma TargetCountsTwoFoes(k: SlotIndex, m: MoveInfo)
    ensures |TargetsFor(k, m, NoGimmick, TwoFoes)| >= 1
    ensures |TargetsFor(k, m, Dynamax, TwoFoes)| >= 1
    ensures m.rule in {AnyOther, Normal, AdjacentFoe} ==> 2 in TargetsFor(k, m, NoGimmick, TwoFoes)
    ensures m.category != Status ==> 2 in TargetsFor(k, m, Dynamax, TwoFoes)
  {
    var ts := RuleTargets(m.rule, k);
    assert ts[0] in KeepOccupied(ts, TwoFoes);
    var ds := DynamaxRuleTargets(m);
    assert ds[0] in KeepOccupied(ds, TwoFoes);
  }

  // ----------------------------------------------------- slot properties

  /** With a single foe on the field and dynamax open, each move is offered
      two or three times (one or two plain targets and one max move), no
      choice aims at the empty second foe slot, and there is exactly one
      dynamax choice per move. */
  lemma OneFoeChoiceCounts(k: SlotIndex, a: Active, i: nat)
    requires a.canDynamax && DistinctIds(a.moves) && i < |a.moves|
    ensures var cs := SlotChoices(k, a, OneFoe, true);
      && 2 <= Count(cs, UsesMove(a.moves[i].id)) <= 3
      && Count(cs, AimsAt(2)) == 0
      && Count(cs, UsesDynamax) == |a.moves|
  {
    var plain := MoveChoices(k, a.moves, NoGimmick, OneFoe);
    var dyn := MoveChoices(k, a.moves, Dynamax, OneFoe);
    var sw := SwitchOrders(a.switches);
    assert SlotChoices(k, a, OneFoe, true) == plain + dyn + sw;
    forall p ensures Count(plain + dyn + sw, p) == Count(plain, p) + Count(dyn, p) + Count(sw, p) {
      CountAppend(plain + dyn, sw, p);
      CountAppend(plain, dyn, p);
    }
    SwitchesMatchNoMove(a.switches, UsesMove(a.moves[i].id));
    SwitchesMatchNoMove(a.switches, AimsAt(2));
    SwitchesMatchNoMove(a.switches, UsesDynamax);
    MoveCount(k, a.moves, NoGimmick, OneFoe, i);
    MoveCount(k, a.moves, Dynamax, OneFoe, i);
    TargetCountsOneFoe(k, a.moves[i]);
    NoChoiceAimsAtEmpty(k, a.moves, NoGimmick, OneFoe, 2);
    NoChoiceAimsAtEmpty(k, a.moves, Dynamax, OneFoe, 2);
    DynamaxCountOneFoe(k, a.moves, NoGimmick, OneFoe);
    DynamaxCountOneFoe(k, a.moves, Dynamax, OneFoe);
  }

  /** With both foes on the field and dynamax open, each move is offered
      more than once, and a move that can hit a single foe, or any attack
      as a max move, makes some choice aim at the second foe. */
  lemma TwoFoesChoiceCounts(k: SlotIndex, a: Active, i: nat)
    requires a.canDynamax && DistinctIds(a.moves) && i < |a.moves|
    ensures var cs := SlotChoices(k, a, TwoFoes, true);
      && Count(cs, UsesMove(a.moves[i].id)) > 1
      && (a.moves[i].rule in {AnyOther, Normal, AdjacentFoe} || a.moves[i].category != Status ==> Count(cs, AimsAt(2)) > 0)
  {
    var plain := MoveChoices(k, a.moves, NoGimmick, TwoFoes);
    var dyn := MoveChoices(k, a.moves, Dynamax, TwoFoes);
    var sw := SwitchOrders(a.switches);
    assert SlotChoices(k, a, TwoFoes, true) == plain + dyn + sw;
    forall p ensures Count(plain + dyn + sw, p) == Count(plain, p) + Count(dyn, p) + Count(sw, p) {
      CountAppend(plain + dyn, sw, p);
      CountAppend(plain, dyn, p);
    }
    MoveCount(k, a.moves, NoGimmick, TwoFoes, i);
    MoveCount(k, a.moves, Dynamax, TwoFoes, i);
    TargetCountsTwoFoes(k, a.moves[i]);
    if a.moves[i].rule in {AnyOther, Normal, AdjacentFoe} {
      AllowedTargetIsChosen(k, a.moves, NoGimmick, TwoFoes, i, 2);
    } else if a.moves[i].category != Status {
      AllowedTargetIsChosen(k, a.moves, Dynamax, TwoFoes, i, 2);
    }
  }

  /** A slot whose dynamax is closed is offered no dynamax choice. */
  lemma ClosedDynamaxOffersNone(k: SlotIndex, a: Active, occupied: set<Position>)
    ensures Count(SlotChoices(k, a, occupied, false), UsesDynamax) == 0
  {
    var plain := MoveChoices(k, a.moves, NoGimmick, occupied);
    assert SlotChoices(k, a, occupied, false) == plain + [] + SwitchOrders(a.switches);
    CountAppend(plain + [], SwitchOrders(a.switches), UsesDynamax);
    assert plain + [] == plain;
    PlainChoicesNoDynamax(k, a.moves, occupied);
    SwitchesMatchNoMove(a.switches, UsesDynamax);
  }

  lemma {:induction false} PlainChoicesNoDynamax(k: SlotIndex, moves: seq<MoveInfo>, occupied: set<Position>)
    ensures Count(MoveChoices(k, moves, NoGimmick, occupied), UsesDynamax) == 0
  {
    if |moves| > 0 {
      var ts := TargetsFor(k, moves[0], NoGimmick, occupied);
      CountAppend(MoveBlock(moves[0].id, NoGimmick, ts), MoveChoices(k, moves[1..], NoGimmick, occupied), UsesDynamax);
      BlockCountsDynamax(moves[0].id, NoGimmick, ts);
      PlainChoicesNoDynamax(k, moves[1..], occupied);
    }
  }

  // --------------------------------------------------- the turn's order

  /** The order chosen for each own slot; None for an empty slot or one
      with nothing to choose. */
  datatype DoublesOrder = DoublesOrder(first: Option<Order>, second: Option<Order>)

  /** A random member of `cs`, `pick` standing for the random draw. */
  function PickFrom(cs: seq<Order>, pick: nat): (r: Option<Order>)
    ensures r.None? <==> |cs| == 0
    ensures r.Some? ==> r.value in cs
  {
    if |cs| == 0 then None else Some(cs[PickIndex(pick, |cs|)])
  }

  function FirstChoices(a: Active, occupied: set<Position>): seq<Order> {
    SlotChoices(0, a, occupied, true)
  }

  /** Slot 2's choices after slot 1 has picked: dynamax stays open only if
      slot 1 did not take it. */
  function SecondChoices(a: Active, occupied: set<Position>, firstPick: Option<Order>): seq<Order> {
    SlotChoices(1, a, occupied, !(firstPick.Some? && IsDynamaxOrder(firstPick.value)))
  }

  function ChooseRandomDoubles(first: Option<Active>, second: Option<Active>, occupied: set<Position>, pick1: nat, pick2: nat): (r: DoublesOrder)
    ensures r.first.Some? <==> first.Some? && |FirstChoices(first.value, occupied)| > 0
    ensures r.first.Some? ==> r.first.value in FirstChoices(first.value, occupied)
    ensures r.second.Some? <==> second.Some? && |SecondChoices(second.value, occupied, r.first)| > 0
    ensures r.second.Some? ==> r.second.value in SecondChoices(second.value, occupied, r.first)
  {
    var o1 := if first.Some? then PickFrom(FirstChoices(first.value, occupied), pick1) else None;
    var o2 := if second.Some? then PickFrom(SecondChoices(second.value, occupied, o1), pick2) else None;
    DoublesOrder(o1, o2)
  }

  /** At most one slot dynamaxes in a turn, and once slot 1 has picked a
      dynamax choice slot 2 is offered none; otherwise slot 2 is offered
      exactly what it would have been offered alone. */
  lemma DynamaxAtMostOnce(first: Option<Active>, second: Option<Active>, occupied: set<Position>, pick1: nat, pick2: nat)
    ensures var r := ChooseRandomDoubles(first, second, occupied, pick1, pick2);
      && !(r.first.Some? && r.second.Some? && IsDynamaxOrder(r.first.value) && IsDynamaxOrder(r.second.value))
      && (r.first.Some? && IsDynamaxOrder(r.first.value) && second.Some? ==>
            Count(SecondChoices(second.value, occupied, r.first), UsesDynamax) == 0)
      && (!(r.first.Some? && IsDynamaxOrder(r.first.value)) && second.Some? ==>
            SecondChoices(second.value, occupied, r.first) == SlotChoices(1, second.value, occupied, true))
  {
    var r := ChooseRandomDoubles(first, second, occupied, pick1, pick2);
    if r.first.Some? && IsDynamaxOrder(r.first.value) && second.Some? {
      var cs := SecondChoices(second.value, occupied, r.first);
      ClosedDynamaxOffersNone(1, second.value, occupied);
      if r.second.Some? {
        CountPositive(cs, UsesDynamax);
        var i :| 0 <= i < |cs| && cs[i] == r.second.value;
        assert !Matches(UsesDynamax, cs[i]);
      }
    }
  }
}
