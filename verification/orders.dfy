/** The orders a player sends to the simulator and how they are written:
    `/choose move <id>[ <gimmick>][ <target>]`, `/choose switch <species>`,
    `/choose default`, and the team-preview order `/team <digits>`. */
module Orders {

  import opened Results
  import opened Text

  /** Target positions of a double battle: -1 and -2 are the player's own
      slots, 1 and 2 the opponent's, 0 means "no target given". */
  type Position = t: int | -2 <= t <= 2

  const NoTarget: Position := 0

  /** The once-per-battle mechanics an order may request with its move. */
  datatype Gimmick = NoGimmick | Mega | ZMove | Dynamax | Terastallize

  datatype Order =
    | MoveOrder(moveId: string, gimmick: Gimmick, target: Position)
    | SwitchOrder(species: string)
    | DefaultOrder

  predicate IsDynamaxOrder(o: Order) {
    o.MoveOrder? && o.gimmick == Dynamax
  }

  function GimmickWord(g: Gimmick): string
    requires g != NoGimmick
  {
    match g
    case Mega => "mega"
    case ZMove => "zmove"
    case Dynamax => "dynamax"
    case Terastallize => "terastallize"
  }

  function TargetWord(t: Position): string
    requires t != NoTarget
  {
    if t == -2 then "-2" else if t == -1 then "-1" else if t == 1 then "1" else "2"
  }

  /** The words of an order after `/choose`. */
  function ChoiceWords(o: Order): (ws: seq<string>)
    ensures |ws| >= 1
  {
    match o
    case MoveOrder(id, g, t) =>
      ["move", id]
      + (if g == NoGimmick then [] else [GimmickWord(g)])
      + (if t == NoTarget then [] else [TargetWord(t)])
    case SwitchOrder(species) => ["switch", species]
    case DefaultOrder => ["default"]
  }

  /** An order without its `/choose ` prefix, as the two halves of a double
      battle order are written. */
  function ChoiceText(o: Order): string {
    Join(ChoiceWords(o))
  }

  function OrderMessage(o: Order): string {
    "/choose " + ChoiceText(o)
  }

  /** One switch order per available pokemon, in the same order. */
  function SwitchOrders(switches: seq<string>): (r: seq<Order>)
    ensures |r| == |switches|
    ensures forall i :: 0 <= i < |switches| ==> r[i] == SwitchOrder(switches[i])
  {
    if |switches| == 0 then [] else [SwitchOrder(switches[0])] + SwitchOrders(switches[1..])
  }

  /** The order sent when the player has nothing to choose. */
  function ChooseDefaultMove(): (message: string)
    ensures message == "/choose default"
    ensures ParseOrder(message) == Some(DefaultOrder)
  {
    ParseOrderRoundTrip(DefaultOrder);
    DefaultMessageText();
    OrderMessage(DefaultOrder)
  }

  lemma DefaultMessageText()
    ensures OrderMessage(DefaultOrder) == "/choose default"
  {
    assert ChoiceWords(DefaultOrder) == ["default"];
  }

  // ------------------------------------------------------------ parsing

  predicate IsGimmickWord(w: string) {
    w in {"mega", "zmove", "dynamax", "terastallize"}
  }

  function GimmickOf(w: string): Gimmick
    requires IsGimmickWord(w)
  {
    if w == "mega" then Mega else if w == "zmove" then ZMove else if w == "dynamax" then Dynamax else Terastallize
  }

  predicate IsTargetWord(w: string) {
    w in {"-2", "-1", "1", "2"}
  }

  function TargetOf(w: string): Position
    requires IsTargetWord(w)
  {
    if w == "-2" then -2 else if w == "-1" then -1 else if w == "1" then 1 else 2
  }

  function ParseChoiceWords(ws: seq<string>): Option<Order> {
    if ws == ["default"] then Some(DefaultOrder)
    else if |ws| == 2 && ws[0] == "switch" then Some(SwitchOrder(ws[1]))
    else if 2 <= |ws| <= 4 && ws[0] == "move" then
      var id, rest := ws[1], ws[2..];
      if |rest| == 0 then Some(MoveOrder(id, NoGimmick, NoTarget))
      else if |rest| == 1 && IsGimmickWord(rest[0]) then Some(MoveOrder(id, GimmickOf(rest[0]), NoTarget))
      else if |rest| == 1 && IsTargetWord(rest[0]) then Some(MoveOrder(id, NoGimmick, TargetOf(rest[0])))
      else if |rest| == 2 && IsGimmickWord(rest[0]) && IsTargetWord(rest[1]) then
        Some(MoveOrder(id, GimmickOf(rest[0]), TargetOf(rest[1])))
      else None
    else None
  }

  /** Reads an order message back; messages that are no order give None. */
  function ParseOrder(message: string): Option<Order> {
    var ws := Split(message);
    if |ws| >= 2 && ws[0] == "/choose" then ParseChoiceWords(ws[1..]) else None
  }

  /** Move ids and species are single words. */
  predicate WellFormed(o: Order) {
    match o
    case MoveOrder(id, _, _) => HasNoSpace(id)
    case SwitchOrder(species) => HasNoSpace(species)
    case DefaultOrder => true
  }

  lemma ChoiceWordsHaveNoSpace(o: Order)
    requires WellFormed(o)
    ensures forall i :: 0 <= i < |ChoiceWords(o)| ==> HasNoSpace(ChoiceWords(o)[i])
  {
    var ws := ChoiceWords(o);
    forall i | 0 <= i < |ws| ensures HasNoSpace(ws[i]) {
      if o.MoveOrder? && i >= 2 {
        var w := ws[i];
        assert w in {"mega", "zmove", "dynamax", "terastallize", "-2", "-1", "1", "2"};
      }
    }
  }

  /** Every well-formed order is read back from its message. */
  lemma {:induction false} ParseOrderRoundTrip(o: Order)
    requires WellFormed(o)
    ensures ParseOrder(OrderMessage(o)) == Some(o)
  {
    var ws := ["/choose"] + ChoiceWords(o);
    ChoiceWordsHaveNoSpace(o);
    assert Join(ws) == OrderMessage(o) by {
      assert ws[1..] == ChoiceWords(o);
    }
    SplitJoin(ws);
    assert ws[1..] == ChoiceWords(o);
    match o {
      case MoveOrder(id, g, t) =>
        if g != NoGimmick {
          assert GimmickOf(GimmickWord(g)) == g;
          assert !IsTargetWord(GimmickWord(g));
        }
        if t != NoTarget {
          assert TargetOf(TargetWord(t)) == t;
          assert !IsGimmickWord(TargetWord(t));
        }
      case SwitchOrder(_) =>
      case DefaultOrder =>
    }
  }

  /** Distinct well-formed orders have distinct messages. */
  lemma OrderMessageInjective(o1: Order, o2: Order)
    requires WellFormed(o1) && WellFormed(o2)
    requires OrderMessage(o1) == OrderMessage(o2)
    ensures o1 == o2
  {
    ParseOrderRoundTrip(o1);
    ParseOrderRoundTrip(o2);
  }

  // ------------------------------------------------------- team preview

  /** The team positions 1..n. */
  function Positions(n: nat): (r: seq<int>)
    ensures |r| == n
    ensures forall i :: 0 <= i < n ==> r[i] == i + 1
  {
    if n == 0 then [] else Positions(n - 1) + [n]
  }

  /** A random shuffle: each pick selects (modulo the remaining length) the
      next element among those not yet taken; missing picks select the first. */
  function Shuffle(xs: seq<int>, picks: seq<nat>): (r: seq<int>)
    decreases |xs|
  {
    if |xs| == 0 then []
    else
      var i := PickIndex(FirstPick(picks), |xs|);
      [xs[i]] + Shuffle(Without(xs, i), LaterPicks(picks))
  }

  /** The next pick; a missing pick selects the first remaining element. */
  function FirstPick(picks: seq<nat>): nat {
    if |picks| > 0 then picks[0] else 0
  }

  /** A pick reduced to an index among n remaining elements. */
  function PickIndex(pick: nat, n: nat): (i: nat)
    requires n > 0
    ensures i < n
    ensures pick < n ==> i == pick
  {
    if pick < n then pick else pick % n
  }

  function LaterPicks(picks: seq<nat>): seq<nat> {
    if |picks| > 0 then picks[1..] else []
  }

  /** `xs` with its element at index i taken out. */
  function Without(xs: seq<int>, i: nat): (r: seq<int>)
    requires i < |xs|
    ensures |r| == |xs| - 1
  {
    xs[..i] + xs[i + 1..]
  }

  /** Whatever the picks, the shuffle is a permutation of its input. */
  lemma {:induction false} ShufflePermutes(xs: seq<int>, picks: seq<nat>)
    ensures multiset(Shuffle(xs, picks)) == multiset(xs)
    decreases |xs|
  {
    if |xs| > 0 {
      var i := PickIndex(FirstPick(picks), |xs|);
      ShufflePermutes(Without(xs, i), LaterPicks(picks));
      RemoveAt(xs, i);
      assert xs[i] in multiset(xs);
    }
  }

  lemma RemoveAt(xs: seq<int>, i: nat)
    requires i < |xs|
    ensures multiset(Without(xs, i)) == multiset(xs) - multiset{xs[i]}
  {
    assert xs == xs[..i] + [xs[i]] + xs[i + 1..];
  }

  lemma ShuffleStep(xs: seq<int>, i: nat, tail: seq<nat>)
    requires i < |xs|
    ensures Shuffle(xs, [i] + tail) == [xs[i]] + Shuffle(Without(xs, i), tail)
  {
    var picks := [i] + tail;
    assert picks[0] == i && picks[1..] == tail;
  }

  /** Every permutation is the outcome of some sequence of picks, so the
      shuffle's outcomes are exactly the permutations. */
  lemma {:induction false} ShuffleReachesEveryPermutation(xs: seq<int>, p: seq<int>) returns (picks: seq<nat>)
    requires multiset(p) == multiset(xs)
    ensures Shuffle(xs, picks) == p
    decreases |xs|
  {
    assert |p| == |multiset(p)| == |multiset(xs)| == |xs|;
    if |xs| == 0 {
      picks := [];
    } else {
      assert p[0] in multiset(xs);
      var i :| 0 <= i < |xs| && xs[i] == p[0];
      RemoveAt(xs, i);
      RemoveAt(p, 0);
      assert Without(p, 0) == p[1..];
      var tail := ShuffleReachesEveryPermutation(Without(xs, i), p[1..]);
      ShuffleStep(xs, i, tail);
      picks := [i] + tail;
    }
  }

  /** `"".join(str(c) for c in cs)` for the team positions 1..n it is applied
      to; a negative element never occurs there and is written as "0". */
  function ConcatDecimal(cs: seq<int>): string {
    if |cs| == 0 then "" else NatToString(if cs[0] >= 0 then cs[0] else 0) + ConcatDecimal(cs[1..])
  }

  const TeamPrefix := "/team "

  /** The team-preview order: `/team ` followed by the positions 1..n of the
      team in shuffled order. */
  function RandomTeamPreview(teamSize: nat, picks: seq<nat>): string {
    TeamPrefix + ConcatDecimal(Shuffle(Positions(teamSize), picks))
  }

  /** `ds` names each of the team positions 1..n exactly once, one digit each. */
  predicate EachPositionOnce(ds: string, n: nat) {
    && |ds| == n
    && (forall i :: 0 <= i < |ds| ==> IsDigit(ds[i]) && 1 <= DigitValue(ds[i]) <= n)
    && (forall d :: 1 <= d <= n && d < 10 ==> DigitChar(d) in ds)
    && (forall i, j :: 0 <= i < j < |ds| ==> ds[i] != ds[j])
  }

  lemma {:induction false} ConcatSingleDigits(cs: seq<int>)
    requires forall i :: 0 <= i < |cs| ==> 1 <= cs[i] <= 9
    ensures |ConcatDecimal(cs)| == |cs|
    ensures forall i :: 0 <= i < |cs| ==> ConcatDecimal(cs)[i] == DigitChar(cs[i])
  {
    if |cs| > 0 {
      ConcatSingleDigits(cs[1..]);
    }
  }

  lemma DigitAppears(cs: seq<int>, d: nat)
    requires forall i :: 0 <= i < |cs| ==> 1 <= cs[i] <= 9
    requires d in cs && d < 10
    ensures DigitChar(d) in ConcatDecimal(cs)
  {
    ConcatSingleDigits(cs);
    var k :| 0 <= k < |cs| && cs[k] == d;
    assert ConcatDecimal(cs)[k] == DigitChar(d);
  }

  lemma {:induction false} PositionsCounts(n: nat, x: int)
    ensures multiset(Positions(n))[x] == if 1 <= x <= n then 1 else 0
  {
    if n > 0 {
      PositionsCounts(n - 1, x);
      var before := Positions(n - 1);
      assert multiset(before + [n]) == multiset(before) + multiset{n};
      assert multiset{n}[x] == if x == n then 1 else 0;
    }
  }

  /** A sequence with the multiset of 1..n holds each of 1..n exactly once. */
  lemma PermutationOfPositions(s: seq<int>, n: nat)
    requires multiset(s) == multiset(Positions(n))
    ensures |s| == n
    ensures forall i :: 0 <= i < |s| ==> 1 <= s[i] <= n
    ensures forall x :: 1 <= x <= n ==> x in s
    ensures forall i, j :: 0 <= i < j < |s| ==> s[i] != s[j]
  {
    assert |s| == |multiset(s)| == |multiset(Positions(n))| == n;
    forall i | 0 <= i < |s| ensures 1 <= s[i] <= n {
      assert s[i] in multiset(s);
      PositionsCounts(n, s[i]);
    }
    forall x | 1 <= x <= n ensures x in s {
      PositionsCounts(n, x);
      assert x in multiset(s);
    }
    forall i, j | 0 <= i < j < |s| ensures s[i] != s[j] {
      if s[i] == s[j] {
        var x := s[i];
        assert s == s[..i] + [x] + s[i + 1..j] + [x] + s[j + 1..];
        assert multiset(s)[x] >= 2;
        PositionsCounts(n, x);
        assert false;
      }
    }
  }

  /** The digits of a permutation of 1..n, for n at most nine. */
  lemma DigitsOfPermutation(perm: seq<int>, n: nat)
    requires n <= 9
    requires multiset(perm) == multiset(Positions(n))
    ensures EachPositionOnce(ConcatDecimal(perm), n)
  {
    PermutationOfPositions(perm, n);
    ConcatSingleDigits(perm);
    var digits := ConcatDecimal(perm);
    forall i | 0 <= i < |digits| ensures IsDigit(digits[i]) && 1 <= DigitValue(digits[i]) <= n {
      assert digits[i] == DigitChar(perm[i]);
    }
    forall d | 1 <= d <= n && d < 10 ensures DigitChar(d) in digits {
      DigitAppears(perm, d);
    }
    forall i, j | 0 <= i < j < |digits| ensures digits[i] != digits[j] {
      assert perm[i] != perm[j];
      assert digits[i] == DigitChar(perm[i]) && digits[j] == DigitChar(perm[j]);
    }
  }

  /** For a team of at most nine, the team-preview order is `/team `
      followed by each of the digits 1..n exactly once, whatever the random
      picks. */
  lemma TeamPreviewIsPermutation(teamSize: nat, picks: seq<nat>)
    requires teamSize <= 9
    ensures
      var order := RandomTeamPreview(teamSize, picks);
      && order[..|TeamPrefix|] == TeamPrefix
      && EachPositionOnce(order[|TeamPrefix|..], teamSize)
  {
    var perm := Shuffle(Positions(teamSize), picks);
    ShufflePermutes(Positions(teamSize), picks);
    DigitsOfPermutation(perm, teamSize);
    var order := TeamPrefix + ConcatDecimal(perm);
    assert order[..|TeamPrefix|] == TeamPrefix && order[|TeamPrefix|..] == ConcatDecimal(perm);
  }
}
