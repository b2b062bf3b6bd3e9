/** The message dispatcher: a protocol line, already split at `|` into tokens
    (the first token is the empty text before the leading bar, the second is
    the message kind), is parsed into a closed union of the kinds this model
    handles and applied to the battle. Kinds the model does not handle are
    ignored. */
module Messages {

  import opened Results
  import opened Text
  import opened Battles

  datatype Message =
    | TeamSize(role: string, size: nat)
    | FieldStartMsg(name: string)
    | FieldEndMsg(name: string)
    | WeatherMsg(name: string)
    | SideStartMsg(side: string, condition: string)
    | SideEndMsg(side: string, condition: string)
    | Ignored

  /** Kinds the dispatcher routes to a handler. */
  const HandledKinds: set<string> := {"teamsize", "-fieldstart", "-fieldend", "-weather", "-sidestart", "-sideend"}

  /** The number of tokens each handled kind reads. */
  function Arity(kind: string): nat {
    if kind in {"teamsize", "-sidestart", "-sideend"} then 4 else 3
  }

  function ParseMessage(tokens: seq<string>): (r: Result<Message, BattleError>)
    ensures |tokens| >= 2 && tokens[1] !in HandledKinds ==> r == Success(Ignored)
    ensures |tokens| < 2 ==> r.Failure?
    ensures |tokens| >= 2 && tokens[1] in HandledKinds && |tokens| < Arity(tokens[1]) ==> r.Failure?
    ensures r.Success? && r.value.TeamSize? ==> |tokens| >= 4 && ParseNat(tokens[3]) == Some(r.value.size)
    // a `teamsize` line carries its role and its decimal size, and fails without one
    ensures |tokens| >= 4 && tokens[1] == "teamsize" ==>
      match ParseNat(tokens[3])
      case Some(n) => r == Success(TeamSize(tokens[2], n))
      case None => r.Failure?
  {
    if |tokens| < 2 then Failure(MalformedMessage)
    else
      var kind := tokens[1];
      if kind !in HandledKinds then Success(Ignored)
      else if |tokens| < Arity(kind) then Failure(MalformedMessage)
      else if kind == "teamsize" then
        match ParseNat(tokens[3])
        case Some(n) => Success(TeamSize(tokens[2], n))
        case None => Failure(MalformedMessage)
      else if kind == "-fieldstart" then Success(FieldStartMsg(tokens[2]))
      else if kind == "-fieldend" then Success(FieldEndMsg(tokens[2]))
      else if kind == "-weather" then Success(WeatherMsg(tokens[2]))
      else if kind == "-sidestart" then Success(SideStartMsg(tokens[2], tokens[3]))
      else Success(SideEndMsg(tokens[2], tokens[3]))
  }

  function Apply(b: Battle, msg: Message): Result<Battle, BattleError> {
    match msg
    case TeamSize(role, size) => Success(RecordTeamSize(b, role, size))
    case FieldStartMsg(name) => Success(FieldStart(b, name))
    case FieldEndMsg(name) => FieldEnd(b, name)
    case WeatherMsg(name) => Success(SetWeather(b, name))
    case SideStartMsg(side, condition) => Success(SideStart(b, side, condition))
    case SideEndMsg(side, condition) => SideEnd(b, side, condition)
    case Ignored => Success(b)
  }

  /** One protocol line applied to the battle. */
  function Ingest(b: Battle, tokens: seq<string>): (r: Result<Battle, BattleError>)
    // no handled message touches the teams
    ensures r.Success? ==> r.value.team == b.team && r.value.opponentTeam == b.opponentTeam
    ensures r.Success? && Valid(b) ==> Valid(r.value)
    ensures |tokens| >= 2 && tokens[1] !in HandledKinds ==> r == Success(b)
  {
    var msg :- ParseMessage(tokens);
    Apply(b, msg)
  }

  /** Lines applied in order; the first failing line aborts. */
  function IngestAll(b: Battle, lines: seq<seq<string>>): (r: Result<Battle, BattleError>)
    ensures r.Success? ==> r.value.team == b.team && r.value.opponentTeam == b.opponentTeam
    decreases |lines|
  {
    if |lines| == 0 then Success(b)
    else
      var b' :- Ingest(b, lines[0]);
      IngestAll(b', lines[1..])
  }

  /** Each handled kind reaches its own handler with the line's arguments. */
  lemma DispatchRoutes(b: Battle, arg: string, condition: string, n: nat)
    ensures Ingest(b, ["", "teamsize", arg, NatToString(n)]) == Success(RecordTeamSize(b, arg, n))
    ensures Ingest(b, ["", "-fieldstart", arg]) == Success(FieldStart(b, arg))
    ensures Ingest(b, ["", "-fieldend", arg]) == FieldEnd(b, arg)
    ensures Ingest(b, ["", "-weather", arg]) == Success(SetWeather(b, arg))
    ensures Ingest(b, ["", "-sidestart", arg, condition]) == Success(SideStart(b, arg, condition))
    ensures Ingest(b, ["", "-sideend", arg, condition]) == SideEnd(b, arg, condition)
  {
    ParseNatRoundTrip(n);
  }

  // ------------------------------------------------------------ scenarios

  /** Two distinct fields started and ended one at a time, as in the battle
      tests with "Electric terrain" and "Trick room": each start adds exactly
      its field, each end removes exactly its field, and ending an ended
      field, or one never started, fails. */
  lemma FieldScenario(b0: Battle, first: string, second: string, other: string)
    requires b0.fields == {}
    requires EnumName(first) != EnumName(second)
    ensures
      var b1 := FieldStart(b0, first);
      && b1.fields == {EnumName(first)}
      && var b2 := FieldStart(b1, second);
      && b2.fields == {EnumName(first), EnumName(second)}
      && var b3 := FieldEnd(b2, second);
      && b3.Success? && b3.value.fields == {EnumName(first)}
      && var b4 := FieldEnd(b3.value, first);
      && b4.Success? && b4.value.fields == {}
      && FieldEnd(b4.value, first).Failure?
      && FieldEnd(b4.value, other).Failure?
  {
    var f, g := EnumName(first), EnumName(second);
    assert {f, g} - {g} == {f};
  }

  /** The battle tests' field lines as one protocol stream: after starting
      two distinct fields and ending both, no field is active again, and the
      same end line once more aborts the stream. */
  lemma {:induction false} FieldLinesScenario(b0: Battle, first: string, second: string)
    requires b0.fields == {}
    requires EnumName(first) != EnumName(second)
    ensures
      var lines := [["", "-fieldstart", first], ["", "-fieldstart", second],
                    ["", "-fieldend", second], ["", "-fieldend", first]];
      && IngestAll(b0, lines) == Success(b0)
      && IngestAll(b0, lines + [["", "-fieldend", first]]).Failure?
  {
    var l1, l2, l3, l4 := ["", "-fieldstart", first], ["", "-fieldstart", second],
                          ["", "-fieldend", second], ["", "-fieldend", first];
    var b1 := FieldStart(b0, first);
    var b2 := FieldStart(b1, second);
    FieldLineSteps(b0, first, second);
    StepLines(b0, b1, l1, [l2, l3, l4]);
    StepLines(b1, b2, l2, [l3, l4]);
    StepLines(b2, b1, l3, [l4]);
    StepLines(b1, b0, l4, []);
    assert [l1, l2, l3, l4] + [l4] == [l1, l2, l3, l4, l4];
    StepLines(b0, b1, l1, [l2, l3, l4, l4]);
    StepLines(b1, b2, l2, [l3, l4, l4]);
    StepLines(b2, b1, l3, [l4, l4]);
    StepLines(b1, b0, l4, [l4]);
  }

  /** Each of the field lines, applied on its own. */
  lemma FieldLineSteps(b0: Battle, first: string, second: string)
    requires b0.fields == {}
    requires EnumName(first) != EnumName(second)
    ensures
      var b1 := FieldStart(b0, first);
      var b2 := FieldStart(b1, second);
      && Ingest(b0, ["", "-fieldstart", first]) == Success(b1)
      && Ingest(b1, ["", "-fieldstart", second]) == Success(b2)
      && Ingest(b2, ["", "-fieldend", second]) == Success(b1)
      && Ingest(b1, ["", "-fieldend", first]) == Success(b0)
      && Ingest(b0, ["", "-fieldend", first]).Failure?
  {
    var f, g := EnumName(first), EnumName(second);
    assert {f, g} - {g} == {f};
  }

  /** A stream whose first line succeeds continues from that line's battle. */
  lemma StepLines(b: Battle, b': Battle, line: seq<string>, rest: seq<seq<string>>)
    requires Ingest(b, line) == Success(b')
    ensures IngestAll(b, [line] + rest) == IngestAll(b', rest)
  {
    assert ([line] + rest)[1..] == rest;
  }

  /** The weather follows each named weather and "none" clears it, as in the
      battle tests' sequence desolateland, hail, none. */
  lemma WeatherScenario(b0: Battle, first: string, second: string)
    requires b0.weather == None
    requires first != "none" && second != "none"
    ensures
      var b1 := Ingest(b0, ["", "-weather", first]);
      && b1.Success? && b1.value.weather == Some(EnumName(first))
      && var b2 := Ingest(b1.value, ["", "-weather", second]);
      && b2.Success? && b2.value.weather == Some(EnumName(second))
      && var b3 := Ingest(b2.value, ["", "-weather", "none"]);
      && b3.Success? && b3.value.weather == None
  {
    DispatchRoutes(b0, first, "", 0);
    DispatchRoutes(SetWeather(b0, first), second, "", 0);
    DispatchRoutes(SetWeather(SetWeather(b0, first), second), "none", "", 0);
  }

  /** A condition started on the client's side and on the other side lands in
      each side's set; ending both empties them; ending again fails on either
      side. */
  lemma SideScenario(b0: Battle, own: string, other: string, condition: string)
    requires |own| == 2 && |other| == 2 && own != other
    requires b0.playerRole == Some(own)
    requires b0.sideConditions == {} && b0.opponentSideConditions == {}
    ensures
      var c := EnumName(condition);
      var b1 := SideStart(SideStart(b0, own, condition), other, condition);
      && b1.sideConditions == {c} && b1.opponentSideConditions == {c}
      && var b2 := SideEnd(b1, own, condition);
      && b2.Success?
      && var b3 := SideEnd(b2.value, other, condition);
      && b3.Success? && b3.value.sideConditions == {} && b3.value.opponentSideConditions == {}
      && SideEnd(b3.value, own, condition).Failure?
      && SideEnd(b3.value, other, condition).Failure?
  {
    assert own[..2] == own && other[..2] == other;
  }
}
